/** `pd.concat` of a list of tables: their lines one after the other. */
module Seqs {

  function Flatten<T>(ts: seq<seq<T>>): (r: seq<T>)
  {
    if ts == [] then [] else Flatten(ts[..|ts| - 1]) + ts[|ts| - 1]
  }

  lemma {:induction false} FlattenConcat<T>(a: seq<seq<T>>, b: seq<seq<T>>)
    ensures Flatten(a + b) == Flatten(a) + Flatten(b)
  {
    if b == [] {
      assert a + b == a;
    } else {
      var b0, last := b[..|b| - 1], b[|b| - 1];
      assert (a + b)[..|a + b| - 1] == a + b0;
      assert (a + b)[|a + b| - 1] == last;
      FlattenConcat(a, b0);
    }
  }

  lemma FlattenSnoc<T>(ts: seq<seq<T>>, x: seq<T>)
    ensures Flatten(ts + [x]) == Flatten(ts) + x
  {
    assert (ts + [x])[..|ts|] == ts;
  }

  /** An empty table in the list adds nothing. */
  lemma FlattenSkipsEmpty<T>(a: seq<seq<T>>, b: seq<seq<T>>)
    ensures Flatten(a + [[]] + b) == Flatten(a + b)
  {
    FlattenConcat(a + [[]], b);
    FlattenConcat(a, [[]]);
    FlattenConcat(a, b);
    assert Flatten([[]]) == Flatten<T>([]) + [];
  }

  /** The concatenation is empty exactly when every table is. */
  lemma {:induction false} FlattenEmpty<T>(ts: seq<seq<T>>)
    ensures Flatten(ts) == [] <==> forall i :: 0 <= i < |ts| ==> ts[i] == []
  {
    if ts != [] {
      var t0 := ts[..|ts| - 1];
      FlattenEmpty(t0);
      assert forall i :: 0 <= i < |t0| ==> t0[i] == ts[i];
    }
  }

  /** The same step applied to every element, in order. */
  function Map<A, B>(f: A -> B, s: seq<A>): (r: seq<B>)
    ensures |r| == |s|
    ensures forall i :: 0 <= i < |s| ==> r[i] == f(s[i])
  {
    seq(|s|, i requires 0 <= i < |s| => f(s[i]))
  }

  lemma MapConcat<A, B>(f: A -> B, a: seq<A>, b: seq<A>)
    ensures Map(f, a + b) == Map(f, a) + Map(f, b)
  {
    var l, r := Map(f, a + b), Map(f, a) + Map(f, b);
    forall i | 0 <= i < |a + b| ensures l[i] == r[i] {
      if i < |a| {
        assert (a + b)[i] == a[i];
      } else {
        assert (a + b)[i] == b[i - |a|];
      }
    }
  }

  /** One more element adds its image at the end of the flattened map. */
  lemma FlattenMapSnoc<A, B>(f: A -> seq<B>, s: seq<A>, i: nat)
    requires i < |s|
    ensures Flatten(Map(f, s[..i + 1])) == Flatten(Map(f, s[..i])) + f(s[i])
  {
    assert s[..i + 1] == s[..i] + [s[i]];
    MapConcat(f, s[..i], [s[i]]);
    assert Map(f, [s[i]]) == [f(s[i])];
    FlattenSnoc(Map(f, s[..i]), f(s[i]));
  }

  /** The first element of a sequence can be found in any rearrangement of
      it; taking it out of both leaves rearrangements of each other. */
  lemma PickOut<T>(a: seq<T>, b: seq<T>) returns (j: nat)
    requires a != [] && multiset(a) == multiset(b)
    ensures j < |b| && b[j] == a[0]
    ensures b == b[..j] + [b[j]] + b[j + 1..]
    ensures a == [a[0]] + a[1..]
    ensures multiset(a[1..]) == multiset(b[..j] + b[j + 1..])
  {
    assert a[0] in multiset(b);
    j :| 0 <= j < |b| && b[j] == a[0];
    assert b == b[..j] + [b[j]] + b[j + 1..];
    assert a == [a[0]] + a[1..];
    assert multiset(b) == multiset(b[..j] + b[j + 1..]) + multiset{b[j]};
    assert multiset(a) == multiset(a[1..]) + multiset{a[0]};
    assert multiset(a[1..]) == multiset(a) - multiset{a[0]};
  }
}
