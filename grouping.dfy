/** `groupby(key)` over (key, value) pairs: the keys in ascending order, each
    once, and the values of each group in row order. Rows whose key is missing
    never reach a pair (pandas drops NA keys by default). */
module Grouping {
  import opened Stats

  /** (key, value) pairs in row order. */
  type Keyed = seq<(real, real)>

  ghost predicate Increasing(ks: seq<real>)
  {
    forall i, j :: 0 <= i < j < |ks| ==> ks[i] < ks[j]
  }

  function KeySet(ps: Keyed): set<real>
  {
    if ps == [] then {} else {ps[0].0} + KeySet(ps[1..])
  }

  /** All values, in row order. */
  function Values(ps: Keyed): (vs: seq<real>)
    ensures |vs| == |ps|
  {
    if ps == [] then [] else [ps[0].1] + Values(ps[1..])
  }

  function Insert(ks: seq<real>, k: real): (r: seq<real>)
    requires Increasing(ks)
    ensures Increasing(r)
    ensures forall x :: x in r <==> x in ks || x == k
  {
    if ks == [] then [k]
    else if k < ks[0] then [k] + ks
    else if k == ks[0] then ks
    else
      var rest := Insert(ks[1..], k);
      KeyBelow(ks[0], ks[1..], k, rest);
      [ks[0]] + rest
  }

  /** A key below every key of ks and below k stays first after inserting k. */
  lemma KeyBelow(b: real, ks: seq<real>, k: real, r: seq<real>)
    requires Increasing(r) && forall x :: x in r <==> x in ks || x == k
    requires forall i :: 0 <= i < |ks| ==> b < ks[i]
    requires b < k
    ensures Increasing([b] + r)
  {
    forall i | 0 <= i < |r| ensures b < r[i] {
      assert r[i] in r;
    }
  }

  /** The group keys: ascending, each once, exactly the keys that occur. */
  function Keys(ps: Keyed): (ks: seq<real>)
    ensures Increasing(ks)
    ensures forall x :: x in ks <==> x in KeySet(ps)
  {
    if ps == [] then [] else Insert(Keys(ps[1..]), ps[0].0)
  }

  /** The values of the group with key k, in row order; non-empty exactly when
      k occurs. */
  function ValuesOf(ps: Keyed, k: real): (vs: seq<real>)
    ensures |vs| > 0 <==> k in KeySet(ps)
    ensures |vs| <= |ps|
  {
    if ps == [] then []
    else (if ps[0].0 == k then [ps[0].1] else []) + ValuesOf(ps[1..], k)
  }

  /** Concatenating two tables concatenates each of their groups. */
  lemma {:induction false} ValuesOfConcat(a: Keyed, b: Keyed, k: real)
    ensures ValuesOf(a + b, k) == ValuesOf(a, k) + ValuesOf(b, k)
  {
    if a == [] {
      assert a + b == b;
    } else {
      assert (a + b)[1..] == a[1..] + b;
      ValuesOfConcat(a[1..], b, k);
    }
  }

  lemma {:induction false} KeySetConcat(a: Keyed, b: Keyed)
    ensures KeySet(a + b) == KeySet(a) + KeySet(b)
  {
    if a == [] {
      assert a + b == b;
    } else {
      assert (a + b)[1..] == a[1..] + b;
      KeySetConcat(a[1..], b);
    }
  }

  /** The sum of each group named in ks, in the order of ks. */
  function GroupSums(ps: Keyed, ks: seq<real>): (r: seq<real>)
    ensures |r| == |ks|
  {
    if ks == [] then [] else [Sum(ValuesOf(ps, ks[0]))] + GroupSums(ps, ks[1..])
  }

  lemma {:induction false} GroupSumsAt(ps: Keyed, ks: seq<real>, j: nat)
    requires j < |ks|
    ensures GroupSums(ps, ks)[j] == Sum(ValuesOf(ps, ks[j]))
  {
    if j > 0 {
      GroupSumsAt(ps, ks[1..], j - 1);
    }
  }

  lemma {:induction false} GroupSumsOfNothing(ks: seq<real>)
    ensures Sum(GroupSums([], ks)) == 0.0
  {
    if ks != [] {
      GroupSumsOfNothing(ks[1..]);
    }
  }

  /** Putting one more row in front adds its value to the one group it joins. */
  lemma {:induction false} GroupSumsFront(p: (real, real), rest: Keyed, ks: seq<real>)
    requires Increasing(ks)
    ensures Sum(GroupSums([p] + rest, ks)) == (if p.0 in ks then p.1 else 0.0) + Sum(GroupSums(rest, ks))
  {
    if ks != [] {
      var ps := [p] + rest;
      assert ps[1..] == rest;
      var head := if ps[0].0 == ks[0] then [ps[0].1] else [];
      assert ValuesOf(ps, ks[0]) == head + ValuesOf(rest, ks[0]);
      SumConcat(head, ValuesOf(rest, ks[0]));
      GroupSumsFront(p, rest, ks[1..]);
      assert p.0 in ks[1..] <==> p.0 in ks && p.0 != ks[0] by {
        if p.0 == ks[0] {
          assert forall i :: 0 < i < |ks| ==> ks[i] > ks[0];
        }
      }
    }
  }

  /** Grouping loses and duplicates nothing: once every key is named exactly
      once, the group sums add up to the sum of all values. */
  lemma {:induction false} GroupSumsAddUp(ps: Keyed, ks: seq<real>)
    requires Increasing(ks)
    requires forall x :: x in KeySet(ps) ==> x in ks
    ensures Sum(GroupSums(ps, ks)) == Sum(Values(ps))
  {
    if ps == [] {
      GroupSumsOfNothing(ks);
    } else {
      assert ps == [ps[0]] + ps[1..];
      GroupSumsFront(ps[0], ps[1..], ks);
      GroupSumsAddUp(ps[1..], ks);
    }
  }
}
