/** Descriptive statistics over exact reals, the way pandas computes them on a
    column without missing values: sum, mean, median, first arg-min/arg-max
    (`idxmin`/`idxmax`) and the mean of consecutive differences. */
module Stats {
  import opened Wrappers
  import opened Seqs

  function Sum(s: seq<real>): real
  {
    if s == [] then 0.0 else s[0] + Sum(s[1..])
  }

  lemma {:induction false} SumConcat(a: seq<real>, b: seq<real>)
    ensures Sum(a + b) == Sum(a) + Sum(b)
  {
    if a == [] {
      assert a + b == b;
    } else {
      assert (a + b)[1..] == a[1..] + b;
      SumConcat(a[1..], b);
    }
  }

  /** Sum of the last element split off: the form the loops accumulate in. */
  lemma SumSnoc(a: seq<real>, x: real)
    ensures Sum(a + [x]) == Sum(a) + x
  {
    SumConcat(a, [x]);
    assert Sum([x]) == x + Sum([]);
  }

  /** The sum does not depend on the order of the values. */
  lemma {:induction false} SumPermutation(a: seq<real>, b: seq<real>)
    requires multiset(a) == multiset(b)
    ensures Sum(a) == Sum(b)
    decreases |a|
  {
    if a == [] {
      assert |b| == |multiset(b)| == 0;
    } else {
      var j := PickOut(a, b);
      var front, back := b[..j], b[j + 1..];
      SumPermutation(a[1..], front + back);
      SumConcat(front + [b[j]], back);
      SumConcat(front, [b[j]]);
      SumConcat(front, back);
      SumConcat([a[0]], a[1..]);
    }
  }

  /** pandas `mean` of a non-empty group. */
  function Mean(s: seq<real>): real
    requires |s| > 0
  {
    Sum(s) / (|s| as real)
  }

  /** The mean is the value whose |s|-fold is the sum. */
  lemma MeanTimesCount(s: seq<real>)
    requires |s| > 0
    ensures Mean(s) * (|s| as real) == Sum(s)
  {
  }

  /** Values between lo and hi add up to between |s| * lo and |s| * hi. */
  lemma {:induction false} SumWithin(s: seq<real>, lo: real, hi: real)
    requires forall i :: 0 <= i < |s| ==> lo <= s[i] <= hi
    ensures lo * (|s| as real) <= Sum(s) <= hi * (|s| as real)
  {
    if s != [] {
      SumWithin(s[1..], lo, hi);
      var n := (|s| - 1) as real;
      assert lo * (n + 1.0) == lo * n + lo;
      assert hi * (n + 1.0) == hi * n + hi;
    }
  }

  /** The mean of values between lo and hi is between lo and hi. */
  lemma MeanWithin(s: seq<real>, lo: real, hi: real)
    requires |s| > 0
    requires forall i :: 0 <= i < |s| ==> lo <= s[i] <= hi
    ensures lo <= Mean(s) <= hi
  {
    SumWithin(s, lo, hi);
    var n := |s| as real;
    MeanTimesCount(s);
    ScaleKeepsOrder(Mean(s), lo, n);
    ScaleKeepsOrder(hi, Mean(s), n);
  }

  lemma ScaleKeepsOrder(a: real, b: real, n: real)
    requires n > 0.0
    ensures a < b ==> a * n < b * n
  {
  }

  ghost predicate Sorted(s: seq<real>)
  {
    forall i, j :: 0 <= i < j < |s| ==> s[i] <= s[j]
  }

  function InsertSorted(t: seq<real>, x: real): (r: seq<real>)
    requires Sorted(t)
    ensures |r| == |t| + 1
    ensures Sorted(r)
    ensures multiset(r) == multiset(t) + multiset{x}
  {
    if t == [] then [x]
    else if x <= t[0] then [x] + t
    else
      var rest := InsertSorted(t[1..], x);
      assert t == [t[0]] + t[1..];
      LowerBound(t[0], t[1..], x, rest);
      [t[0]] + rest
  }

  /** A value below every element of t and below x is below every element of
      t with x inserted. */
  lemma LowerBound(b: real, t: seq<real>, x: real, r: seq<real>)
    requires Sorted(r) && multiset(r) == multiset(t) + multiset{x}
    requires forall k :: 0 <= k < |t| ==> b <= t[k]
    requires b <= x
    ensures Sorted([b] + r)
  {
    forall k | 0 <= k < |r| ensures b <= r[k] {
      assert r[k] in multiset(r);
      if r[k] != x {
        assert r[k] in multiset(t);
      }
    }
  }

  /** Insertion sort; pandas sorts a group before taking its median. */
  function Sort(s: seq<real>): (r: seq<real>)
    ensures |r| == |s|
    ensures Sorted(r)
    ensures multiset(r) == multiset(s)
  {
    if s == [] then []
    else
      assert s == [s[0]] + s[1..];
      InsertSorted(Sort(s[1..]), s[0])
  }

  /** pandas `median`: the middle value of the sorted group for an odd count,
      the mean of the two middle values for an even count. */
  function Median(s: seq<real>): real
    requires |s| > 0
  {
    Middle(Sort(s))
  }

  function Middle(t: seq<real>): real
    requires |t| > 0
  {
    var n := |t|;
    if n % 2 == 1 then t[n / 2] else (t[n / 2 - 1] + t[n / 2]) / 2.0
  }

  /** Two sorted sequences holding the same values are the same sequence. */
  lemma {:induction false} SortedUnique(a: seq<real>, b: seq<real>)
    requires Sorted(a) && Sorted(b)
    requires multiset(a) == multiset(b)
    ensures a == b
  {
    assert |a| == |multiset(a)| == |multiset(b)| == |b|;
    if |a| > 0 {
      HeadsAgree(a, b);
      SortedUnique(a[1..], b[1..]);
      assert a == [a[0]] + a[1..] && b == [b[0]] + b[1..];
    }
  }

  /** Two non-empty sorted sequences with the same values start alike, and
      their tails are sorted and hold the same values. */
  lemma HeadsAgree(a: seq<real>, b: seq<real>)
    requires Sorted(a) && Sorted(b)
    requires multiset(a) == multiset(b) && |a| > 0 && |b| > 0
    ensures a[0] == b[0]
    ensures Sorted(a[1..]) && Sorted(b[1..]) && multiset(a[1..]) == multiset(b[1..])
  {
    assert a[0] in multiset(b) && b[0] in multiset(a);
    SortedHeadIsLeast(a, b[0]);
    SortedHeadIsLeast(b, a[0]);
    TailMultiset(a);
    TailMultiset(b);
    SortedTail(a);
    SortedTail(b);
  }

  lemma TailMultiset(a: seq<real>)
    requires |a| > 0
    ensures multiset(a[1..]) == multiset(a) - multiset{a[0]}
  {
    assert a == [a[0]] + a[1..];
  }

  lemma SortedTail(a: seq<real>)
    requires |a| > 0 && Sorted(a)
    ensures Sorted(a[1..])
  {
  }

  /** The first element of a sorted sequence is its least. */
  lemma SortedHeadIsLeast(a: seq<real>, x: real)
    requires Sorted(a) && x in multiset(a)
    ensures |a| > 0 && a[0] <= x
  {
    var k :| 0 <= k < |a| && a[k] == x;
  }

  /** The median does not depend on the order of the values: a pooled group
      gives the same median whichever file its values came from first. */
  lemma MedianOrderIndependent(s: seq<real>, t: seq<real>)
    requires |s| > 0
    requires multiset(s) == multiset(t)
    ensures |t| > 0 && Median(s) == Median(t)
  {
    assert |s| == |multiset(s)| == |multiset(t)| == |t|;
    SortedUnique(Sort(s), Sort(t));
  }

  /** The median lies between the smallest and the largest value of the group. */
  lemma MedianBounds(s: seq<real>)
    requires |s| > 0
    ensures exists i :: 0 <= i < |s| && s[i] <= Median(s)
    ensures exists j :: 0 <= j < |s| && Median(s) <= s[j]
  {
    var t := Sort(s);
    assert |t| == |multiset(t)| == |multiset(s)| == |s|;
    var n := |t|;
    assert t[0] in multiset(s) && t[n - 1] in multiset(s);
    var i :| 0 <= i < |s| && s[i] == t[0];
    var j :| 0 <= j < |s| && s[j] == t[n - 1];
    MiddleBounds(t);
    assert Median(s) == Middle(t);
  }

  lemma MiddleBounds(t: seq<real>)
    requires |t| > 0 && Sorted(t)
    ensures t[0] <= Middle(t) <= t[|t| - 1]
  {
    var n := |t|;
    if n % 2 == 1 {
      assert t[0] <= t[n / 2] <= t[n - 1];
    } else {
      assert t[0] <= t[n / 2 - 1] <= t[n / 2] <= t[n - 1];
    }
  }

  /** Values 2, 4, 6 give total 12, mean 4
      and median 4. */
  lemma ThreeValueExample()
    ensures Sum([2.0, 4.0, 6.0]) == 12.0
    ensures Mean([2.0, 4.0, 6.0]) == 4.0
    ensures Median([2.0, 4.0, 6.0]) == 4.0
  {
    var s := [2.0, 4.0, 6.0];
    assert s[1..] == [4.0, 6.0] && s[1..][1..] == [6.0];
    assert Sum(s) == 12.0;
    assert Mean(s) == 12.0 / 3.0;
    MedianOfThree(s);
  }

  /** The median of three ordered values is the middle one. */
  lemma MedianOfThree(t: seq<real>)
    requires |t| == 3 && t[0] <= t[1] <= t[2]
    ensures Median(t) == t[1]
  {
    assert Sorted(t);
    MedianOfSorted(t);
  }

  /** Two values: their sum and their mean. */
  lemma PairSum(x: real, y: real)
    ensures Sum([x, y]) == x + y
    ensures Mean([x, y]) == (x + y) / 2.0
  {
    assert [x, y][1..] == [y] && [y][1..] == [];
    assert Sum([y]) == y;
  }

  /** The median of two ordered values is their mean. */
  lemma PairMedian(x: real, y: real)
    requires x <= y
    ensures Median([x, y]) == (x + y) / 2.0
  {
    var t := [x, y];
    assert Sorted(t);
    MedianOfSorted(t);
    assert |t| == 2 && Middle(t) == (t[0] + t[1]) / 2.0;
  }

  /** A group that is already sorted has its median at the middle. */
  lemma MedianOfSorted(t: seq<real>)
    requires |t| > 0 && Sorted(t)
    ensures Median(t) == Middle(t)
  {
    var s := Sort(t);
    SortedUnique(s, t);
    assert Median(t) == Middle(s);
  }

  /** `idxmin`: the first index holding the smallest value. */
  function FirstArgMin(s: seq<real>): (k: nat)
    requires |s| > 0
    ensures k < |s|
    ensures forall j :: 0 <= j < |s| ==> s[k] <= s[j]
    ensures forall j :: 0 <= j < k ==> s[j] > s[k]
  {
    if |s| == 1 then 0
    else
      var k := FirstArgMin(s[..|s| - 1]);
      if s[|s| - 1] < s[k] then |s| - 1 else k
  }

  /** `idxmax`: the first index holding the largest value. */
  function FirstArgMax(s: seq<real>): (k: nat)
    requires |s| > 0
    ensures k < |s|
    ensures forall j :: 0 <= j < |s| ==> s[j] <= s[k]
    ensures forall j :: 0 <= j < k ==> s[j] < s[k]
  {
    if |s| == 1 then 0
    else
      var k := FirstArgMax(s[..|s| - 1]);
      if s[|s| - 1] > s[k] then |s| - 1 else k
  }

  /** When every value is equal, `idxmin` and `idxmax` both pick the first. */
  lemma {:induction false} TiesPickFirst(s: seq<real>)
    requires |s| > 0
    requires forall j :: 0 <= j < |s| ==> s[j] == s[0]
    ensures FirstArgMin(s) == 0 && FirstArgMax(s) == 0
  {
  }

  /** `diff()`: the differences between consecutive values (the leading NaN
      that pandas puts first is not part of the sequence). */
  function Diffs(s: seq<real>): (d: seq<real>)
    ensures |d| == if |s| == 0 then 0 else |s| - 1
  {
    if |s| < 2 then [] else [s[1] - s[0]] + Diffs(s[1..])
  }

  /** The differences telescope: they add up to last minus first. */
  lemma {:induction false} DiffsTelescope(s: seq<real>)
    requires |s| > 0
    ensures Sum(Diffs(s)) == s[|s| - 1] - s[0]
  {
    if |s| >= 2 {
      DiffsTelescope(s[1..]);
    }
  }

  /** `diff().mean()`: NaN (None) below two values. */
  function DiffMean(s: seq<real>): Option<real>
  {
    if |s| < 2 then None else Some(Mean(Diffs(s)))
  }

  /** The mean of consecutive differences is (last - first) / (n - 1). */
  lemma DiffMeanIsSlope(s: seq<real>)
    ensures |s| < 2 <==> DiffMean(s).None?
    ensures |s| >= 2 ==> DiffMean(s) == Some((s[|s| - 1] - s[0]) / ((|s| - 1) as real))
  {
    if |s| >= 2 {
      DiffsTelescope(s);
    }
  }
}
