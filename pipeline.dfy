/** The read/clean/reshape/aggregate sequence that dades2.py, E2/E02.py and
    dadesprova.py each write out: melt the day columns into one row per
    (row, day slot), drop missing and non-numeric slots, group by year and
    take sum, mean and median; then variation rate and extreme years. */
module Pipeline {
  import opened Wrappers
  import opened Stats
  import opened Grouping
  import opened Frame

  /** `pd.to_numeric(errors='coerce')` on one string: a number, or None. */
  type Converter = string -> Option<real>

  /** One row of `df.melt(id_vars=[id, year, month], var_name='day')`. */
  datatype Melt = Melt(id: Cell, year: Cell, month: Cell, day: nat, value: Cell)

  /** One kept per-day observation (day k stands for the label `day_k`). */
  datatype Obs = Obs(id: Cell, year: Cell, month: Cell, day: nat, precipitation: real)

  function MeltOf(f: Frame, i: nat, k: nat): Melt
    requires i < |f| && 1 <= k <= Days
  {
    Melt(f[i][IdCol], f[i][YearCol], f[i][MonthCol], k, f[i][DayCol(k)])
  }

  /** The block that column day_k contributes: every row, in row order. */
  function DayBlock(f: Frame, k: nat): (b: seq<Melt>)
    requires 1 <= k <= Days
    ensures |b| == |f|
    ensures forall i :: 0 <= i < |f| ==> b[i] == MeltOf(f, i, k)
  {
    seq(|f|, i requires 0 <= i < |f| => MeltOf(f, i, k))
  }

  /** The blocks of day_k .. day_31, one after the other. */
  function MeltFrom(f: Frame, k: nat): (r: seq<Melt>)
    requires 1 <= k <= Days + 1
    decreases Days + 1 - k
  {
    if k > Days then [] else DayBlock(f, k) + MeltFrom(f, k + 1)
  }

  /** `melt` lists column day_1 for all rows, then day_2 for all rows, ... */
  function Melted(f: Frame): seq<Melt>
  {
    MeltFrom(f, 1)
  }

  /** d blocks of n lines: the offset of block d in the melt. */
  function Offset(d: nat, n: nat): nat
  {
    if d == 0 then 0 else n + Offset(d - 1, n)
  }

  lemma {:induction false} OffsetIsProduct(d: nat, n: nat)
    ensures Offset(d, n) == d * n
  {
    if d > 0 {
      OffsetIsProduct(d - 1, n);
      assert d * n == n + (d - 1) * n;
    }
  }

  lemma {:induction false} MeltFromLength(f: Frame, k: nat)
    requires 1 <= k <= Days + 1
    ensures |MeltFrom(f, k)| == Offset(Days + 1 - k, |f|)
    decreases Days + 1 - k
  {
    if k <= Days {
      MeltFromLength(f, k + 1);
    }
  }

  lemma {:induction false} MeltFromAt(f: Frame, k0: nat, k: nat, i: nat)
    requires 1 <= k0 <= k <= Days && i < |f|
    ensures Offset(k - k0, |f|) + i < |MeltFrom(f, k0)|
    ensures MeltFrom(f, k0)[Offset(k - k0, |f|) + i] == MeltOf(f, i, k)
    decreases k - k0
  {
    var block, rest := DayBlock(f, k0), MeltFrom(f, k0 + 1);
    assert MeltFrom(f, k0) == block + rest;
    if k == k0 {
      assert Offset(k - k0, |f|) == 0;
      assert (block + rest)[i] == block[i] == MeltOf(f, i, k);
    } else {
      MeltFromAt(f, k0 + 1, k, i);
      var x := Offset(k - (k0 + 1), |f|) + i;
      assert Offset(k - k0, |f|) + i == |f| + x;
      assert (block + rest)[|f| + x] == rest[x];
    }
  }

  /** The melt has 31 lines per row, and row i's slot day_k sits at position
      (k - 1) * rows + i. */
  lemma MeltedAt(f: Frame, k: nat, i: nat)
    requires 1 <= k <= Days && i < |f|
    ensures |Melted(f)| == Days * |f|
    ensures 0 <= (k - 1) * |f|
    ensures var p := (k - 1) * |f| + i; p < |Melted(f)| && Melted(f)[p] == MeltOf(f, i, k)
  {
    MeltFromAt(f, 1, k, i);
    MeltFromLength(f, 1);
    OffsetIsProduct(k - 1, |f|);
    OffsetIsProduct(Days, |f|);
  }

  lemma {:induction false} MeltFromHas(f: Frame, k0: nat, i: nat, k: nat)
    requires 1 <= k0 <= k <= Days && i < |f|
    ensures MeltOf(f, i, k) in MeltFrom(f, k0)
    decreases k - k0
  {
    var block, rest := DayBlock(f, k0), MeltFrom(f, k0 + 1);
    assert MeltFrom(f, k0) == block + rest;
    if k == k0 {
      assert block[i] == MeltOf(f, i, k);
    } else {
      MeltFromHas(f, k0 + 1, i, k);
    }
  }

  lemma {:induction false} MeltFromMember(f: Frame, k0: nat, m: Melt)
    requires 1 <= k0 <= Days + 1 && m in MeltFrom(f, k0)
    ensures exists i, k :: 0 <= i < |f| && k0 <= k <= Days && m == MeltOf(f, i, k)
    decreases Days + 1 - k0
  {
    var block, rest := DayBlock(f, k0), MeltFrom(f, k0 + 1);
    assert MeltFrom(f, k0) == block + rest;
    if m in block {
      var i :| 0 <= i < |f| && block[i] == m;
    } else {
      MeltFromMember(f, k0 + 1, m);
    }
  }

  /** Every (row, day slot) pair is in the melt. */
  lemma MeltedHas(f: Frame, i: nat, k: nat)
    requires i < |f| && 1 <= k <= Days
    ensures MeltOf(f, i, k) in Melted(f)
  {
    MeltFromHas(f, 1, i, k);
  }

  /** What survives `dropna`, `to_numeric(errors='coerce')` and `dropna`: a
      number stays, a string is converted (or lost), a missing slot is lost. */
  function Coerce(c: Cell, conv: Converter): Option<real>
  {
    match c
    case Missing => None
    case Num(v) => Some(v)
    case Text(s) => conv(s)
  }

  function ObsOf(m: Melt, v: real): Obs
  {
    Obs(m.id, m.year, m.month, m.day, v)
  }

  /** Keeping the slots as the scripts are written: every slot whose value
      coerces to a number is an observation, whatever the number is. */
  function KeptAsWritten(ms: seq<Melt>, conv: Converter): (os: seq<Obs>)
    ensures |os| <= |ms|
  {
    if ms == [] then []
    else
      var rest := KeptAsWritten(ms[1..], conv);
      match Coerce(ms[0].value, conv)
      case Some(v) => [ObsOf(ms[0], v)] + rest
      case None => rest
  }

  /** Keeping the slots with the sentinel rule applied after coercion as well:
      a value that coerces to -999 is dropped like a missing one. */
  function Kept(ms: seq<Melt>, conv: Converter): (os: seq<Obs>)
    ensures |os| <= |ms|
    ensures forall o :: o in os ==> o.precipitation != Sentinel
  {
    if ms == [] then []
    else
      var rest := Kept(ms[1..], conv);
      match Coerce(ms[0].value, conv)
      case Some(v) => if v == Sentinel then rest else [ObsOf(ms[0], v)] + rest
      case None => rest
  }

  /** As written, a slot giving any number, the sentinel included, is kept. */
  lemma {:induction false} KeptAsWrittenComplete(ms: seq<Melt>, conv: Converter, m: Melt)
    requires m in ms && Coerce(m.value, conv).Some?
    ensures ObsOf(m, Coerce(m.value, conv).value) in KeptAsWritten(ms, conv)
  {
    if m != ms[0] {
      KeptAsWrittenComplete(ms[1..], conv, m);
    }
  }

  /** Every slot giving a number other than the sentinel is kept. */
  lemma {:induction false} KeptComplete(ms: seq<Melt>, conv: Converter, m: Melt)
    requires m in ms && Coerce(m.value, conv).Some?
    requires Coerce(m.value, conv).value != Sentinel
    ensures ObsOf(m, Coerce(m.value, conv).value) in Kept(ms, conv)
  {
    if m != ms[0] {
      KeptComplete(ms[1..], conv, m);
    }
  }

  /** Every kept observation is the coerced value of one slot. */
  lemma {:induction false} KeptSound(ms: seq<Melt>, conv: Converter, o: Obs)
    requires o in Kept(ms, conv)
    ensures exists j :: 0 <= j < |ms| && Coerce(ms[j].value, conv) == Some(o.precipitation) && o == ObsOf(ms[j], o.precipitation)
  {
    var rest := Kept(ms[1..], conv);
    if o in rest {
      KeptSound(ms[1..], conv, o);
      var j :| 0 <= j < |ms[1..]| && Coerce(ms[1..][j].value, conv) == Some(o.precipitation) && o == ObsOf(ms[1..][j], o.precipitation);
      assert ms[1..][j] == ms[j + 1];
    } else {
      assert Coerce(ms[0].value, conv) == Some(o.precipitation) && o == ObsOf(ms[0], o.precipitation);
    }
  }

  lemma {:induction false} KeptConcat(a: seq<Melt>, b: seq<Melt>, conv: Converter)
    ensures Kept(a + b, conv) == Kept(a, conv) + Kept(b, conv)
  {
    if a == [] {
      assert a + b == b;
    } else {
      assert (a + b)[1..] == a[1..] + b;
      KeptConcat(a[1..], b, conv);
    }
  }

  lemma {:induction false} KeptAsWrittenConcat(a: seq<Melt>, b: seq<Melt>, conv: Converter)
    ensures KeptAsWritten(a + b, conv) == KeptAsWritten(a, conv) + KeptAsWritten(b, conv)
  {
    if a == [] {
      assert a + b == b;
    } else {
      assert (a + b)[1..] == a[1..] + b;
      KeptAsWrittenConcat(a[1..], b, conv);
    }
  }

  /** `process_data` (and the same lines of the other two scripts) on a frame,
      as written: melt, drop missing slots, coerce, drop what failed. */
  function ObservationsAsWritten(f: Frame, conv: Converter): seq<Obs>
  {
    KeptAsWritten(Melted(f), conv)
  }

  /** The same with the sentinel also dropped after coercion. */
  function Observations(f: Frame, conv: Converter): seq<Obs>
  {
    Kept(Melted(f), conv)
  }

  lemma ObsOfSlot(f: Frame, i: nat, k: nat, v: real)
    requires i < |f| && 1 <= k <= Days
    ensures MeltOf(f, i, k).value == f[i][DayCol(k)]
    ensures ObsOf(MeltOf(f, i, k), v) == Obs(f[i][IdCol], f[i][YearCol], f[i][MonthCol], k, v)
  {
  }

  /** Every kept observation comes from one slot of one row, with that row's
      id, year and month, its day label and the slot's coerced value, and it
      is never the sentinel. */
  lemma ObservationHasSlot(f: Frame, conv: Converter, o: Obs)
    requires o in Observations(f, conv)
    ensures o.precipitation != Sentinel
    ensures exists i, k ::
      && 0 <= i < |f| && 1 <= k <= Days
      && Coerce(f[i][DayCol(k)], conv) == Some(o.precipitation)
      && o == Obs(f[i][IdCol], f[i][YearCol], f[i][MonthCol], k, o.precipitation)
  {
    var m := ObservationMelt(Melted(f), conv, o);
    MeltFromMember(f, 1, m);
    var i, k :| 0 <= i < |f| && 1 <= k <= Days && m == MeltOf(f, i, k);
    ObsOfSlot(f, i, k, o.precipitation);
  }

  /** The melted line a kept observation comes from. */
  lemma ObservationMelt(ms: seq<Melt>, conv: Converter, o: Obs) returns (m: Melt)
    requires o in Kept(ms, conv)
    ensures m in ms && Coerce(m.value, conv) == Some(o.precipitation) && o == ObsOf(m, o.precipitation)
  {
    KeptSound(ms, conv, o);
    var j :| 0 <= j < |ms| && Coerce(ms[j].value, conv) == Some(o.precipitation) && o == ObsOf(ms[j], o.precipitation);
    m := ms[j];
  }

  /** Every slot whose value is present, numeric (or converts) and not the
      sentinel gives an observation with its row's id, year and month and its
      day label; a missing slot gives none (ObservationHasSlot), so it is never
      counted as zero. */
  lemma SlotHasObservation(f: Frame, conv: Converter, i: nat, k: nat)
    requires i < |f| && 1 <= k <= Days
    requires Coerce(f[i][DayCol(k)], conv).Some?
    requires Coerce(f[i][DayCol(k)], conv).value != Sentinel
    ensures Obs(f[i][IdCol], f[i][YearCol], f[i][MonthCol], k, Coerce(f[i][DayCol(k)], conv).value) in Observations(f, conv)
  {
    MeltedHas(f, i, k);
    KeptComplete(Melted(f), conv, MeltOf(f, i, k));
  }

  /** (year, value) pairs of the observations whose year is a number; a row
      whose year is missing drops out of `groupby('year')`. A year held as a
      string drops out as well (see README). */
  function KeyedByYear(os: seq<Obs>): (ps: Keyed)
    ensures |ps| <= |os|
  {
    if os == [] then []
    else
      var rest := KeyedByYear(os[1..]);
      if os[0].year.Num? then [(os[0].year.v, os[0].precipitation)] + rest else rest
  }

  lemma {:induction false} KeyedByYearConcat(a: seq<Obs>, b: seq<Obs>)
    ensures KeyedByYear(a + b) == KeyedByYear(a) + KeyedByYear(b)
  {
    if a == [] {
      assert a + b == b;
    } else {
      assert (a + b)[1..] == a[1..] + b;
      KeyedByYearConcat(a[1..], b);
    }
  }

  /** The years that have a group are the years of the observations. */
  lemma {:induction false} KeyedByYearKeys(os: seq<Obs>, y: real)
    ensures y in KeySet(KeyedByYear(os)) <==> exists o :: o in os && o.year == Num(y)
  {
    if os != [] {
      KeyedByYearKeys(os[1..], y);
      assert forall o :: o in os ==> o == os[0] || o in os[1..];
    }
  }

  /** One line of the annual table. */
  datatype Annual = Annual(year: real, total: real, mean: real, median: real)

  function Summarize(ps: Keyed, y: real): Annual
    requires y in KeySet(ps)
  {
    var vs := ValuesOf(ps, y);
    Annual(y, Sum(vs), Mean(vs), Median(vs))
  }

  ghost predicate YearsIncreasing(t: seq<Annual>)
  {
    forall i, j :: 0 <= i < j < |t| ==> t[i].year < t[j].year
  }

  /** `groupby('year')['precipitation'].agg(['sum', 'mean', 'median'])`: one
      line per year that has at least one value, in ascending year order, with
      the sum, mean and median of exactly the values of that year. */
  function AnnualStats(ps: Keyed): (t: seq<Annual>)
    ensures YearsIncreasing(t)
    ensures forall y :: y in KeySet(ps) <==> exists j :: 0 <= j < |t| && t[j].year == y
    ensures forall j :: 0 <= j < |t| ==>
      var vs := ValuesOf(ps, t[j].year);
      |vs| > 0 && t[j].total == Sum(vs) && t[j].mean == Mean(vs) && t[j].median == Median(vs)
  {
    var ks := Keys(ps);
    var t := seq(|ks|, j requires 0 <= j < |ks| => Summarize(ps, ks[j]));
    SummariesFollowKeys(ps, ks, t);
    SummariesCoverKeys(ps, ks, t);
    SummariesHoldGroups(ps, ks, t);
    t
  }

  lemma SummariesFollowKeys(ps: Keyed, ks: seq<real>, t: seq<Annual>)
    requires Increasing(ks) && |t| == |ks|
    requires forall j :: 0 <= j < |ks| ==> t[j].year == ks[j]
    ensures YearsIncreasing(t)
  {
  }

  lemma SummariesCoverKeys(ps: Keyed, ks: seq<real>, t: seq<Annual>)
    requires forall x :: x in ks <==> x in KeySet(ps)
    requires |t| == |ks| && forall j :: 0 <= j < |ks| ==> t[j].year == ks[j]
    ensures forall y :: y in KeySet(ps) <==> exists j :: 0 <= j < |t| && t[j].year == y
  {
    forall y | y in KeySet(ps) ensures exists j :: 0 <= j < |t| && t[j].year == y {
      var j :| 0 <= j < |ks| && ks[j] == y;
      assert t[j].year == y;
    }
    forall j | 0 <= j < |t| ensures t[j].year in KeySet(ps) {
      assert ks[j] in ks;
    }
  }

  lemma SummariesHoldGroups(ps: Keyed, ks: seq<real>, t: seq<Annual>)
    requires forall x :: x in ks ==> x in KeySet(ps)
    requires |t| == |ks| && forall j :: 0 <= j < |ks| ==> ks[j] in ks && t[j] == Summarize(ps, ks[j])
    ensures forall j :: 0 <= j < |t| ==>
      var vs := ValuesOf(ps, t[j].year);
      |vs| > 0 && t[j].total == Sum(vs) && t[j].mean == Mean(vs) && t[j].median == Median(vs)
  {
  }

  function Totals(t: seq<Annual>): (r: seq<real>)
    ensures |r| == |t|
    ensures forall i :: 0 <= i < |t| ==> r[i] == t[i].total
  {
    seq(|t|, i requires 0 <= i < |t| => t[i].total)
  }

  /** The year totals add up to the sum of every value grouped. */
  lemma AnnualTotalsAddUp(ps: Keyed)
    ensures Sum(Totals(AnnualStats(ps))) == Sum(Values(ps))
  {
    var ks := Keys(ps);
    var t := AnnualStats(ps);
    forall j | 0 <= j < |ks| ensures GroupSums(ps, ks)[j] == Totals(t)[j] {
      GroupSumsAt(ps, ks, j);
    }
    assert GroupSums(ps, ks) == Totals(t);
    GroupSumsAddUp(ps, ks);
  }

  /** `pct_change() * 100` from one total to the next; NaN/inf (None) when the
      previous total is zero. */
  function Rate(previous: real, current: real): Option<real>
  {
    if previous == 0.0 then None else Some((current - previous) / previous * 100.0)
  }

  /** `pct_change() * 100` down a column: undefined on the first line, and
      each later line compares with the line above it, whatever year that is. */
  function VariationRates(totals: seq<real>): (r: seq<Option<real>>)
    ensures |r| == |totals|
    ensures |r| > 0 ==> r[0] == None
    ensures forall i :: 0 < i < |r| ==> r[i] == Rate(totals[i - 1], totals[i])
  {
    seq(|totals|, i requires 0 <= i < |totals| => if i == 0 then None else Rate(totals[i - 1], totals[i]))
  }

  /** `current` is `previous` grown by `rate` percent. */
  predicate GrownBy(previous: real, current: real, rate: real)
  {
    current == previous * (1.0 + rate / 100.0)
  }
  lemma RateInverse(previous: real, current: real)
    ensures Rate(previous, current).None? <==> previous == 0.0
    ensures Rate(previous, current).Some? ==> GrownBy(previous, current, Rate(previous, current).value)
  {
    if previous != 0.0 {
      var q := (current - previous) / previous;
      assert q * previous == current - previous;
      assert Rate(previous, current).value / 100.0 == q;
      assert previous * (1.0 + q) == previous + previous * q;
    }
  }
  lemma RateReconstructs(totals: seq<real>, i: nat)
    requires i < |totals|
    ensures VariationRates(totals)[i].None? <==> i == 0 || totals[i - 1] == 0.0
    ensures VariationRates(totals)[i].Some? ==>
      GrownBy(totals[i - 1], totals[i], VariationRates(totals)[i].value)
  {
    if i > 0 {
      RateInverse(totals[i - 1], totals[i]);
    }
  }

  /** The driest and wettest lines of an annual table. */
  datatype Extremes = Extremes(driest: Annual, wettest: Annual)

  /** `find_extreme_years`: the line with the smallest and the line with the
      largest total, the first one on ties; `idxmin` raises ValueError on an
      empty table (None). */
  function FindExtremeYears(t: seq<Annual>): (r: Option<Extremes>)
    ensures r.None? <==> t == []
    ensures r.Some? ==> r.value.driest in t && r.value.wettest in t
    ensures r.Some? ==> forall a :: a in t ==> r.value.driest.total <= a.total <= r.value.wettest.total
  {
    if t == [] then None
    else
      var ts := Totals(t);
      var lo, hi := FirstArgMin(ts), FirstArgMax(ts);
      assert forall a :: a in t ==> exists j :: 0 <= j < |t| && t[j] == a;
      Some(Extremes(t[lo], t[hi]))
  }

  /** On ties the earlier line wins, for both extremes. */
  lemma ExtremesFirstOnTies(t: seq<Annual>, j: nat)
    requires j < |t|
    ensures FindExtremeYears(t).Some?
    ensures t[j].total == FindExtremeYears(t).value.driest.total ==>
      exists i :: 0 <= i <= j && t[i] == FindExtremeYears(t).value.driest
    ensures t[j].total == FindExtremeYears(t).value.wettest.total ==>
      exists i :: 0 <= i <= j && t[i] == FindExtremeYears(t).value.wettest
  {
    var ts := Totals(t);
    var lo, hi := FirstArgMin(ts), FirstArgMax(ts);
    if t[j].total == t[lo].total {
      assert !(j < lo);
    }
    if t[j].total == t[hi].total {
      assert !(j < hi);
    }
  }

  /** A row whose day_1 slot holds the string "-999" (its column was read as
      strings) and whose other cells are missing. */
  const StringSentinelRow: Row := seq(Width, j => if j == DayCol(1) then Text("-999") else Missing)

  /** As written, the sentinel survives when it is held as a string: replace
      compares with the number -999 only, and `to_numeric` then turns the
      string into -999, which is summed as rain. */
  lemma StringSentinelKeptAsWritten(conv: Converter)
    requires conv("-999") == Some(Sentinel)
    ensures exists o :: o in ObservationsAsWritten(CleanFrame([StringSentinelRow]), conv) && o.precipitation == Sentinel
  {
    var g := CleanFrame([StringSentinelRow]);
    assert g[0][DayCol(1)] == Text("-999");
    MeltedHas(g, 0, 1);
    var m := MeltOf(g, 0, 1);
    assert Coerce(m.value, conv) == Some(Sentinel);
    KeptAsWrittenComplete(Melted(g), conv, m);
  }

  /** As written, the sentinel is gone whenever no string slot converts to it:
      the only way a -999 observation arises is the string case. */
  lemma {:induction false} AsWrittenMatchesWhenNoStringSentinel(ms: seq<Melt>, conv: Converter)
    requires forall m :: m in ms ==> m.value != Num(Sentinel) && Coerce(m.value, conv) != Some(Sentinel)
    ensures KeptAsWritten(ms, conv) == Kept(ms, conv)
  {
    if ms != [] {
      assert ms[0] in ms;
      AsWrittenMatchesWhenNoStringSentinel(ms[1..], conv);
    }
  }

  /** The corrected keep rule drops nothing else: on a cleaned frame whose
      string slots never convert to -999 it keeps exactly what the scripts keep. */
  lemma CorrectionOnlyDropsStringSentinel(f: Frame, conv: Converter)
    requires forall i, j :: 0 <= i < |f| && 0 <= j < Width ==> f[i][j] != Num(Sentinel)
    requires forall i, j :: 0 <= i < |f| && 0 <= j < Width && f[i][j].Text? ==> conv(f[i][j].s) != Some(Sentinel)
    ensures ObservationsAsWritten(f, conv) == Observations(f, conv)
  {
    forall m | m in Melted(f)
      ensures m.value != Num(Sentinel) && Coerce(m.value, conv) != Some(Sentinel)
    {
      var i, k := MeltedSlot(f, m);
      CellOfSlot(f, i, k);
    }
    AsWrittenMatchesWhenNoStringSentinel(Melted(f), conv);
  }

  /** Once the sentinel is blanked, a -999 can only come back as a string
      that converts to it: when no string cell of the frame converts to -999,
      the scripts as written keep no -999 observation. */
  lemma AsWrittenNeverSentinel(f: Frame, conv: Converter)
    requires forall i, j :: 0 <= i < |f| && 0 <= j < Width && f[i][j].Text? ==> conv(f[i][j].s) != Some(Sentinel)
    ensures forall o :: o in ObservationsAsWritten(CleanFrame(f), conv) ==> o.precipitation != Sentinel
  {
    var g := CleanFrame(f);
    forall i, j | 0 <= i < |g| && 0 <= j < Width && g[i][j].Text?
      ensures conv(g[i][j].s) != Some(Sentinel)
    {
      assert g[i][j] == f[i][j];
    }
    CorrectionOnlyDropsStringSentinel(g, conv);
  }

  /** Every line of the melt is the slot of some row and day. */
  lemma MeltedSlot(f: Frame, m: Melt) returns (i: nat, k: nat)
    requires m in Melted(f)
    ensures i < |f| && 1 <= k <= Days && m == MeltOf(f, i, k)
  {
    MeltFromMember(f, 1, m);
    i, k :| 0 <= i < |f| && 1 <= k <= Days && m == MeltOf(f, i, k);
  }

  lemma CellOfSlot(f: Frame, i: nat, k: nat)
    requires i < |f| && 1 <= k <= Days
    ensures 0 <= DayCol(k) < Width && MeltOf(f, i, k).value == f[i][DayCol(k)]
  {
  }
}
