/** The melt counted slot by slot. `melt` lists every (row, day) slot of the
    frame exactly once, so the observations the scripts keep, and the values
    of each year, are those of a row-by-row, day-by-day walk over the
    frame's cells, with the same multiplicities. */
module Slots {
  import opened Wrappers
  import opened Stats
  import opened Grouping
  import opened Frame
  import opened Pipeline
  import opened Seqs

  /** The slot day_k of row r, as `melt` labels it. */
  function RowMelt(r: Row, k: nat): Melt
    requires 1 <= k <= Days
  {
    Melt(r[IdCol], r[YearCol], r[MonthCol], k, r[DayCol(k)])
  }

  /** The slots day_k .. day_31 of one row, in day order. */
  function RowSlots(r: Row, k: nat): seq<Melt>
    requires 1 <= k <= Days + 1
    decreases Days + 1 - k
  {
    if k > Days then [] else [RowMelt(r, k)] + RowSlots(r, k + 1)
  }

  /** Every slot of the frame, row by row. */
  function RowMajor(f: Frame): seq<Melt>
  {
    if f == [] then [] else RowMajor(f[..|f| - 1]) + RowSlots(f[|f| - 1], 1)
  }

  lemma DayBlockSnoc(f: Frame, r: Row, k: nat)
    requires 1 <= k <= Days
    ensures DayBlock(f + [r], k) == DayBlock(f, k) + [RowMelt(r, k)]
  {
    var a, b := DayBlock(f + [r], k), DayBlock(f, k) + [RowMelt(r, k)];
    forall i | 0 <= i < |a| ensures a[i] == b[i] {
      if i < |f| {
        assert (f + [r])[i] == f[i];
      }
    }
  }

  lemma {:induction false} MeltFromSnoc(f: Frame, r: Row, k: nat)
    requires 1 <= k <= Days + 1
    ensures multiset(MeltFrom(f + [r], k)) == multiset(MeltFrom(f, k)) + multiset(RowSlots(r, k))
    decreases Days + 1 - k
  {
    if k <= Days {
      DayBlockSnoc(f, r, k);
      MeltFromSnoc(f, r, k + 1);
    }
  }

  lemma {:induction false} MeltFromNothing(k: nat)
    requires 1 <= k <= Days + 1
    ensures MeltFrom([], k) == []
    decreases Days + 1 - k
  {
    if k <= Days {
      MeltFromNothing(k + 1);
    }
  }

  /** `melt` lists every slot of every row exactly once: the melt is the
      row-by-row listing of the slots in another order. */
  lemma {:induction false} MeltedIsRowMajor(f: Frame)
    ensures multiset(Melted(f)) == multiset(RowMajor(f))
    decreases |f|
  {
    if f == [] {
      MeltFromNothing(1);
    } else {
      var g, r := f[..|f| - 1], f[|f| - 1];
      assert f == g + [r];
      MeltFromSnoc(g, r, 1);
      MeltedIsRowMajor(g);
    }
  }

  /** Keeping is insensitive to the order of the slots: the same slots, with
      the same multiplicities, keep the same observations. */
  lemma {:induction false} KeptAsWrittenPermutation(a: seq<Melt>, b: seq<Melt>, conv: Converter)
    requires multiset(a) == multiset(b)
    ensures multiset(KeptAsWritten(a, conv)) == multiset(KeptAsWritten(b, conv))
    decreases |a|
  {
    if a == [] {
      assert |b| == |multiset(b)| == 0;
    } else {
      var j := PickOut(a, b);
      var front, back := b[..j], b[j + 1..];
      KeptAsWrittenPermutation(a[1..], front + back, conv);
      KeptAsWrittenConcat(front + [b[j]], back, conv);
      KeptAsWrittenConcat(front, [b[j]], conv);
      KeptAsWrittenConcat(front, back, conv);
      KeptAsWrittenConcat([a[0]], a[1..], conv);
    }
  }

  /** The observation slot day_k of row r gives: one when its value is
      present and numeric (or converts), none otherwise. */
  function SlotObs(r: Row, conv: Converter, k: nat): seq<Obs>
    requires 1 <= k <= Days
  {
    match Coerce(r[DayCol(k)], conv)
    case Some(v) => [Obs(r[IdCol], r[YearCol], r[MonthCol], k, v)]
    case None => []
  }

  /** The value slot day_k of row r contributes, if any. */
  function SlotValue(r: Row, conv: Converter, k: nat): seq<real>
    requires 1 <= k <= Days
  {
    match Coerce(r[DayCol(k)], conv)
    case Some(v) => [v]
    case None => []
  }

  /** The observations slots day_k .. day_31 of row r give, in day order. */
  function RowObservations(r: Row, conv: Converter, k: nat): seq<Obs>
    requires 1 <= k <= Days + 1
    decreases Days + 1 - k
  {
    if k > Days then [] else SlotObs(r, conv, k) + RowObservations(r, conv, k + 1)
  }

  /** The reference listing: row by row, day by day, one observation per
      slot whose value is present and numeric, carrying its row's id, year
      and month, its day label and its value. */
  function SlotObservations(f: Frame, conv: Converter): seq<Obs>
  {
    if f == [] then [] else SlotObservations(f[..|f| - 1], conv) + RowObservations(f[|f| - 1], conv, 1)
  }

  lemma {:induction false} KeptRowSlots(r: Row, conv: Converter, k: nat)
    requires 1 <= k <= Days + 1
    ensures KeptAsWritten(RowSlots(r, k), conv) == RowObservations(r, conv, k)
    decreases Days + 1 - k
  {
    if k <= Days {
      assert RowSlots(r, k)[1..] == RowSlots(r, k + 1);
      KeptRowSlots(r, conv, k + 1);
    }
  }

  lemma {:induction false} KeptRowMajor(f: Frame, conv: Converter)
    ensures KeptAsWritten(RowMajor(f), conv) == SlotObservations(f, conv)
    decreases |f|
  {
    if f != [] {
      var g := f[..|f| - 1];
      KeptAsWrittenConcat(RowMajor(g), RowSlots(f[|f| - 1], 1), conv);
      KeptRowSlots(f[|f| - 1], conv, 1);
      KeptRowMajor(g, conv);
    }
  }

  /** `process_data` (and the same steps of dades2.py and dadesprova.py)
      keeps exactly one observation per (row, day_k) slot whose value is
      present and coerces, and nothing else: its output is the reference
      listing, observation for observation, in melt order. */
  lemma ObservationsAreSlots(f: Frame, conv: Converter)
    ensures multiset(ObservationsAsWritten(f, conv)) == multiset(SlotObservations(f, conv))
  {
    MeltedIsRowMajor(f);
    KeptAsWrittenPermutation(Melted(f), RowMajor(f), conv);
    KeptRowMajor(f, conv);
  }

  /** The values of year y in a list of observations. */
  function YearGroup(os: seq<Obs>, y: real): seq<real>
  {
    ValuesOf(KeyedByYear(os), y)
  }

  lemma YearGroupConcat(a: seq<Obs>, b: seq<Obs>, y: real)
    ensures YearGroup(a + b, y) == YearGroup(a, y) + YearGroup(b, y)
  {
    KeyedByYearConcat(a, b);
    ValuesOfConcat(KeyedByYear(a), KeyedByYear(b), y);
  }

  /** Grouping is insensitive to the order of the observations. */
  lemma {:induction false} YearGroupPermutation(a: seq<Obs>, b: seq<Obs>, y: real)
    requires multiset(a) == multiset(b)
    ensures multiset(YearGroup(a, y)) == multiset(YearGroup(b, y))
    decreases |a|
  {
    if a == [] {
      assert |b| == |multiset(b)| == 0;
    } else {
      var j := PickOut(a, b);
      var front, back := b[..j], b[j + 1..];
      YearGroupPermutation(a[1..], front + back, y);
      YearGroupConcat(front + [b[j]], back, y);
      YearGroupConcat(front, [b[j]], y);
      YearGroupConcat(front, back, y);
      YearGroupConcat([a[0]], a[1..], y);
    }
  }

  /** The present, numeric values of slots day_k .. day_31 of a row. */
  function RowValues(r: Row, conv: Converter, k: nat): seq<real>
    requires 1 <= k <= Days + 1
    decreases Days + 1 - k
  {
    if k > Days then [] else SlotValue(r, conv, k) + RowValues(r, conv, k + 1)
  }

  /** The values of year y read off the cells: every present, numeric day
      value of every row whose year is y, row by row. */
  function YearValues(f: Frame, conv: Converter, y: real): seq<real>
  {
    if f == [] then []
    else
      var last := f[|f| - 1];
      YearValues(f[..|f| - 1], conv, y) + (if last[YearCol] == Num(y) then RowValues(last, conv, 1) else [])
  }

  lemma SlotGroup(r: Row, conv: Converter, k: nat, y: real)
    requires 1 <= k <= Days
    ensures YearGroup(SlotObs(r, conv, k), y) == if r[YearCol] == Num(y) then SlotValue(r, conv, k) else []
  {
    if SlotObs(r, conv, k) != [] {
      assert SlotObs(r, conv, k)[1..] == [];
    }
  }

  /** A row of year y gives year y all of its values, in day order. */
  lemma {:induction false} RowGroupOwnYear(r: Row, conv: Converter, k: nat, y: real)
    requires 1 <= k <= Days + 1 && r[YearCol] == Num(y)
    ensures YearGroup(RowObservations(r, conv, k), y) == RowValues(r, conv, k)
    decreases Days + 1 - k
  {
    if k <= Days {
      YearGroupConcat(SlotObs(r, conv, k), RowObservations(r, conv, k + 1), y);
      SlotGroup(r, conv, k, y);
      RowGroupOwnYear(r, conv, k + 1, y);
    }
  }

  /** A row of another year (or of a missing or textual year) gives year y nothing. */
  lemma {:induction false} RowGroupOtherYear(r: Row, conv: Converter, k: nat, y: real)
    requires 1 <= k <= Days + 1 && r[YearCol] != Num(y)
    ensures YearGroup(RowObservations(r, conv, k), y) == []
    decreases Days + 1 - k
  {
    if k <= Days {
      YearGroupConcat(SlotObs(r, conv, k), RowObservations(r, conv, k + 1), y);
      SlotGroup(r, conv, k, y);
      RowGroupOtherYear(r, conv, k + 1, y);
    }
  }

  lemma {:induction false} SlotGroups(f: Frame, conv: Converter, y: real)
    ensures YearGroup(SlotObservations(f, conv), y) == YearValues(f, conv, y)
    decreases |f|
  {
    if f != [] {
      var g := f[..|f| - 1];
      YearGroupConcat(SlotObservations(g, conv), RowObservations(f[|f| - 1], conv, 1), y);
      if f[|f| - 1][YearCol] == Num(y) {
        RowGroupOwnYear(f[|f| - 1], conv, 1, y);
      } else {
        RowGroupOtherYear(f[|f| - 1], conv, 1, y);
      }
      SlotGroups(g, conv, y);
    }
  }

  /** The group of year y that the scripts aggregate holds exactly the
      present, numeric day values of the rows of that year, each as often as
      it occurs in the cells. */
  lemma YearGroupIsCells(f: Frame, conv: Converter, y: real)
    ensures multiset(YearGroup(ObservationsAsWritten(f, conv), y)) == multiset(YearValues(f, conv, y))
  {
    ObservationsAreSlots(f, conv);
    YearGroupPermutation(ObservationsAsWritten(f, conv), SlotObservations(f, conv), y);
    SlotGroups(f, conv, y);
  }

  /** Hence a year's count, sum, mean and median are those of its rows' cells. */
  lemma YearStatsFromCells(f: Frame, conv: Converter, y: real)
    ensures var vs, ws := YearGroup(ObservationsAsWritten(f, conv), y), YearValues(f, conv, y);
      && |vs| == |ws|
      && Sum(vs) == Sum(ws)
      && (|vs| > 0 ==> Mean(vs) == Mean(ws) && Median(vs) == Median(ws))
  {
    var vs, ws := YearGroup(ObservationsAsWritten(f, conv), y), YearValues(f, conv, y);
    YearGroupIsCells(f, conv, y);
    assert |vs| == |multiset(vs)| == |multiset(ws)| == |ws|;
    SumPermutation(vs, ws);
    if |vs| > 0 {
      MedianOrderIndependent(vs, ws);
    }
  }
}
