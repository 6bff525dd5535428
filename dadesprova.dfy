/** dadesprova.py: the per-column sentinel share of Dades.py, followed by an
    annual table with only the total and the median of each year. */
module Dadesprova {
  import opened Wrappers
  import opened Stats
  import opened Grouping
  import opened Frame
  import opened Pipeline
  import Dades
  import Slots

  /** `read_dat_file` passes `header=None` and no `skiprows`. */
  const SkipsHeader: bool := false

  /** One line of the printed table: year, total_precipitation, median_precipitation. */
  datatype YearTotalMedian = YearTotalMedian(year: real, total: real, median: real)

  /** `groupby('year')['precipitation'].agg(['sum', 'median'])` on (year,
      value) pairs: one line per year with a value, ascending, with the sum
      and the median of exactly that year's values. */
  function TotalsAndMedians(ps: Keyed): (t: seq<YearTotalMedian>)
    ensures forall i, j :: 0 <= i < j < |t| ==> t[i].year < t[j].year
    ensures forall y :: y in KeySet(ps) <==> exists j :: 0 <= j < |t| && t[j].year == y
    ensures forall j :: 0 <= j < |t| ==>
      var vs := ValuesOf(ps, t[j].year);
      |vs| > 0 && t[j].total == Sum(vs) && t[j].median == Median(vs)
  {
    var a := AnnualStats(ps);
    var t := seq(|a|, j requires 0 <= j < |a| => YearTotalMedian(a[j].year, a[j].total, a[j].median));
    DropMeans(ps, a, t);
    t
  }

  lemma DropMeans(ps: Keyed, a: seq<Annual>, t: seq<YearTotalMedian>)
    requires YearsIncreasing(a)
    requires forall y :: y in KeySet(ps) <==> exists j :: 0 <= j < |a| && a[j].year == y
    requires forall j :: 0 <= j < |a| ==>
      var vs := ValuesOf(ps, a[j].year);
      |vs| > 0 && a[j].total == Sum(vs) && a[j].median == Median(vs)
    requires |t| == |a| && forall j :: 0 <= j < |a| ==> t[j] == YearTotalMedian(a[j].year, a[j].total, a[j].median)
    ensures forall i, j :: 0 <= i < j < |t| ==> t[i].year < t[j].year
    ensures forall y :: y in KeySet(ps) <==> exists j :: 0 <= j < |t| && t[j].year == y
    ensures forall j :: 0 <= j < |t| ==>
      var vs := ValuesOf(ps, t[j].year);
      |vs| > 0 && t[j].total == Sum(vs) && t[j].median == Median(vs)
  {
    assert forall j :: 0 <= j < |a| ==> t[j].year == a[j].year && t[j].total == a[j].total && t[j].median == a[j].median;
    SameYears(ps, a, t);
    SameGroups(ps, a, t);
  }

  lemma SameYears(ps: Keyed, a: seq<Annual>, t: seq<YearTotalMedian>)
    requires YearsIncreasing(a)
    requires forall y :: y in KeySet(ps) <==> exists j :: 0 <= j < |a| && a[j].year == y
    requires |t| == |a| && forall j :: 0 <= j < |a| ==> t[j].year == a[j].year
    ensures forall i, j :: 0 <= i < j < |t| ==> t[i].year < t[j].year
    ensures forall y :: y in KeySet(ps) <==> exists j :: 0 <= j < |t| && t[j].year == y
  {
    forall y | y in KeySet(ps) ensures exists j :: 0 <= j < |t| && t[j].year == y {
      var j :| 0 <= j < |a| && a[j].year == y;
      assert t[j].year == y;
    }
  }

  lemma SameGroups(ps: Keyed, a: seq<Annual>, t: seq<YearTotalMedian>)
    requires forall j :: 0 <= j < |a| ==>
      var vs := ValuesOf(ps, a[j].year);
      |vs| > 0 && a[j].total == Sum(vs) && a[j].median == Median(vs)
    requires |t| == |a|
    requires forall j :: 0 <= j < |a| ==> t[j].year == a[j].year && t[j].total == a[j].total && t[j].median == a[j].median
    ensures forall j :: 0 <= j < |t| ==>
      var vs := ValuesOf(ps, t[j].year);
      |vs| > 0 && t[j].total == Sum(vs) && t[j].median == Median(vs)
  {
  }

  /** The table `calculate_annual_precipitation` prints for a cleaned frame. */
  function AnnualTable(f: Frame, conv: Converter): seq<YearTotalMedian>
  {
    TotalsAndMedians(KeyedByYear(ObservationsAsWritten(f, conv)))
  }

  /** Read off the cells: the table has a line for year y exactly when some
      row of year y has a present, numeric day value, and its total and
      median are those of all such values of the rows of y, with their
      multiplicities. */
  lemma AnnualTableFromCells(f: Frame, conv: Converter)
    ensures var t := AnnualTable(f, conv);
      && (forall y :: (exists j :: 0 <= j < |t| && t[j].year == y) <==> |Slots.YearValues(f, conv, y)| > 0)
      && forall j :: 0 <= j < |t| ==>
        var ws := Slots.YearValues(f, conv, t[j].year);
        |ws| > 0 && t[j].total == Sum(ws) && t[j].median == Median(ws)
  {
    var t := AnnualTable(f, conv);
    forall y ensures (exists j :: 0 <= j < |t| && t[j].year == y) <==> |Slots.YearValues(f, conv, y)| > 0 {
      Slots.YearStatsFromCells(f, conv, y);
    }
    forall j | 0 <= j < |t|
      ensures var ws := Slots.YearValues(f, conv, t[j].year);
        |ws| > 0 && t[j].total == Sum(ws) && t[j].median == Median(ws)
    {
      Slots.YearStatsFromCells(f, conv, t[j].year);
    }
  }

  /** `calculate_annual_precipitation`: blanks the sentinel in the caller's
      frame in place, then returns the table it prints. */
  method CalculateAnnualPrecipitation(df: DataFrame, conv: Converter) returns (t: seq<YearTotalMedian>)
    modifies df
    ensures df.rows == CleanFrame(old(df.rows))
    ensures t == AnnualTable(df.rows, conv)
  {
    df.ReplaceSentinel();
    t := AnnualTable(df.rows, conv);
  }

  /** What the script reports for one path: the early returns, or the
      percentages and the annual table it prints. */
  datatype Outcome = NoSuchFile | ReadError | Printed(percentages: seq<Option<real>>, annual: seq<YearTotalMedian>)

  /** The specification of `calculate_total_missing_percentage`. */
  function MissingReport(fr: FileRead, conv: Converter): Outcome
  {
    match fr
    case NotFound => NoSuchFile
    case ReadFailure => ReadError
    case Lines(ls) =>
      var f := Ingest(ls, SkipsHeader);
      Printed(Dades.ColumnPercentages(f), AnnualTable(CleanFrame(f), conv))
  }

  /** `calculate_total_missing_percentage`: returns early on a missing path
      or a failing read; otherwise counts the sentinels of the frame as read,
      then computes the annual table, which cleans that frame in place. */
  method CalculateTotalMissingPercentage(fr: FileRead, conv: Converter) returns (o: Outcome)
    ensures o == MissingReport(fr, conv)
  {
    if fr.NotFound? {
      return NoSuchFile;
    }
    if fr.ReadFailure? {
      return ReadError;
    }
    var df := new DataFrame(Ingest(fr.lines, SkipsHeader));
    var percentages := Dades.ColumnPercentages(df.rows);
    var annual := CalculateAnnualPrecipitation(df, conv);
    o := Printed(percentages, annual);
  }

  /** The outcome: early returns exactly for a missing path or a failing
      read; otherwise every line of the file is a row, the percentages lie in
      [0, 100] and are taken from the frame before the replacement, and the
      annual table is built from the observations kept, as written, from the
      cleaned frame (a converting string "-999" included). */
  lemma MissingReportMeaning(fr: FileRead, conv: Converter)
    ensures MissingReport(fr, conv) == NoSuchFile <==> fr == NotFound
    ensures MissingReport(fr, conv) == ReadError <==> fr == ReadFailure
    ensures fr.Lines? ==>
      var o := MissingReport(fr, conv);
      && o.Printed?
      && |o.percentages| == Width
      && (forall c :: 0 <= c < Width && o.percentages[c].Some? ==>
            0.0 <= o.percentages[c].value <= 100.0
            && (o.percentages[c].value == 0.0 <==> Dades.SentinelCount(fr.lines, c) == 0))
      && o.annual == AnnualTable(CleanFrame(fr.lines), conv)
  {
  }

  /** When no string cell of the file converts to -999, no value summed or
      ranked in the annual table is the sentinel. (A string "-999" that does
      convert is summed: Pipeline.StringSentinelKeptAsWritten.) */
  lemma AnnualValuesNeverSentinel(f: Frame, conv: Converter, y: real)
    requires forall i, j :: 0 <= i < |f| && 0 <= j < Width && f[i][j].Text? ==> conv(f[i][j].s) != Some(Sentinel)
    ensures forall v :: v in ValuesOf(KeyedByYear(ObservationsAsWritten(CleanFrame(f), conv)), y) ==> v != Sentinel
  {
    var os := ObservationsAsWritten(CleanFrame(f), conv);
    AsWrittenNeverSentinel(f, conv);
    forall v | v in ValuesOf(KeyedByYear(os), y) ensures v != Sentinel {
      KeyedValueSource(os, y, v);
    }
  }

  lemma {:induction false} KeyedValueSource(os: seq<Obs>, y: real, v: real)
    requires v in ValuesOf(KeyedByYear(os), y)
    ensures exists o :: o in os && o.precipitation == v
  {
    var rest := KeyedByYear(os[1..]);
    if os[0].year.Num? {
      assert KeyedByYear(os) == [(os[0].year.v, os[0].precipitation)] + rest;
      ValuesOfConcat([(os[0].year.v, os[0].precipitation)], rest, y);
      if v in ValuesOf(rest, y) {
        KeyedValueSource(os[1..], y, v);
      }
    } else {
      KeyedValueSource(os[1..], y, v);
    }
  }

  /** The script counts the sentinels before calling the function that
      replaces them. Counted afterwards, no sentinel would remain and the
      non-null count would drop by exactly the sentinel count, so every
      share would be 0: the order of the two steps matters. */
  lemma {:induction false} CountedBeforeReplacing(f: Frame, c: nat)
    requires c < Width
    ensures Dades.SentinelCount(CleanFrame(f), c) == 0
    ensures Dades.NonNullCount(CleanFrame(f), c) == Dades.NonNullCount(f, c) - Dades.SentinelCount(f, c)
  {
    if f != [] {
      assert CleanFrame(f)[1..] == CleanFrame(f[1..]);
      CountedBeforeReplacing(f[1..], c);
      Dades.SentinelsAreCounted(f[1..], c);
    }
  }
}
