/** dades2.py: every `.dat` file of a folder is summarised per year, the
    per-file summaries are regrouped by year, restricted to 2000..2100, given
    a variation rate and searched for the driest and the wettest year. */
module Dades2 {
  import opened Wrappers
  import opened Stats
  import opened Grouping
  import opened Frame
  import opened Pipeline
  import opened Seqs
  import Slots

  /** `read_dat_file` passes `skiprows=1`: the first line of a file is never data. */
  const SkipsHeader: bool := true

  /** The first and last year `process_folder` keeps. */
  const FirstYear: real := 2000.0
  const LastYear: real := 2100.0

  /** The per-year table `calculate_annual_precipitation` returns; the
      `variation_rate` column is absent until `calculate_annual_variation_rate`
      adds it in place. */
  class AnnualTable {
    var rows: seq<Annual>
    var variationRate: Option<seq<Option<real>>>

    constructor (rows: seq<Annual>)
      ensures this.rows == rows && variationRate == None
    {
      this.rows := rows;
      variationRate := None;
    }

    /** `calculate_annual_variation_rate`: adds the column, changes nothing else. */
    method AddVariationRate()
      modifies this
      ensures rows == old(rows)
      ensures variationRate == Some(VariationRates(Totals(rows)))
    {
      variationRate := Some(VariationRates(Totals(rows)));
    }
  }

  /** The annual table of one cleaned frame. */
  function FileSummary(f: Frame, conv: Converter): seq<Annual>
  {
    AnnualStats(KeyedByYear(ObservationsAsWritten(f, conv)))
  }

  /** Read off the cells: a file's summary has a line for year y exactly when
      some row of year y has a present, numeric day value, and that line's
      total, mean and median are those of all such values of the rows of y,
      each counted as often as it occurs. */
  lemma FileSummaryFromCells(f: Frame, conv: Converter)
    ensures var t := FileSummary(f, conv);
      && (forall y :: (exists j :: 0 <= j < |t| && t[j].year == y) <==> |Slots.YearValues(f, conv, y)| > 0)
      && forall j :: 0 <= j < |t| ==>
        var ws := Slots.YearValues(f, conv, t[j].year);
        |ws| > 0 && t[j].total == Sum(ws) && t[j].mean == Mean(ws) && t[j].median == Median(ws)
  {
    var t := FileSummary(f, conv);
    forall y ensures (exists j :: 0 <= j < |t| && t[j].year == y) <==> |Slots.YearValues(f, conv, y)| > 0 {
      Slots.YearStatsFromCells(f, conv, y);
    }
    forall j | 0 <= j < |t|
      ensures var ws := Slots.YearValues(f, conv, t[j].year);
        |ws| > 0 && t[j].total == Sum(ws) && t[j].mean == Mean(ws) && t[j].median == Median(ws)
    {
      Slots.YearStatsFromCells(f, conv, t[j].year);
    }
  }

  /** `calculate_annual_precipitation`: blanks the sentinel in the caller's
      frame (in place) and summarises the surviving day values per year. */
  method CalculateAnnualPrecipitation(df: DataFrame, conv: Converter) returns (t: AnnualTable)
    modifies df
    ensures df.rows == CleanFrame(old(df.rows))
    ensures fresh(t) && t.variationRate == None
    ensures t.rows == FileSummary(df.rows, conv)
  {
    df.ReplaceSentinel();
    var obs := ObservationsAsWritten(df.rows, conv);
    t := new AnnualTable(AnnualStats(KeyedByYear(obs)));
  }

  /** The three columns `process_folder` aggregates. */
  datatype Field = TotalField | MeanField | MedianField

  function Pick(a: Annual, c: Field): real
  {
    match c
    case TotalField => a.total
    case MeanField => a.mean
    case MedianField => a.median
  }

  /** One column of a stacked table as (year, value) pairs, in line order. */
  function ByYear(t: seq<Annual>, c: Field): (ps: Keyed)
    ensures |ps| == |t|
    ensures KeySet(ps) == YearSet(t)
  {
    if t == [] then [] else [(t[0].year, Pick(t[0], c))] + ByYear(t[1..], c)
  }

  /** The years that occur in a stacked table. */
  function YearSet(t: seq<Annual>): set<real>
  {
    if t == [] then {} else {t[0].year} + YearSet(t[1..])
  }

  /** The merged line of year y. */
  function Merge(t: seq<Annual>, y: real): Annual
    requires y in YearSet(t)
  {
    Annual(y, Sum(ValuesOf(ByYear(t, TotalField), y)), Mean(ValuesOf(ByYear(t, MeanField), y)),
           Median(ValuesOf(ByYear(t, MedianField), y)))
  }

  /** `groupby('year').agg({'total': 'sum', 'mean': 'mean', 'median': 'median'})`
      over the stacked per-file tables: one line per year in ascending order,
      whose total is the sum of the per-file totals of that year, whose mean
      is the mean of the per-file means and whose median is the median of the
      per-file medians (not the median of the raw values). */
  function Regroup(t: seq<Annual>): (g: seq<Annual>)
    ensures YearsIncreasing(g)
    ensures forall y :: y in YearSet(t) <==> exists j :: 0 <= j < |g| && g[j].year == y
    ensures forall j :: 0 <= j < |g| ==> g[j].year in YearSet(t) && g[j] == Merge(t, g[j].year)
  {
    var ks := Keys(ByYear(t, TotalField));
    var g := seq(|ks|, j requires 0 <= j < |ks| => Merge(t, ks[j]));
    RegroupFollowsKeys(t, ks, g);
    RegroupCoversYears(t, ks, g);
    g
  }

  /** Each regrouped line sums the per-file totals of its year, averages
      their means and takes the median of their medians; each of the three
      groups holds one value per per-file line of that year. */
  lemma RegroupFields(t: seq<Annual>, j: nat)
    requires j < |Regroup(t)|
    ensures var a := Regroup(t)[j];
      && a.year in YearSet(t)
      && |ValuesOf(ByYear(t, TotalField), a.year)| > 0 && a.total == Sum(ValuesOf(ByYear(t, TotalField), a.year))
      && |ValuesOf(ByYear(t, MeanField), a.year)| > 0 && a.mean == Mean(ValuesOf(ByYear(t, MeanField), a.year))
      && |ValuesOf(ByYear(t, MedianField), a.year)| > 0 && a.median == Median(ValuesOf(ByYear(t, MedianField), a.year))
  {
  }

  lemma RegroupFollowsKeys(t: seq<Annual>, ks: seq<real>, g: seq<Annual>)
    requires Increasing(ks) && |g| == |ks|
    requires forall j :: 0 <= j < |ks| ==> g[j].year == ks[j]
    ensures YearsIncreasing(g)
  {
  }

  lemma RegroupCoversYears(t: seq<Annual>, ks: seq<real>, g: seq<Annual>)
    requires forall x :: x in ks <==> x in YearSet(t)
    requires |g| == |ks| && forall j :: 0 <= j < |ks| ==> ks[j] in YearSet(t) && g[j] == Merge(t, ks[j]) && g[j].year == ks[j]
    ensures forall y :: y in YearSet(t) <==> exists j :: 0 <= j < |g| && g[j].year == y
    ensures forall j :: 0 <= j < |g| ==> g[j].year in YearSet(t) && g[j] == Merge(t, g[j].year)
  {
    RegroupHasYears(YearSet(t), ks, g);
  }

  lemma RegroupHasYears(ys: set<real>, ks: seq<real>, g: seq<Annual>)
    requires forall x :: x in ks <==> x in ys
    requires |g| == |ks| && forall j :: 0 <= j < |ks| ==> g[j].year == ks[j]
    ensures forall y :: y in ys <==> exists j :: 0 <= j < |g| && g[j].year == y
  {
    forall y | y in ys ensures exists j :: 0 <= j < |g| && g[j].year == y {
      var j :| 0 <= j < |ks| && ks[j] == y;
      assert g[j].year == y;
    }
  }

  lemma {:induction false} ByYearValues(t: seq<Annual>)
    ensures Values(ByYear(t, TotalField)) == Totals(t)
  {
    if t != [] {
      ByYearValues(t[1..]);
      assert Totals(t) == [t[0].total] + Totals(t[1..]);
    }
  }

  /** Regrouping neither loses nor double-counts rain: the regrouped totals
      add up to the per-file totals. */
  lemma RegroupKeepsTotal(t: seq<Annual>)
    ensures Sum(Totals(Regroup(t))) == Sum(Totals(t))
  {
    var ps := ByYear(t, TotalField);
    var ks := Keys(ps);
    var g := Regroup(t);
    forall j | 0 <= j < |ks| ensures GroupSums(ps, ks)[j] == Totals(g)[j] {
      GroupSumsAt(ps, ks, j);
    }
    assert GroupSums(ps, ks) == Totals(g);
    GroupSumsAddUp(ps, ks);
    ByYearValues(t);
  }

  /** Two lines of the same year form one group. */
  lemma OneYear(t: seq<Annual>)
    requires |t| == 2 && t[0].year == t[1].year
    ensures YearSet(t) == {t[0].year}
  {
    assert t[1..][1..] == [];
    assert YearSet(t[1..]) == {t[1].year} + YearSet(t[1..][1..]);
  }

  /** A stack holding a single year regroups into one line. */
  lemma SingleYear(t: seq<Annual>, y: real)
    requires YearSet(t) == {y}
    ensures Regroup(t) == [Merge(t, y)]
  {
    var g := Regroup(t);
    SingleLine(g, YearSet(t), y);
    assert g[0] == Merge(t, g[0].year);
    assert g == [g[0]];
  }

  lemma SingleLine(g: seq<Annual>, ys: set<real>, y: real)
    requires ys == {y}
    requires YearsIncreasing(g)
    requires forall x :: x in ys <==> exists j :: 0 <= j < |g| && g[j].year == x
    requires forall j :: 0 <= j < |g| ==> g[j].year in ys
    ensures |g| == 1 && g[0].year == y
  {
    assert y in ys;
    var j :| 0 <= j < |g| && g[j].year == y;
    forall i | 0 <= i < |g| ensures g[i].year == y {
      assert g[i].year in ys;
    }
    OnlyLine(g, y, j);
  }

  lemma OnlyLine(g: seq<Annual>, y: real, j: nat)
    requires YearsIncreasing(g) && j < |g|
    requires forall i :: 0 <= i < |g| ==> g[i].year == y
    ensures |g| == 1
  {
    FirstYearsIncrease(g);
  }

  lemma FirstYearsIncrease(g: seq<Annual>)
    requires YearsIncreasing(g)
    ensures |g| > 1 ==> g[0].year < g[1].year
  {
  }

  /** Two files both reporting 2021, with totals 10 and 20 and medians 2 and
      5, regroup into one 2021 line of total 30, the mean of the two means and
      median 3.5. */
  lemma RegroupExample(m1: real, m2: real)
    ensures Regroup([Annual(2021.0, 10.0, m1, 2.0), Annual(2021.0, 20.0, m2, 5.0)])
         == [Annual(2021.0, 30.0, (m1 + m2) / 2.0, 3.5)]
  {
    var t := [Annual(2021.0, 10.0, m1, 2.0), Annual(2021.0, 20.0, m2, 5.0)];
    OneYear(t);
    SingleYear(t, 2021.0);
    MergeExample(t, m1, m2);
  }

  lemma MergeExample(t: seq<Annual>, m1: real, m2: real)
    requires t == [Annual(2021.0, 10.0, m1, 2.0), Annual(2021.0, 20.0, m2, 5.0)]
    requires 2021.0 in YearSet(t)
    ensures Merge(t, 2021.0) == Annual(2021.0, 30.0, (m1 + m2) / 2.0, 3.5)
  {
    ExampleGroups(t, m1, m2);
    PairSum(10.0, 20.0);
    PairSum(m1, m2);
    PairMedian(2.0, 5.0);
  }

  lemma ExampleGroups(t: seq<Annual>, m1: real, m2: real)
    requires t == [Annual(2021.0, 10.0, m1, 2.0), Annual(2021.0, 20.0, m2, 5.0)]
    ensures ValuesOf(ByYear(t, TotalField), 2021.0) == [10.0, 20.0]
    ensures ValuesOf(ByYear(t, MeanField), 2021.0) == [m1, m2]
    ensures ValuesOf(ByYear(t, MedianField), 2021.0) == [2.0, 5.0]
  {
    assert t[1..][1..] == [];
  }

  /** The boolean mask `year >= 2000 & year <= 2100`: the lines inside the
      range, in their order. */
  function InCentury(t: seq<Annual>): (r: seq<Annual>)
    ensures forall a :: a in r <==> a in t && FirstYear <= a.year <= LastYear
    ensures YearsIncreasing(t) ==> YearsIncreasing(r)
  {
    if t == [] then []
    else
      var rest := InCentury(t[1..]);
      assert t == [t[0]] + t[1..];
      if FirstYear <= t[0].year <= LastYear then
        YearsIncreasingCons(t, rest);
        [t[0]] + rest
      else rest
  }

  lemma YearsIncreasingCons(t: seq<Annual>, rest: seq<Annual>)
    requires |t| > 0 && forall a :: a in rest ==> a in t[1..]
    requires YearsIncreasing(t) ==> YearsIncreasing(rest)
    ensures YearsIncreasing(t) ==> YearsIncreasing([t[0]] + rest)
  {
    if YearsIncreasing(t) {
      forall i | 0 <= i < |rest| ensures t[0].year < rest[i].year {
        assert rest[i] in t[1..];
      }
    }
  }

  /** Why `process_folder` stops: no file could be read, so the stacked table
      has no `year` column (KeyError); or no year falls in 2000..2100, so
      `idxmin` has nothing to choose from (ValueError). */
  datatype FolderError = NoYearColumn | NoExtremes

  /** What `process_folder` prints, plots and exports. */
  datatype FolderSummary = FolderSummary(table: seq<Annual>, variationRate: seq<Option<real>>, driest: Annual, wettest: Annual)

  /** What one file adds to the stack: its annual table, or nothing when
      reading it raised (the error is printed and the loop goes on). */
  function FileContribution(fr: FileRead, conv: Converter): seq<Annual>
  {
    match fr
    case Lines(ls) => FileSummary(CleanFrame(Ingest(ls, SkipsHeader)), conv)
    case _ => []
  }

  /** Each file's contribution, in file order. */
  function Contributions(files: seq<FileRead>, conv: Converter): (ts: seq<seq<Annual>>)
    ensures |ts| == |files|
    ensures forall i :: 0 <= i < |files| ==> ts[i] == FileContribution(files[i], conv)
  {
    Map(FileStep(conv), files)
  }

  function FileStep(conv: Converter): FileRead -> seq<Annual>
  {
    fr => FileContribution(fr, conv)
  }

  /** The per-file tables stacked in file order. */
  function Stacked(files: seq<FileRead>, conv: Converter): seq<Annual>
  {
    Flatten(Contributions(files, conv))
  }

  predicate AnyReadable(files: seq<FileRead>)
  {
    exists i :: 0 <= i < |files| && files[i].Lines?
  }

  /** What `process_folder` computes from the files of a folder. */
  function FolderResult(files: seq<FileRead>, conv: Converter): Result<FolderSummary, FolderError>
  {
    if !AnyReadable(files) then Err(NoYearColumn)
    else
      var g := InCentury(Regroup(Stacked(files, conv)));
      match FindExtremeYears(g) {
        case None => Err(NoExtremes)
        case Some(e) => Ok(FolderSummary(g, VariationRates(Totals(g)), e.driest, e.wettest))
      }
  }

  /** `process_folder`: reads the files one after the other, skipping those
      that raise, then regroups, filters, rates and finds the extremes. */
  method ProcessFolder(files: seq<FileRead>, conv: Converter) returns (r: Result<FolderSummary, FolderError>)
    ensures r == FolderResult(files, conv)
  {
    var allData: seq<Annual> := [];
    var anyRead := false;
    for i := 0 to |files|
      invariant allData == Stacked(files[..i], conv)
      invariant anyRead <==> AnyReadable(files[..i])
    {
      StackedSnoc(files, i, conv);
      AnyReadableSnoc(files, i);
      match files[i] {
        case Lines(ls) =>
          var df := new DataFrame(Ingest(ls, SkipsHeader));
          var t := CalculateAnnualPrecipitation(df, conv);
          t.AddVariationRate();
          allData := allData + t.rows;
          anyRead := true;
        case _ =>
      }
    }
    assert files[..|files|] == files;
    if !anyRead {
      return Err(NoYearColumn);
    }
    var grouped := new AnnualTable(InCentury(Regroup(allData)));
    grouped.AddVariationRate();
    var extremes := FindExtremeYears(grouped.rows);
    match extremes {
      case None =>
        r := Err(NoExtremes);
      case Some(e) =>
        r := Ok(FolderSummary(grouped.rows, grouped.variationRate.value, e.driest, e.wettest));
    }
  }

  /** One more file adds its contribution at the end. */
  lemma StackedSnoc(files: seq<FileRead>, i: nat, conv: Converter)
    requires i < |files|
    ensures Stacked(files[..i + 1], conv) == Stacked(files[..i], conv) + FileContribution(files[i], conv)
  {
    FlattenMapSnoc(FileStep(conv), files, i);
  }

  lemma AnyReadableSnoc(files: seq<FileRead>, i: nat)
    requires i < |files|
    ensures AnyReadable(files[..i + 1]) <==> AnyReadable(files[..i]) || files[i].Lines?
  {
    if files[i].Lines? {
      assert files[..i + 1][i].Lines?;
    }
    if AnyReadable(files[..i + 1]) && !files[i].Lines? {
      var j :| 0 <= j < i + 1 && files[..i + 1][j].Lines?;
      assert files[..i][j].Lines?;
    }
    if AnyReadable(files[..i]) {
      var j :| 0 <= j < i && files[..i][j].Lines?;
      assert files[..i + 1][j].Lines?;
    }
  }

  /** A file whose reading raises is skipped and the remaining files are
      still processed, as if it were not in the folder. */
  lemma FailingFileSkipped(before: seq<FileRead>, after: seq<FileRead>, conv: Converter)
    ensures Stacked(before + [ReadFailure] + after, conv) == Stacked(before + after, conv)
  {
    ContributionsConcat(before + [ReadFailure], after, conv);
    ContributionsConcat(before, [ReadFailure], conv);
    ContributionsConcat(before, after, conv);
    FailureContributesNothing(conv);
    FlattenSkipsEmpty(Contributions(before, conv), Contributions(after, conv));
  }

  lemma FailureContributesNothing(conv: Converter)
    ensures Contributions([ReadFailure], conv) == [[]]
  {
  }

  lemma ContributionsConcat(a: seq<FileRead>, b: seq<FileRead>, conv: Converter)
    ensures Contributions(a + b, conv) == Contributions(a, conv) + Contributions(b, conv)
  {
    MapConcat(FileStep(conv), a, b);
  }

  /** The summary table of a stack: only years 2000..2100, in ascending
      order, each with the sum of the per-file totals of that year, and every
      such year of the stack present. */
  lemma CenturyTableMeaning(t: seq<Annual>)
    ensures var c := InCentury(Regroup(t));
      && YearsIncreasing(c)
      && (forall a :: a in c ==>
            && FirstYear <= a.year <= LastYear
            && a.year in YearSet(t)
            && a.total == Sum(ValuesOf(ByYear(t, TotalField), a.year)))
      && (forall y :: y in YearSet(t) && FirstYear <= y <= LastYear ==> exists a :: a in c && a.year == y)
  {
    var g := Regroup(t);
    CenturyLines(t, g);
    CenturyYears(t, g);
  }

  lemma CenturyLines(t: seq<Annual>, g: seq<Annual>)
    requires forall j :: 0 <= j < |g| ==> g[j].year in YearSet(t) && g[j] == Merge(t, g[j].year)
    ensures forall a :: a in InCentury(g) ==>
      && FirstYear <= a.year <= LastYear
      && a.year in YearSet(t)
      && a.total == Sum(ValuesOf(ByYear(t, TotalField), a.year))
  {
    forall a | a in InCentury(g)
      ensures FirstYear <= a.year <= LastYear && a.year in YearSet(t)
      ensures a.total == Sum(ValuesOf(ByYear(t, TotalField), a.year))
    {
      var j :| 0 <= j < |g| && g[j] == a;
    }
  }

  lemma CenturyYears(t: seq<Annual>, g: seq<Annual>)
    requires forall y :: y in YearSet(t) ==> exists j :: 0 <= j < |g| && g[j].year == y
    ensures forall y :: y in YearSet(t) && FirstYear <= y <= LastYear ==> exists a :: a in InCentury(g) && a.year == y
  {
    forall y | y in YearSet(t) && FirstYear <= y <= LastYear
      ensures exists a :: a in InCentury(g) && a.year == y
    {
      var j :| 0 <= j < |g| && g[j].year == y;
      assert g[j] in g;
    }
  }

  /** The folder summary fails exactly when no file could be read or no year
      of 2000..2100 remains; otherwise its table is the century table of the
      stacked per-file tables, its rates compare consecutive lines, and its
      extremes are lines of the table bounding every total. */
  lemma FolderResultMeaning(files: seq<FileRead>, conv: Converter)
    ensures FolderResult(files, conv).Err? <==>
      !AnyReadable(files) || InCentury(Regroup(Stacked(files, conv))) == []
    ensures FolderResult(files, conv).Ok? ==>
      var s := FolderResult(files, conv).value;
      && s.table == InCentury(Regroup(Stacked(files, conv)))
      && s.variationRate == VariationRates(Totals(s.table))
      && s.driest in s.table && s.wettest in s.table
      && (forall a :: a in s.table ==> s.driest.total <= a.total <= s.wettest.total)
  {
  }
}
