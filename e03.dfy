/** E03/E03.py: every `.dat` file is read into its own frame, the frames are
    cleaned in place, and whole-frame statistics are computed on their
    concatenation: the share of missing cells, per-year totals over every
    non-year column, their mean, sum and mean change, the wettest and driest
    year, and the monthly averages over every non-month column. */
module E03 {
  import opened Wrappers
  import opened Seqs
  import opened Stats
  import opened Grouping
  import opened Frame
  import opened Pipeline

  /** `read_dat_file` passes `skiprows=1`. */
  const SkipsHeader: bool := true

  // ---------------------------------------------------------------------
  // Reading and cleaning

  /** The frames of the files that read, in file order. */
  function ReadFrames(files: seq<FileRead>): (fs: seq<Frame>)
    ensures |fs| <= |files|
  {
    if files == [] then []
    else
      var last := files[|files| - 1];
      ReadFrames(files[..|files| - 1]) + (if last.Lines? then [Ingest(last.lines, SkipsHeader)] else [])
  }

  lemma {:induction false} ReadFramesConcat(a: seq<FileRead>, b: seq<FileRead>)
    ensures ReadFrames(a + b) == ReadFrames(a) + ReadFrames(b)
  {
    if b == [] {
      assert a + b == a;
    } else {
      var n := |b| - 1;
      assert (a + b)[..|a + b| - 1] == a + b[..n];
      assert (a + b)[|a + b| - 1] == b[n];
      ReadFramesConcat(a, b[..n]);
    }
  }

  /** A file that raises while being read is skipped; the others are kept. */
  lemma FailingFileSkipped(before: seq<FileRead>, after: seq<FileRead>)
    ensures ReadFrames(before + [ReadFailure] + after) == ReadFrames(before + after)
  {
    ReadFramesConcat(before + [ReadFailure], after);
    ReadFramesConcat(before, [ReadFailure]);
    ReadFramesConcat(before, after);
    assert [ReadFailure][..0] == [];
  }

  /** When every file reads, there is one frame per file, in file order. */
  lemma {:induction false} AllFilesRead(files: seq<FileRead>)
    requires forall i :: 0 <= i < |files| ==> files[i].Lines?
    ensures |ReadFrames(files)| == |files|
    ensures forall i :: 0 <= i < |files| ==> ReadFrames(files)[i] == Ingest(files[i].lines, SkipsHeader)
  {
    if files != [] {
      AllFilesRead(files[..|files| - 1]);
    }
  }

  /** `process_files`: one new frame per file that reads, in file order; a
      file whose reading raises is logged and skipped. */
  method ProcessFiles(files: seq<FileRead>) returns (dfs: seq<DataFrame>)
    ensures |dfs| == |ReadFrames(files)|
    ensures forall j :: 0 <= j < |dfs| ==> fresh(dfs[j]) && dfs[j].rows == ReadFrames(files)[j]
  {
    dfs := [];
    for i := 0 to |files|
      invariant |dfs| == |ReadFrames(files[..i])|
      invariant forall j :: 0 <= j < |dfs| ==> fresh(dfs[j]) && dfs[j].rows == ReadFrames(files[..i])[j]
    {
      assert files[..i + 1][..i] == files[..i];
      if files[i].Lines? {
        var df := new DataFrame(Ingest(files[i].lines, SkipsHeader));
        dfs := dfs + [df];
      }
    }
    assert files[..|files|] == files;
  }

  /** `check_data_consistency`: the sentinel becomes missing in every column
      of the caller's frame, and the same frame is handed back. */
  method CheckDataConsistency(df: DataFrame) returns (same: DataFrame)
    modifies df
    ensures same == df
    ensures df.rows == CleanFrame(old(df.rows))
  {
    df.ReplaceSentinel();
    same := df;
  }

  // ---------------------------------------------------------------------
  // Columns and cell sums

  type ColIndex = c: nat | c < Width

  /** The columns below n other than x, ascending. */
  function ColumnsBelow(n: nat, x: nat): (cs: seq<ColIndex>)
    requires n <= Width
    ensures forall c: ColIndex :: c in cs <==> c < n && c != x
    ensures forall i, j :: 0 <= i < j < |cs| ==> cs[i] < cs[j]
    ensures forall i :: 0 <= i < |cs| ==> cs[i] < n
  {
    if n == 0 then []
    else ColumnsBelow(n - 1, x) + (if n - 1 == x then [] else [n - 1])
  }

  /** What `groupby('year').sum()` sums: id, month and the 31 days. */
  function NonYearColumns(): (cs: seq<ColIndex>)
    ensures forall c: ColIndex :: c in cs <==> c != YearCol
  {
    ColumnsBelow(Width, YearCol)
  }

  /** What `groupby('month').mean()` averages: id, year and the 31 days. */
  function NonMonthColumns(): (cs: seq<ColIndex>)
    ensures forall c: ColIndex :: c in cs <==> c != MonthCol
  {
    ColumnsBelow(Width, MonthCol)
  }

  /** What a cell adds to a sum that skips missing values. */
  function CellValue(c: Cell): real
  {
    if c.Num? then c.v else 0.0
  }

  /** The reference: the non-missing cells of one row, over the columns cs. */
  function RowTotal(r: Row, cs: seq<ColIndex>): real
  {
    if cs == [] then 0.0 else CellValue(r[cs[0]]) + RowTotal(r, cs[1..])
  }

  /** The reference: every non-missing cell of the frame in the columns cs,
      row by row. */
  function RowsTotal(f: Frame, cs: seq<ColIndex>): real
  {
    if f == [] then 0.0 else RowTotal(f[0], cs) + RowsTotal(f[1..], cs)
  }

  /** A column's `sum()`, skipping missing cells. */
  function ColumnSum(f: Frame, c: ColIndex): real
  {
    if f == [] then 0.0 else CellValue(f[0][c]) + ColumnSum(f[1..], c)
  }

  /** `.sum(axis=1)` of the column sums: the pandas order, column by column. */
  function ColumnsTotal(f: Frame, cs: seq<ColIndex>): real
  {
    if cs == [] then 0.0 else ColumnSum(f, cs[0]) + ColumnsTotal(f, cs[1..])
  }

  lemma {:induction false} ColumnsTotalOfNothing(cs: seq<ColIndex>)
    ensures ColumnsTotal([], cs) == 0.0
  {
    if cs != [] {
      ColumnsTotalOfNothing(cs[1..]);
    }
  }

  lemma {:induction false} ColumnsTotalFront(f: Frame, cs: seq<ColIndex>)
    requires f != []
    ensures ColumnsTotal(f, cs) == RowTotal(f[0], cs) + ColumnsTotal(f[1..], cs)
  {
    if cs != [] {
      ColumnsTotalFront(f, cs[1..]);
    }
  }

  /** Summing column by column gives the sum of every cell. */
  lemma {:induction false} SumInEitherOrder(f: Frame, cs: seq<ColIndex>)
    ensures ColumnsTotal(f, cs) == RowsTotal(f, cs)
  {
    if f == [] {
      ColumnsTotalOfNothing(cs);
    } else {
      ColumnsTotalFront(f, cs);
      SumInEitherOrder(f[1..], cs);
    }
  }

  // ---------------------------------------------------------------------
  // Grouping the concatenated frame

  /** The rows whose cell in column key is the number k, in row order. */
  function Group(f: Frame, key: ColIndex, k: real): (g: Frame)
    ensures |g| <= |f|
  {
    if f == [] then []
    else (if f[0][key] == Num(k) then [f[0]] else []) + Group(f[1..], key, k)
  }

  /** (key, row total) for each row whose key cell is a number; rows with a
      missing key are dropped, as `groupby` drops NA keys. */
  function Pairs(f: Frame, key: ColIndex, cs: seq<ColIndex>): (ps: Keyed)
  {
    if f == [] then []
    else (if f[0][key].Num? then [(f[0][key].v, RowTotal(f[0], cs))] else []) + Pairs(f[1..], key, cs)
  }

  lemma {:induction false} GroupOfPairs(f: Frame, key: ColIndex, cs: seq<ColIndex>, k: real)
    ensures Sum(ValuesOf(Pairs(f, key, cs), k)) == RowsTotal(Group(f, key, k), cs)
  {
    if f != [] {
      var ps := Pairs(f, key, cs);
      var head := if f[0][key].Num? then [(f[0][key].v, RowTotal(f[0], cs))] else [];
      ValuesOfConcat(head, Pairs(f[1..], key, cs), k);
      if f[0][key].Num? {
        assert ValuesOf(head, k) == (if f[0][key].v == k then [RowTotal(f[0], cs)] else []) + ValuesOf([], k);
      }
      SumConcat(ValuesOf(head, k), ValuesOf(Pairs(f[1..], key, cs), k));
      GroupOfPairs(f[1..], key, cs, k);
      var top := if f[0][key] == Num(k) then [f[0]] else [];
      assert Group(f, key, k) == top + Group(f[1..], key, k);
      if top != [] {
        assert (top + Group(f[1..], key, k))[1..] == Group(f[1..], key, k);
      } else {
        assert top + Group(f[1..], key, k) == Group(f[1..], key, k);
      }
    }
  }

  predicate YearsNumeric(f: Frame)
  {
    forall i :: 0 <= i < |f| ==> f[i][YearCol].Num?
  }

  lemma {:induction false} PairsTotal(f: Frame, key: ColIndex, cs: seq<ColIndex>)
    requires forall i :: 0 <= i < |f| ==> f[i][key].Num?
    ensures |Pairs(f, key, cs)| == |f|
    ensures Sum(Values(Pairs(f, key, cs))) == RowsTotal(f, cs)
  {
    if f != [] {
      PairsTotal(f[1..], key, cs);
      var ps := Pairs(f, key, cs);
      assert ps[1..] == Pairs(f[1..], key, cs);
    }
  }

  /** Truncation toward zero, as `astype(int)` converts a float. */
  function Trunc(v: real): (n: int)
    ensures v >= 0.0 ==> n as real <= v < n as real + 1.0
    ensures v < 0.0 ==> n as real - 1.0 < v <= n as real
  {
    if v >= 0.0 then v.Floor else -((-v).Floor)
  }

  /** `combined_df['year'] = combined_df['year'].astype(int)`. */
  function Retyped(f: Frame): (g: Frame)
    requires YearsNumeric(f)
    ensures |g| == |f| && YearsNumeric(g)
    ensures forall i, j :: 0 <= i < |f| && 0 <= j < Width ==>
      g[i][j] == if j == YearCol then Num(Trunc(f[i][j].v) as real) else f[i][j]
  {
    seq(|f|, i requires 0 <= i < |f| => f[i][YearCol := Num(Trunc(f[i][YearCol].v) as real)])
  }

  /** The years of `annual_data`, ascending. */
  function YearKeys(g: Frame): (ks: seq<real>)
    ensures Increasing(ks)
    ensures forall y :: y in ks <==> y in KeySet(Pairs(g, YearCol, NonYearColumns()))
  {
    Keys(Pairs(g, YearCol, NonYearColumns()))
  }

  /** `groupby('year').sum().sum(axis=1)`, one value per year of ks. */
  function AnnualValues(g: Frame, ks: seq<real>): (vs: seq<real>)
    ensures |vs| == |ks|
  {
    seq(|ks|, j requires 0 <= j < |ks| => ColumnsTotal(Group(g, YearCol, ks[j]), NonYearColumns()))
  }

  /** Each year's value is every non-missing cell outside the year column of
      that year's rows, so the values add up to all such cells of the frame. */
  lemma AnnualValuesAddUp(g: Frame)
    requires YearsNumeric(g)
    ensures Sum(AnnualValues(g, YearKeys(g))) == RowsTotal(g, NonYearColumns())
  {
    var cs := NonYearColumns();
    var ps := Pairs(g, YearCol, cs);
    var ks := YearKeys(g);
    var vs := AnnualValues(g, ks);
    forall j | 0 <= j < |ks| ensures vs[j] == GroupSums(ps, ks)[j] {
      GroupSumsAt(ps, ks, j);
      GroupOfPairs(g, YearCol, cs, ks[j]);
      SumInEitherOrder(Group(g, YearCol, ks[j]), cs);
    }
    assert vs == GroupSums(ps, ks);
    GroupSumsAddUp(ps, ks);
    PairsTotal(g, YearCol, cs);
  }

  /** A year's value is the sum of the cells of that year's rows. */
  lemma AnnualValueOfYear(g: Frame, ks: seq<real>, j: nat)
    requires j < |ks|
    ensures AnnualValues(g, ks)[j] == RowsTotal(Group(g, YearCol, ks[j]), NonYearColumns())
  {
    SumInEitherOrder(Group(g, YearCol, ks[j]), NonYearColumns());
  }

  lemma {:induction false} KeysOfNothing(ps: Keyed)
    ensures Keys(ps) == [] <==> ps == []
  {
    if ps != [] {
      assert ps[0].0 in KeySet(ps);
    }
  }

  /** Re-typing the year column leaves every other column's total alone. */
  lemma {:induction false} RowTotalIgnores(r: Row, s: Row, cs: seq<ColIndex>, x: nat)
    requires forall j :: 0 <= j < Width && j != x ==> r[j] == s[j]
    requires forall i :: 0 <= i < |cs| ==> cs[i] != x
    ensures RowTotal(r, cs) == RowTotal(s, cs)
  {
    if cs != [] {
      RowTotalIgnores(r, s, cs[1..], x);
    }
  }

  lemma {:induction false} RetypedTotal(f: Frame, g: Frame)
    requires |f| == |g|
    requires forall i, j :: 0 <= i < |f| && 0 <= j < Width && j != YearCol ==> f[i][j] == g[i][j]
    ensures RowsTotal(g, NonYearColumns()) == RowsTotal(f, NonYearColumns())
  {
    if f != [] {
      var cs := NonYearColumns();
      assert forall i :: 0 <= i < |cs| ==> cs[i] != YearCol by {
        forall i | 0 <= i < |cs| ensures cs[i] != YearCol {
          assert cs[i] in cs;
        }
      }
      RowTotalIgnores(f[0], g[0], cs, YearCol);
      RetypedTotal(f[1..], g[1..]);
    }
  }

  // ---------------------------------------------------------------------
  // Missing share

  function CountMissing(r: seq<Cell>): (n: nat)
    ensures n <= |r|
  {
    if r == [] then 0 else (if r[0].Missing? then 1 else 0) + CountMissing(r[1..])
  }

  /** `isna().sum().sum()`. */
  function FrameMissing(f: Frame): (n: nat)
    ensures n <= |f| * Width
  {
    if f == [] then 0 else CountMissing(f[0]) + FrameMissing(f[1..])
  }

  /** `isna().sum().sum() / size * 100`; 0/0 (NaN, None) on an empty frame. */
  function MissingPercent(f: Frame): (p: Option<real>)
    ensures p.None? <==> f == []
    ensures p.Some? ==> 0.0 <= p.value <= 100.0
    ensures p.Some? ==> (p.value == 0.0 <==> FrameMissing(f) == 0)
  {
    if f == [] then None
    else Some(FrameMissing(f) as real / ((|f| * Width) as real) * 100.0)
  }

  // ---------------------------------------------------------------------
  // Monthly averages

  /** The non-missing values of column c, in row order. */
  function NumValues(f: Frame, c: ColIndex): (vs: seq<real>)
    ensures |vs| == 0 <==> forall i :: 0 <= i < |f| ==> !f[i][c].Num?
  {
    if f == [] then []
    else (if f[0][c].Num? then [f[0][c].v] else []) + NumValues(f[1..], c)
  }

  /** A column's `mean()`, skipping missing cells; NaN (None) if all are. */
  function ColumnMean(f: Frame, c: ColIndex): Option<real>
  {
    var vs := NumValues(f, c);
    if vs == [] then None else Some(Mean(vs))
  }

  /** The defined entries, in order. */
  function Defined(s: seq<Option<real>>): (d: seq<real>)
    ensures |d| == 0 <==> forall i :: 0 <= i < |s| ==> s[i].None?
  {
    if s == [] then []
    else (if s[0].Some? then [s[0].value] else []) + Defined(s[1..])
  }

  /** `mean(axis=1)`: the mean of the defined entries, NaN if none. */
  function MeanOfDefined(s: seq<Option<real>>): Option<real>
  {
    var d := Defined(s);
    if d == [] then None else Some(Mean(d))
  }

  /** `max()` skipping NaN: the largest defined entry, NaN if none. */
  function MaxDefined(s: seq<Option<real>>): (r: Option<real>)
    ensures r.None? <==> forall i :: 0 <= i < |s| ==> s[i].None?
    ensures r.Some? ==> exists i :: 0 <= i < |s| && s[i] == r
    ensures r.Some? ==> forall i :: 0 <= i < |s| && s[i].Some? ==> s[i].value <= r.value
  {
    if s == [] then None
    else
      var m := MaxDefined(s[..|s| - 1]);
      var x := s[|s| - 1];
      if x.None? then m
      else if m.None? || m.value < x.value then x
      else m
  }

  /** `min()` skipping NaN: the smallest defined entry, NaN if none. */
  function MinDefined(s: seq<Option<real>>): (r: Option<real>)
    ensures r.None? <==> forall i :: 0 <= i < |s| ==> s[i].None?
    ensures r.Some? ==> exists i :: 0 <= i < |s| && s[i] == r
    ensures r.Some? ==> forall i :: 0 <= i < |s| && s[i].Some? ==> r.value <= s[i].value
  {
    if s == [] then None
    else
      var m := MinDefined(s[..|s| - 1]);
      var x := s[|s| - 1];
      if x.None? then m
      else if m.None? || x.value < m.value then x
      else m
  }

  /** The months of `monthly_avg`, ascending; rows with a missing month are
      not grouped. */
  function MonthKeys(g: Frame): (ms: seq<real>)
    ensures Increasing(ms)
  {
    Keys(Pairs(g, MonthCol, NonMonthColumns()))
  }

  /** The per-column means of one month's rows, over id, year and the days. */
  function ColumnMeans(f: Frame): (cm: seq<Option<real>>)
    ensures |cm| == |NonMonthColumns()|
  {
    var cs := NonMonthColumns();
    seq(|cs|, c requires 0 <= c < |cs| => ColumnMean(f, cs[c]))
  }

  /** `groupby('month').mean().mean(axis=1)`, one entry per month of ms. */
  function MonthlyAverages(g: Frame, ms: seq<real>): (avg: seq<Option<real>>)
    ensures |avg| == |ms|
  {
    seq(|ms|, j requires 0 <= j < |ms| => MeanOfDefined(ColumnMeans(Group(g, MonthCol, ms[j]))))
  }

  // ---------------------------------------------------------------------
  // calculate_statistics

  /** Why `calculate_statistics` raises, in the order the failures arise:
      no frame (ValueError), a year that `astype(int)` cannot convert, a
      token that is not a number (`mean` on text), and an empty
      `annual_data` (`idxmax` of an empty series). */
  datatype StatsError = NoFiles | YearCast | NonNumeric | NoAnnualData

  datatype Statistics = Statistics(
    missingPercent: Option<real>,
    annualAvg: real,
    annualTotals: real,
    annualDiff: Option<real>,
    wettestYear: real,
    driestYear: real,
    highestMonthlyAvg: Option<real>,
    lowestMonthlyAvg: Option<real>)

  predicate NoText(f: Frame)
  {
    forall i, j :: 0 <= i < |f| && 0 <= j < Width ==> !f[i][j].Text?
  }

  /** The statistics of a concatenation whose years are numbers and whose
      annual series is not empty. */
  function Summary(f: Frame, g: Frame, ks: seq<real>): Statistics
    requires |ks| > 0
  {
    var vs := AnnualValues(g, ks);
    var months := MonthlyAverages(g, MonthKeys(g));
    Statistics(MissingPercent(f), Mean(vs), Sum(vs), DiffMean(vs),
      ks[FirstArgMax(vs)], ks[FirstArgMin(vs)], MaxDefined(months), MinDefined(months))
  }

  /** `calculate_statistics` on the list of cleaned frames. */
  function CalculateStatistics(dfs: seq<Frame>): Result<Statistics, StatsError>
  {
    if dfs == [] then Err(NoFiles)
    else if !YearsNumeric(Flatten(dfs)) then Err(YearCast)
    else if !NoText(Flatten(dfs)) then Err(NonNumeric)
    else if YearKeys(Retyped(Flatten(dfs))) == [] then Err(NoAnnualData)
    else Ok(Summary(Flatten(dfs), Retyped(Flatten(dfs)), YearKeys(Retyped(Flatten(dfs)))))
  }

  /** The failures: no frame at all, and an annual series that is empty
      exactly when every frame is (given numeric years and cells). */
  lemma StatisticsErrors(dfs: seq<Frame>)
    ensures CalculateStatistics(dfs) == Err(NoFiles) <==> dfs == []
    ensures dfs != [] && YearsNumeric(Flatten(dfs)) && NoText(Flatten(dfs)) ==>
      (CalculateStatistics(dfs) == Err(NoAnnualData) <==> forall i :: 0 <= i < |dfs| ==> dfs[i] == [])
    ensures CalculateStatistics(dfs).Ok? ==> YearsNumeric(Flatten(dfs)) && NoText(Flatten(dfs))
  {
    if dfs != [] && YearsNumeric(Flatten(dfs)) && NoText(Flatten(dfs)) {
      var f := Flatten(dfs);
      var g := Retyped(f);
      KeysOfNothing(Pairs(g, YearCol, NonYearColumns()));
      PairsTotal(g, YearCol, NonYearColumns());
      FlattenEmpty(dfs);
    }
  }

  /** What the statistics promise about the annual series (years ks,
      values vs) of the concatenation f: the missing share is a percentage;
      the annual total is every non-missing cell outside the year column;
      the average is that total spread over the years; the mean change is
      (last - first) / (n - 1), undefined for a single year; the wettest and
      driest years are the first years holding the largest and the smallest
      value. */
  ghost predicate AnnualClaims(f: Frame, ks: seq<real>, vs: seq<real>, s: Statistics)
  {
    SeriesClaims(f, vs, s) && ExtremeClaims(ks, vs, s)
  }

  ghost predicate SeriesClaims(f: Frame, vs: seq<real>, s: Statistics)
  {
    && |vs| > 0
    && s.missingPercent.Some? && 0.0 <= s.missingPercent.value <= 100.0
    && s.annualTotals == RowsTotal(f, NonYearColumns())
    && s.annualAvg == s.annualTotals / (|vs| as real)
    && (|vs| == 1 ==> s.annualDiff.None?)
    && (|vs| >= 2 ==> s.annualDiff == Some((vs[|vs| - 1] - vs[0]) / ((|vs| - 1) as real)))
  }

  ghost predicate ExtremeClaims(ks: seq<real>, vs: seq<real>, s: Statistics)
  {
    && |vs| == |ks| > 0
    && (exists j :: 0 <= j < |ks| && ks[j] == s.wettestYear
          && (forall i :: 0 <= i < |vs| ==> vs[i] <= vs[j])
          && (forall i :: 0 <= i < j ==> vs[i] < vs[j]))
    && (exists j :: 0 <= j < |ks| && ks[j] == s.driestYear
          && (forall i :: 0 <= i < |vs| ==> vs[j] <= vs[i])
          && (forall i :: 0 <= i < j ==> vs[j] < vs[i]))
  }

  /** A successful call keeps every promise about the annual series. */
  lemma StatisticsMeaning(dfs: seq<Frame>)
    requires CalculateStatistics(dfs).Ok?
    ensures YearsNumeric(Flatten(dfs))
    ensures AnnualClaims(Flatten(dfs), YearKeys(Retyped(Flatten(dfs))),
      AnnualValues(Retyped(Flatten(dfs)), YearKeys(Retyped(Flatten(dfs)))), CalculateStatistics(dfs).value)
  {
    var f := Flatten(dfs);
    var g := Retyped(f);
    var ks := YearKeys(g);
    SummaryMeaning(f, g, ks, AnnualValues(g, ks), CalculateStatistics(dfs).value);
  }

  lemma SummaryMeaning(f: Frame, g: Frame, ks: seq<real>, vs: seq<real>, s: Statistics)
    requires YearsNumeric(f) && g == Retyped(f)
    requires ks == YearKeys(g) && |ks| > 0
    requires vs == AnnualValues(g, ks) && s == Summary(f, g, ks)
    ensures AnnualClaims(f, ks, vs, s)
  {
    assert s.missingPercent == MissingPercent(f) && s.annualAvg == Mean(vs) && s.annualTotals == Sum(vs)
      && s.annualDiff == DiffMean(vs) && s.wettestYear == ks[FirstArgMax(vs)] && s.driestYear == ks[FirstArgMin(vs)];
    AnnualMeaning(f, g, ks, vs);
    SeriesFacts(f, vs, s);
    ExtremeYears(ks, vs, s);
  }

  lemma SeriesFacts(f: Frame, vs: seq<real>, s: Statistics)
    requires f != [] && |vs| > 0 && Sum(vs) == RowsTotal(f, NonYearColumns())
    requires s.missingPercent == MissingPercent(f) && s.annualAvg == Mean(vs) && s.annualTotals == Sum(vs)
    requires s.annualDiff == DiffMean(vs)
    ensures SeriesClaims(f, vs, s)
  {
    DiffMeanIsSlope(vs);
  }

  /** The annual series sums every non-missing cell outside the year column
      of the (non-empty) concatenation. */
  lemma AnnualMeaning(f: Frame, g: Frame, ks: seq<real>, vs: seq<real>)
    requires YearsNumeric(f) && g == Retyped(f)
    requires ks == YearKeys(g) && |ks| > 0 && vs == AnnualValues(g, ks)
    ensures f != []
    ensures Sum(vs) == RowsTotal(f, NonYearColumns())
  {
    KeysOfNothing(Pairs(g, YearCol, NonYearColumns()));
    PairsTotal(g, YearCol, NonYearColumns());
    AnnualValuesAddUp(g);
    RetypedTotal(f, g);
  }

  lemma ExtremeYears(ks: seq<real>, vs: seq<real>, s: Statistics)
    requires |vs| == |ks| > 0
    requires s.wettestYear == ks[FirstArgMax(vs)] && s.driestYear == ks[FirstArgMin(vs)]
    ensures ExtremeClaims(ks, vs, s)
  {
    var hi, lo := FirstArgMax(vs), FirstArgMin(vs);
    assert 0 <= hi < |ks| && ks[hi] == s.wettestYear
      && (forall i :: 0 <= i < |vs| ==> vs[i] <= vs[hi])
      && (forall i :: 0 <= i < hi ==> vs[i] < vs[hi]);
    assert 0 <= lo < |ks| && ks[lo] == s.driestYear
      && (forall i :: 0 <= i < |vs| ==> vs[lo] <= vs[i])
      && (forall i :: 0 <= i < lo ==> vs[lo] < vs[i]);
  }

  /** `highest_monthly_avg` and `lowest_monthly_avg` are both defined exactly
      when some month has a defined average; each is one of the monthly
      averages, and together they bound every defined one. */
  ghost predicate MonthlyClaims(avg: seq<Option<real>>, s: Statistics)
  {
    && (s.highestMonthlyAvg.Some? <==> exists i :: 0 <= i < |avg| && avg[i].Some?)
    && (s.highestMonthlyAvg.Some? <==> s.lowestMonthlyAvg.Some?)
    && (s.highestMonthlyAvg.Some? ==> s.highestMonthlyAvg in avg && s.lowestMonthlyAvg in avg)
    && forall i :: 0 <= i < |avg| && avg[i].Some? ==>
         s.lowestMonthlyAvg.Some? && s.lowestMonthlyAvg.value <= avg[i].value <= s.highestMonthlyAvg.value
  }

  /** A successful call keeps the promises about the monthly averages. */
  lemma MonthlyExtremes(dfs: seq<Frame>)
    requires CalculateStatistics(dfs).Ok?
    ensures YearsNumeric(Flatten(dfs))
    ensures MonthlyClaims(MonthlyAverages(Retyped(Flatten(dfs)), MonthKeys(Retyped(Flatten(dfs)))),
      CalculateStatistics(dfs).value)
  {
    var g := Retyped(Flatten(dfs));
    var avg := MonthlyAverages(g, MonthKeys(g));
    var s := CalculateStatistics(dfs).value;
    assert s.highestMonthlyAvg == MaxDefined(avg) && s.lowestMonthlyAvg == MinDefined(avg);
    MonthlyBounds(avg, s);
  }

  lemma MonthlyBounds(avg: seq<Option<real>>, s: Statistics)
    requires s.highestMonthlyAvg == MaxDefined(avg) && s.lowestMonthlyAvg == MinDefined(avg)
    ensures MonthlyClaims(avg, s)
  {
  }

  /** Each month's average is defined exactly when one of that month's
      column means is, and then lies between the smallest and the largest of
      them. */
  lemma MonthlyAverageWithin(g: Frame, ms: seq<real>, j: nat)
    requires j < |ms|
    ensures var cm := ColumnMeans(Group(g, MonthCol, ms[j]));
      var a := MonthlyAverages(g, ms)[j];
      && (a.Some? <==> MaxDefined(cm).Some?)
      && (a.Some? ==> MinDefined(cm).value <= a.value <= MaxDefined(cm).value)
  {
    var cm := ColumnMeans(Group(g, MonthCol, ms[j]));
    var d := Defined(cm);
    if d != [] {
      forall i | 0 <= i < |d| ensures MinDefined(cm).value <= d[i] <= MaxDefined(cm).value {
        DefinedFrom(cm, i);
      }
      MeanWithin(d, MinDefined(cm).value, MaxDefined(cm).value);
    }
  }

  /** Every defined entry comes from an entry of the sequence. */
  lemma {:induction false} DefinedFrom(s: seq<Option<real>>, i: nat)
    requires i < |Defined(s)|
    ensures exists k :: 0 <= k < |s| && s[k] == Some(Defined(s)[i])
  {
    var head := if s[0].Some? then [s[0].value] else [];
    if i < |head| {
      assert s[0] == Some(Defined(s)[i]);
    } else {
      DefinedFrom(s[1..], i - |head|);
      var k :| 0 <= k < |s[1..]| && s[1..][k] == Some(Defined(s[1..])[i - |head|]);
      assert s[k + 1] == Some(Defined(s)[i]);
    }
  }
}
