/** E2/E02.py: the `.dat` files of one subfolder are validated, cleaned and
    melted, their observations pooled, and one annual table (sum, mean and
    median per year) is computed from the pooled raw values. */
module E02 {
  import opened Wrappers
  import opened Seqs
  import opened Stats
  import opened Grouping
  import opened Frame
  import opened Pipeline

  /** `read_dat_file` passes `skiprows=1`. */
  const SkipsHeader: bool := true

  /** A frame together with its column labels. */
  datatype Table = Table(columns: seq<Column>, rows: Frame)

  /** The labels `validate_file_format` expects. */
  function ExpectedColumns(): seq<Column>
  {
    [Id, Year, Month] + seq(Days, (i: nat) => Day(i + 1))
  }

  /** `read_file`: None when reading raises (the error is logged); otherwise
      the file without its first line, labelled with the forced column names. */
  function ReadFile(fr: FileRead): (r: Option<Table>)
    ensures r.Some? <==> fr.Lines?
    ensures r.Some? ==> r.value.columns == DatColumns() && r.value.rows == Ingest(fr.lines, SkipsHeader)
  {
    if fr.Lines? then Some(Table(DatColumns(), Ingest(fr.lines, SkipsHeader))) else None
  }

  /** `validate_file_format`: the file reads and its labels are the expected ones. */
  function ValidateFileFormat(fr: FileRead): bool
  {
    ReadFile(fr).Some? && ReadFile(fr).value.columns == ExpectedColumns()
  }

  /** Because `names=` forces the labels, validation fails only when the
      file cannot be read. */
  lemma ValidIffReadable(fr: FileRead)
    ensures ValidateFileFormat(fr) <==> fr.Lines?
  {
    assert DatColumns() == ExpectedColumns();
  }

  /** `process_data`: blanks the sentinel in the caller's frame (in place)
      and returns the melted, numeric, non-missing observations. */
  method ProcessData(df: DataFrame, conv: Converter) returns (obs: seq<Obs>)
    modifies df
    ensures df.rows == CleanFrame(old(df.rows))
    ensures obs == ObservationsAsWritten(df.rows, conv)
  {
    df.ReplaceSentinel();
    obs := ObservationsAsWritten(df.rows, conv);
  }

  /** What one file adds to the pool. */
  function FileObservations(fr: FileRead, conv: Converter): seq<Obs>
  {
    match fr
    case Lines(ls) => ObservationsAsWritten(CleanFrame(Ingest(ls, SkipsHeader)), conv)
    case _ => []
  }

  function FileStep(conv: Converter): FileRead -> seq<Obs>
  {
    fr => FileObservations(fr, conv)
  }

  function ObservationLists(files: seq<FileRead>, conv: Converter): (os: seq<seq<Obs>>)
    ensures |os| == |files|
    ensures forall i :: 0 <= i < |files| ==> os[i] == FileObservations(files[i], conv)
  {
    Map(FileStep(conv), files)
  }

  /** The observations of every valid file, in file order. */
  function Pooled(files: seq<FileRead>, conv: Converter): seq<Obs>
  {
    Flatten(ObservationLists(files, conv))
  }

  /** What `process_subfolder` exports: nothing (a warning) when no
      observation was pooled, else the annual table of the pool. */
  function SubfolderSummary(files: seq<FileRead>, conv: Converter): Option<seq<Annual>>
  {
    if Pooled(files, conv) == [] then None else Some(AnnualStats(KeyedByYear(Pooled(files, conv))))
  }

  lemma ObservationListsConcat(a: seq<FileRead>, b: seq<FileRead>, conv: Converter)
    ensures ObservationLists(a + b, conv) == ObservationLists(a, conv) + ObservationLists(b, conv)
  {
    MapConcat(FileStep(conv), a, b);
  }

  lemma PooledSnoc(files: seq<FileRead>, i: nat, conv: Converter)
    requires i < |files|
    ensures Pooled(files[..i + 1], conv) == Pooled(files[..i], conv) + FileObservations(files[i], conv)
  {
    FlattenMapSnoc(FileStep(conv), files, i);
  }

  /** `process_subfolder`: validates and reads each file (twice, as the
      script does), processes it, pools the observations and summarises the
      pool once at the end. */
  method ProcessSubfolder(files: seq<FileRead>, conv: Converter) returns (summary: Option<seq<Annual>>)
    ensures summary == SubfolderSummary(files, conv)
  {
    var allData: seq<Obs> := [];
    for i := 0 to |files|
      invariant allData == Pooled(files[..i], conv)
    {
      PooledSnoc(files, i, conv);
      ValidIffReadable(files[i]);
      if ValidateFileFormat(files[i]) {
        var t := ReadFile(files[i]);
        if t.Some? {
          var df := new DataFrame(t.value.rows);
          var processed := ProcessData(df, conv);
          allData := allData + processed;
        }
      }
    }
    assert files[..|files|] == files;
    if allData != [] {
      summary := Some(AnnualStats(KeyedByYear(allData)));
    } else {
      summary := None;
    }
  }

  /** Pooling two batches of files concatenates, for every year, the raw
      values of that year: the pool keeps raw values, not per-file summaries. */
  lemma PooledGroups(a: seq<FileRead>, b: seq<FileRead>, conv: Converter, y: real)
    ensures ValuesOf(KeyedByYear(Pooled(a + b, conv)), y)
         == ValuesOf(KeyedByYear(Pooled(a, conv)), y) + ValuesOf(KeyedByYear(Pooled(b, conv)), y)
  {
    ObservationListsConcat(a, b, conv);
    FlattenConcat(ObservationLists(a, conv), ObservationLists(b, conv));
    KeyedByYearConcat(Pooled(a, conv), Pooled(b, conv));
    ValuesOfConcat(KeyedByYear(Pooled(a, conv)), KeyedByYear(Pooled(b, conv)), y);
  }

  /** Hence the median of a year is the median of all raw values of that
      year, whatever the order in which the files were listed. */
  lemma PooledMedianIgnoresFileOrder(a: seq<FileRead>, b: seq<FileRead>, conv: Converter, y: real)
    requires |ValuesOf(KeyedByYear(Pooled(a + b, conv)), y)| > 0
    ensures |ValuesOf(KeyedByYear(Pooled(b + a, conv)), y)| > 0
    ensures Median(ValuesOf(KeyedByYear(Pooled(a + b, conv)), y)) == Median(ValuesOf(KeyedByYear(Pooled(b + a, conv)), y))
  {
    PooledGroups(a, b, conv, y);
    PooledGroups(b, a, conv, y);
    var va, vb := ValuesOf(KeyedByYear(Pooled(a, conv)), y), ValuesOf(KeyedByYear(Pooled(b, conv)), y);
    assert multiset(va + vb) == multiset(vb + va);
    MedianOrderIndependent(va + vb, vb + va);
  }

  /** The warning branch is taken exactly when no file contributed an
      observation (all unreadable, or all values missing). */
  lemma NothingProcessed(files: seq<FileRead>, conv: Converter)
    ensures SubfolderSummary(files, conv).None? <==>
      forall i :: 0 <= i < |files| ==> FileObservations(files[i], conv) == []
  {
    var os := ObservationLists(files, conv);
    FlattenEmpty(os);
    assert Pooled(files, conv) == Flatten(os);
    assert forall i :: 0 <= i < |files| ==> os[i] == FileObservations(files[i], conv);
  }

  /** An unreadable file is skipped: the summary is as if it were absent. */
  lemma UnreadableFileSkipped(before: seq<FileRead>, after: seq<FileRead>, conv: Converter)
    ensures SubfolderSummary(before + [ReadFailure] + after, conv) == SubfolderSummary(before + after, conv)
  {
    ObservationListsConcat(before + [ReadFailure], after, conv);
    ObservationListsConcat(before, [ReadFailure], conv);
    ObservationListsConcat(before, after, conv);
    assert ObservationLists([ReadFailure], conv) == [[]];
    FlattenSkipsEmpty(ObservationLists(before, conv), ObservationLists(after, conv));
  }
}
