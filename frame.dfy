/** The wide table every script reads: one row per station-month with the
    columns id, year, month, day_1 .. day_31, each cell possibly missing. */
module Frame {
  import opened Wrappers

  /** The reserved value that stands for "no observation". */
  const Sentinel: real := -999.0

  /** Number of day slots, and of columns (id, year, month, then the days). */
  const Days: nat := 31
  const Width: nat := 34
  const IdCol: nat := 0
  const YearCol: nat := 1
  const MonthCol: nat := 2

  /** Column index of day_k, for 1 <= k <= 31. */
  function DayCol(k: nat): (c: nat)
    requires 1 <= k <= Days
    ensures MonthCol < c < Width
  {
    MonthCol + k
  }

  /** One cell as pandas holds it after reading: missing (NA/NaN), a number,
      or a token kept as a string because its column is not all-numeric. */
  datatype Cell = Missing | Num(v: real) | Text(s: string)

  /** A row always has the 34 named columns: `read_csv(names=...)` pads short
      lines with missing cells. */
  type Row = r: seq<Cell> | |r| == Width witness seq(Width, _ => Missing)

  type Frame = seq<Row>

  /** A column label. */
  datatype Column = Id | Year | Month | Day(k: nat)

  /** The labels `read_dat_file` forces with `names=`. */
  function DatColumns(): seq<Column>
  {
    [Id, Year, Month] + seq(Days, (i: nat) => Day(i + 1))
  }

  /** What reading one file gives: the path does not exist, the reader raised,
      or the tokenised lines of the file (the header line included). */
  datatype FileRead = NotFound | ReadFailure | Lines(lines: seq<Row>)

  /** `read_csv` with or without `skiprows=1`: the first line is dropped
      exactly when the script skips it; every other line becomes a row. */
  function Ingest(lines: seq<Row>, skipFirst: bool): (f: Frame)
    ensures |f| == if skipFirst && |lines| > 0 then |lines| - 1 else |lines|
    ensures forall i :: 0 <= i < |f| ==> f[i] == lines[if skipFirst then i + 1 else i]
  {
    if skipFirst && |lines| > 0 then lines[1..] else lines
  }

  function CleanCell(c: Cell): Cell
  {
    if c == Num(Sentinel) then Missing else c
  }

  function CleanRow(r: Row): Row
  {
    seq(Width, j requires 0 <= j < Width => CleanCell(r[j]))
  }

  /** `df.replace(-999, pd.NA)`: every cell equal to the sentinel, in every
      column, becomes missing; every other cell is left as it was. A string
      "-999" is not equal to the number and stays. */
  function CleanFrame(f: Frame): (g: Frame)
    ensures |g| == |f|
    ensures forall i, j :: 0 <= i < |f| && 0 <= j < Width ==>
      g[i][j] != Num(Sentinel) &&
      (f[i][j] == Num(Sentinel) ==> g[i][j] == Missing) &&
      (f[i][j] != Num(Sentinel) ==> g[i][j] == f[i][j])
  {
    seq(|f|, i requires 0 <= i < |f| => CleanRow(f[i]))
  }

  /** Replacing twice is replacing once. */
  lemma CleanIdempotent(f: Frame)
    ensures CleanFrame(CleanFrame(f)) == CleanFrame(f)
  {
    var g := CleanFrame(f);
    var h := CleanFrame(g);
    forall i | 0 <= i < |f| ensures h[i] == g[i] {
      assert forall j :: 0 <= j < Width ==> h[i][j] == g[i][j];
    }
  }

  /** Cleaning commutes with stacking frames (`pd.concat`). */
  lemma CleanConcat(a: Frame, b: Frame)
    ensures CleanFrame(a + b) == CleanFrame(a) + CleanFrame(b)
  {
    var l := CleanFrame(a + b);
    var r := CleanFrame(a) + CleanFrame(b);
    forall i | 0 <= i < |a + b| ensures l[i] == r[i] {
      if i < |a| {
        assert forall j :: 0 <= j < Width ==> l[i][j] == r[i][j];
      } else {
        assert forall j :: 0 <= j < Width ==> l[i][j] == r[i][j];
      }
    }
  }

  /** A pandas DataFrame that the scripts change in place. */
  class DataFrame {
    var rows: Frame

    constructor (rows: Frame)
      ensures this.rows == rows
    {
      this.rows := rows;
    }

    /** `df.replace(-999, pd.NA, inplace=True)`. */
    method ReplaceSentinel()
      modifies this
      ensures rows == CleanFrame(old(rows))
    {
      rows := CleanFrame(rows);
    }
  }
}
