/** Dades.py: for one `.dat` file, the share of sentinel cells among the
    non-missing cells of every column, counted before any replacement. */
module Dades {
  import opened Wrappers
  import opened Frame

  /** `read_dat_file` passes `header=None` and no `skiprows`. */
  const SkipsHeader: bool := false

  /** What the script reports for one path. */
  datatype Report = NoSuchFile | ReadError | Percentages(byColumn: seq<Option<real>>)

  /** `(df == -999).sum()` for column c: cells equal to the number -999; a
      string "-999" does not compare equal to it. */
  function SentinelCount(f: Frame, c: nat): (n: nat)
    requires c < Width
    ensures n <= |f|
  {
    if f == [] then 0 else (if f[0][c] == Num(Sentinel) then 1 else 0) + SentinelCount(f[1..], c)
  }

  /** `df.count()` for column c: the cells that are not missing. */
  function NonNullCount(f: Frame, c: nat): (n: nat)
    requires c < Width
    ensures n <= |f|
  {
    if f == [] then 0 else (if f[0][c].Missing? then 0 else 1) + NonNullCount(f[1..], c)
  }

  /** Every sentinel cell is itself non-null. */
  lemma {:induction false} SentinelsAreCounted(f: Frame, c: nat)
    requires c < Width
    ensures SentinelCount(f, c) <= NonNullCount(f, c)
  {
    if f != [] {
      SentinelsAreCounted(f[1..], c);
    }
  }

  /** `missing_counts / total_counts * 100` for column c; 0/0 (NaN, None)
      when the column has no non-missing cell. */
  function ColumnPercent(f: Frame, c: nat): (p: Option<real>)
    requires c < Width
    ensures p.None? <==> NonNullCount(f, c) == 0
    ensures p.Some? ==> 0.0 <= p.value <= 100.0
    ensures p.Some? ==> (p.value == 0.0 <==> SentinelCount(f, c) == 0)
    ensures p.Some? ==> (p.value == 100.0 <==> SentinelCount(f, c) == NonNullCount(f, c))
  {
    SentinelsAreCounted(f, c);
    var total := NonNullCount(f, c);
    if total == 0 then None
    else
      Share(SentinelCount(f, c), total);
      Some(SentinelCount(f, c) as real / total as real * 100.0)
  }

  /** A share of a count, as a percentage, lies in [0, 100] and reaches its
      ends exactly for none and for all. */
  lemma Share(part: nat, total: nat)
    requires part <= total && 0 < total
    ensures var p := part as real / total as real * 100.0;
      && 0.0 <= p <= 100.0 && (p == 0.0 <==> part == 0) && (p == 100.0 <==> part == total)
  {
    var whole := total as real;
    var q := part as real / whole;
    assert q * whole == part as real;
    assert (1.0 - q) * whole == whole - part as real;
    SignOfProduct(q, whole);
    SignOfProduct(1.0 - q, whole);
  }

  /** The sign of x is the sign of x * y when y is positive. */
  lemma SignOfProduct(x: real, y: real)
    requires y > 0.0
    ensures x * y >= 0.0 ==> x >= 0.0
    ensures x * y == 0.0 ==> x == 0.0
  {
  }

  /** The percentage of every column, id, year and month included. */
  function ColumnPercentages(f: Frame): (ps: seq<Option<real>>)
    ensures |ps| == Width
    ensures forall c :: 0 <= c < Width ==> ps[c] == ColumnPercent(f, c)
  {
    seq(Width, c requires 0 <= c < Width => ColumnPercent(f, c))
  }

  /** `calculate_total_missing_percentage`: a missing path and a failing read
      each end the call early; otherwise every line of the file is a row. */
  function CalculateTotalMissingPercentage(fr: FileRead): (r: Report)
    ensures r == NoSuchFile <==> fr == NotFound
    ensures r == ReadError <==> fr == ReadFailure
    ensures fr.Lines? ==> r == Percentages(ColumnPercentages(fr.lines))
  {
    match fr
    case NotFound => NoSuchFile
    case ReadFailure => ReadError
    case Lines(ls) => Percentages(ColumnPercentages(Ingest(ls, SkipsHeader)))
  }
}
