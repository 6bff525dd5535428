/** js/app.js: the summary page drops the header line of the yearly CSV,
    keeps the rows that have exactly three comma fields and a year in
    [2006, 2100], and averages their second and third fields. */
module App {
  import opened Wrappers
  import opened Stats

  /** `parseFloat`, abstracted: None stands for NaN. */
  type Parse = string -> Option<real>

  const FirstYear: real := 2006.0
  const LastYear: real := 2100.0

  // ---------------------------------------------------------------------
  // String.prototype.split with a one-character separator

  /** `s.split(sep)`: the pieces between separators; never empty, and the
      empty string gives one empty piece. */
  function Split(s: string, sep: char): (ps: seq<string>)
    ensures |ps| > 0
    ensures forall i :: 0 <= i < |ps| ==> sep !in ps[i]
  {
    if s == [] then [[]]
    else
      var rest := Split(s[1..], sep);
      if s[0] == sep then [[]] + rest
      else [[s[0]] + rest[0]] + rest[1..]
  }

  /** `ps.join(sep)`. */
  function Join(ps: seq<string>, sep: char): string
    requires |ps| > 0
  {
    if |ps| == 1 then ps[0] else ps[0] + [sep] + Join(ps[1..], sep)
  }

  function Occurrences(s: string, c: char): nat
  {
    if s == [] then 0 else (if s[0] == c then 1 else 0) + Occurrences(s[1..], c)
  }

  /** Splitting and joining back gives the text again. */
  lemma {:induction false} JoinSplit(s: string, sep: char)
    ensures Join(Split(s, sep), sep) == s
  {
    if s != [] {
      JoinSplit(s[1..], sep);
      var rest := Split(s[1..], sep);
      if s[0] == sep {
        assert Split(s, sep)[1..] == rest;
      } else {
        var ps := Split(s, sep);
        if |rest| > 1 {
          assert ps[1..] == rest[1..];
          assert Join(rest, sep) == rest[0] + [sep] + Join(rest[1..], sep);
        }
      }
    }
  }

  /** Joining pieces that hold no separator and splitting gives the pieces
      again. */
  lemma {:induction false} SplitJoin(ps: seq<string>, sep: char)
    requires |ps| > 0
    requires forall i :: 0 <= i < |ps| ==> sep !in ps[i]
    ensures Split(Join(ps, sep), sep) == ps
  {
    if |ps| == 1 {
      SplitPiece(ps[0], sep);
    } else {
      SplitJoin(ps[1..], sep);
      SplitPrefix(ps[0], Join(ps[1..], sep), sep);
      assert [ps[0]] + ps[1..] == ps;
    }
  }

  /** A text with no separator is one piece. */
  lemma {:induction false} SplitPiece(s: string, sep: char)
    requires sep !in s
    ensures Split(s, sep) == [s]
  {
    if s != [] {
      assert s[0] in s;
      assert forall c :: c in s[1..] ==> c in s;
      SplitPiece(s[1..], sep);
      assert [s[0]] + s[1..] == s;
    }
  }

  /** A separator-free prefix followed by a separator is the first piece. */
  lemma {:induction false} SplitPrefix(p: string, t: string, sep: char)
    requires sep !in p
    ensures Split(p + [sep] + t, sep) == [p] + Split(t, sep)
  {
    if p == [] {
      assert p + [sep] + t == [sep] + t;
      assert ([sep] + t)[1..] == t;
    } else {
      assert (p + [sep] + t)[1..] == p[1..] + [sep] + t;
      SplitPrefix(p[1..], t, sep);
      assert [p[0]] + p[1..] == p;
    }
  }

  /** There is one more piece than there are separators. */
  lemma {:induction false} SplitCount(s: string, sep: char)
    ensures |Split(s, sep)| == Occurrences(s, sep) + 1
  {
    if s != [] {
      SplitCount(s[1..], sep);
    }
  }

  // ---------------------------------------------------------------------
  // The rows of the page

  /** `data.split('\n').slice(1)`: every line but the first. */
  function DataRows(text: string): (rows: seq<string>)
    ensures |rows| == |Split(text, '\n')| - 1
  {
    Split(text, '\n')[1..]
  }

  /** The header line is dropped, and every later line is a row; there is
      one row per line break. */
  lemma HeaderDropped(header: string, body: string)
    requires '\n' !in header
    ensures DataRows(header + "\n" + body) == Split(body, '\n')
    ensures |DataRows(header + "\n" + body)| == Occurrences(body, '\n') + 1
  {
    SplitPrefix(header, body, '\n');
    SplitCount(body, '\n');
  }

  /** `parseFloat(cols[k])`; a missing field is `undefined`, which parses to NaN. */
  function FieldOf(row: string, k: nat, parse: Parse): Option<real>
  {
    var cols := Split(row, ',');
    if k < |cols| then parse(cols[k]) else None
  }

  /** The filter of `calculateStatistics`: three fields and a year in
      [2006, 2100]; a NaN year fails both comparisons. */
  predicate Qualifies(row: string, parse: Parse)
  {
    var cols := Split(row, ',');
    |cols| == 3 && parse(cols[0]).Some? && FirstYear <= parse(cols[0]).value <= LastYear
  }

  /** The qualifying rows, in their order. */
  function Qualifying(rows: seq<string>, parse: Parse): (qs: seq<string>)
    ensures |qs| <= |rows|
    ensures forall i :: 0 <= i < |qs| ==> Qualifies(qs[i], parse)
  {
    if rows == [] then []
    else
      var last := rows[|rows| - 1];
      Qualifying(rows[..|rows| - 1], parse) + (if Qualifies(last, parse) then [last] else [])
  }

  /** One more row: the filter keeps it or not, and keeps the earlier ones. */
  lemma QualifyingSnoc(rows: seq<string>, i: nat, parse: Parse)
    requires i < |rows|
    ensures Qualifying(rows[..i + 1], parse)
         == Qualifying(rows[..i], parse) + (if Qualifies(rows[i], parse) then [rows[i]] else [])
  {
    assert rows[..i + 1][..i] == rows[..i];
  }

  /** The filter keeps exactly the rows that qualify. */
  lemma {:induction false} QualifyingMembers(rows: seq<string>, parse: Parse)
    ensures forall r :: r in Qualifying(rows, parse) <==> r in rows && Qualifies(r, parse)
  {
    if rows != [] {
      var p := rows[..|rows| - 1];
      QualifyingMembers(p, parse);
      assert rows == p + [rows[|rows| - 1]];
    }
  }

  /** When no row qualifies nothing is kept. */
  lemma {:induction false} NoneQualify(rows: seq<string>, parse: Parse)
    requires forall i :: 0 <= i < |rows| ==> !Qualifies(rows[i], parse)
    ensures Qualifying(rows, parse) == []
  {
    if rows != [] {
      NoneQualify(rows[..|rows| - 1], parse);
    }
  }

  /** A NaN-propagating `+=`. */
  function Add(acc: Option<real>, x: Option<real>): Option<real>
  {
    if acc.Some? && x.Some? then Some(acc.value + x.value) else None
  }

  /** The defined values of field k of rows, if none of them is NaN. */
  predicate AllDefined(rows: seq<string>, k: nat, parse: Parse)
  {
    forall i :: 0 <= i < |rows| ==> FieldOf(rows[i], k, parse).Some?
  }

  function Values(rows: seq<string>, k: nat, parse: Parse): (vs: seq<real>)
    requires AllDefined(rows, k, parse)
    ensures |vs| == |rows|
    ensures forall i :: 0 <= i < |rows| ==> vs[i] == FieldOf(rows[i], k, parse).value
  {
    seq(|rows|, i requires 0 <= i < |rows| => FieldOf(rows[i], k, parse).value)
  }

  /** What the accumulator holds after the rows: fields added one row at a
      time, NaN from the first NaN field on. */
  function FieldSum(rows: seq<string>, k: nat, parse: Parse): Option<real>
  {
    if rows == [] then Some(0.0)
    else Add(FieldSum(rows[..|rows| - 1], k, parse), FieldOf(rows[|rows| - 1], k, parse))
  }

  /** The accumulator is the sum of field k, or NaN exactly when one of the
      fields is NaN. */
  lemma {:induction false} FieldSumMeaning(rows: seq<string>, k: nat, parse: Parse)
    ensures FieldSum(rows, k, parse).Some? <==> AllDefined(rows, k, parse)
    ensures FieldSum(rows, k, parse).Some? ==> FieldSum(rows, k, parse).value == Sum(Values(rows, k, parse))
  {
    if rows != [] {
      FieldSumMeaning(rows[..|rows| - 1], k, parse);
      FieldSumStep(rows, k, parse);
    }
  }

  lemma FieldSumStep(rows: seq<string>, k: nat, parse: Parse)
    requires rows != []
    ensures AllDefined(rows, k, parse) <==>
      AllDefined(rows[..|rows| - 1], k, parse) && FieldOf(rows[|rows| - 1], k, parse).Some?
    ensures AllDefined(rows, k, parse) ==>
      Sum(Values(rows, k, parse)) == Sum(Values(rows[..|rows| - 1], k, parse)) + FieldOf(rows[|rows| - 1], k, parse).value
  {
    if AllDefined(rows, k, parse) {
      var p := rows[..|rows| - 1];
      assert Values(rows, k, parse) == Values(p, k, parse) + [FieldOf(rows[|rows| - 1], k, parse).value];
      SumSnoc(Values(p, k, parse), FieldOf(rows[|rows| - 1], k, parse).value);
    }
  }

  lemma FieldSumSnoc(qs: seq<string>, r: string, k: nat, parse: Parse)
    ensures FieldSum(qs + [r], k, parse) == Add(FieldSum(qs, k, parse), FieldOf(r, k, parse))
  {
    assert (qs + [r])[..|qs|] == qs;
  }

  /** `sum / count`: NaN when the sum is NaN or when nothing was counted (0/0). */
  function Divide(sum: Option<real>, count: nat): (r: Option<real>)
    ensures r.Some? <==> sum.Some? && count > 0
    ensures r.Some? ==> r.value * (count as real) == sum.value
  {
    if sum.None? || count == 0 then None else Some(sum.value / count as real)
  }

  /** The two averages of the page. */
  datatype Statistics = Statistics(totalPrecipitation: Option<real>, medianPrecipitation: Option<real>)

  /** The average of field k over the qualifying rows. */
  function Average(rows: seq<string>, k: nat, parse: Parse): Option<real>
  {
    var qs := Qualifying(rows, parse);
    Divide(FieldSum(qs, k, parse), |qs|)
  }

  /** `calculateStatistics`: one pass over the rows, adding fields 1 and 2
      of each qualifying row and counting it, then dividing by the count. */
  method CalculateStatistics(rows: seq<string>, parse: Parse) returns (s: Statistics)
    ensures s == Statistics(Average(rows, 1, parse), Average(rows, 2, parse))
  {
    var totalPrecipitation: Option<real> := Some(0.0);
    var medianPrecipitation: Option<real> := Some(0.0);
    var count: nat := 0;
    for i := 0 to |rows|
      invariant count == |Qualifying(rows[..i], parse)|
      invariant totalPrecipitation == FieldSum(Qualifying(rows[..i], parse), 1, parse)
      invariant medianPrecipitation == FieldSum(Qualifying(rows[..i], parse), 2, parse)
    {
      QualifyingSnoc(rows, i, parse);
      var cols := Split(rows[i], ',');
      if |cols| == 3 && parse(cols[0]).Some? && parse(cols[0]).value >= FirstYear && parse(cols[0]).value <= LastYear {
        assert Qualifies(rows[i], parse);
        FieldSumSnoc(Qualifying(rows[..i], parse), rows[i], 1, parse);
        FieldSumSnoc(Qualifying(rows[..i], parse), rows[i], 2, parse);
        assert FieldOf(rows[i], 1, parse) == parse(cols[1]);
        totalPrecipitation := Add(totalPrecipitation, parse(cols[1]));
        medianPrecipitation := Add(medianPrecipitation, parse(cols[2]));
        count := count + 1;
        assert Qualifying(rows[..i + 1], parse) == Qualifying(rows[..i], parse) + [rows[i]];
        assert totalPrecipitation == FieldSum(Qualifying(rows[..i], parse) + [rows[i]], 1, parse);
      } else {
        assert Qualifying(rows[..i + 1], parse) == Qualifying(rows[..i], parse);
      }
    }
    assert rows[..|rows|] == rows;
    s := Statistics(Divide(totalPrecipitation, count), Divide(medianPrecipitation, count));
  }

  /** What the averages mean: NaN exactly when no row qualifies or one of
      the summed fields is NaN; otherwise the count of qualifying rows times
      the average is the sum of that field over them. */
  lemma AverageMeaning(rows: seq<string>, k: nat, parse: Parse)
    ensures var qs := Qualifying(rows, parse);
      && (Average(rows, k, parse).None? <==> qs == [] || !AllDefined(qs, k, parse))
      && (Average(rows, k, parse).Some? ==> Average(rows, k, parse).value == Mean(Values(qs, k, parse)))
  {
    FieldSumMeaning(Qualifying(rows, parse), k, parse);
  }

  /** With no qualifying row both averages are 0/0, and the page shows NaN. */
  lemma NoRowsGiveNaN(rows: seq<string>, parse: Parse, fixed: real -> string)
    requires forall i :: 0 <= i < |rows| ==> !Qualifies(rows[i], parse)
    ensures Average(rows, 1, parse).None? && Average(rows, 2, parse).None?
    ensures Display(Average(rows, 1, parse), fixed) == "NaN"
  {
    NoneQualify(rows, parse);
  }

  /** `isNaN(v) ? 'NaN' : v.toFixed(2)`, with `toFixed(2)` a parameter. */
  function Display(v: Option<real>, fixed: real -> string): string
  {
    if v.None? then "NaN" else fixed(v.value)
  }

  /** A line of the five-column yearly CSV (year, total, mean, median,
      variation rate) never qualifies; a three-field line qualifies exactly
      when its year parses into [2006, 2100]. */
  lemma FieldCountDecides(fields: seq<string>, parse: Parse)
    requires |fields| > 0 && forall i :: 0 <= i < |fields| ==> ',' !in fields[i]
    ensures |fields| != 3 ==> !Qualifies(Join(fields, ','), parse)
    ensures |fields| == 3 ==>
      (Qualifies(Join(fields, ','), parse) <==> parse(fields[0]).Some? && FirstYear <= parse(fields[0]).value <= LastYear)
  {
    SplitJoin(fields, ',');
  }

  /** A page fed the five-column yearly CSV counts no row and shows NaN for
      both averages. */
  lemma FiveColumnRowsGiveNaN(rows: seq<string>, parse: Parse)
    requires forall i :: 0 <= i < |rows| ==> |Split(rows[i], ',')| == 5
    ensures Qualifying(rows, parse) == []
    ensures Average(rows, 1, parse).None? && Average(rows, 2, parse).None?
  {
    NoneQualify(rows, parse);
  }
}
