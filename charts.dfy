/** js/charts.js: the chart series is built from the same rows the summary
    averages, one point per qualifying row in row order. */
module Charts {
  import opened Wrappers
  import opened App

  /** The year of a qualifying row, `parseFloat(cols[0])`. */
  function YearOf(row: string, parse: Parse): (y: real)
    requires Qualifies(row, parse)
    ensures FirstYear <= y <= LastYear
  {
    parse(Split(row, ',')[0]).value
  }

  /** The x axis: the year of each qualifying row. */
  function Labels(rows: seq<string>, parse: Parse): (ls: seq<real>)
    ensures |ls| == |Qualifying(rows, parse)|
  {
    var qs := Qualifying(rows, parse);
    seq(|qs|, i requires 0 <= i < |qs| => YearOf(qs[i], parse))
  }

  /** The series: field 1 of each qualifying row (NaN when it does not parse). */
  function Points(rows: seq<string>, parse: Parse): (ds: seq<Option<real>>)
    ensures |ds| == |Qualifying(rows, parse)|
  {
    var qs := Qualifying(rows, parse);
    seq(|qs|, i requires 0 <= i < |qs| => FieldOf(qs[i], 1, parse))
  }

  /** One more row adds its point at the end when it qualifies. */
  lemma SeriesSnoc(rows: seq<string>, i: nat, parse: Parse)
    requires i < |rows|
    ensures Qualifies(rows[i], parse) ==>
      && Labels(rows[..i + 1], parse) == Labels(rows[..i], parse) + [YearOf(rows[i], parse)]
      && Points(rows[..i + 1], parse) == Points(rows[..i], parse) + [FieldOf(rows[i], 1, parse)]
    ensures !Qualifies(rows[i], parse) ==>
      Labels(rows[..i + 1], parse) == Labels(rows[..i], parse) && Points(rows[..i + 1], parse) == Points(rows[..i], parse)
  {
    QualifyingSnoc(rows, i, parse);
  }

  /** The selection loop of `createChart`: push the year and field 1 of every
      row with three fields and a year in [2006, 2100]. */
  method CreateChart(rows: seq<string>, parse: Parse) returns (labels: seq<real>, data: seq<Option<real>>)
    ensures labels == Labels(rows, parse)
    ensures data == Points(rows, parse)
  {
    labels := [];
    data := [];
    for i := 0 to |rows|
      invariant labels == Labels(rows[..i], parse)
      invariant data == Points(rows[..i], parse)
    {
      SeriesSnoc(rows, i, parse);
      var cols := Split(rows[i], ',');
      var year := parse(cols[0]);
      if |cols| == 3 && year.Some? && year.value >= FirstYear && year.value <= LastYear {
        labels := labels + [year.value];
        data := data + [parse(cols[1])];
      }
    }
    assert rows[..|rows|] == rows;
  }

  /** What the chart shows: as many labels as points, one per row counted
      by the summary filter, in row order, each label a year in
      [2006, 2100] and each point field 1 of the same row. */
  lemma ChartMeaning(rows: seq<string>, parse: Parse)
    ensures var qs := Qualifying(rows, parse);
      && |Labels(rows, parse)| == |Points(rows, parse)| == |qs|
      && (forall i :: 0 <= i < |qs| ==>
            && FirstYear <= Labels(rows, parse)[i] <= LastYear
            && Some(Labels(rows, parse)[i]) == FieldOf(qs[i], 0, parse)
            && Points(rows, parse)[i] == FieldOf(qs[i], 1, parse))
  {
  }
}
