/**
 * The chart data the plugin computes itself: the per-key sums of a bar
 * chart and the CSV text a chart is exported as.
 */
module Charts {
  import opened Wrappers
  import opened Text
  import opened DataUtils
  import opened Cards

  /** The metrics of a bar chart, one group per key, in the order `Object.keys` lists the keys. */
  type Groups = seq<(string, seq<Metric>)>

  /** The value of each bar: the sum of its key's metrics. */
  function BarValues(groups: Groups, parse: Parser): (vs: seq<real>)
    ensures |vs| == |groups|
  {
    seq(|groups|, i requires 0 <= i < |groups| => SumOf(groups[i].1, parse))
  }

  /** `_BarChartVisualization.getData`: one label and one summed value per key. */
  method BarData(groups: Groups, parse: Parser) returns (labels: seq<string>, values: seq<real>)
    ensures |labels| == |values| == |groups|
    ensures forall i :: 0 <= i < |groups| ==> labels[i] == groups[i].0
    ensures values == BarValues(groups, parse)
  {
    labels, values := [], [];
    var i := 0;
    while i < |groups|
      invariant 0 <= i <= |groups|
      invariant |labels| == |values| == i
      invariant forall j :: 0 <= j < i ==> labels[j] == groups[j].0
      invariant values == BarValues(groups[..i], parse)
    {
      var (key, ms) := groups[i];
      labels := labels + [key];
      var value := 0.0;
      var k := 0;
      while k < |ms|
        invariant 0 <= k <= |ms|
        invariant value == SumOf(ms[..k], parse)
      {
        var num := if ms[k].value.Some? then parse(ms[k].value.value) else None;
        if num.Some? {
          value := value + num.value;
        }
        assert ms[..k + 1][..k] == ms[..k];
        k := k + 1;
      }
      assert ms[..k] == ms;
      values := values + [value];
      i := i + 1;
    }
    assert groups[..i] == groups;
  }

  /** The sum of a sequence of reals. */
  function Total(vs: seq<real>): real
  {
    if vs == [] then 0.0 else Total(vs[..|vs| - 1]) + vs[|vs| - 1]
  }

  /** Every metric of every group, the groups one after another. */
  function Flatten(groups: Groups): seq<Metric>
  {
    if groups == [] then [] else Flatten(groups[..|groups| - 1]) + groups[|groups| - 1].1
  }

  /** Together the bars add up to the sum over all the metrics charted. */
  lemma {:induction false} BarsAddUp(groups: Groups, parse: Parser)
    ensures Total(BarValues(groups, parse)) == SumOf(Flatten(groups), parse)
    decreases |groups|
  {
    if groups != [] {
      var n := |groups| - 1;
      var vs := BarValues(groups, parse);
      assert vs[..n] == BarValues(groups[..n], parse);
      BarsAddUp(groups[..n], parse);
      SumOfConcat(Flatten(groups[..n]), groups[n].1, parse);
    }
  }

  /** A data point of a line chart: the ISO form of its time stamp and the text of its y value. */
  datatype Point = Point(iso: string, y: string)

  /** `delimiter || fallback`: an absent or empty delimiter falls back to the default. */
  function OrDefault(delimiter: string, fallback: string): (r: string)
    ensures fallback != "" ==> r != ""
  {
    if delimiter == "" then fallback else delimiter
  }

  /** The date column: the ISO time stamp with its "T" made a space and its "Z" dropped. */
  function Stamp(iso: string): string
  {
    ReplaceFirst(ReplaceFirst(iso, 'T', " "), 'Z', "")
  }

  /** Every character of the date column comes from the time stamp, or is the space put in for "T". */
  lemma StampCharacters(iso: string)
    ensures forall d :: d in Stamp(iso) ==> d in iso || d == ' '
  {
    var once := ReplaceFirst(iso, 'T', " ");
    assert forall d :: d in once ==> d in iso || d == ' ';
  }

  /** The header line, without its line delimiter. */
  function HeaderLine(caption: string, column: string): string
  {
    "Date/Time" + column + caption + column
  }

  /** The line of one point, without its line delimiter: a trailing column delimiter included. */
  function RowLine(p: Point, column: string): string
  {
    Stamp(p.iso) + column + p.y + column
  }

  /** The lines of the export: the header, then one line per point in order. */
  function Lines(caption: string, ps: seq<Point>, column: string): (ls: seq<string>)
    ensures |ls| == |ps| + 1 && ls[0] == HeaderLine(caption, column)
    ensures forall i :: 0 <= i < |ps| ==> ls[i + 1] == RowLine(ps[i], column)
  {
    var rows := Rows(ps, column);
    assert forall i :: 0 <= i < |ps| ==> ([HeaderLine(caption, column)] + rows)[i + 1] == rows[i];
    [HeaderLine(caption, column)] + rows
  }

  function Rows(ps: seq<Point>, column: string): (rs: seq<string>)
    ensures |rs| == |ps| && forall i :: 0 <= i < |ps| ==> rs[i] == RowLine(ps[i], column)
  {
    seq(|ps|, i requires 0 <= i < |ps| => RowLine(ps[i], column))
  }

  /** Each line followed by the line delimiter. */
  function Terminated(ls: seq<string>, line: string): string
  {
    if ls == [] then [] else Terminated(ls[..|ls| - 1], line) + (ls[|ls| - 1] + line)
  }

  /**
   * `_convertChartDataToCSV`: null for missing or empty data, else the
   * header and one line per point, every line ended by the line delimiter.
   */
  method ConvertToCsv(caption: string, data: Option<seq<Point>>, columnDelimiter: string, lineDelimiter: string)
    returns (r: Option<string>)
    ensures r.None? <==> data.None? || data.value == []
    ensures r.Some? ==>
      r.value == Terminated(Lines(caption, data.value, OrDefault(columnDelimiter, ",")), OrDefault(lineDelimiter, "\n"))
  {
    if data.None? || |data.value| == 0 {
      return None;
    }
    var ps := data.value;
    var column := OrDefault(columnDelimiter, ",");
    var line := OrDefault(lineDelimiter, "\n");
    var result := "Date/Time" + column + caption + column + line;
    LinesStart(caption, ps, column, line);
    var i := 0;
    while i < |ps|
      invariant 0 <= i <= |ps|
      invariant result == Terminated(Lines(caption, ps[..i], column), line)
    {
      var date := ReplaceFirst(ReplaceFirst(ps[i].iso, 'T', " "), 'Z', "");
      LinesStep(caption, ps, i, column, line);
      result := result + (date + column + ps[i].y + column + line);
      i := i + 1;
    }
    assert ps[..i] == ps;
    r := Some(result);
  }

  lemma LinesStart(caption: string, ps: seq<Point>, column: string, line: string)
    ensures Terminated(Lines(caption, ps[..0], column), line) == "Date/Time" + column + caption + column + line
  {
    var ls := Lines(caption, ps[..0], column);
    assert ls == [HeaderLine(caption, column)];
    assert ls[..0] == [];
  }

  lemma LinesStep(caption: string, ps: seq<Point>, i: nat, column: string, line: string)
    requires i < |ps|
    ensures Terminated(Lines(caption, ps[..i + 1], column), line)
      == Terminated(Lines(caption, ps[..i], column), line) + (RowLine(ps[i], column) + line)
  {
    var ls := Lines(caption, ps[..i + 1], column);
    assert ls[..|ls| - 1] == Lines(caption, ps[..i], column);
    assert ls[|ls| - 1] == RowLine(ps[i], column);
  }

  /** Joining with one more piece at the end. */
  lemma {:induction false} JoinSnoc(ps: seq<string>, x: string, sep: string)
    requires ps != []
    ensures Join(ps + [x], sep) == Join(ps, sep) + sep + x
    decreases |ps|
  {
    if |ps| > 1 {
      assert (ps + [x])[1..] == ps[1..] + [x];
      JoinSnoc(ps[1..], x, sep);
    }
  }

  /** Ending every line with the delimiter is joining them with it and a final empty piece. */
  lemma {:induction false} TerminatedJoin(ls: seq<string>, line: string)
    ensures Terminated(ls, line) == Join(ls + [""], line)
    decreases |ls|
  {
    if ls != [] {
      var n := |ls| - 1;
      TerminatedJoin(ls[..n], line);
      if n == 0 {
        assert ls + [""] == [ls[0], ""];
      } else {
        JoinSnoc(ls[..n], "", line);
        assert ls[..n] + [ls[n]] == ls;
        JoinSnoc(ls, "", line);
        JoinSnoc(ls[..n], ls[n], line);
      }
    }
  }

  /** Three fields joined by a one-character column delimiter. */
  lemma JoinThree(a: string, b: string, c: char)
    ensures Join([a, b, ""], [c]) == a + [c] + b + [c]
  {
    assert [a, b, ""][1..] == [b, ""];
    assert [b, ""][1..] == [""];
    assert Join([b, ""], [c]) == b + [c];
  }

  /** Neither delimiter occurs in any line when it occurs in no field. */
  lemma LinesFree(caption: string, ps: seq<Point>, column: char, d: char)
    requires d != column && d != ' ' && d !in "Date/Time" && d !in caption
    requires forall i :: 0 <= i < |ps| ==> d !in ps[i].iso && d !in ps[i].y
    ensures var ls := Lines(caption, ps, [column]) + [""];
      forall k :: 0 <= k < |ls| ==> d !in ls[k]
  {
    var ls := Lines(caption, ps, [column]);
    forall k | 0 < k < |ls| ensures d !in ls[k] {
      RowFree(ps[k - 1], column, d);
    }
    assert d !in ls[0];
  }

  lemma RowFree(p: Point, column: char, d: char)
    requires d != column && d != ' ' && d !in p.iso && d !in p.y
    ensures d !in RowLine(p, [column])
  {
    StampCharacters(p.iso);
  }

  /** Splitting at the line delimiter gives back the header, the point lines and an empty last piece. */
  lemma CsvLinesParseBack(caption: string, ps: seq<Point>, column: char, line: char)
    requires column != line && line != ' ' && line !in "Date/Time" && line !in caption
    requires forall i :: 0 <= i < |ps| ==> line !in ps[i].iso && line !in ps[i].y
    ensures SplitOn(Terminated(Lines(caption, ps, [column]), [line]), line) == Lines(caption, ps, [column]) + [""]
  {
    var ls := Lines(caption, ps, [column]);
    TerminatedJoin(ls, [line]);
    LinesFree(caption, ps, column, line);
    SplitOnJoin(ls + [""], line);
  }

  /** Splitting a line at the column delimiter gives back its fields and an empty last piece. */
  lemma CsvFieldsParseBack(caption: string, ps: seq<Point>, column: char)
    requires column != ' ' && column !in "Date/Time" && column !in caption
    requires forall i :: 0 <= i < |ps| ==> column !in ps[i].iso && column !in ps[i].y
    ensures var ls := Lines(caption, ps, [column]);
      && SplitOn(ls[0], column) == ["Date/Time", caption, ""]
      && forall i :: 0 <= i < |ps| ==> SplitOn(ls[i + 1], column) == [Stamp(ps[i].iso), ps[i].y, ""]
  {
    JoinThree("Date/Time", caption, column);
    SplitOnJoin(["Date/Time", caption, ""], column);
    forall i | 0 <= i < |ps| ensures SplitOn(RowLine(ps[i], [column]), column) == [Stamp(ps[i].iso), ps[i].y, ""] {
      RowFields(ps[i], column);
    }
  }

  lemma RowFields(p: Point, column: char)
    requires column != ' ' && column !in p.iso && column !in p.y
    ensures SplitOn(RowLine(p, [column]), column) == [Stamp(p.iso), p.y, ""]
  {
    StampCharacters(p.iso);
    JoinThree(Stamp(p.iso), p.y, column);
    SplitOnJoin([Stamp(p.iso), p.y, ""], column);
  }
}
