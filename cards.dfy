/**
 * The single-number card: the aggregators `sum`, `average`, `latest` and
 * `count` over the loaded metrics, and the card title.
 *
 * `Number.parseFloat` is the parameter `parse` (`None` stands for NaN) and
 * numbers are exact reals.  The date order `sortMetricsByDate` sorts by is
 * the parameter `key`.
 */
module Cards {
  import opened Wrappers
  import opened Text
  import opened DataUtils

  type Parser = string -> Option<real>

  /** What one metric adds to the sum: its parsed value, or nothing when that is NaN. */
  function Contribution(m: Metric, parse: Parser): real
  {
    match m.value
    case None => 0.0
    case Some(v) => match parse(v) case None => 0.0 case Some(x) => x
  }

  /** The sum of the contributions, from the first metric to the last. */
  function SumOf(ms: seq<Metric>, parse: Parser): (r: real)
    ensures ms == [] ==> r == 0.0
  {
    if ms == [] then 0.0 else SumOf(ms[..|ms| - 1], parse) + Contribution(ms[|ms| - 1], parse)
  }

  /** No negative value, no negative sum. */
  lemma {:induction false} SumOfNonNegative(ms: seq<Metric>, parse: Parser)
    requires forall i :: 0 <= i < |ms| ==> Contribution(ms[i], parse) >= 0.0
    ensures SumOf(ms, parse) >= 0.0
  {
    if ms != [] {
      var n := |ms| - 1;
      assert forall i :: 0 <= i < n ==> ms[..n][i] == ms[i];
      SumOfNonNegative(ms[..n], parse);
    }
  }

  /** `sum(metrics)`: the loop adding every numeric value. */
  method Sum(ms: seq<Metric>, parse: Parser) returns (r: real)
    ensures r == SumOf(ms, parse)
  {
    r := 0.0;
    var i := 0;
    while i < |ms|
      invariant 0 <= i <= |ms|
      invariant r == SumOf(ms[..i], parse)
    {
      var m := ms[i];
      if m.value.Some? {
        var num := parse(m.value.value);
        if num.Some? {
          r := r + num.value;
        }
      }
      assert ms[..i + 1][..i] == ms[..i];
      i := i + 1;
    }
    assert ms[..i] == ms;
  }

  /** The sum over two runs of metrics is the sum of their sums. */
  lemma {:induction false} SumOfConcat(a: seq<Metric>, b: seq<Metric>, parse: Parser)
    ensures SumOf(a + b, parse) == SumOf(a, parse) + SumOf(b, parse)
    decreases |b|
  {
    if b == [] {
      assert a + b == a;
    } else {
      var n := |b| - 1;
      assert (a + b)[..|a + b| - 1] == a + b[..n];
      SumOfConcat(a, b[..n], parse);
    }
  }

  /** Metrics whose value is missing or not a number leave the sum as it is. */
  lemma {:induction false} SumOfIgnoresNonNumeric(ms: seq<Metric>, parse: Parser)
    requires forall i :: 0 <= i < |ms| ==> ms[i].value.None? || parse(ms[i].value.value).None?
    ensures SumOf(ms, parse) == 0.0
  {
    if ms != [] {
      SumOfIgnoresNonNumeric(ms[..|ms| - 1], parse);
    }
  }

  /** `count(metrics)`: every metric, numeric or not. */
  function Count(ms: seq<Metric>): (n: nat)
    ensures n == |ms|
  {
    |ms|
  }

  /**
   * `average(metrics)` before `toFixed(2)`: 0 for no metrics, else the sum
   * over the raw count, so that the average times the count gives the sum
   * back with non-numeric entries counted in the divisor.
   */
  function Average(ms: seq<Metric>, parse: Parser): (r: real)
    ensures Count(ms) == 0 ==> r == 0.0
    ensures Count(ms) > 0 ==> r * (Count(ms) as real) == SumOf(ms, parse)
  {
    if |ms| == 0 then 0.0
    else
      var total, n := SumOf(ms, parse), |ms| as real;
      QuotientTimes(total, n, total / n);
      total / n
  }

  lemma QuotientTimes(x: real, n: real, q: real)
    requires n > 0.0 && q == x / n
    ensures q * n == x
  {
  }

  /**
   * The position `latest` reads after the stable ascending sort by date: the
   * last of the metrics with the greatest date.
   */
  function LatestIndex(ms: seq<Metric>, key: Metric -> int): (k: nat)
    requires ms != []
    ensures k < |ms|
    ensures forall j :: 0 <= j < |ms| ==> key(ms[j]) <= key(ms[k])
    ensures forall j :: k < j < |ms| ==> key(ms[j]) < key(ms[k])
  {
    var n := |ms| - 1;
    if n == 0 then 0
    else
      var k := LatestIndex(ms[..n], key);
      assert forall j :: 0 <= j < n ==> ms[..n][j] == ms[j];
      if key(ms[n]) >= key(ms[k]) then n else k
  }

  /** `latest(metrics)`: null for no metrics, else the value of the latest-dated one. */
  function Latest(ms: seq<Metric>, key: Metric -> int): (r: Option<Option<string>>)
    ensures r.None? <==> ms == []
    ensures r.Some? ==>
      exists k :: 0 <= k < |ms| && r.value == ms[k].value
        && (forall j :: 0 <= j < |ms| ==> key(ms[j]) <= key(ms[k]))
        && (forall j :: k < j < |ms| ==> key(ms[j]) < key(ms[k]))
  {
    if ms == [] then None else Some(ms[LatestIndex(ms, key)].value)
  }

  /**
   * `getTitle()`: the metric name, " / " and the child name when there is
   * one, with every dash and every space written as "&nbsp;" (the two
   * `replaceAll` passes equal this one pass over the name).
   */
  function Title(metric: string, child: string): (r: string)
    ensures '-' !in r && ' ' !in r
    ensures r == Escaped(if child != "" then metric + " / " + child else metric)
  {
    var name := if child != "" then metric + " / " + child else metric;
    var spaced := ReplaceAll(name, '-', " ");
    ReplaceAllKeeps(spaced, ' ', "&nbsp;", '-');
    ReplaceTwice(name);
    ReplaceAll(spaced, ' ', "&nbsp;")
  }

  /** One pass over a name: each dash or space becomes "&nbsp;", every other character stays. */
  function Escaped(s: string): string
  {
    if s == [] then [] else (if s[0] == '-' || s[0] == ' ' then "&nbsp;" else [s[0]]) + Escaped(s[1..])
  }

  /** The two passes of `getTitle` (dashes to spaces, then spaces to "&nbsp;") equal the one pass. */
  lemma {:induction false} ReplaceTwice(s: string)
    ensures ReplaceAll(ReplaceAll(s, '-', " "), ' ', "&nbsp;") == Escaped(s)
  {
    if s != [] {
      var x := if s[0] == '-' then " " else [s[0]];
      var rest := ReplaceAll(s[1..], '-', " ");
      assert ReplaceAll(s, '-', " ") == x + rest;
      ReplaceAllConcat(x, rest, ' ', "&nbsp;");
      assert x[1..] == [];
      ReplaceTwice(s[1..]);
    }
  }

  /** Every other character of the title comes from the metric name, the child name or the separator, and all of theirs appear. */
  lemma TitleCharacters(metric: string, child: string, d: char)
    requires d != '-' && d != ' ' && d !in "&nbsp;"
    ensures d in Title(metric, child) <==> d in metric || (child != "" && (d == '/' || d in child))
  {
    var name := if child != "" then metric + " / " + child else metric;
    ReplaceAllKeeps(name, '-', " ", d);
    ReplaceAllKeeps(ReplaceAll(name, '-', " "), ' ', "&nbsp;", d);
  }
}
