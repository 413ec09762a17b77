/**
 * `AutoComplete.search`: the metric names offered while typing.  Every
 * word of the input is a case-insensitive pattern; a candidate scores one
 * point per (word of its label, pattern) pair that matches, candidates
 * scoring nothing are dropped, and the rest are sorted by descending score
 * with a stable sort.
 *
 * A pattern is matched as a literal piece of text, ignoring ASCII case.
 */
module AutoComplete {
  import opened Wrappers
  import opened Text

  /** A candidate: its identity and its `label` (a Dafny keyword, hence `caption`). */
  datatype Candidate = Candidate(id: string, caption: string)

  function LowerChar(c: char): char
  {
    if 'A' <= c <= 'Z' then (c as int + 32) as char else c
  }

  /** ASCII lower case, the case folding the `i` flag applies to these letters. */
  function Lower(s: string): (r: string)
    ensures |r| == |s| && forall i :: 0 <= i < |s| ==> r[i] == LowerChar(s[i])
  {
    seq(|s|, i requires 0 <= i < |s| => LowerChar(s[i]))
  }

  /**
   * The pattern occurs in the token, case ignored: what `test` on a
   * case-insensitive regex for the literal `pattern` answers when it starts
   * at the beginning of the token.  `search`'s regexes also carry the `g`
   * flag, so after a hit their next `test` starts further on; `TestFrom`
   * below models that.
   */
  predicate Matches(pattern: string, token: string)
  {
    Occurs(Lower(pattern), Lower(token))
  }

  /** How many of the patterns match `token`. */
  function Hits(token: string, patterns: seq<string>): (n: nat)
    ensures n <= |patterns|
    ensures n == 0 <==> forall p :: 0 <= p < |patterns| ==> !Matches(patterns[p], token)
  {
    if patterns == [] then 0
    else
      var last := |patterns| - 1;
      assert forall p :: 0 <= p < last ==> patterns[..last][p] == patterns[p];
      Hits(token, patterns[..last]) + (if Matches(patterns[last], token) then 1 else 0)
  }

  /** The number of (token, pattern) pairs that match. */
  function ScoreOf(tokens: seq<string>, patterns: seq<string>): (n: nat)
    ensures n == 0 <==> forall t :: 0 <= t < |tokens| ==> Hits(tokens[t], patterns) == 0
  {
    if tokens == [] then 0
    else
      var last := |tokens| - 1;
      assert forall t :: 0 <= t < last ==> tokens[..last][t] == tokens[t];
      ScoreOf(tokens[..last], patterns) + Hits(tokens[last], patterns)
  }

  /** A candidate's score: its label split at spaces, against the input's words. */
  function Score(c: Candidate, patterns: seq<string>): nat
  {
    ScoreOf(SplitOn(c.caption, ' '), patterns)
  }

  /** Some word is matched by some pattern. */
  predicate AnyMatch(words: seq<string>, patterns: seq<string>)
  {
    exists t, p :: 0 <= t < |words| && 0 <= p < |patterns| && Matches(patterns[p], words[t])
  }

  /** A candidate scores exactly when some word of its label is matched by some pattern. */
  lemma ScorePositive(c: Candidate, patterns: seq<string>)
    ensures Score(c, patterns) > 0 <==> AnyMatch(SplitOn(c.caption, ' '), patterns)
  {
    var ts := SplitOn(c.caption, ' ');
    if Score(c, patterns) > 0 {
      var t :| 0 <= t < |ts| && Hits(ts[t], patterns) != 0;
      var p :| 0 <= p < |patterns| && Matches(patterns[p], ts[t]);
    }
  }

  /** A scored candidate: its position among the candidates and its score. */
  datatype Match = Match(pos: nat, score: nat)

  /** The scoring of `search` for the given input words, as a function of the candidate. */
  function Scorer(patterns: seq<string>): Candidate -> nat
  {
    c => Score(c, patterns)
  }

  /** The candidates that score, in their original order, with their scores. */
  function Scored(cs: seq<Candidate>, score: Candidate -> nat): seq<Match>
  {
    if cs == [] then []
    else
      var n := |cs| - 1;
      var s := score(cs[n]);
      Scored(cs[..n], score) + if s > 0 then [Match(n, s)] else []
  }

  /** Matches listed by increasing position. */
  predicate InOrder(ms: seq<Match>)
  {
    forall k, l :: 0 <= k < l < |ms| ==> ms[k].pos < ms[l].pos
  }

  /** Every match names a candidate and carries that candidate's score, which is positive. */
  predicate Sound(ms: seq<Match>, cs: seq<Candidate>, score: Candidate -> nat)
  {
    forall k :: 0 <= k < |ms| ==> ms[k].pos < |cs| && ms[k].score == score(cs[ms[k].pos]) > 0
  }

  /** Every candidate with a positive score has a match. */
  predicate Complete(ms: seq<Match>, cs: seq<Candidate>, score: Candidate -> nat)
  {
    forall i :: 0 <= i < |cs| && score(cs[i]) > 0 ==> exists k :: 0 <= k < |ms| && ms[k].pos == i
  }

  /** The scored candidates carry their own positive scores. */
  lemma {:induction false} ScoredSound(cs: seq<Candidate>, score: Candidate -> nat)
    ensures Sound(Scored(cs, score), cs, score)
  {
    if cs != [] {
      var n := |cs| - 1;
      var front := Scored(cs[..n], score);
      ScoredSound(cs[..n], score);
      var ms := Scored(cs, score);
      forall k | 0 <= k < |ms| ensures ms[k].pos < |cs| && ms[k].score == score(cs[ms[k].pos]) > 0 {
        if k < |front| {
          assert ms[k] == front[k];
          assert cs[..n][front[k].pos] == cs[front[k].pos];
        }
      }
    }
  }

  /** The scored candidates keep their original order. */
  lemma {:induction false} ScoredInOrder(cs: seq<Candidate>, score: Candidate -> nat)
    ensures InOrder(Scored(cs, score))
  {
    if cs != [] {
      var n := |cs| - 1;
      var front := Scored(cs[..n], score);
      ScoredInOrder(cs[..n], score);
      ScoredSound(cs[..n], score);
      var ms := Scored(cs, score);
      forall k, l | 0 <= k < l < |ms| ensures ms[k].pos < ms[l].pos {
        assert ms[k] == front[k];
        if l < |front| {
          assert ms[l] == front[l];
        }
      }
    }
  }

  /** Every candidate that scores is among the scored ones. */
  lemma {:induction false} ScoredComplete(cs: seq<Candidate>, score: Candidate -> nat)
    ensures Complete(Scored(cs, score), cs, score)
  {
    if cs != [] {
      var n := |cs| - 1;
      var front := Scored(cs[..n], score);
      ScoredComplete(cs[..n], score);
      var ms := Scored(cs, score);
      forall i | 0 <= i < |cs| && score(cs[i]) > 0 ensures exists k :: 0 <= k < |ms| && ms[k].pos == i {
        if i < n {
          assert score(cs[..n][i]) > 0;
          var k :| 0 <= k < |front| && front[k].pos == i;
          assert ms[k] == front[k];
        } else {
          assert ms[|front|].pos == i;
        }
      }
    }
  }

  /** Inserting after every match scoring at least as much: one step of a stable sort by descending score. */
  function InsertByScore(m: Match, ms: seq<Match>): seq<Match>
  {
    if ms == [] then [m]
    else if ms[0].score >= m.score then [ms[0]] + InsertByScore(m, ms[1..])
    else [m] + ms
  }

  /** `matches.sort((a, b) => b.score - a.score)`, a stable sort. */
  function SortByScore(ms: seq<Match>): seq<Match>
  {
    if ms == [] then [] else InsertByScore(ms[|ms| - 1], SortByScore(ms[..|ms| - 1]))
  }

  /** Descending score; among equal scores, the original order. */
  predicate Ranked(ms: seq<Match>)
  {
    forall k, l :: 0 <= k < l < |ms| ==>
      ms[k].score > ms[l].score || (ms[k].score == ms[l].score && ms[k].pos < ms[l].pos)
  }

  lemma {:induction false} InsertPermutes(m: Match, ms: seq<Match>)
    ensures multiset(InsertByScore(m, ms)) == multiset(ms) + multiset{m}
  {
    if ms != [] && ms[0].score >= m.score {
      InsertPermutes(m, ms[1..]);
      assert ms == [ms[0]] + ms[1..];
    }
  }

  /** A match scoring more than the head of a ranked list can go in front of it. */
  lemma RankedCons(m: Match, ms: seq<Match>)
    requires Ranked(ms) && (ms == [] || m.score > ms[0].score)
    ensures Ranked([m] + ms)
  {
    var r := [m] + ms;
    forall k, l | 0 <= k < l < |r| ensures r[k].score > r[l].score || (r[k].score == r[l].score && r[k].pos < r[l].pos) {
      if k == 0 && l > 1 {
        assert ms[0].score >= ms[l - 1].score;
      }
    }
  }

  /** A match that ranks before everything in a ranked list can go in front of it. */
  lemma RankedFirst(x: Match, rest: seq<Match>)
    requires Ranked(rest)
    requires forall l :: 0 <= l < |rest| ==> x.score > rest[l].score || (x.score == rest[l].score && x.pos < rest[l].pos)
    ensures Ranked([x] + rest)
  {
    var r := [x] + rest;
    forall k, l | 0 <= k < l < |r| ensures r[k].score > r[l].score || (r[k].score == r[l].score && r[k].pos < r[l].pos) {
      assert r[l] == rest[l - 1];
      if k > 0 {
        assert r[k] == rest[k - 1];
      }
    }
  }

  lemma {:induction false} InsertRanked(m: Match, ms: seq<Match>)
    requires Ranked(ms) && forall k :: 0 <= k < |ms| ==> ms[k].pos < m.pos
    ensures Ranked(InsertByScore(m, ms))
  {
    if ms == [] || ms[0].score < m.score {
      RankedCons(m, ms);
    } else {
      var tail := ms[1..];
      assert Ranked(tail) by {
        forall k, l | 0 <= k < l < |tail| ensures tail[k].score > tail[l].score || (tail[k].score == tail[l].score && tail[k].pos < tail[l].pos) {
          assert tail[k] == ms[k + 1] && tail[l] == ms[l + 1];
        }
      }
      InsertRanked(m, tail);
      InsertPermutes(m, tail);
      var rest := InsertByScore(m, tail);
      forall l | 0 <= l < |rest| ensures ms[0].score > rest[l].score || (ms[0].score == rest[l].score && ms[0].pos < rest[l].pos) {
        var x := rest[l];
        if x != m {
          assert x in multiset(tail) + multiset{m};
          assert x in tail;
          var j :| 0 <= j < |tail| && tail[j] == x;
          assert ms[j + 1] == x;
        }
      }
      RankedFirst(ms[0], rest);
    }
  }

  /** The sort only reorders the matches. */
  lemma {:induction false} SortPermutes(ms: seq<Match>)
    ensures multiset(SortByScore(ms)) == multiset(ms)
    decreases |ms|
  {
    if ms != [] {
      var n := |ms| - 1;
      SortPermutes(ms[..n]);
      InsertPermutes(ms[n], SortByScore(ms[..n]));
      assert ms[..n] + [ms[n]] == ms;
    }
  }

  /** Sorting all but the last of matches in original order leaves only matches before the last. */
  lemma SortedBefore(ms: seq<Match>)
    requires ms != [] && InOrder(ms)
    ensures var n := |ms| - 1;
      forall k :: 0 <= k < |SortByScore(ms[..n])| ==> SortByScore(ms[..n])[k].pos < ms[n].pos
  {
    var n := |ms| - 1;
    var front := SortByScore(ms[..n]);
    SortPermutes(ms[..n]);
    forall k | 0 <= k < |front| ensures front[k].pos < ms[n].pos {
      assert front[k] in multiset(ms[..n]);
      var j :| 0 <= j < n && ms[..n][j] == front[k];
      assert ms[j] == front[k];
    }
  }

  /** The sort ranks matches given in their original order. */
  lemma {:induction false} SortRanked(ms: seq<Match>)
    requires InOrder(ms)
    ensures Ranked(SortByScore(ms))
    decreases |ms|
  {
    if ms != [] {
      var n := |ms| - 1;
      var front := SortByScore(ms[..n]);
      SortRanked(ms[..n]);
      SortedBefore(ms);
      InsertRanked(ms[n], front);
    }
  }

  /** The scoring candidates ranked: a stable sort by descending score of the matches in original order. */
  function RankBy(cs: seq<Candidate>, score: Candidate -> nat): (r: seq<Match>)
    ensures Ranked(r)
    ensures multiset(r) == multiset(Scored(cs, score))
    ensures Sound(r, cs, score)
  {
    var ms := Scored(cs, score);
    ScoredInOrder(cs, score);
    ScoredSound(cs, score);
    SortRanked(ms);
    SortPermutes(ms);
    PermutedSound(ms, SortByScore(ms), cs, score);
    SortByScore(ms)
  }

  /**
   * What the ranking promises: every result scores, scores never increase
   * along the results, equal scores keep the candidates' order, no
   * candidate comes twice, and every candidate that scores is there.
   */
  lemma RankByFacts(cs: seq<Candidate>, score: Candidate -> nat)
    ensures var r := RankBy(cs, score);
      && Sound(r, cs, score)
      && (forall k, l :: 0 <= k < l < |r| ==> r[k].score >= r[l].score)
      && (forall k, l :: 0 <= k < l < |r| && r[k].score == r[l].score ==> r[k].pos < r[l].pos)
      && (forall k, l :: 0 <= k < l < |r| ==> r[k].pos != r[l].pos)
      && Complete(r, cs, score)
  {
    var ms := Scored(cs, score);
    var r := RankBy(cs, score);
    ScoredComplete(cs, score);
    PermutedComplete(ms, r, cs, score);
  }

  lemma PermutedSound(ms: seq<Match>, r: seq<Match>, cs: seq<Candidate>, score: Candidate -> nat)
    requires multiset(r) == multiset(ms) && Sound(ms, cs, score)
    ensures Sound(r, cs, score)
  {
    forall k | 0 <= k < |r| ensures r[k].pos < |cs| && r[k].score == score(cs[r[k].pos]) > 0 {
      assert r[k] in multiset(ms);
      var j :| 0 <= j < |ms| && ms[j] == r[k];
    }
  }

  lemma PermutedComplete(ms: seq<Match>, r: seq<Match>, cs: seq<Candidate>, score: Candidate -> nat)
    requires multiset(r) == multiset(ms) && Complete(ms, cs, score)
    ensures Complete(r, cs, score)
  {
    forall i | 0 <= i < |cs| && score(cs[i]) > 0 ensures exists k :: 0 <= k < |r| && r[k].pos == i {
      var j :| 0 <= j < |ms| && ms[j].pos == i;
      assert ms[j] in multiset(r);
      var k :| 0 <= k < |r| && r[k] == ms[j];
    }
  }

  /** The matches `search` returns for `input`, in the order it returns them. */
  function Ranking(input: string, cs: seq<Candidate>): (r: seq<Match>)
    ensures forall k :: 0 <= k < |r| ==> r[k].pos < |cs|
  {
    RankBy(cs, Scorer(SplitOn(input, ' ')))
  }

  /** The score of one candidate: the outer loop, over its label's words. */
  method CandidateScore(c: Candidate, patterns: seq<string>) returns (score: nat)
    ensures score == Score(c, patterns)
  {
    score := 0;
    var tokens := SplitOn(c.caption, ' ');
    var t := 0;
    while t < |tokens|
      invariant 0 <= t <= |tokens|
      invariant score == ScoreOf(tokens[..t], patterns)
    {
      var hits := TokenHits(tokens[t], patterns);
      ScoreOfStep(tokens, t, patterns);
      score := score + hits;
      t := t + 1;
    }
    assert tokens[..t] == tokens;
  }

  lemma ScoreOfStep(tokens: seq<string>, t: nat, patterns: seq<string>)
    requires t < |tokens|
    ensures ScoreOf(tokens[..t + 1], patterns) == ScoreOf(tokens[..t], patterns) + Hits(tokens[t], patterns)
  {
    assert tokens[..t + 1][..t] == tokens[..t];
  }

  /** The inner loop of the scoring: the input's words that match one word of the label. */
  method TokenHits(token: string, patterns: seq<string>) returns (hits: nat)
    ensures hits == Hits(token, patterns)
  {
    hits := 0;
    var p := 0;
    while p < |patterns|
      invariant 0 <= p <= |patterns|
      invariant hits == Hits(token, patterns[..p])
    {
      HitsStep(token, patterns, p);
      if Matches(patterns[p], token) {
        hits := hits + 1;
      }
      p := p + 1;
    }
    assert patterns[..p] == patterns;
  }

  lemma HitsStep(token: string, patterns: seq<string>, p: nat)
    requires p < |patterns|
    ensures Hits(token, patterns[..p + 1]) == Hits(token, patterns[..p]) + (if Matches(patterns[p], token) then 1 else 0)
  {
    assert patterns[..p + 1][..p] == patterns[..p];
  }

  /** `AutoComplete.search(input, candidates)`: the candidates of the ranking, in its order. */
  method Search(input: string, candidates: seq<Candidate>) returns (results: seq<Candidate>)
    ensures |results| == |Ranking(input, candidates)|
    ensures forall k :: 0 <= k < |results| ==> results[k] == candidates[Ranking(input, candidates)[k].pos]
  {
    var patterns := SplitOn(input, ' ');
    var matches: seq<Match> := [];
    var i := 0;
    while i < |candidates|
      invariant 0 <= i <= |candidates|
      invariant matches == Scored(candidates[..i], Scorer(patterns))
    {
      var candidateScore := CandidateScore(candidates[i], patterns);
      assert candidates[..i + 1][..i] == candidates[..i];
      assert Scorer(patterns)(candidates[..i + 1][i]) == candidateScore;
      if candidateScore > 0 {
        matches := matches + [Match(i, candidateScore)];
      }
      i := i + 1;
    }
    assert candidates[..i] == candidates;
    matches := SortByScore(matches);
    assert matches == Ranking(input, candidates);
    results := Collect(candidates, matches);
  }

  /** The last loop of `search`: the candidate of each match, in the matches' order. */
  method Collect(candidates: seq<Candidate>, matches: seq<Match>) returns (results: seq<Candidate>)
    requires forall k :: 0 <= k < |matches| ==> matches[k].pos < |candidates|
    ensures |results| == |matches|
    ensures forall k :: 0 <= k < |results| ==> results[k] == candidates[matches[k].pos]
  {
    results := [];
    var k := 0;
    while k < |matches|
      invariant 0 <= k <= |matches|
      invariant |results| == k
      invariant forall j :: 0 <= j < k ==> results[j] == candidates[matches[j].pos]
    {
      results := results + [candidates[matches[k].pos]];
      k := k + 1;
    }
  }

  // The patterns as `search` runs them.  Each `RegExp` is built once, with
  // the `g` flag, and reused for every word of every candidate; `test` then
  // starts at the regex's `lastIndex`, which a hit moves to the end of the
  // hit and a miss resets to 0.

  /** The first place at or after `from` where `t` occurs in `s`. */
  function FirstOccurrence(t: string, s: string, from: nat): (r: Option<nat>)
    ensures r.Some? ==> from <= r.value && OccursAt(t, s, r.value)
    ensures r.Some? ==> forall k: nat :: from <= k < r.value ==> !OccursAt(t, s, k)
    ensures r.None? ==> forall k: nat :: from <= k ==> !OccursAt(t, s, k)
    decreases |s| - from
  {
    if from + |t| > |s| then None
    else if OccursAt(t, s, from) then Some(from)
    else FirstOccurrence(t, s, from + 1)
  }

  /**
   * `rex.test(token)` for a global, case-insensitive regex holding the
   * literal `pattern` whose `lastIndex` is `last`: whether it hits, and the
   * `lastIndex` it leaves.
   */
  function TestFrom(pattern: string, token: string, last: nat): (r: (bool, nat))
    ensures r.0 ==> Matches(pattern, token) && last + |pattern| <= r.1 <= |token|
    ensures !r.0 ==> r.1 == 0
  {
    match FirstOccurrence(Lower(pattern), Lower(token), last)
    case Some(k) =>
      assert OccursAt(Lower(pattern), Lower(token), k);
      (true, k + |pattern|)
    case None => (false, 0)
  }

  /** From `lastIndex` 0 the global regex answers as `Matches` does. */
  lemma TestFromStart(pattern: string, token: string)
    ensures TestFrom(pattern, token, 0).0 <==> Matches(pattern, token)
  {
    if Matches(pattern, token) {
      var i: nat :| OccursAt(Lower(pattern), Lower(token), i);
    }
  }

  /** The inner loop as written: the hits on one word, and each pattern's new `lastIndex`. */
  function HitsFrom(token: string, patterns: seq<string>, last: seq<nat>): (r: (nat, seq<nat>))
    requires |last| == |patterns|
    ensures r.0 <= Hits(token, patterns)
    ensures |r.1| == |patterns|
    ensures forall p :: 0 <= p < |patterns| ==> r.1[p] == TestFrom(patterns[p], token, last[p]).1
  {
    if patterns == [] then (0, [])
    else
      var n := |patterns| - 1;
      var front := HitsFrom(token, patterns[..n], last[..n]);
      var test := TestFrom(patterns[n], token, last[n]);
      assert forall p :: 0 <= p < n ==> patterns[..n][p] == patterns[p] && last[..n][p] == last[p];
      assert Hits(token, patterns) == Hits(token, patterns[..n]) + (if Matches(patterns[n], token) then 1 else 0);
      (front.0 + (if test.0 then 1 else 0), front.1 + [test.1])
  }

  /** The words of one label as written, each tested from the `lastIndex`es the previous word left. */
  function ScoreFrom(tokens: seq<string>, patterns: seq<string>, last: seq<nat>): (r: (nat, seq<nat>))
    requires |last| == |patterns|
    ensures r.0 <= ScoreOf(tokens, patterns)
    ensures |r.1| == |patterns|
    decreases |tokens|
  {
    if tokens == [] then (0, last)
    else
      var n := |tokens| - 1;
      var front := ScoreFrom(tokens[..n], patterns, last);
      var hits := HitsFrom(tokens[n], patterns, front.1);
      (front.0 + hits.0, hits.1)
  }

  /** One candidate as written: its score, and the `lastIndex`es its words leave. */
  function CandidateFrom(c: Candidate, patterns: seq<string>, last: seq<nat>): (r: (nat, seq<nat>))
    requires |last| == |patterns|
    ensures r.0 <= Score(c, patterns)
    ensures |r.1| == |patterns|
  {
    ScoreFrom(SplitOn(c.caption, ' '), patterns, last)
  }

  /** The scoring loop as written: the kept matches in candidate order, and the `lastIndex`es left. */
  function ScoredFrom(cs: seq<Candidate>, patterns: seq<string>, last: seq<nat>): (r: (seq<Match>, seq<nat>))
    requires |last| == |patterns|
    ensures |r.1| == |patterns|
  {
    if cs == [] then ([], last)
    else
      var n := |cs| - 1;
      var front := ScoredFrom(cs[..n], patterns, last);
      var score := CandidateFrom(cs[n], patterns, front.1);
      (front.0 + (if score.0 > 0 then [Match(n, score.0)] else []), score.1)
  }

  /** Every regex of `search` starts with `lastIndex` 0. */
  function Fresh(patterns: seq<string>): (r: seq<nat>)
    ensures |r| == |patterns| && forall p :: 0 <= p < |r| ==> r[p] == 0
  {
    seq(|patterns|, _ => 0)
  }

  /** The matches of `search` as written, in the order it returns them: ranked, and each within the intended score. */
  function RankingAsWritten(input: string, cs: seq<Candidate>): (r: seq<Match>)
    ensures Ranked(r)
    ensures ScoredAtMost(r, cs, SplitOn(input, ' '))
    ensures forall k :: 0 <= k < |r| ==> r[k].pos < |cs|
  {
    var patterns := SplitOn(input, ' ');
    var ms := ScoredFrom(cs, patterns, Fresh(patterns)).0;
    AsWrittenSound(cs, patterns, Fresh(patterns));
    AsWrittenAtMost(cs, patterns, Fresh(patterns));
    SortRanked(ms);
    SortPermutes(ms);
    PermutedAtMost(ms, SortByScore(ms), cs, patterns);
    SortByScore(ms)
  }

  /** The results of `search` as written. */
  function SearchAsWritten(input: string, cs: seq<Candidate>): (r: seq<Candidate>)
    ensures |r| == |RankingAsWritten(input, cs)|
    ensures forall k :: 0 <= k < |r| ==> r[k] == cs[RankingAsWritten(input, cs)[k].pos]
  {
    var ms := RankingAsWritten(input, cs);
    seq(|ms|, k requires 0 <= k < |ms| => cs[ms[k].pos])
  }

  /** Every match names a candidate whose intended score is at least the match's positive score. */
  predicate ScoredAtMost(ms: seq<Match>, cs: seq<Candidate>, patterns: seq<string>)
  {
    forall k :: 0 <= k < |ms| ==> ms[k].pos < |cs| && 0 < ms[k].score <= Score(cs[ms[k].pos], patterns)
  }

  /**
   * What the written code keeps is kept by the intended scoring too, with
   * a score no higher.
   */
  lemma {:induction false} AsWrittenSound(cs: seq<Candidate>, patterns: seq<string>, last: seq<nat>)
    requires |last| == |patterns|
    ensures ScoredAtMost(ScoredFrom(cs, patterns, last).0, cs, patterns)
  {
    if cs != [] {
      var n := |cs| - 1;
      var front := ScoredFrom(cs[..n], patterns, last);
      var score := CandidateFrom(cs[n], patterns, front.1);
      var ms := front.0 + (if score.0 > 0 then [Match(n, score.0)] else []);
      assert ScoredFrom(cs, patterns, last).0 == ms;
      AsWrittenSound(cs[..n], patterns, last);
      forall k | 0 <= k < |ms| ensures ms[k].pos < |cs| && 0 < ms[k].score <= Score(cs[ms[k].pos], patterns) {
        if k < |front.0| {
          assert ms[k] == front.0[k];
          assert cs[..n][front.0[k].pos] == cs[front.0[k].pos];
        } else {
          assert ms[k] == Match(n, score.0);
        }
      }
    }
  }

  /** The written scoring keeps each candidate at most once, in candidate order. */
  lemma {:induction false} AsWrittenAtMost(cs: seq<Candidate>, patterns: seq<string>, last: seq<nat>)
    requires |last| == |patterns|
    ensures InOrder(ScoredFrom(cs, patterns, last).0)
  {
    if cs != [] {
      var n := |cs| - 1;
      var front := ScoredFrom(cs[..n], patterns, last);
      var score := CandidateFrom(cs[n], patterns, front.1);
      AsWrittenAtMost(cs[..n], patterns, last);
      AsWrittenSound(cs[..n], patterns, last);
      var ms := front.0 + (if score.0 > 0 then [Match(n, score.0)] else []);
      assert ScoredFrom(cs, patterns, last).0 == ms;
      forall k, l | 0 <= k < l < |ms| ensures ms[k].pos < ms[l].pos {
        assert ms[k] == front.0[k];
        if l < |front.0| {
          assert ms[l] == front.0[l];
        }
      }
    }
  }

  lemma PermutedAtMost(ms: seq<Match>, r: seq<Match>, cs: seq<Candidate>, patterns: seq<string>)
    requires multiset(r) == multiset(ms) && ScoredAtMost(ms, cs, patterns)
    ensures ScoredAtMost(r, cs, patterns)
  {
    forall k | 0 <= k < |r| ensures r[k].pos < |cs| && 0 < r[k].score <= Score(cs[r[k].pos], patterns) {
      assert r[k] in multiset(ms);
      var j :| 0 <= j < |ms| && ms[j] == r[k];
    }
  }

  /** The global regex for "mo" on the words of "Mood" and "Mood am". */
  lemma MoodTests()
    ensures TestFrom("mo", "Mood", 0) == (true, 2)
    ensures TestFrom("mo", "Mood", 2) == (false, 0)
    ensures TestFrom("mo", "am", 0) == (false, 0)
  {
    assert Lower("mo") == "mo";
    assert Lower("Mood") == "mood";
    assert Lower("am") == "am";
    assert OccursAt("mo", "mood", 0);
    MissAt("mo", "mood", 2);
    assert FirstOccurrence("mo", "mood", 3) == None;
    assert FirstOccurrence("mo", "mood", 2) == None;
    MissAt("mo", "am", 0);
    assert FirstOccurrence("mo", "am", 1) == None;
    assert FirstOccurrence("mo", "am", 0) == None;
  }

  /**
   * Two candidates, the second label repeating the first one's word `w`
   * before a word `q`: when the one pattern hits `w` from the start but
   * misses it from where that hit ends, and misses `q`, the written code
   * keeps only the first candidate.
   */
  lemma RepeatedWordAsWritten(cs: seq<Candidate>, pattern: string, w: string, q: string)
    requires |cs| == 2
    requires SplitOn(cs[0].caption, ' ') == [w] && SplitOn(cs[1].caption, ' ') == [w, q]
    requires TestFrom(pattern, w, 0).0
    requires TestFrom(pattern, w, TestFrom(pattern, w, 0).1) == (false, 0)
    requires TestFrom(pattern, q, 0) == (false, 0)
    ensures ScoredFrom(cs, [pattern], [0]).0 == [Match(0, 1)]
  {
    var after := TestFrom(pattern, w, 0).1;
    HitsFromOne(w, pattern, 0);
    HitsFromOne(w, pattern, after);
    HitsFromOne(q, pattern, 0);
    assert [w][..0] == [];
    assert ScoreFrom([w], [pattern], [0]) == (1, [after]);
    assert CandidateFrom(cs[0], [pattern], [0]) == (1, [after]);
    assert [w, q][..1] == [w];
    assert ScoreFrom([w], [pattern], [after]) == (0, [0]);
    assert CandidateFrom(cs[1], [pattern], [after]) == (0, [0]);
    assert cs[..1][..0] == [];
    assert cs[..1][0] == cs[0];
    assert ScoredFrom(cs[..1][..0], [pattern], [0]) == ([], [0]);
    assert [] + [Match(0, 1)] == [Match(0, 1)];
    assert ScoredFrom(cs[..1], [pattern], [0]) == ([Match(0, 1)], [after]);
  }

  /** One pattern on one word: a match counts 1. */
  lemma HitsOne(token: string, pattern: string)
    ensures Hits(token, [pattern]) == if Matches(pattern, token) then 1 else 0
  {
    assert [pattern][..0] == [];
  }

  /** One pattern on one word: a hit counts 1, and the `lastIndex` is the one `test` leaves. */
  lemma HitsFromOne(token: string, pattern: string, last: nat)
    ensures var test := TestFrom(pattern, token, last);
      HitsFrom(token, [pattern], [last]) == (if test.0 then 1 else 0, [test.1])
  {
    var test := TestFrom(pattern, token, last);
    assert [pattern][..0] == [] && [last][..0] == [];
    assert HitsFrom(token, [], []) == (0, []);
    assert [] + [test.1] == [test.1];
  }

  /** The same two candidates read without the shared `lastIndex`: both score 1. */
  lemma RepeatedWordIntended(cs: seq<Candidate>, pattern: string, w: string, q: string)
    requires |cs| == 2
    requires SplitOn(cs[0].caption, ' ') == [w] && SplitOn(cs[1].caption, ' ') == [w, q]
    requires Matches(pattern, w) && !Matches(pattern, q)
    ensures Scored(cs, Scorer([pattern])) == [Match(0, 1), Match(1, 1)]
  {
    HitsOne(w, pattern);
    HitsOne(q, pattern);
    assert [w][..0] == [];
    assert ScoreOf([w], [pattern]) == 1;
    assert [w, q][..1] == [w];
    assert ScoreOf([w, q], [pattern]) == 1;
    ScoredTwo(cs, Scorer([pattern]));
  }

  /** Two candidates that both score are kept in their order. */
  lemma ScoredTwo(cs: seq<Candidate>, score: Candidate -> nat)
    requires |cs| == 2 && score(cs[0]) > 0 && score(cs[1]) > 0
    ensures Scored(cs, score) == [Match(0, score(cs[0])), Match(1, score(cs[1]))]
  {
    assert cs[..1][..0] == [] && cs[..1][0] == cs[0];
    assert Scored(cs[..1], score) == [Match(0, score(cs[0]))];
  }

  /**
   * The shared `lastIndex` loses a candidate: for the input "mo", "Mood"
   * leaves the regex's `lastIndex` at 2, so the `test` on the word "Mood"
   * of "Mood am" starts at 2 and misses.  The written code returns only
   * "Mood"; the intended scoring returns both, with score 1 each.
   */
  lemma GlobalRegexDropsCandidate()
    ensures var cs := [Candidate("mood", "Mood"), Candidate("mood-am", "Mood am")];
      && SearchAsWritten("mo", cs) == [cs[0]]
      && Ranking("mo", cs) == [Match(0, 1), Match(1, 1)]
  {
    MoodAsWritten();
    MoodIntended();
  }

  lemma MoodAsWritten()
    ensures SearchAsWritten("mo", [Candidate("mood", "Mood"), Candidate("mood-am", "Mood am")])
      == [Candidate("mood", "Mood")]
  {
    var cs := [Candidate("mood", "Mood"), Candidate("mood-am", "Mood am")];
    SplitOnNone("mo", ' ');
    SplitOnNone("Mood", ' ');
    SplitOnTwo("Mood am", ' ', "Mood", "am");
    MoodTests();
    RepeatedWordSearchAsWritten("mo", cs, "Mood", "am");
  }

  lemma MoodIntended()
    ensures Ranking("mo", [Candidate("mood", "Mood"), Candidate("mood-am", "Mood am")])
      == [Match(0, 1), Match(1, 1)]
  {
    var cs := [Candidate("mood", "Mood"), Candidate("mood-am", "Mood am")];
    SplitOnNone("mo", ' ');
    SplitOnNone("Mood", ' ');
    SplitOnTwo("Mood am", ' ', "Mood", "am");
    MoodTests();
    TestFromStart("mo", "Mood");
    TestFromStart("mo", "am");
    RepeatedWordRanking("mo", cs, "Mood", "am");
  }

  /** `search` as written on the two candidates of `RepeatedWordAsWritten`, for an input of one word. */
  lemma RepeatedWordSearchAsWritten(input: string, cs: seq<Candidate>, w: string, q: string)
    requires |cs| == 2
    requires SplitOn(input, ' ') == [input]
    requires SplitOn(cs[0].caption, ' ') == [w] && SplitOn(cs[1].caption, ' ') == [w, q]
    requires TestFrom(input, w, 0).0
    requires TestFrom(input, w, TestFrom(input, w, 0).1) == (false, 0)
    requires TestFrom(input, q, 0) == (false, 0)
    ensures SearchAsWritten(input, cs) == [cs[0]]
  {
    RepeatedWordAsWritten(cs, input, w, q);
    assert Fresh([input]) == [0];
    SortTwo(Match(0, 1), Match(0, 1));
    assert RankingAsWritten(input, cs) == [Match(0, 1)];
  }

  /** The intended ranking of the same two candidates. */
  lemma RepeatedWordRanking(input: string, cs: seq<Candidate>, w: string, q: string)
    requires |cs| == 2
    requires SplitOn(input, ' ') == [input]
    requires SplitOn(cs[0].caption, ' ') == [w] && SplitOn(cs[1].caption, ' ') == [w, q]
    requires Matches(input, w) && !Matches(input, q)
    ensures Ranking(input, cs) == [Match(0, 1), Match(1, 1)]
  {
    RepeatedWordIntended(cs, input, w, q);
    SortTwo(Match(0, 1), Match(1, 1));
  }

  /** Sorting one match, or two already in descending score, changes nothing. */
  lemma SortTwo(a: Match, b: Match)
    requires a.score >= b.score
    ensures SortByScore([a]) == [a]
    ensures SortByScore([a, b]) == [a, b]
  {
    assert [a][..0] == [] && [a, b][..1] == [a];
    assert InsertByScore(b, [a]) == [a] + InsertByScore(b, []);
  }
}
