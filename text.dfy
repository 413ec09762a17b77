/**
 * String helpers the plugin gets from JavaScript's `String` methods, and
 * the delimiter splitter `splitBy` built on them.  A string is a
 * `seq<char>`, a sequence of Unicode scalar values.
 */
module Text {

  /** Characters `String.prototype.trim` removes: white space and line terminators. */
  predicate IsJsSpace(c: char)
  {
    || c == '\t' || c == '\n' || c == '\U{0B}' || c == '\U{0C}' || c == '\r' || c == ' '
    || c == '\U{A0}' || c == '\U{1680}' || ('\U{2000}' <= c <= '\U{200A}')
    || c == '\U{2028}' || c == '\U{2029}' || c == '\U{202F}' || c == '\U{205F}'
    || c == '\U{3000}' || c == '\U{FEFF}'
  }

  /** `s` without its leading run of characters satisfying `p`. */
  function DropLeading(s: string, p: char -> bool): (r: string)
    ensures |r| <= |s| && r == s[|s| - |r|..]
    ensures r == [] || !p(r[0])
    ensures forall k :: 0 <= k < |s| - |r| ==> p(s[k])
  {
    if s != [] && p(s[0]) then
      var r := DropLeading(s[1..], p);
      assert s[1..][|s| - 1 - |r|..] == s[|s| - |r|..];
      assert forall k :: 1 <= k < |s| - |r| ==> s[k] == s[1..][k - 1];
      r
    else s
  }

  /** `s` without its trailing run of characters satisfying `p`. */
  function DropTrailing(s: string, p: char -> bool): (r: string)
    ensures |r| <= |s| && r == s[..|r|]
    ensures r == [] || !p(r[|r| - 1])
    ensures forall k :: |r| <= k < |s| ==> p(s[k])
  {
    if s != [] && p(s[|s| - 1]) then
      var r := DropTrailing(s[..|s| - 1], p);
      assert s[..|s| - 1][..|r|] == s[..|r|];
      assert forall k :: |r| <= k < |s| - 1 ==> s[k] == s[..|s| - 1][k];
      r
    else s
  }

  /** Both runs removed: `s.replace(/^[...]+/, "").replace(/[...]+$/, "")`, and `trim` for white space. */
  function Strip(s: string, p: char -> bool): string
  {
    DropTrailing(DropLeading(s, p), p)
  }

  /** The character of `s` at index `k` exists and is white space. */
  predicate SpaceAt(s: string, k: int)
  {
    0 <= k < |s| && IsJsSpace(s[k])
  }

  /** `String.prototype.trim`: the input without its leading and trailing white space, and nothing else removed. */
  function Trim(s: string): (r: string)
    ensures r == [] || (!IsJsSpace(r[0]) && !IsJsSpace(r[|r| - 1]))
    ensures exists i: nat :: (OccursAt(r, s, i)
      && (forall k :: 0 <= k < i ==> SpaceAt(s, k))
      && (forall k :: i + |r| <= k < |s| ==> SpaceAt(s, k)))
  {
    StripPiece(s, IsJsSpace);
    Strip(s, IsJsSpace)
  }

  /** Stripping removes a run of `p` characters at each end and keeps what lies between. */
  lemma StripPiece(s: string, p: char -> bool)
    ensures var r := Strip(s, p);
      exists i: nat :: (OccursAt(r, s, i)
        && (forall k :: 0 <= k < i ==> p(s[k]))
        && (forall k :: i + |r| <= k < |s| ==> p(s[k])))
  {
    var l := DropLeading(s, p);
    var i := |s| - |l|;
    StripOccurs(s, p);
    StripTrailingRun(s, p);
    assert Strip(s, p) == DropTrailing(l, p);
    assert forall k :: 0 <= k < i ==> p(s[k]);
  }

  lemma StripOccurs(s: string, p: char -> bool)
    ensures OccursAt(Strip(s, p), s, |s| - |DropLeading(s, p)|)
  {
    var l := DropLeading(s, p);
    var r := DropTrailing(l, p);
    PrefixOfSuffix(s, l, r, |s| - |l|);
  }

  /** A prefix of a suffix of `s` occurs in `s` where the suffix starts. */
  lemma PrefixOfSuffix(s: string, l: string, r: string, i: nat)
    requires i <= |s| && l == s[i..] && |r| <= |l| && r == l[..|r|]
    ensures OccursAt(r, s, i)
  {
    assert s[i..][..|r|] == s[i..i + |r|];
  }

  lemma StripTrailingRun(s: string, p: char -> bool)
    ensures var i := |s| - |DropLeading(s, p)|;
      forall k :: i + |Strip(s, p)| <= k < |s| ==> p(s[k])
  {
    var l := DropLeading(s, p);
    var r := DropTrailing(l, p);
    var i := |s| - |l|;
    forall k | i + |r| <= k < |s| ensures p(s[k]) {
      assert s[k] == l[k - i];
    }
  }

  /** Stripping keeps a contiguous piece of the input and strips nothing more when repeated. */
  lemma StripFacts(s: string, p: char -> bool)
    ensures Occurs(Strip(s, p), s) && Strip(Strip(s, p), p) == Strip(s, p)
  {
    var l := DropLeading(s, p);
    var r := Strip(s, p);
    var i := |s| - |l|;
    assert s[i..i + |r|] == l[..|r|];
    assert OccursAt(r, s, i);
  }

  /** The index of the first character satisfying `p`, or `|s|`. */
  function FirstIndex(s: string, p: char -> bool): (k: nat)
    ensures k <= |s| && (k < |s| ==> p(s[k]))
    ensures forall j :: 0 <= j < k ==> !p(s[j])
  {
    if s == [] then 0 else if p(s[0]) then 0 else 1 + FirstIndex(s[1..], p)
  }

  /** `s.split(/[...]+/)`: the pieces between maximal runs of characters satisfying `p`. */
  function SplitRuns(s: string, p: char -> bool): (r: seq<string>)
    ensures |r| >= 1
    ensures forall i, c :: 0 <= i < |r| && c in r[i] ==> !p(c)
    decreases |s|
  {
    var k := FirstIndex(s, p);
    if k == |s| then [s] else [s[..k]] + SplitRuns(DropLeading(s[k..], p), p)
  }

  /**
   * The delimiters read as a set of literal characters.  This is the
   * regular-expression class `[delimiters]` when the delimiters hold no
   * `-`, `^`, `\` or `]`, as the default ones do.
   */
  function InClass(delimiters: string): char -> bool
  {
    c => c in delimiters
  }

  /** The default delimiters of `splitBy`: space, `|` and `:`. */
  const DefaultDelimiters: string := " |:"

  /** `splitBy(text, delimiters)`: null or empty text gives no pieces. */
  function SplitBy(text: string, delimiters: string): seq<string>
  {
    if text == "" then [] else SplitRuns(Strip(text, InClass(delimiters)), InClass(delimiters))
  }

  /** The characters of `s` that are not delimiters, in order. */
  function Kept(s: string, p: char -> bool): (r: string)
    ensures |r| <= |s|
  {
    if s == [] then [] else (if p(s[0]) then [] else [s[0]]) + Kept(s[1..], p)
  }

  function Concat(ps: seq<string>): string
  {
    if ps == [] then [] else ps[0] + Concat(ps[1..])
  }

  /** `parts.join(sep)`. */
  function Join(ps: seq<string>, sep: string): string
  {
    if ps == [] then [] else if |ps| == 1 then ps[0] else ps[0] + sep + Join(ps[1..], sep)
  }

  lemma {:induction false} KeptConcat(a: string, b: string, p: char -> bool)
    ensures Kept(a + b, p) == Kept(a, p) + Kept(b, p)
  {
    if a != [] {
      assert (a + b)[1..] == a[1..] + b;
      KeptConcat(a[1..], b, p);
    } else {
      assert a + b == b;
    }
  }

  lemma {:induction false} KeptAll(s: string, p: char -> bool)
    requires forall k :: 0 <= k < |s| ==> p(s[k])
    ensures Kept(s, p) == []
  {
    if s != [] {
      KeptAll(s[1..], p);
    }
  }

  lemma {:induction false} KeptNone(s: string, p: char -> bool)
    requires forall k :: 0 <= k < |s| ==> !p(s[k])
    ensures Kept(s, p) == s
  {
    if s != [] {
      KeptNone(s[1..], p);
    }
  }

  lemma {:induction false} KeptDropLeading(s: string, p: char -> bool)
    ensures Kept(DropLeading(s, p), p) == Kept(s, p)
  {
    if s != [] && p(s[0]) {
      KeptDropLeading(s[1..], p);
      assert Kept(s, p) == [] + Kept(s[1..], p);
    }
  }

  lemma {:induction false} KeptDropTrailing(s: string, p: char -> bool)
    ensures Kept(DropTrailing(s, p), p) == Kept(s, p)
  {
    if s != [] && p(s[|s| - 1]) {
      var n := |s| - 1;
      KeptDropTrailing(s[..n], p);
      assert s == s[..n] + [s[n]];
      KeptConcat(s[..n], [s[n]], p);
      assert Kept([s[n]], p) == [] + Kept([], p);
    }
  }

  /** Removing delimiters at either end does not change what is kept. */
  lemma StripKept(s: string, p: char -> bool)
    ensures Kept(Strip(s, p), p) == Kept(s, p)
  {
    KeptDropLeading(s, p);
    KeptDropTrailing(DropLeading(s, p), p);
  }

  /** Joined back together, the pieces are the text with every delimiter removed. */
  lemma {:induction false} SplitRunsKept(s: string, p: char -> bool)
    ensures Concat(SplitRuns(s, p)) == Kept(s, p)
    decreases |s|
  {
    var k := FirstIndex(s, p);
    if k == |s| {
      KeptNone(s, p);
      ConcatCons(s, []);
    } else {
      var rest := DropLeading(s[k..], p);
      SplitRunsStep(s, p);
      SplitRunsKept(rest, p);
      KeptSplitAt(s, k, p);
      KeptDropLeading(s[k..], p);
      ConcatCons(s[..k], SplitRuns(rest, p));
    }
  }

  lemma ConcatCons(x: string, ps: seq<string>)
    ensures Concat([x] + ps) == x + Concat(ps)
  {
    assert ([x] + ps)[1..] == ps;
  }

  /** A prefix free of delimiters is kept whole. */
  lemma KeptSplitAt(s: string, k: nat, p: char -> bool)
    requires k <= |s| && forall j :: 0 <= j < k ==> !p(s[j])
    ensures Kept(s, p) == s[..k] + Kept(s[k..], p)
  {
    assert s == s[..k] + s[k..];
    KeptConcat(s[..k], s[k..], p);
    KeptNone(s[..k], p);
  }

  /** A string that starts and ends with a kept character splits into non-empty pieces. */
  lemma {:induction false} SplitRunsNonEmpty(s: string, p: char -> bool)
    requires s != [] && !p(s[0]) && !p(s[|s| - 1])
    ensures forall i :: 0 <= i < |SplitRuns(s, p)| ==> SplitRuns(s, p)[i] != []
    decreases |s|
  {
    var k := FirstIndex(s, p);
    if k < |s| {
      var rest := DropLeading(s[k..], p);
      assert rest != [] && rest[|rest| - 1] == s[|s| - 1];
      SplitRunsNonEmpty(rest, p);
    }
  }

  /** `splitBy`: no piece holds a delimiter, and only empty text gives no pieces. */
  lemma SplitByPieces(text: string, delimiters: string)
    ensures var r := SplitBy(text, delimiters);
      && (forall i, c :: 0 <= i < |r| && c in r[i] ==> c !in delimiters)
      && (text == "" <==> r == [])
  {
    var r := SplitBy(text, delimiters);
    forall i, c | 0 <= i < |r| && c in r[i] ensures c !in delimiters {
      assert !InClass(delimiters)(c);
    }
  }

  /** `splitBy`: the pieces, put together, are the text with every delimiter removed. */
  lemma SplitByKept(text: string, delimiters: string)
    requires text != ""
    ensures Concat(SplitBy(text, delimiters)) == Kept(text, InClass(delimiters))
  {
    StripKept(text, InClass(delimiters));
    SplitRunsKept(Strip(text, InClass(delimiters)), InClass(delimiters));
  }

  /** `splitBy`: no piece is empty unless the text is all delimiters, which gives one empty piece. */
  lemma SplitByNonEmpty(text: string, delimiters: string)
    requires text != ""
    ensures var r := SplitBy(text, delimiters);
      && (Kept(text, InClass(delimiters)) == [] ==> r == [""])
      && (Kept(text, InClass(delimiters)) != [] ==> forall i :: 0 <= i < |r| ==> r[i] != [])
  {
    var p := InClass(delimiters);
    StrippedRunsNonEmpty(text, p);
    assert SplitBy(text, delimiters) == SplitRuns(Strip(text, p), p);
  }

  /** The pieces of a stripped string: one empty piece when nothing is kept, and otherwise none empty. */
  lemma StrippedRunsNonEmpty(text: string, p: char -> bool)
    ensures var r := SplitRuns(Strip(text, p), p);
      && (Kept(text, p) == [] ==> r == [""])
      && (Kept(text, p) != [] ==> forall i :: 0 <= i < |r| ==> r[i] != [])
  {
    var s := Strip(text, p);
    StripKept(text, p);
    if s != [] {
      SplitRunsNonEmpty(s, p);
      KeptStartsWith(s, p);
    } else {
      assert SplitRuns(s, p) == [""];
    }
  }

  lemma KeptStartsWith(s: string, p: char -> bool)
    requires s != [] && !p(s[0])
    ensures Kept(s, p) != []
  {
    assert Kept(s, p) == [s[0]] + Kept(s[1..], p);
  }

  /** Splitting the pieces joined by one delimiter gives the pieces back. */
  /** No character of `s` satisfies `p`. */
  predicate Free(s: string, p: char -> bool)
  {
    forall x :: x in s ==> !p(x)
  }

  /** Non-empty pieces free of characters satisfying `p`. */
  predicate Pieces(ps: seq<string>, p: char -> bool)
  {
    forall i :: 0 <= i < |ps| ==> ps[i] != [] && Free(ps[i], p)
  }

  lemma PiecesTail(ps: seq<string>, p: char -> bool)
    requires ps != [] && Pieces(ps, p)
    ensures ps[0] != [] && Free(ps[0], p) && Pieces(ps[1..], p)
    ensures forall i :: 0 <= i < |ps[1..]| ==> ps[1..][i] != []
  {
    assert forall i :: 0 <= i < |ps| - 1 ==> ps[1..][i] == ps[i + 1];
  }

  lemma {:induction false} SplitRunsJoin(ps: seq<string>, c: char, p: char -> bool)
    requires ps != [] && p(c) && Pieces(ps, p)
    ensures SplitRuns(Join(ps, [c]), p) == ps
    decreases |ps|
  {
    var s := Join(ps, [c]);
    PiecesTail(ps, p);
    if |ps| == 1 {
      FirstIndexIs(s, |s|, p);
    } else {
      var tail := Join(ps[1..], [c]);
      JoinFirstPiece(ps, c, p);
      JoinEnds(ps[1..], [c]);
      DropDelimiter(c, tail, p);
      SplitRunsStep(s, p);
      SplitRunsJoin(ps[1..], c, p);
    }
  }

  /** One delimiter before a piece that starts with a kept character is all that is dropped. */
  lemma DropDelimiter(c: char, tail: string, p: char -> bool)
    requires p(c) && tail != [] && !p(tail[0])
    ensures DropLeading([c] + tail, p) == tail
  {
    assert ([c] + tail)[1..] == tail;
  }

  /** One step of the split: the piece before the first delimiter, then the split of what follows the run. */
  lemma SplitRunsStep(s: string, p: char -> bool)
    requires FirstIndex(s, p) < |s|
    ensures var k := FirstIndex(s, p);
      SplitRuns(s, p) == [s[..k]] + SplitRuns(DropLeading(s[k..], p), p)
  {
  }

  /** The first index is the one before which nothing satisfies `p`, at which something does. */
  lemma FirstIndexIs(s: string, k: nat, p: char -> bool)
    requires k <= |s| && (k < |s| ==> p(s[k]))
    requires forall j :: 0 <= j < k ==> !p(s[j])
    ensures FirstIndex(s, p) == k
  {
  }

  /** In pieces joined by a delimiter, the first delimiter ends the first piece. */
  lemma JoinFirstPiece(ps: seq<string>, c: char, p: char -> bool)
    requires |ps| > 1 && p(c) && Free(ps[0], p)
    ensures var s := Join(ps, [c]);
      && FirstIndex(s, p) == |ps[0]|
      && s[..|ps[0]|] == ps[0]
      && s[|ps[0]|..] == [c] + Join(ps[1..], [c])
  {
    var s := Join(ps, [c]);
    var tail := Join(ps[1..], [c]);
    assert s == ps[0] + [c] + tail;
    forall j | 0 <= j < |ps[0]| ensures !p(s[j]) {
      assert s[j] == ps[0][j];
    }
    FirstIndexIs(s, |ps[0]|, p);
  }

  /** `splitBy` undoes joining non-empty, delimiter-free pieces with one of the delimiters. */
  lemma SplitByJoin(ps: seq<string>, c: char, delimiters: string)
    requires ps != [] && c in delimiters
    requires forall i :: 0 <= i < |ps| ==> ps[i] != [] && forall x :: x in ps[i] ==> x !in delimiters
    ensures SplitBy(Join(ps, [c]), delimiters) == ps
  {
    var p := InClass(delimiters);
    var s := Join(ps, [c]);
    JoinEnds(ps, [c]);
    assert DropLeading(s, p) == s;
    assert DropTrailing(s, p) == s;
    assert Pieces(ps, p) by {
      forall i | 0 <= i < |ps| ensures ps[i] != [] && Free(ps[i], p) {
        forall x | x in ps[i] ensures !p(x) {
          assert x !in delimiters;
        }
      }
    }
    SplitRunsJoin(ps, c, p);
  }

  /** A join starts with the first piece's first character and ends with the last piece's last one. */
  lemma {:induction false} JoinEnds(ps: seq<string>, sep: string)
    requires ps != [] && forall i :: 0 <= i < |ps| ==> ps[i] != []
    ensures var s := Join(ps, sep); s != [] && s[0] == ps[0][0] && s[|s| - 1] == ps[|ps| - 1][|ps[|ps| - 1]| - 1]
  {
    if |ps| > 1 {
      JoinEnds(ps[1..], sep);
    }
  }

  /** `s.split(c)` for a one-character separator: the pieces between single occurrences. */
  function SplitOn(s: string, c: char): (r: seq<string>)
    ensures |r| >= 1
    ensures forall i :: 0 <= i < |r| ==> c !in r[i]
    decreases |s|
  {
    var k := FirstIndex(s, x => x == c);
    if k == |s| then [s] else [s[..k]] + SplitOn(s[k + 1..], c)
  }

  /** Joining the pieces of a split gives the string back. */
  lemma {:induction false} JoinSplitOn(s: string, c: char)
    ensures Join(SplitOn(s, c), [c]) == s
    decreases |s|
  {
    var k := FirstIndex(s, x => x == c);
    if k < |s| {
      var t := SplitOn(s[k + 1..], c);
      JoinSplitOn(s[k + 1..], c);
      assert SplitOn(s, c) == [s[..k]] + t;
      assert ([s[..k]] + t)[1..] == t;
      assert Join([s[..k]] + t, [c]) == s[..k] + [c] + Join(t, [c]);
      assert s == s[..k] + [c] + s[k + 1..];
    }
  }

  /** Splitting pieces that do not hold the separator, joined by it, gives the pieces back. */
  lemma {:induction false} SplitOnJoin(ps: seq<string>, c: char)
    requires ps != [] && forall i :: 0 <= i < |ps| ==> c !in ps[i]
    ensures SplitOn(Join(ps, [c]), c) == ps
    decreases |ps|
  {
    var s := Join(ps, [c]);
    var k := FirstIndex(s, x => x == c);
    if |ps| == 1 {
      assert k == |s|;
    } else {
      var tail := Join(ps[1..], [c]);
      assert s == ps[0] + [c] + tail;
      assert k == |ps[0]| by {
        forall j | 0 <= j < |ps[0]| ensures s[j] != c {
          assert s[j] == ps[0][j];
        }
        assert s[|ps[0]|] == c;
      }
      assert s[..k] == ps[0] && s[k + 1..] == tail;
      SplitOnJoin(ps[1..], c);
    }
  }

  /** `s.replaceAll(c, rep)` for a one-character pattern. */
  function ReplaceAll(s: string, c: char, rep: string): (r: string)
    ensures c !in rep ==> c !in r
  {
    if s == [] then [] else (if s[0] == c then rep else [s[0]]) + ReplaceAll(s[1..], c, rep)
  }

  /** Replacing every `c` by `rep` is splitting at `c` and joining the pieces with `rep`. */
  lemma {:induction false} ReplaceAllSplits(s: string, c: char, rep: string)
    ensures ReplaceAll(s, c, rep) == Join(SplitOn(s, c), rep)
    decreases |s|
  {
    if s == [] {
      assert SplitOn(s, c) == [s];
    } else {
      ReplaceAllSplits(s[1..], c, rep);
      if s[0] == c {
        SplitOnAtSeparator(s, c, rep);
      } else {
        SplitOnAtOther(s, c, rep);
      }
    }
  }

  /** A split of a string that starts with the separator starts with an empty piece. */
  lemma SplitOnAtSeparator(s: string, c: char, rep: string)
    requires s != [] && s[0] == c
    ensures Join(SplitOn(s, c), rep) == rep + Join(SplitOn(s[1..], c), rep)
  {
    var tail := SplitOn(s[1..], c);
    assert FirstIndex(s, x => x == c) == 0;
    assert SplitOn(s, c) == [""] + tail;
    assert ([""] + tail)[1..] == tail;
  }

  /** A split of a string that starts with another character has that character in front of its first piece. */
  lemma SplitOnAtOther(s: string, c: char, rep: string)
    requires s != [] && s[0] != c
    ensures Join(SplitOn(s, c), rep) == [s[0]] + Join(SplitOn(s[1..], c), rep)
  {
    var tail := SplitOn(s[1..], c);
    var k := FirstIndex(s, x => x == c);
    var k' := FirstIndex(s[1..], x => x == c);
    assert k == 1 + k';
    if k' == |s| - 1 {
      assert SplitOn(s, c) == [s] && tail == [s[1..]];
      assert s == [s[0]] + s[1..];
    } else {
      assert s[..k] == [s[0]] + s[1..][..k'];
      assert s[k + 1..] == s[1..][k' + 1..];
      var ps := [[s[0]] + tail[0]] + tail[1..];
      assert SplitOn(s, c) == ps;
      assert tail == [tail[0]] + tail[1..];
      assert ps[1..] == tail[1..];
    }
  }

  lemma {:induction false} ReplaceAllConcat(a: string, b: string, c: char, rep: string)
    ensures ReplaceAll(a + b, c, rep) == ReplaceAll(a, c, rep) + ReplaceAll(b, c, rep)
  {
    if a != [] {
      assert (a + b)[1..] == a[1..] + b;
      ReplaceAllConcat(a[1..], b, c, rep);
    } else {
      assert a + b == b;
    }
  }

  lemma {:induction false} ReplaceAllKeeps(s: string, c: char, rep: string, d: char)
    requires d != c && d !in rep
    ensures (d in ReplaceAll(s, c, rep)) <==> d in s
  {
    if s != [] {
      ReplaceAllKeeps(s[1..], c, rep, d);
      assert s == [s[0]] + s[1..];
    }
  }

  /** `s.replace(c, rep)` for a one-character pattern: the first occurrence only. */
  function ReplaceFirst(s: string, c: char, rep: string): (r: string)
    ensures c !in s ==> r == s
    ensures c in s ==>
      exists k :: 0 <= k < |s| && s[k] == c && c !in s[..k] && r == s[..k] + rep + s[k + 1..]
    ensures forall d :: d in r ==> d in s || d in rep
  {
    var k := FirstIndex(s, x => x == c);
    if k == |s| then s else s[..k] + rep + s[k + 1..]
  }

  /** `t` occurs in `s` starting at index `i`. */
  predicate OccursAt(t: string, s: string, i: nat)
  {
    i + |t| <= |s| && s[i..i + |t|] == t
  }

  /** Whether `t` occurs in `s` as a contiguous piece. */
  function Occurs(t: string, s: string): (b: bool)
    ensures b <==> exists i: nat :: OccursAt(t, s, i)
    decreases |s|
  {
    if |t| > |s| then false
    else if s[..|t|] == t then assert OccursAt(t, s, 0); true
    else
      OccursShift(t, s);
      Occurs(t, s[1..])
  }

  lemma OccursShift(t: string, s: string)
    requires |t| <= |s| && s[..|t|] != t
    ensures (exists i: nat :: OccursAt(t, s, i)) <==> exists i: nat :: OccursAt(t, s[1..], i)
  {
    assert s[0..|t|] == s[..|t|];
    if exists i: nat :: OccursAt(t, s, i) {
      var i: nat :| OccursAt(t, s, i);
      OccursAtDown(t, s, i);
    }
    if exists i: nat :: OccursAt(t, s[1..], i) {
      var i: nat :| OccursAt(t, s[1..], i);
      OccursAtUp(t, s, i);
    }
  }

  lemma OccursAtDown(t: string, s: string, i: nat)
    requires OccursAt(t, s, i) && i > 0
    ensures OccursAt(t, s[1..], i - 1)
  {
    assert s[1..][i - 1..i - 1 + |t|] == s[i..i + |t|];
  }

  lemma OccursAtUp(t: string, s: string, i: nat)
    requires s != [] && OccursAt(t, s[1..], i)
    ensures OccursAt(t, s, i + 1)
  {
    assert s[1..][i..i + |t|] == s[i + 1..i + 1 + |t|];
  }

  /** A string without the separator is one piece. */
  lemma SplitOnNone(s: string, c: char)
    requires c !in s
    ensures SplitOn(s, c) == [s]
  {
    FirstIndexIs(s, |s|, x => x == c);
  }

  /** The first separator ends the first piece. */
  lemma SplitOnFirst(s: string, c: char, k: nat)
    requires k < |s| && s[k] == c && c !in s[..k]
    ensures SplitOn(s, c) == [s[..k]] + SplitOn(s[k + 1..], c)
  {
    forall j | 0 <= j < k ensures s[j] != c {
      assert s[j] == s[..k][j];
    }
    FirstIndexIs(s, k, x => x == c);
  }

  /** Two words joined by one space split back into the two words. */
  lemma SplitOnTwo(s: string, c: char, w: string, q: string)
    requires s == w + [c] + q && c !in w && c !in q
    ensures SplitOn(s, c) == [w, q]
  {
    assert s[..|w|] == w && s[|w| + 1..] == q;
    SplitOnNone(q, c);
    SplitOnFirst(s, c, |w|);
  }

  /** A piece whose first character differs does not start at `i`. */
  lemma MissAt(t: string, s: string, i: nat)
    requires |t| > 0 && (i + |t| <= |s| ==> s[i] != t[0])
    ensures !OccursAt(t, s, i)
  {
    if i + |t| <= |s| {
      assert s[i..i + |t|][0] == s[i];
    }
  }
}
