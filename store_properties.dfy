/**
 * What entering and loading metrics do to the data page, proved about the
 * functions that the methods of module DataUtils are equal to.
 */
module StoreProperties {
  import opened Wrappers
  import opened Blocks
  import opened BlockLemmas
  import opened Page
  import opened DataUtils

  /** The last-match lookup only looks at the contents, position by position. */
  lemma {:induction false} LastMatchSameContents(f: seq<Block>, g: seq<Block>, name: string)
    requires |f| == |g| && forall j :: 0 <= j < |f| ==> f[j].content == g[j].content
    ensures LastMatch(f, name) == LastMatch(g, name)
  {
    if f != [] {
      var n := |f| - 1;
      LastMatchSameContents(f[..n], g[..n], name);
    }
  }

  lemma LastMatchSnoc(f: seq<Block>, b: Block, name: string)
    ensures LastMatch(f + [b], name) == if b.content == name then Some(|f|) else LastMatch(f, name)
  {
    assert (f + [b])[..|f|] == f;
  }

  /** A block of a well-formed page whose contents are kept position by position is looked up in the same place. */
  lemma LastMatchUpdated(f: seq<Block>, i: nat, b: Block, name: string)
    requires i < |f| && b.content == f[i].content
    ensures LastMatch(f[i := b], name) == LastMatch(f, name)
  {
    LastMatchSameContents(f, f[i := b], name);
  }

  /** The result of a load with one metric appended. */
  function Appended(before: LoadResult, m: Metric): (r: LoadResult)
    ensures r.Loaded? <==> before.Loaded?
    ensures r.Loaded? ==> |r.metrics| == |before.metrics| + 1 && r.metrics[|before.metrics|] == m
    ensures r.Loaded? ==> r.metrics[..|before.metrics|] == before.metrics
  {
    match before
    case Failed => Failed
    case Loaded(ms) => Loaded(ms + [m])
  }

  /** Loading with a child name reads the children of the child block under the metric block. */
  lemma LoadThroughPath(s: PageState, i: nat, name: string, child: string, decode: Decoder)
    requires Valid(s) && s.pageExists && child != "" && LastMatch(s.tree, name) == Some(i)
    ensures Load(s, name, child, decode) ==
      match LastMatch(s.tree[i].children, child)
      case None => Loaded([])
      case Some(j) => DecodeAll(s.tree[i].children[j].children, decode)
  {
    FindTop(s.tree, i);
    match LastMatch(s.tree[i].children, child)
    case None =>
    case Some(j) => FindSecond(s.tree, i, j);
  }

  /** Adding the data point under the `j`-th child of the `i`-th metric block. */
  lemma EntryUnderChild(s: PageState, i: nat, j: nat, name: string, child: string, entry: string, decode: Decoder)
    requires Valid(s) && s.pageExists && child != ""
    requires LastMatch(s.tree, name) == Some(i) && LastMatch(s.tree[i].children, child) == Some(j)
    requires InsertEntry(s, Some(s.tree[i].children[j].uuid), entry).1.Inserted?
    requires decode(entry).Some?
    ensures var s' := InsertEntry(s, Some(s.tree[i].children[j].uuid), entry).0;
      Load(s', name, child, decode) == Appended(DecodeAll(s.tree[i].children[j].children, decode), NewMetric(decode(entry).value))
  {
    var c := s.tree[i].children[j];
    var e := NewLeaf(s, entry);
    var s' := InsertEntry(s, Some(c.uuid), entry).0;
    InsertBlockKeeps(s, Some(c.uuid), entry, false);
    AppendChildSecond(s.tree, i, j, e);
    var c' := Block(c.uuid, c.content, c.children + [e]);
    var b' := Block(s.tree[i].uuid, s.tree[i].content, s.tree[i].children[j := c']);
    assert s'.tree == s.tree[i := b'];
    LastMatchUpdated(s.tree, i, b', name);
    LastMatchUpdated(s.tree[i].children, j, c', child);
    LoadThroughPath(s', i, name, child, decode);
    DecodeAllConcat(c.children, [e], decode);
  }

  /** The child step and the data point, from a page whose `i`-th block is the metric block. */
  lemma EnterBelowAppends(s: PageState, i: nat, name: string, child: string, entry: string, decode: Decoder)
    requires Valid(s) && s.pageExists && child != "" && LastMatch(s.tree, name) == Some(i)
    requires EnterBelow(s, Some(s.tree[i].uuid), child, entry).1.Inserted?
    requires decode(entry).Some?
    ensures Load(EnterBelow(s, Some(s.tree[i].uuid), child, entry).0, name, child, decode)
         == Appended(Load(s, name, child, decode), NewMetric(decode(entry).value))
  {
    var b := s.tree[i];
    var id := Some(b.uuid);
    FindTop(s.tree, i);
    assert GetBlock(s, id) == Some(b);
    LoadThroughPath(s, i, name, child, decode);
    if b.children == [] {
      var (s3, cid) := InsertBlock(s, id, child, false);
      var c := NewLeaf(s, child);
      assert EnterBelow(s, id, child, entry) == InsertEntry(s3, cid, entry);
      assert cid.Some?;
      InsertBlockKeeps(s, id, child, false);
      AppendChildTop(s.tree, i, c);
      assert b.children + [c] == [c];
      var b' := Block(b.uuid, b.content, [c]);
      assert s3.tree == s.tree[i := b'];
      LastMatchUpdated(s.tree, i, b', name);
      EntryUnderChild(s3, i, 0, name, child, entry, decode);
    } else {
      match Lookup(b.children, child)
      case Some(u) =>
        var j := LastMatch(b.children, child).value;
        EntryUnderChild(s, i, j, name, child, entry, decode);
      case None =>
        var (s3, cid) := FindOrCreate(s, b.children, child);
        var c := NewLeaf(s, child);
        InsertBlockKeeps(s, Some(b.children[|b.children| - 1].uuid), child, true);
        InsertAfterLastChild(s.tree, i, c);
        var b' := Block(b.uuid, b.content, b.children + [c]);
        assert s3.tree == s.tree[i := b'];
        LastMatchUpdated(s.tree, i, b', name);
        LastMatchSnoc(b.children, c, child);
        EntryUnderChild(s3, i, |b.children|, name, child, entry, decode);
    }
  }

  /** After the metric step the metric block is the last block named `name`, and nothing a load reads has changed. */
  lemma ResolveMetricLocates(s: PageState, name: string, child: string, decode: Decoder) returns (i: nat)
    requires Valid(s) && s.pageExists && ResolveMetric(s, name).1.Some?
    ensures var (s2, id) := ResolveMetric(s, name);
      && Valid(s2) && s2.pageExists && LastMatch(s2.tree, name) == Some(i) && id == Some(s2.tree[i].uuid)
      && Load(s2, name, child, decode) == Load(s, name, child, decode)
      && LoadFixed(s2, name, "", decode) == LoadFixed(s, name, "", decode)
  {
    var (s2, id) := ResolveMetric(s, name);
    var m := NewLeaf(s, name);
    if s.tree == [] {
      AppendBlockInPageKeeps(s, name);
      assert s2.tree == [] + [m];
    } else if Lookup(s.tree, name).Some? {
      return LastMatch(s.tree, name).value;
    } else {
      InsertBlockKeeps(s, Some(s.tree[|s.tree| - 1].uuid), name, true);
      InsertAfterLast(s.tree, m);
    }
    i := |s.tree|;
    LastMatchSnoc(s.tree, m, name);
    FindTop(s2.tree, i);
    assert Grandchildren(m.children) == [];
  }

  /** The page step of `enterMetric` leaves a valid page, and what a load reads is as before (nothing on a new page). */
  lemma PageStep(s: PageState, name: string, child: string, decode: Decoder)
    requires Valid(s)
    ensures var (s1, ok) := if s.pageExists then (s, true) else CreatePage(s);
      Valid(s1) && (ok ==> s1.pageExists)
      && (ok ==> Load(s1, name, child, decode) == if s.pageExists then Load(s, name, child, decode) else Loaded([]))
  {
  }

  /**
   * Entering a data point under a child name and then loading that metric
   * and child yields what the load yielded before, followed by the new
   * point.  On a page that did not exist yet the load had rejected; after
   * the entry it yields the one point.
   */
  lemma EnterThenLoad(s: PageState, name: string, child: string, entry: string, decode: Decoder)
    requires Valid(s) && child != ""
    requires Enter(s, name, child, entry).1.Inserted? && decode(entry).Some?
    ensures Load(Enter(s, name, child, entry).0, name, child, decode)
         == Appended(if s.pageExists then Load(s, name, child, decode) else Loaded([]), NewMetric(decode(entry).value))
  {
    PageStep(s, name, child, decode);
    var (s1, ok) := if s.pageExists then (s, true) else CreatePage(s);
    var (s2, id) := ResolveMetric(s1, name);
    var i := ResolveMetricLocates(s1, name, child, decode);
    EnterBelowAppends(s2, i, name, child, entry, decode);
  }

  /** A load reads only whether the page exists and its blocks. */
  lemma LoadSameTree(s: PageState, t: PageState, name: string, child: string, decode: Decoder)
    requires s.pageExists == t.pageExists && s.tree == t.tree
    ensures Load(s, name, child, decode) == Load(t, name, child, decode)
  {
  }

  /** When the child step or the data point's insert fails, a load of that metric and child reads what it read before. */
  lemma EnterBelowFailureKeepsLoad(s: PageState, i: nat, name: string, child: string, entry: string, decode: Decoder)
    requires Valid(s) && s.pageExists && child != "" && LastMatch(s.tree, name) == Some(i)
    requires !EnterBelow(s, Some(s.tree[i].uuid), child, entry).1.Inserted?
    ensures Load(EnterBelow(s, Some(s.tree[i].uuid), child, entry).0, name, child, decode) == Load(s, name, child, decode)
  {
    var b := s.tree[i];
    var id := Some(b.uuid);
    var s4 := EnterBelow(s, id, child, entry).0;
    FindTop(s.tree, i);
    assert GetBlock(s, id) == Some(b);
    LoadThroughPath(s, i, name, child, decode);
    var (s3, cid) := if b.children == [] then InsertBlock(s, id, child, false) else FindOrCreate(s, b.children, child);
    if cid.None? || s3.tree == s.tree {
      assert s4.tree == s.tree;
      LoadSameTree(s4, s, name, child, decode);
    } else {
      assert s4 == InsertEntry(s3, cid, entry).0;
      assert s4.tree == s3.tree;
      if b.children == [] {
        FirstChildKeepsLoad(s, i, name, child, decode);
      } else {
        LastChildKeepsLoad(s, i, name, child, decode);
      }
      LoadSameTree(s4, s3, name, child, decode);
    }
  }

  /** Creating the first child block of the metric's block adds no data point to that child's load. */
  lemma FirstChildKeepsLoad(s: PageState, i: nat, name: string, child: string, decode: Decoder)
    requires Valid(s) && s.pageExists && child != "" && LastMatch(s.tree, name) == Some(i)
    requires s.tree[i].children == []
    requires InsertBlock(s, Some(s.tree[i].uuid), child, false).0.tree != s.tree
    ensures Load(InsertBlock(s, Some(s.tree[i].uuid), child, false).0, name, child, decode) == Load(s, name, child, decode)
  {
    var b := s.tree[i];
    var id := Some(b.uuid);
    FindTop(s.tree, i);
    assert GetBlock(s, id) == Some(b);
    LoadThroughPath(s, i, name, child, decode);
    var s3 := InsertBlock(s, id, child, false).0;
    var c := NewLeaf(s, child);
    InsertBlockKeeps(s, id, child, false);
    AppendChildTop(s.tree, i, c);
    assert b.children + [c] == [c];
    var b' := Block(b.uuid, b.content, [c]);
    assert s3.tree == s.tree[i := b'];
    LastMatchUpdated(s.tree, i, b', name);
    LoadThroughPath(s3, i, name, child, decode);
  }

  /** Creating a further child block of the metric's block adds no data point to that child's load. */
  lemma LastChildKeepsLoad(s: PageState, i: nat, name: string, child: string, decode: Decoder)
    requires Valid(s) && s.pageExists && child != "" && LastMatch(s.tree, name) == Some(i)
    requires s.tree[i].children != []
    requires FindOrCreate(s, s.tree[i].children, child).0.tree != s.tree
    ensures Load(FindOrCreate(s, s.tree[i].children, child).0, name, child, decode) == Load(s, name, child, decode)
  {
    var b := s.tree[i];
    var id := Some(b.uuid);
    FindTop(s.tree, i);
    assert GetBlock(s, id) == Some(b);
    LoadThroughPath(s, i, name, child, decode);
    var s3 := FindOrCreate(s, b.children, child).0;
    var c := NewLeaf(s, child);
    var b' := Block(b.uuid, b.content, b.children + [c]);
    LastChildTree(s, i, child);
    LastMatchUpdated(s.tree, i, b', name);
    LastMatchSnoc(b.children, c, child);
    LoadThroughPath(s3, i, name, child, decode);
  }

  /** The page after creating a further child block: the metric block gets the new label as its last child. */
  lemma LastChildTree(s: PageState, i: nat, child: string)
    requires Valid(s) && s.pageExists && i < |s.tree| && s.tree[i].children != []
    requires FindOrCreate(s, s.tree[i].children, child).0.tree != s.tree
    ensures var s3 := FindOrCreate(s, s.tree[i].children, child).0;
      var b := s.tree[i];
      && Valid(s3) && s3.pageExists && Lookup(b.children, child).None?
      && s3.tree == s.tree[i := Block(b.uuid, b.content, b.children + [NewLeaf(s, child)])]
  {
    var b := s.tree[i];
    InsertBlockKeeps(s, Some(b.children[|b.children| - 1].uuid), child, true);
    InsertAfterLastChild(s.tree, i, NewLeaf(s, child));
  }

  /**
   * `enterMetric` writes no data point unless it reports one: whenever it
   * fails, a later load of that metric and child reads exactly what it read
   * before (label blocks it may have created hold no data points).  When
   * the failed call created the page, the load reads nothing; the corrected
   * load behaves the same way.
   */
  lemma EnterFailureKeepsLoad(s: PageState, name: string, child: string, entry: string, decode: Decoder)
    requires Valid(s) && !Enter(s, name, child, entry).1.Inserted?
    ensures var s' := Enter(s, name, child, entry).0;
      Load(s', name, child, decode) == if s.pageExists || !s'.pageExists then Load(s, name, child, decode) else Loaded([])
    ensures var s' := Enter(s, name, child, entry).0;
      child == "" ==>
        LoadFixed(s', name, "", decode) == if s.pageExists || !s'.pageExists then LoadFixed(s, name, "", decode) else Loaded([])
  {
    var (s1, ok) := if s.pageExists then (s, true) else CreatePage(s);
    PageStep(s, name, child, decode);
    if ok {
      assert Enter(s, name, child, entry) == Enter(s1, name, child, entry);
      PagedFailureKeepsLoad(s1, name, child, entry, decode);
      if !s.pageExists {
        assert s1.tree == [];
      }
    }
  }

  /** The failure case on a page that exists: the metric step, then the child step or the data point's insert. */
  lemma PagedFailureKeepsLoad(s: PageState, name: string, child: string, entry: string, decode: Decoder)
    requires Valid(s) && s.pageExists && !Enter(s, name, child, entry).1.Inserted?
    ensures var s' := Enter(s, name, child, entry).0;
      && s'.pageExists && Load(s', name, child, decode) == Load(s, name, child, decode)
      && (child == "" ==> LoadFixed(s', name, "", decode) == LoadFixed(s, name, "", decode))
  {
    var (s2, id) := ResolveMetric(s, name);
    var s' := Enter(s, name, child, entry).0;
    if id.None? {
      assert s'.tree == s.tree;
      LoadSameTree(s', s, name, child, decode);
    } else {
      var i := ResolveMetricLocates(s, name, child, decode);
      if child != "" {
        EnterBelowFailureKeepsLoad(s2, i, name, child, entry, decode);
      } else {
        assert s'.tree == s2.tree;
        LoadSameTree(s', s2, name, child, decode);
      }
    }
  }

  /** What a load reads below the metric block `b`: the points under its last child named `child`, or under all its children. */
  function BlockLoad(b: Block, child: string, decode: Decoder): LoadResult
  {
    if child != "" then
      match LastMatch(b.children, child)
      case None => Loaded([])
      case Some(j) => DecodeAll(b.children[j].children, decode)
    else DecodeAll(Grandchildren(b.children), decode)
  }

  /** On a well-formed page a load reads the last block with the name, and nothing else. */
  lemma LoadAt(s: PageState, name: string, child: string, decode: Decoder)
    requires Valid(s) && s.pageExists
    ensures Load(s, name, child, decode) ==
      match LastMatch(s.tree, name)
      case None => Loaded([])
      case Some(i) => BlockLoad(s.tree[i], child, decode)
  {
    match LastMatch(s.tree, name)
    case None =>
    case Some(i) =>
      if child != "" {
        LoadThroughPath(s, i, name, child, decode);
      } else {
        FindTop(s.tree, i);
      }
  }

  /** The same for the corrected load without a child name. */
  lemma LoadFixedAt(s: PageState, name: string, decode: Decoder)
    requires Valid(s) && s.pageExists
    ensures LoadFixed(s, name, "", decode) ==
      match LastMatch(s.tree, name)
      case None => Loaded([])
      case Some(i) => DecodePoints(s.tree[i].children, decode)
  {
    match LastMatch(s.tree, name)
    case None =>
    case Some(i) => FindTop(s.tree, i);
  }

  /** Rewriting the children of the `i`-th block, the metric block, leaves the loads of every other metric as they were. */
  lemma LoadAfterUpdate(s: PageState, t: PageState, i: nat, name: string, name2: string, child2: string, decode: Decoder)
    requires Valid(s) && Valid(t) && s.pageExists && t.pageExists
    requires LastMatch(s.tree, name) == Some(i) && |t.tree| == |s.tree|
    requires t.tree == s.tree[i := t.tree[i]] && t.tree[i].content == name
    ensures name2 != name ==> Load(t, name2, child2, decode) == Load(s, name2, child2, decode)
    ensures name2 != name ==> LoadFixed(t, name2, "", decode) == LoadFixed(s, name2, "", decode)
    ensures Load(t, name, child2, decode) == BlockLoad(t.tree[i], child2, decode)
    ensures Load(s, name, child2, decode) == BlockLoad(s.tree[i], child2, decode)
  {
    LastMatchUpdated(s.tree, i, t.tree[i], name2);
    LastMatchUpdated(s.tree, i, t.tree[i], name);
    LoadAt(s, name2, child2, decode);
    LoadAt(t, name2, child2, decode);
    LoadFixedAt(s, name2, decode);
    LoadFixedAt(t, name2, decode);
    LoadAt(s, name, child2, decode);
    LoadAt(t, name, child2, decode);
  }

  /** A block added at the end of the children, under another name, does not change what a load of `child2` reads. */
  lemma BlockLoadSnoc(b: Block, b': Block, x: Block, child2: string, decode: Decoder)
    requires child2 != "" && x.content != child2 && b'.children == b.children + [x]
    ensures BlockLoad(b', child2, decode) == BlockLoad(b, child2, decode)
  {
    LastMatchSnoc(b.children, x, child2);
  }

  /** Rewriting the children of a child block under another name does not change what a load of `child2` reads. */
  lemma BlockLoadUpdate(b: Block, b': Block, j: nat, x: Block, child2: string, decode: Decoder)
    requires child2 != "" && j < |b.children| && x.content == b.children[j].content != child2
    requires b'.children == b.children[j := x]
    ensures BlockLoad(b', child2, decode) == BlockLoad(b, child2, decode)
  {
    LastMatchUpdated(b.children, j, x, child2);
  }

  /** `t` is a well-formed page that differs from `s` at most in the children of its `i`-th block. */
  ghost predicate Rewritten(s: PageState, t: PageState, i: nat)
    requires i < |s.tree|
  {
    && Valid(t) && t.pageExists && |t.tree| == |s.tree|
    && t.tree == s.tree[i := t.tree[i]] && t.tree[i].content == s.tree[i].content
  }

  /** The data point entered without a child name, directly under the `i`-th block. */
  lemma EntryRewrites(s: PageState, i: nat, entry: string, child2: string, decode: Decoder)
    requires Valid(s) && s.pageExists && i < |s.tree|
    ensures var t := InsertEntry(s, Some(s.tree[i].uuid), entry).0;
      && Rewritten(s, t, i)
      && (child2 != "" && entry != child2 ==> BlockLoad(t.tree[i], child2, decode) == BlockLoad(s.tree[i], child2, decode))
  {
    var b := s.tree[i];
    var (t, u) := InsertBlock(s, Some(b.uuid), entry, false);
    InsertBlockKeeps(s, Some(b.uuid), entry, false);
    if u.Some? {
      var e := NewLeaf(s, entry);
      AppendChildTop(s.tree, i, e);
      var b' := Block(b.uuid, b.content, b.children + [e]);
      assert t.tree == s.tree[i := b'];
      if child2 != "" && entry != child2 {
        BlockLoadSnoc(b, b', e, child2, decode);
      }
    } else {
      assert t.tree == s.tree[i := b];
    }
  }

  /** The first child block of the `i`-th block, then the data point under it. */
  lemma FirstChildRewrites(s: PageState, i: nat, child: string, entry: string, child2: string, decode: Decoder)
    requires Valid(s) && s.pageExists && i < |s.tree| && s.tree[i].children == []
    ensures var (s3, cid) := InsertBlock(s, Some(s.tree[i].uuid), child, false);
      var t := InsertEntry(s3, cid, entry).0;
      && Rewritten(s, t, i)
      && (child2 != "" && child2 != child ==> BlockLoad(t.tree[i], child2, decode) == BlockLoad(s.tree[i], child2, decode))
  {
    var b := s.tree[i];
    var (s3, cid) := InsertBlock(s, Some(b.uuid), child, false);
    InsertBlockKeeps(s, Some(b.uuid), child, false);
    var (t, u) := InsertBlock(s3, cid, entry, false);
    InsertBlockKeeps(s3, cid, entry, false);
    if cid.None? {
      assert t.tree == s.tree[i := b];
    } else {
      var c := NewLeaf(s, child);
      AppendChildTop(s.tree, i, c);
      assert b.children + [c] == [c];
      var b1 := Block(b.uuid, b.content, [c]);
      assert s3.tree == s.tree[i := b1];
      if u.Some? {
        var e := NewLeaf(s3, entry);
        AppendChildSecond(s3.tree, i, 0, e);
        var c' := Block(c.uuid, c.content, c.children + [e]);
        var b' := Block(b.uuid, b.content, [c']);
        assert [c][0 := c'] == [c'];
        assert t.tree == s.tree[i := b'];
        if child2 != "" && child2 != child {
          BlockLoadSnoc(b, b', c', child2, decode);
        }
      } else {
        if child2 != "" && child2 != child {
          BlockLoadSnoc(b, b1, c, child2, decode);
        }
      }
    }
  }

  /** The data point under the `j`-th child block of the `i`-th block, a child block that already has the name. */
  lemma FoundChildRewrites(s: PageState, i: nat, j: nat, entry: string, child2: string, decode: Decoder)
    requires Valid(s) && s.pageExists && i < |s.tree| && j < |s.tree[i].children|
    ensures var t := InsertEntry(s, Some(s.tree[i].children[j].uuid), entry).0;
      && Rewritten(s, t, i)
      && (child2 != "" && child2 != s.tree[i].children[j].content ==>
            BlockLoad(t.tree[i], child2, decode) == BlockLoad(s.tree[i], child2, decode))
  {
    var b := s.tree[i];
    var c := b.children[j];
    var (t, u) := InsertBlock(s, Some(c.uuid), entry, false);
    InsertBlockKeeps(s, Some(c.uuid), entry, false);
    if u.Some? {
      var e := NewLeaf(s, entry);
      AppendChildSecond(s.tree, i, j, e);
      var c' := Block(c.uuid, c.content, c.children + [e]);
      var b' := Block(b.uuid, b.content, b.children[j := c']);
      assert t.tree == s.tree[i := b'];
      if child2 != "" && child2 != c.content {
        BlockLoadUpdate(b, b', j, c', child2, decode);
      }
    } else {
      assert t.tree == s.tree[i := b];
    }
  }

  /** A new child block after the last child of the `i`-th block, then the data point under it. */
  lemma NewChildRewrites(s: PageState, i: nat, child: string, entry: string, child2: string, decode: Decoder)
    requires Valid(s) && s.pageExists && i < |s.tree| && s.tree[i].children != []
    requires Lookup(s.tree[i].children, child).None?
    ensures var (s3, cid) := FindOrCreate(s, s.tree[i].children, child);
      var t := if cid.None? then s3 else InsertEntry(s3, cid, entry).0;
      && Rewritten(s, t, i)
      && (child2 != "" && child2 != child ==> BlockLoad(t.tree[i], child2, decode) == BlockLoad(s.tree[i], child2, decode))
  {
    var b := s.tree[i];
    var ch := b.children;
    var (s3, cid) := FindOrCreate(s, ch, child);
    if cid.None? {
      InsertBlockKeeps(s, Some(ch[|ch| - 1].uuid), child, true);
      assert s3.tree == s.tree[i := b];
    } else {
      NewChildLabel(s, i, child);
      var c := NewLeaf(s, child);
      var t := InsertEntry(s3, cid, entry).0;
      FoundChildRewrites(s3, i, |ch|, entry, child2, decode);
      assert t.tree == s.tree[i := t.tree[i]];
      if child2 != "" && child2 != child {
        BlockLoadSnoc(b, s3.tree[i], c, child2, decode);
      }
    }
  }

  /** The page after a new child block is placed after the last child of the `i`-th block. */
  lemma NewChildLabel(s: PageState, i: nat, child: string)
    requires Valid(s) && s.pageExists && i < |s.tree| && s.tree[i].children != []
    requires Lookup(s.tree[i].children, child).None? && FindOrCreate(s, s.tree[i].children, child).1.Some?
    ensures var (s3, cid) := FindOrCreate(s, s.tree[i].children, child);
      var b := s.tree[i];
      && Rewritten(s, s3, i) && s3.tree[i].children == b.children + [NewLeaf(s, child)]
      && cid == Some(s3.tree[i].children[|b.children|].uuid)
  {
    var b := s.tree[i];
    var ch := b.children;
    var (s3, cid) := FindOrCreate(s, ch, child);
    InsertBlockKeeps(s, Some(ch[|ch| - 1].uuid), child, true);
    InsertAfterLastChild(s.tree, i, NewLeaf(s, child));
  }

  /**
   * The child step and the data point change only the children of the
   * metric block, and a load of another child name reads what it read
   * before, as long as a point entered without a child name does not
   * itself carry that name.
   */
  lemma EnterBelowRewrites(s: PageState, i: nat, child: string, entry: string, child2: string, decode: Decoder)
    requires Valid(s) && s.pageExists && i < |s.tree|
    ensures var t := EnterBelow(s, Some(s.tree[i].uuid), child, entry).0;
      && Rewritten(s, t, i)
      && (child2 != "" && child2 != child && (child == "" ==> entry != child2) ==>
            BlockLoad(t.tree[i], child2, decode) == BlockLoad(s.tree[i], child2, decode))
  {
    var b := s.tree[i];
    FindTop(s.tree, i);
    assert GetBlock(s, Some(b.uuid)) == Some(b);
    if child == "" {
      EntryRewrites(s, i, entry, child2, decode);
    } else if b.children == [] {
      FirstChildRewrites(s, i, child, entry, child2, decode);
    } else {
      match Lookup(b.children, child)
      case Some(u) =>
        var j := LastMatch(b.children, child).value;
        FoundChildRewrites(s, i, j, entry, child2, decode);
      case None =>
        NewChildRewrites(s, i, child, entry, child2, decode);
    }
  }

  /** The metric step leaves the load of every other metric as it was. */
  lemma ResolveMetricKeepsOthers(s: PageState, name: string, name2: string, child2: string, decode: Decoder)
    requires Valid(s) && s.pageExists && ResolveMetric(s, name).1.Some? && name2 != name
    ensures var s2 := ResolveMetric(s, name).0;
      && Valid(s2) && s2.pageExists && Load(s2, name2, child2, decode) == Load(s, name2, child2, decode)
      && LoadFixed(s2, name2, "", decode) == LoadFixed(s, name2, "", decode)
  {
    var s2 := ResolveMetric(s, name).0;
    var m := NewLeaf(s, name);
    if s.tree == [] {
      AppendBlockInPageKeeps(s, name);
      assert s2.tree == s.tree + [m];
      SnocKeepsOthers(s, s2, m, name2, child2, decode);
    } else if Lookup(s.tree, name).Some? {
      assert s2 == s;
    } else {
      InsertBlockKeeps(s, Some(s.tree[|s.tree| - 1].uuid), name, true);
      InsertAfterLast(s.tree, m);
      SnocKeepsOthers(s, s2, m, name2, child2, decode);
    }
  }

  /** A top-level block added at the end under another name leaves the load of `name2` as it was. */
  lemma SnocKeepsOthers(s: PageState, s2: PageState, m: Block, name2: string, child2: string, decode: Decoder)
    requires Valid(s) && Valid(s2) && s.pageExists && s2.pageExists
    requires s2.tree == s.tree + [m] && m.content != name2
    ensures Load(s2, name2, child2, decode) == Load(s, name2, child2, decode)
    ensures LoadFixed(s2, name2, "", decode) == LoadFixed(s, name2, "", decode)
  {
    LastMatchSnoc(s.tree, m, name2);
    LoadAt(s, name2, child2, decode);
    LoadAt(s2, name2, child2, decode);
    LoadFixedAt(s, name2, decode);
    LoadFixedAt(s2, name2, decode);
  }

  /**
   * `enterMetric` changes no other series: after it, whether it succeeded
   * or failed, a load of another metric, or of another child name of the
   * same metric, reads what it read before (nothing, when the call created
   * the page).  The one exception is a point entered without a child name
   * whose text is the other child name: it then shadows that child block.
   */
  lemma EnterKeepsOtherLoads(s: PageState, name: string, child: string, entry: string,
                             name2: string, child2: string, decode: Decoder)
    requires Valid(s)
    requires name2 != name || (child2 != "" && child2 != child && (child == "" ==> entry != child2))
    ensures var s' := Enter(s, name, child, entry).0;
      Load(s', name2, child2, decode) == if s.pageExists || !s'.pageExists then Load(s, name2, child2, decode) else Loaded([])
    ensures var s' := Enter(s, name, child, entry).0;
      name2 != name ==>
        LoadFixed(s', name2, "", decode) == if s.pageExists || !s'.pageExists then LoadFixed(s, name2, "", decode) else Loaded([])
  {
    var (s1, ok) := if s.pageExists then (s, true) else CreatePage(s);
    PageStep(s, name2, child2, decode);
    if ok {
      assert Enter(s, name, child, entry) == Enter(s1, name, child, entry);
      PagedKeepsOtherLoads(s1, name, child, entry, name2, child2, decode);
    }
  }

  /** The same on a page that exists: the metric step, then the child step and the data point. */
  lemma PagedKeepsOtherLoads(s: PageState, name: string, child: string, entry: string,
                             name2: string, child2: string, decode: Decoder)
    requires Valid(s) && s.pageExists
    requires name2 != name || (child2 != "" && child2 != child && (child == "" ==> entry != child2))
    ensures var s' := Enter(s, name, child, entry).0;
      && s'.pageExists && Load(s', name2, child2, decode) == Load(s, name2, child2, decode)
      && (name2 != name ==> LoadFixed(s', name2, "", decode) == LoadFixed(s, name2, "", decode))
  {
    var (s2, id) := ResolveMetric(s, name);
    var s' := Enter(s, name, child, entry).0;
    if id.None? {
      assert s'.tree == s.tree;
      LoadSameTree(s', s, name2, child2, decode);
      assert LoadFixed(s', name2, "", decode) == LoadFixed(s, name2, "", decode);
    } else {
      var i := ResolveMetricLocates(s, name, child2, decode);
      if name2 != name {
        ResolveMetricKeepsOthers(s, name, name2, child2, decode);
      }
      assert s' == EnterBelow(s2, Some(s2.tree[i].uuid), child, entry).0;
      EnterBelowRewrites(s2, i, child, entry, child2, decode);
      LoadAfterUpdate(s2, s', i, name, name2, child2, decode);
    }
  }

  /**
   * The exception, on the smallest page: "Mood" has a child "Morning" with
   * one point; a point entered under "Mood" without a child name whose
   * text is "Morning" becomes the last child named "Morning", and a load of
   * "Mood" / "Morning" then reads nothing.
   */
  lemma EntryShadowsChild(point: string, decode: Decoder)
    requires decode(point).Some?
    ensures var s := PageState(true, [Block(0, "Mood", [Block(1, "Morning", [Block(2, point, [])])])], 3, []);
      && Enter(s, "Mood", "", "Morning").1 == Inserted(3)
      && Load(s, "Mood", "Morning", decode) == Loaded([NewMetric(decode(point).value)])
      && Load(Enter(s, "Mood", "", "Morning").0, "Mood", "Morning", decode) == Loaded([])
  {
    var p := Block(2, point, []);
    var c := Block(1, "Morning", [p]);
    var m := Block(0, "Mood", [c]);
    var s := PageState(true, [m], 3, []);
    var e := Block(3, "Morning", []);
    var m' := Block(0, "Mood", [c, e]);
    assert Valid(s) by {
      Single(p);
      Single(c);
      Single(m);
    }
    assert LastMatch(s.tree, "Mood") == Some(0);
    assert ResolveMetric(s, "Mood") == (s, Some(0));
    AppendChildTop(s.tree, 0, e);
    assert [c] + [e] == [c, e];
    assert 0 in Uuids(s.tree) by { Single(m); }
    assert NewLeaf(s, "Morning") == e;
    assert AppendChild(s.tree, 0, e) == [m'];
    assert InsertBlock(s, Some(0), "Morning", false) == (PageState(true, [m'], 4, []), Some(3));
    assert Enter(s, "Mood", "", "Morning") == InsertEntry(s, Some(0), "Morning");
    assert Enter(s, "Mood", "", "Morning") == (PageState(true, [m'], 4, []), Inserted(3));
    assert [p][..0] == [];
    assert DecodeAll([p], decode) == Loaded([] + [NewMetric(decode(point).value)]);
    LoadThroughPath(s, 0, "Mood", "Morning", decode);
    var s' := PageState(true, [m'], 4, []);
    assert Valid(s') by {
      InsertBlockKeeps(s, Some(0), "Morning", false);
    }
    assert [c, e][..1] == [c];
    assert LastMatch([c, e], "Morning") == Some(1);
    LoadThroughPath(s', 0, "Mood", "Morning", decode);
  }

  /** Adding the data point directly under the `i`-th block, the metric block. */
  lemma EntryUnderMetric(s: PageState, i: nat, name: string, entry: string)
    requires Valid(s) && s.pageExists && LastMatch(s.tree, name) == Some(i)
    requires InsertEntry(s, Some(s.tree[i].uuid), entry).1.Inserted?
    ensures var s' := InsertEntry(s, Some(s.tree[i].uuid), entry).0;
      var b := s.tree[i];
      && s'.pageExists && Lookup(s'.tree, name) == Some(b.uuid) && GetBlock(s, Some(b.uuid)) == Some(b)
      && GetBlock(s', Some(b.uuid)) == Some(Block(b.uuid, b.content, b.children + [NewLeaf(s, entry)]))
  {
    var b := s.tree[i];
    var e := NewLeaf(s, entry);
    InsertBlockKeeps(s, Some(b.uuid), entry, false);
    AppendChildTop(s.tree, i, e);
    var b' := Block(b.uuid, b.content, b.children + [e]);
    var s' := InsertEntry(s, Some(b.uuid), entry).0;
    assert s'.tree == s.tree[i := b'];
    LastMatchUpdated(s.tree, i, b', name);
    FindTop(s.tree, i);
    FindTop(s'.tree, i);
  }

  /** Enter without a child name, up to the data point's insert: the metric block and the page it is on. */
  lemma EnterWithoutChildSteps(s: PageState, name: string, entry: string, decode: Decoder) returns (s2: PageState, i: nat)
    requires Valid(s) && Enter(s, name, "", entry).1.Inserted?
    ensures Valid(s2) && s2.pageExists && LastMatch(s2.tree, name) == Some(i)
    ensures Enter(s, name, "", entry) == InsertEntry(s2, Some(s2.tree[i].uuid), entry)
    ensures Load(s2, name, "", decode) == if s.pageExists then Load(s, name, "", decode) else Loaded([])
    ensures LoadFixed(s2, name, "", decode) == if s.pageExists then LoadFixed(s, name, "", decode) else Loaded([])
  {
    PageStep(s, name, "", decode);
    var (s1, ok) := if s.pageExists then (s, true) else CreatePage(s);
    var id;
    s2, id := ResolveMetric(s1, name).0, ResolveMetric(s1, name).1;
    i := ResolveMetricLocates(s1, name, "", decode);
  }

  /**
   * As written, a data point entered without a child name is never read
   * back: it becomes a direct child of the metric block, while a load
   * without a child name reads only the children of the metric block's
   * children.
   */
  lemma EnterWithoutChildUnseen(s: PageState, name: string, entry: string, decode: Decoder)
    requires Valid(s) && Enter(s, name, "", entry).1.Inserted?
    ensures Load(Enter(s, name, "", entry).0, name, "", decode)
         == if s.pageExists then Load(s, name, "", decode) else Loaded([])
  {
    var s2, i := EnterWithoutChildSteps(s, name, entry, decode);
    EntryUnderMetric(s2, i, name, entry);
    var ch := s2.tree[i].children;
    var e := NewLeaf(s2, entry);
    assert (ch + [e])[..|ch|] == ch;
    assert Grandchildren(ch + [e]) == Grandchildren(ch) + [] == Grandchildren(ch);
  }

  /** The smallest case: on a missing page, entering one "Weight" point succeeds, yet loading "Weight" yields nothing. */
  lemma EnteredPointNotLoaded(entry: string, decode: Decoder)
    requires decode(entry).Some?
    ensures var s := PageState(false, [], 0, []);
      && Enter(s, "Weight", "", entry) == (PageState(true, [Block(0, "Weight", [Block(1, entry, [])])], 2, []), Inserted(1))
      && Load(Enter(s, "Weight", "", entry).0, "Weight", "", decode) == Loaded([])
      && LoadFixed(Enter(s, "Weight", "", entry).0, "Weight", "", decode) == Loaded([NewMetric(decode(entry).value)])
  {
    var s := PageState(false, [], 0, []);
    var s1 := PageState(true, [], 0, []);
    var w := Block(0, "Weight", []);
    var s2 := PageState(true, [w], 1, []);
    var e := Block(1, entry, []);
    var m := Block(0, "Weight", [e]);
    var s3 := PageState(true, [m], 2, []);
    assert CreatePage(s) == (s1, true);
    assert NewLeaf(s1, "Weight") == w;
    assert [] + [w] == [w];
    assert ResolveMetric(s1, "Weight") == (s2, Some(0));
    assert Uuids(s2.tree) == {0} by { Single(w); }
    assert AppendChild([w], 0, e) == [m] by {
      assert [w][1..] == [];
      assert AppendChildAt(w, 0, e) == m;
    }
    assert InsertBlock(s2, Some(0), entry, false) == (s3, Some(1));
    assert Enter(s, "Weight", "", entry) == (s3, Inserted(1));
    assert LastMatch(s3.tree, "Weight") == Some(0);
    assert Find(s3.tree, 0) == Some(m);
    assert Grandchildren([e]) == [];
    assert [e][..0] == [];
    assert DecodePoints([e], decode) == Loaded([] + [NewMetric(decode(entry).value)]);
  }

  /** With the corrected load, a data point entered without a child name is read back after what was there before. */
  lemma EnterThenLoadFixed(s: PageState, name: string, entry: string, decode: Decoder)
    requires Valid(s) && Enter(s, name, "", entry).1.Inserted? && decode(entry).Some?
    ensures LoadFixed(Enter(s, name, "", entry).0, name, "", decode)
         == Appended(if s.pageExists then LoadFixed(s, name, "", decode) else Loaded([]), NewMetric(decode(entry).value))
  {
    var s2, i := EnterWithoutChildSteps(s, name, entry, decode);
    EntryUnderMetric(s2, i, name, entry);
    var ch := s2.tree[i].children;
    var e := NewLeaf(s2, entry);
    assert (ch + [e])[..|ch|] == ch;
  }

  /**
   * `findOrCreateBlock` over the top-level blocks of the page: when it
   * answers a uuid, the page has at most one new top-level block, named
   * `name`, at the end; and asking again on the refreshed page answers the
   * same uuid without writing anything.
   */
  lemma FindOrCreateTwice(s: PageState, name: string)
    requires Valid(s) && s.tree != [] && FindOrCreate(s, s.tree, name).1.Some?
    ensures var (s', u) := FindOrCreate(s, s.tree, name);
      && (s'.tree == s.tree || (Lookup(s.tree, name).None? && s'.tree == s.tree + [Block(u.value, name, [])]))
      && FindOrCreate(s', s'.tree, name) == (s', u)
  {
    var (s', u) := FindOrCreate(s, s.tree, name);
    if Lookup(s.tree, name).None? {
      var m := NewLeaf(s, name);
      InsertAfterLast(s.tree, m);
      LastMatchSnoc(s.tree, m, name);
    }
  }

  /** The corrected load agrees with the original wherever every child of the metric block is a child-name block. */
  lemma {:induction false} DecodePointsOnLabels(cs: seq<Block>, decode: Decoder)
    requires forall k :: 0 <= k < |cs| ==> decode(cs[k].content).None?
    ensures DecodePoints(cs, decode) == DecodeAll(Grandchildren(cs), decode)
  {
    if cs != [] {
      var n := |cs| - 1;
      DecodePointsOnLabels(cs[..n], decode);
      DecodeAllConcat(Grandchildren(cs[..n]), cs[n].children, decode);
    }
  }

  /** Where every child of the metric block is a data point, the corrected load reads exactly those. */
  lemma {:induction false} DecodePointsOnPoints(cs: seq<Block>, decode: Decoder)
    requires forall k :: 0 <= k < |cs| ==> decode(cs[k].content).Some?
    ensures DecodePoints(cs, decode) == DecodeAll(cs, decode)
  {
    if cs != [] {
      var n := |cs| - 1;
      DecodePointsOnPoints(cs[..n], decode);
      DecodeAllConcat(cs[..n], [cs[n]], decode);
      assert cs[..n] + [cs[n]] == cs;
    }
  }
}
