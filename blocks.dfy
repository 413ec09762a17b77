/**
 * The outliner's block tree, as the host hands it out: every block has a
 * uuid, a text content and an ordered list of child blocks.  The functions
 * here are the tree edits and lookups that the host performs on behalf of
 * the plugin, and the lemmas say what they do to a tree whose uuids are
 * pairwise distinct.
 */
module Blocks {
  import opened Wrappers

  /** Block uuids are opaque handles issued by the host; never empty, hence always truthy. */
  type Uuid = nat

  datatype Block = Block(uuid: Uuid, content: string, children: seq<Block>)

  /** Every uuid occurring in a forest. */
  function Uuids(f: seq<Block>): set<Uuid>
    decreases f, 1
  {
    if f == [] then {} else UuidsAt(f[0]) + Uuids(f[1..])
  }

  function UuidsAt(b: Block): set<Uuid>
    decreases b, 0
  {
    {b.uuid} + Uuids(b.children)
  }

  /** No uuid occurs twice anywhere in the forest. */
  ghost predicate Distinct(f: seq<Block>)
    decreases f, 1
  {
    && (forall k :: 0 <= k < |f| ==> DistinctAt(f[k]))
    && (forall k, l :: 0 <= k < l < |f| ==> UuidsAt(f[k]) !! UuidsAt(f[l]))
  }

  ghost predicate DistinctAt(b: Block)
    decreases b, 0
  {
    b.uuid !in Uuids(b.children) && Distinct(b.children)
  }

  /** `getBlock(uuid)`: the first block in pre-order that carries the uuid. */
  function Find(f: seq<Block>, u: Uuid): Option<Block>
    decreases f, 1
  {
    if f == [] then None
    else match FindAt(f[0], u)
      case Some(b) => Some(b)
      case None => Find(f[1..], u)
  }

  function FindAt(b: Block, u: Uuid): Option<Block>
    decreases b, 0
  {
    if b.uuid == u then Some(b) else Find(b.children, u)
  }

  /** `insertBlock(target, e, {sibling: false})`: `e` becomes the last child of `target`. */
  function AppendChild(f: seq<Block>, target: Uuid, e: Block): seq<Block>
    decreases f, 1
  {
    if f == [] then [] else [AppendChildAt(f[0], target, e)] + AppendChild(f[1..], target, e)
  }

  function AppendChildAt(b: Block, target: Uuid, e: Block): Block
    decreases b, 0
  {
    Block(b.uuid, b.content, AppendChild(b.children, target, e) + if b.uuid == target then [e] else [])
  }

  /** `insertBlock(target, e, {sibling: true})`: `e` becomes the next sibling of `target`. */
  function InsertAfter(f: seq<Block>, target: Uuid, e: Block): seq<Block>
    decreases f, 1
  {
    if f == [] then [] else InsertAfter(f[..|f| - 1], target, e) + InsertAfterAt(f[|f| - 1], target, e)
  }

  /** What one block of a forest becomes: itself, edited inside, and `e` behind it when it is the target. */
  function InsertAfterAt(b: Block, target: Uuid, e: Block): seq<Block>
    decreases b, 0
  {
    [Block(b.uuid, b.content, InsertAfter(b.children, target, e))] + if b.uuid == target then [e] else []
  }
}

/** Lemmas about the tree edits of module Blocks. */
module BlockLemmas {
  import opened Wrappers
  import opened Blocks

  lemma {:induction false} UuidsIndex(f: seq<Block>, u: Uuid)
    ensures u in Uuids(f) <==> exists k :: 0 <= k < |f| && u in UuidsAt(f[k])
  {
    if f != [] {
      UuidsIndex(f[1..], u);
      if u in Uuids(f[1..]) {
        var k :| 0 <= k < |f| - 1 && u in UuidsAt(f[1..][k]);
        assert u in UuidsAt(f[k + 1]);
      }
      if exists k :: 0 <= k < |f| && u in UuidsAt(f[k]) {
        var k :| 0 <= k < |f| && u in UuidsAt(f[k]);
        if k > 0 {
          assert f[1..][k - 1] == f[k];
        }
      }
    }
  }

  lemma {:induction false} UuidsConcat(f: seq<Block>, g: seq<Block>)
    ensures Uuids(f + g) == Uuids(f) + Uuids(g)
  {
    if f != [] {
      assert (f + g)[1..] == f[1..] + g;
      UuidsConcat(f[1..], g);
    } else {
      assert f + g == g;
    }
  }

  lemma {:induction false} FindAbsent(f: seq<Block>, u: Uuid)
    requires u !in Uuids(f)
    ensures Find(f, u) == None
    decreases f, 1
  {
    if f != [] {
      FindAtAbsent(f[0], u);
      FindAbsent(f[1..], u);
    }
  }

  lemma {:induction false} FindAtAbsent(b: Block, u: Uuid)
    requires u !in UuidsAt(b)
    ensures FindAt(b, u) == None
    decreases b, 0
  {
    FindAbsent(b.children, u);
  }

  /** In a forest with distinct uuids, looking a uuid up is looking it up in the one block that holds it. */
  lemma {:induction false} FindIndex(f: seq<Block>, i: nat, u: Uuid)
    requires Distinct(f) && i < |f| && u in UuidsAt(f[i])
    ensures Find(f, u) == FindAt(f[i], u)
  {
    if i == 0 {
      assert FindAt(f[0], u).Some? by { FindAtPresent(f[0], u); }
    } else {
      assert u !in UuidsAt(f[0]);
      FindAtAbsent(f[0], u);
      assert f[1..][i - 1] == f[i];
      assert Distinct(f[1..]) by {
        forall k, l | 0 <= k < l < |f| - 1 ensures UuidsAt(f[1..][k]) !! UuidsAt(f[1..][l]) {
          assert f[1..][k] == f[k + 1] && f[1..][l] == f[l + 1];
        }
      }
      FindIndex(f[1..], i - 1, u);
    }
  }

  lemma {:induction false} FindAtPresent(b: Block, u: Uuid)
    requires DistinctAt(b) && u in UuidsAt(b)
    ensures FindAt(b, u).Some?
    decreases b
  {
    if b.uuid != u {
      UuidsIndex(b.children, u);
      var k :| 0 <= k < |b.children| && u in UuidsAt(b.children[k]);
      FindAtPresent(b.children[k], u);
      FindIndex(b.children, k, u);
    }
  }

  lemma FindTop(f: seq<Block>, i: nat)
    requires Distinct(f) && i < |f|
    ensures Find(f, f[i].uuid) == Some(f[i])
  {
    FindIndex(f, i, f[i].uuid);
  }

  lemma FindSecond(f: seq<Block>, i: nat, j: nat)
    requires Distinct(f) && i < |f| && j < |f[i].children|
    ensures Find(f, f[i].children[j].uuid) == Some(f[i].children[j])
  {
    var c := f[i].children[j];
    UuidsIndex(f[i].children, c.uuid);
    FindIndex(f, i, c.uuid);
    FindIndex(f[i].children, j, c.uuid);
  }

  lemma {:induction false} AppendChildIndex(f: seq<Block>, t: Uuid, e: Block)
    ensures |AppendChild(f, t, e)| == |f|
    ensures forall k :: 0 <= k < |f| ==> AppendChild(f, t, e)[k] == AppendChildAt(f[k], t, e)
  {
    if f != [] {
      AppendChildIndex(f[1..], t, e);
    }
  }

  lemma {:induction false} AppendChildAbsent(f: seq<Block>, t: Uuid, e: Block)
    requires t !in Uuids(f)
    ensures AppendChild(f, t, e) == f
    decreases f, 1
  {
    if f != [] {
      AppendChildAtAbsent(f[0], t, e);
      AppendChildAbsent(f[1..], t, e);
    }
  }

  lemma {:induction false} AppendChildAtAbsent(b: Block, t: Uuid, e: Block)
    requires t !in UuidsAt(b)
    ensures AppendChildAt(b, t, e) == b
    decreases b, 0
  {
    AppendChildAbsent(b.children, t, e);
  }

  /** Appending a child under a top-level block of a well-formed forest touches that block only. */
  lemma AppendChildTop(f: seq<Block>, i: nat, e: Block)
    requires Distinct(f) && i < |f|
    ensures AppendChild(f, f[i].uuid, e) == f[i := Block(f[i].uuid, f[i].content, f[i].children + [e])]
  {
    var t := f[i].uuid;
    AppendChildIndex(f, t, e);
    forall k | 0 <= k < |f| && k != i ensures AppendChildAt(f[k], t, e) == f[k] {
      AppendChildAtAbsent(f[k], t, e);
    }
    AppendChildAbsent(f[i].children, t, e);
  }

  /** Appending a child under a second-level block touches that block and its parent only. */
  lemma AppendChildSecond(f: seq<Block>, i: nat, j: nat, e: Block)
    requires Distinct(f) && i < |f| && j < |f[i].children|
    ensures var c := f[i].children[j];
      AppendChild(f, c.uuid, e)
      == f[i := Block(f[i].uuid, f[i].content, f[i].children[j := Block(c.uuid, c.content, c.children + [e])])]
  {
    var c := f[i].children[j];
    var t := c.uuid;
    var want := f[i := Block(f[i].uuid, f[i].content, f[i].children[j := Block(c.uuid, c.content, c.children + [e])])];
    UuidsIndex(f[i].children, t);
    assert t in UuidsAt(f[i]);
    assert DistinctAt(f[i]);
    assert t != f[i].uuid;
    AppendChildIndex(f, t, e);
    forall k | 0 <= k < |f| ensures AppendChild(f, t, e)[k] == want[k] {
      if k != i {
        assert UuidsAt(f[k]) !! UuidsAt(f[i]);
        AppendChildAtAbsent(f[k], t, e);
      } else {
        AppendChildTop(f[i].children, j, e);
      }
    }
  }

  lemma {:induction false} InsertAfterConcat(f: seq<Block>, g: seq<Block>, t: Uuid, e: Block)
    ensures InsertAfter(f + g, t, e) == InsertAfter(f, t, e) + InsertAfter(g, t, e)
    decreases |g|
  {
    if g == [] {
      assert f + g == f;
    } else {
      var n := |g| - 1;
      assert (f + g)[..|f + g| - 1] == f + g[..n];
      assert (f + g)[|f + g| - 1] == g[n];
      InsertAfterConcat(f, g[..n], t, e);
    }
  }

  lemma {:induction false} InsertAfterAbsent(f: seq<Block>, t: Uuid, e: Block)
    requires t !in Uuids(f)
    ensures InsertAfter(f, t, e) == f
    decreases f, 1
  {
    if f != [] {
      var n := |f| - 1;
      assert f == f[..n] + [f[n]];
      UuidsConcat(f[..n], [f[n]]);
      assert Uuids([f[n]]) == UuidsAt(f[n]);
      InsertAfterAbsent(f[..n], t, e);
      InsertAfterAtAbsent(f[n], t, e);
    }
  }

  lemma {:induction false} InsertAfterAtAbsent(b: Block, t: Uuid, e: Block)
    requires t !in UuidsAt(b)
    ensures InsertAfterAt(b, t, e) == [b]
    decreases b, 0
  {
    InsertAfterAbsent(b.children, t, e);
  }

  /** A block of a well-formed forest shares no uuid with the blocks before it or after it. */
  lemma DisjointAround(f: seq<Block>, i: nat)
    requires Distinct(f) && i < |f|
    ensures UuidsAt(f[i]) !! Uuids(f[..i]) && UuidsAt(f[i]) !! Uuids(f[i + 1..])
    ensures DistinctAt(f[i])
  {
    forall u | u in UuidsAt(f[i]) ensures u !in Uuids(f[..i]) && u !in Uuids(f[i + 1..]) {
      UuidsIndex(f[..i], u);
      UuidsIndex(f[i + 1..], u);
      forall k | 0 <= k < i ensures u !in UuidsAt(f[..i][k]) {
        assert f[..i][k] == f[k];
        assert UuidsAt(f[k]) !! UuidsAt(f[i]);
      }
      var post := f[i + 1..];
      forall k | 0 <= k < |post| ensures u !in UuidsAt(post[k]) {
        assert post[k] == f[i + 1 + k];
        assert UuidsAt(f[i]) !! UuidsAt(f[i + 1 + k]);
      }
    }
  }

  lemma SplitLast<T>(f: seq<T>, x: T)
    requires f != []
    ensures f[..|f| - 1] + [f[|f| - 1], x] == f + [x]
  {
  }

  /** Inserting after the last block of a well-formed forest appends to that forest. */
  lemma InsertAfterLast(f: seq<Block>, e: Block)
    requires Distinct(f) && f != []
    ensures InsertAfter(f, f[|f| - 1].uuid, e) == f + [e]
  {
    var n := |f| - 1;
    DisjointAround(f, n);
    InsertAfterAbsent(f[..n], f[n].uuid, e);
    InsertAfterAbsent(f[n].children, f[n].uuid, e);
    SplitLast(f, e);
  }

  lemma InsertAfterInsideCore(pre: seq<Block>, b: Block, post: seq<Block>, t: Uuid, e: Block)
    requires t !in Uuids(pre) && t !in Uuids(post) && t != b.uuid
    ensures InsertAfter(pre + [b] + post, t, e)
         == pre + [Block(b.uuid, b.content, InsertAfter(b.children, t, e))] + post
  {
    InsertAfterConcat(pre + [b], post, t, e);
    InsertAfterConcat(pre, [b], t, e);
    InsertAfterAbsent(pre, t, e);
    InsertAfterAbsent(post, t, e);
    assert [b][..0] == [];
  }

  lemma SplitAt<T>(f: seq<T>, i: nat, x: T)
    requires i < |f|
    ensures f == f[..i] + [f[i]] + f[i + 1..]
    ensures f[i := x] == f[..i] + [x] + f[i + 1..]
  {
  }

  /** Inserting after the last child of a top-level block appends to that block's children. */
  lemma InsertAfterLastChild(f: seq<Block>, i: nat, e: Block)
    requires Distinct(f) && i < |f| && f[i].children != []
    ensures var ch := f[i].children;
      InsertAfter(f, ch[|ch| - 1].uuid, e) == f[i := Block(f[i].uuid, f[i].content, ch + [e])]
  {
    var ch := f[i].children;
    var t := ch[|ch| - 1].uuid;
    DisjointAround(f, i);
    UuidsIndex(ch, t);
    assert t in UuidsAt(f[i]);
    SplitAt(f, i, Block(f[i].uuid, f[i].content, ch + [e]));
    InsertAfterInsideCore(f[..i], f[i], f[i + 1..], t, e);
    InsertAfterLast(ch, e);
  }

  /** Adding a fresh leaf at the end of a well-formed forest keeps it well formed. */
  lemma ExtendDistinct(f: seq<Block>, e: Block)
    requires Distinct(f) && e.children == [] && e.uuid !in Uuids(f)
    ensures Distinct(f + [e]) && Uuids(f + [e]) == Uuids(f) + {e.uuid}
  {
    UuidsConcat(f, [e]);
    assert Uuids([e]) == {e.uuid};
    assert UuidsAt(e) == {e.uuid};
    forall k | 0 <= k < |f| ensures UuidsAt(f[k]) !! UuidsAt(e) {
      UuidsIndex(f, e.uuid);
    }
    assert Distinct(e.children);
  }

  /** Replacing one block of a well-formed forest by a well-formed block with some unused uuids added. */
  lemma ReplaceDistinct(f: seq<Block>, i: nat, b: Block, added: set<Uuid>)
    requires Distinct(f) && i < |f| && DistinctAt(b)
    requires UuidsAt(b) == UuidsAt(f[i]) + added && added !! Uuids(f)
    ensures Distinct(f[i := b]) && Uuids(f[i := b]) == Uuids(f) + added
  {
    var g := f[i := b];
    forall k | 0 <= k < |f| && k != i ensures UuidsAt(f[k]) !! added {
      forall u | u in added ensures u !in UuidsAt(f[k]) {
        UuidsIndex(f, u);
      }
    }
    assert f == f[..i] + [f[i]] + f[i + 1..];
    assert g == f[..i] + [b] + f[i + 1..];
    UuidsConcat(f[..i] + [f[i]], f[i + 1..]);
    UuidsConcat(f[..i], [f[i]]);
    UuidsConcat(f[..i] + [b], f[i + 1..]);
    UuidsConcat(f[..i], [b]);
    assert Uuids([f[i]]) == UuidsAt(f[i]);
    assert Uuids([b]) == UuidsAt(b);
  }

  /** Adding a fresh leaf as last child of a well-formed block keeps it well formed. */
  lemma AppendLeafDistinct(b: Block, e: Block)
    requires DistinctAt(b) && e.children == [] && e.uuid !in UuidsAt(b)
    ensures var b' := Block(b.uuid, b.content, b.children + [e]);
      DistinctAt(b') && UuidsAt(b') == UuidsAt(b) + {e.uuid}
  {
    ExtendDistinct(b.children, e);
  }

  lemma Single(b: Block)
    ensures Uuids([b]) == UuidsAt(b)
    ensures Distinct([b]) <==> DistinctAt(b)
  {
    assert [b][1..] == [];
  }

  /** A forest made of two parts is well formed exactly when both parts are and they share no uuid. */
  lemma DistinctConcat(f: seq<Block>, g: seq<Block>)
    ensures Uuids(f + g) == Uuids(f) + Uuids(g)
    ensures Distinct(f + g) <==> Distinct(f) && Distinct(g) && Uuids(f) !! Uuids(g)
  {
    UuidsConcat(f, g);
    var h := f + g;
    if Distinct(h) {
      forall k, l | 0 <= k < l < |f| ensures UuidsAt(f[k]) !! UuidsAt(f[l]) {
        assert h[k] == f[k] && h[l] == f[l];
      }
      forall k | 0 <= k < |f| ensures DistinctAt(f[k]) {
        assert h[k] == f[k];
      }
      forall k, l | 0 <= k < l < |g| ensures UuidsAt(g[k]) !! UuidsAt(g[l]) {
        assert h[|f| + k] == g[k] && h[|f| + l] == g[l];
      }
      forall k | 0 <= k < |g| ensures DistinctAt(g[k]) {
        assert h[|f| + k] == g[k];
      }
      forall k, l | 0 <= k < |f| && 0 <= l < |g| ensures UuidsAt(f[k]) !! UuidsAt(g[l]) {
        assert h[k] == f[k] && h[|f| + l] == g[l];
      }
      forall u | u in Uuids(f) ensures u !in Uuids(g) {
        UuidsIndex(f, u);
        UuidsIndex(g, u);
      }
    }
    if Distinct(f) && Distinct(g) && Uuids(f) !! Uuids(g) {
      forall k | 0 <= k < |h| ensures DistinctAt(h[k]) {
        if k < |f| { assert h[k] == f[k]; } else { assert h[k] == g[k - |f|]; }
      }
      forall k, l | 0 <= k < l < |h| ensures UuidsAt(h[k]) !! UuidsAt(h[l]) {
        if l < |f| {
          assert h[k] == f[k] && h[l] == f[l];
        } else if k >= |f| {
          assert h[k] == g[k - |f|] && h[l] == g[l - |f|];
        } else {
          assert h[k] == f[k] && h[l] == g[l - |f|];
          forall u | u in UuidsAt(h[k]) ensures u !in UuidsAt(h[l]) {
            UuidsIndex(f, u);
            UuidsIndex(g, u);
          }
        }
      }
    }
  }

  /** Appending a fresh leaf under a block that exists adds exactly the leaf's uuid and keeps the forest well formed. */
  lemma {:induction false} AppendChildKeeps(f: seq<Block>, t: Uuid, e: Block)
    requires Distinct(f) && e.children == [] && e.uuid !in Uuids(f) && t in Uuids(f)
    ensures Distinct(AppendChild(f, t, e)) && Uuids(AppendChild(f, t, e)) == Uuids(f) + {e.uuid}
    decreases f, 1
  {
    var rest := f[1..];
    assert f == [f[0]] + rest;
    DistinctConcat([f[0]], rest);
    Single(f[0]);
    var h := AppendChildAt(f[0], t, e);
    assert AppendChild(f, t, e) == [h] + AppendChild(rest, t, e);
    if t in UuidsAt(f[0]) {
      AppendChildAtKeeps(f[0], t, e);
      AppendChildAbsent(rest, t, e);
    } else {
      AppendChildAtAbsent(f[0], t, e);
      AppendChildKeeps(rest, t, e);
    }
    Single(h);
    DistinctConcat([h], AppendChild(rest, t, e));
  }

  lemma {:induction false} AppendChildAtKeeps(b: Block, t: Uuid, e: Block)
    requires DistinctAt(b) && e.children == [] && e.uuid !in UuidsAt(b) && t in UuidsAt(b)
    ensures DistinctAt(AppendChildAt(b, t, e)) && UuidsAt(AppendChildAt(b, t, e)) == UuidsAt(b) + {e.uuid}
    decreases b, 0
  {
    if b.uuid == t {
      AppendChildAbsent(b.children, t, e);
      AppendLeafDistinct(b, e);
    } else {
      AppendChildKeeps(b.children, t, e);
      assert AppendChildAt(b, t, e).children == AppendChild(b.children, t, e);
    }
  }

  /** Inserting a fresh leaf next to a block that exists adds exactly the leaf's uuid and keeps the forest well formed. */
  lemma {:induction false} InsertAfterKeeps(f: seq<Block>, t: Uuid, e: Block)
    requires Distinct(f) && e.children == [] && e.uuid !in Uuids(f) && t in Uuids(f)
    ensures Distinct(InsertAfter(f, t, e)) && Uuids(InsertAfter(f, t, e)) == Uuids(f) + {e.uuid}
    decreases f, 1
  {
    var n := |f| - 1;
    var init := f[..n];
    assert f == init + [f[n]];
    DistinctConcat(init, [f[n]]);
    Single(f[n]);
    if t in UuidsAt(f[n]) {
      InsertAfterAbsent(init, t, e);
      InsertAfterAtKeeps(f[n], t, e);
    } else {
      InsertAfterAtAbsent(f[n], t, e);
      InsertAfterKeeps(init, t, e);
    }
    DistinctConcat(InsertAfter(init, t, e), InsertAfterAt(f[n], t, e));
  }

  lemma {:induction false} InsertAfterAtKeeps(b: Block, t: Uuid, e: Block)
    requires DistinctAt(b) && e.children == [] && e.uuid !in UuidsAt(b) && t in UuidsAt(b)
    ensures Distinct(InsertAfterAt(b, t, e)) && Uuids(InsertAfterAt(b, t, e)) == UuidsAt(b) + {e.uuid}
    decreases b, 0
  {
    var b' := Block(b.uuid, b.content, InsertAfter(b.children, t, e));
    if b.uuid == t {
      InsertAfterAbsent(b.children, t, e);
      Single(b);
      Single(e);
      assert Distinct(e.children);
      DistinctConcat([b], [e]);
    } else {
      InsertAfterKeeps(b.children, t, e);
      Single(b');
    }
  }

  /** A lookup only ever answers with a block carrying the uuid asked for. */
  lemma {:induction false} FindUuid(f: seq<Block>, u: Uuid)
    ensures Find(f, u).Some? ==> Find(f, u).value.uuid == u
    decreases f, 1
  {
    if f != [] {
      FindAtUuid(f[0], u);
      FindUuid(f[1..], u);
    }
  }

  lemma {:induction false} FindAtUuid(b: Block, u: Uuid)
    ensures FindAt(b, u).Some? ==> FindAt(b, u).value.uuid == u
    decreases b, 0
  {
    FindUuid(b.children, u);
  }
}
