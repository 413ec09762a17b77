/**
 * The part of the host editor's API that the metric store calls, acting on
 * the one data page the plugin keeps ("metrics-plugin-data").
 *
 * The host is modelled as a deterministic state: whether the page exists,
 * its block forest, the next uuid it will hand out, and its answers to the
 * write requests still to come (`true` = the request is refused and the
 * call resolves to null; once the scripted answers run out every request
 * is accepted).  Every write request consumes one answer.
 */
module Page {
  import opened Wrappers
  import opened Blocks
  import opened BlockLemmas

  datatype PageState = PageState(pageExists: bool, tree: seq<Block>, nextUuid: nat, refusals: seq<bool>)

  /** A page the host could be holding: a missing page has no blocks, and uuids are distinct and already issued. */
  ghost predicate Valid(s: PageState)
  {
    && (!s.pageExists ==> s.tree == [])
    && Distinct(s.tree)
    && forall u :: u in Uuids(s.tree) ==> u < s.nextUuid
  }

  /** Whether the host accepts the next write request. */
  predicate Accepts(s: PageState)
  {
    s.refusals == [] || !s.refusals[0]
  }

  /** The state once the next write request has been answered. */
  function Answered(s: PageState): (r: PageState)
    ensures r.pageExists == s.pageExists && r.tree == s.tree && r.nextUuid == s.nextUuid
    ensures |r.refusals| == if s.refusals == [] then 0 else |s.refusals| - 1
  {
    s.(refusals := if s.refusals == [] then [] else s.refusals[1..])
  }

  /** `createPage`: the page exists afterwards exactly when the host accepts the request. */
  function CreatePage(s: PageState): (r: (PageState, bool))
    ensures r.1 <==> Accepts(s)
    ensures r.0.pageExists == (s.pageExists || r.1)
    ensures r.0.tree == s.tree && r.0.nextUuid == s.nextUuid
  {
    var s' := Answered(s);
    if Accepts(s) then (s'.(pageExists := true), true) else (s', false)
  }

  /** `getPageBlocksTree`: the forest of the page, or null when the page does not exist. */
  function PageBlocksTree(s: PageState): (r: Option<seq<Block>>)
    ensures r.Some? <==> s.pageExists
    ensures r.Some? ==> r.value == s.tree
  {
    if s.pageExists then Some(s.tree) else None
  }

  /** `getBlock(uuid, {includeChildren: true})`: the block with that uuid, with its subtree; null for no such block. */
  function GetBlock(s: PageState, u: Option<Uuid>): (r: Option<Block>)
    ensures r.Some? ==> u.Some? && r.value.uuid == u.value
  {
    if u.None? then None else FindUuid(s.tree, u.value); Find(s.tree, u.value)
  }

  /** The leaf a successful write adds. */
  function NewLeaf(s: PageState, content: string): Block
  {
    Block(s.nextUuid, content, [])
  }

  /** `appendBlockInPage(page, content)`: a new top-level leaf at the end of the page. */
  function AppendBlockInPage(s: PageState, content: string): (r: (PageState, Option<Uuid>))
    ensures r.1.Some? <==> s.pageExists && Accepts(s)
    ensures r.1.Some? ==> r.1.value == s.nextUuid && r.0.tree == s.tree + [NewLeaf(s, content)]
    ensures r.1.None? ==> r.0.tree == s.tree
  {
    var s' := Answered(s);
    if s.pageExists && Accepts(s) then
      (s'.(tree := s.tree + [NewLeaf(s, content)], nextUuid := s.nextUuid + 1), Some(s.nextUuid))
    else (s', None)
  }

  /**
   * `insertBlock(target, content, {sibling})`: a new leaf placed as the last
   * child of `target` (sibling = false) or right after it (sibling = true).
   * A missing or unknown target makes the call resolve to null.
   */
  function InsertBlock(s: PageState, target: Option<Uuid>, content: string, sibling: bool): (r: (PageState, Option<Uuid>))
    ensures r.1.Some? <==> Accepts(s) && target.Some? && target.value in Uuids(s.tree)
    ensures r.1.Some? ==> r.1.value == s.nextUuid && r.0.nextUuid == s.nextUuid + 1
    ensures r.1.None? ==> r.0.tree == s.tree && r.0.nextUuid == s.nextUuid
    ensures r.0.pageExists == s.pageExists
  {
    var s' := Answered(s);
    if Accepts(s) && target.Some? && target.value in Uuids(s.tree) then
      var e := NewLeaf(s, content);
      var tree := if sibling then InsertAfter(s.tree, target.value, e) else AppendChild(s.tree, target.value, e);
      (s'.(tree := tree, nextUuid := s.nextUuid + 1), Some(s.nextUuid))
    else (s', None)
  }

  /** Every write the host performs keeps a valid page valid, and a successful one adds exactly the new uuid. */
  lemma CreatePageKeeps(s: PageState)
    requires Valid(s)
    ensures Valid(CreatePage(s).0)
  {
  }

  lemma AppendBlockInPageKeeps(s: PageState, content: string)
    requires Valid(s)
    ensures var r := AppendBlockInPage(s, content);
      Valid(r.0) && (r.1.Some? ==> Uuids(r.0.tree) == Uuids(s.tree) + {r.1.value})
  {
    var r := AppendBlockInPage(s, content);
    if r.1.Some? {
      ExtendDistinct(s.tree, NewLeaf(s, content));
    }
  }

  lemma {:induction false} InsertBlockKeeps(s: PageState, target: Option<Uuid>, content: string, sibling: bool)
    requires Valid(s)
    ensures var r := InsertBlock(s, target, content, sibling);
      Valid(r.0) && (r.1.Some? ==> Uuids(r.0.tree) == Uuids(s.tree) + {r.1.value})
  {
    var r := InsertBlock(s, target, content, sibling);
    if r.1.Some? {
      var e := NewLeaf(s, content);
      if sibling {
        InsertAfterKeeps(s.tree, target.value, e);
      } else {
        AppendChildKeeps(s.tree, target.value, e);
      }
    }
  }
}

/** The host editor as the plugin sees it: an object whose calls read and change the data page. */
module Host {
  import opened Wrappers
  import opened Blocks
  import Page

  class Editor {
    var page: Page.PageState

    constructor (initial: Page.PageState)
      ensures page == initial
    {
      page := initial;
    }

    /** `getPage`: whether the data page exists. */
    method GetPage() returns (found: bool)
      ensures found == page.pageExists
    {
      found := page.pageExists;
    }

    method CreatePage() returns (ok: bool)
      modifies this
      ensures (page, ok) == Page.CreatePage(old(page))
    {
      page, ok := Page.CreatePage(page).0, Page.CreatePage(page).1;
    }

    method GetPageBlocksTree() returns (tree: Option<seq<Block>>)
      ensures tree == Page.PageBlocksTree(page)
    {
      tree := Page.PageBlocksTree(page);
    }

    method GetBlock(u: Option<Uuid>) returns (b: Option<Block>)
      ensures b == Page.GetBlock(page, u)
    {
      b := Page.GetBlock(page, u);
    }

    method AppendBlockInPage(content: string) returns (u: Option<Uuid>)
      modifies this
      ensures (page, u) == Page.AppendBlockInPage(old(page), content)
    {
      var r := Page.AppendBlockInPage(page, content);
      page, u := r.0, r.1;
    }

    method InsertBlock(target: Option<Uuid>, content: string, sibling: bool) returns (u: Option<Uuid>)
      modifies this
      ensures (page, u) == Page.InsertBlock(old(page), target, content, sibling)
    {
      var r := Page.InsertBlock(page, target, content, sibling);
      page, u := r.0, r.1;
    }
  }
}
