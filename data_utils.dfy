/**
 * The metric store kept on the data page.  The page holds one top-level
 * block per metric name; under it either the data points themselves or
 * child-name blocks ("Morning", "Evening", ...) that hold the data points.
 * A data point is a block whose content is a JSON object with `date` and
 * `value`.
 *
 * Methods take the host editor as an object and change its page through
 * its calls; each is proved equal to a function of the page it started
 * from, and the lemmas in module StoreProperties say what those functions
 * do.
 */
module DataUtils {
  import opened Wrappers
  import opened Blocks
  import opened Page
  import Host

  /** A decoded JSON object; only string-valued properties are modelled. */
  type JsonObject = map<string, string>

  /** `JSON.parse` followed by the property reads of `new Metric(...)`: `None` when it throws. */
  type Decoder = string -> Option<JsonObject>

  /** One data point; `None` stands for a property the object did not have (`undefined`). */
  datatype Metric = Metric(date: Option<string>, value: Option<string>)

  function Property(obj: JsonObject, key: string): Option<string>
  {
    if key in obj then Some(obj[key]) else None
  }

  /** `new Metric(obj)`: keeps the object's `date` and `value` and nothing else. */
  function NewMetric(obj: JsonObject): (m: Metric)
    ensures m.date.Some? <==> "date" in obj
    ensures m.value.Some? <==> "value" in obj
    ensures m.date.Some? ==> m.date.value == obj["date"]
    ensures m.value.Some? ==> m.value.value == obj["value"]
  {
    Metric(Property(obj, "date"), Property(obj, "value"))
  }

  /** The index of the last block whose content is `name`. */
  function LastMatch(f: seq<Block>, name: string): (r: Option<nat>)
    ensures r.Some? ==> r.value < |f| && f[r.value].content == name
    ensures r.Some? ==> forall j :: r.value < j < |f| ==> f[j].content != name
    ensures r.None? ==> forall j :: 0 <= j < |f| ==> f[j].content != name
  {
    if f == [] then None
    else if f[|f| - 1].content == name then Some(|f| - 1)
    else LastMatch(f[..|f| - 1], name)
  }

  /** What `findBlock` answers: the uuid of the last block named `name`, or null. */
  function Lookup(f: seq<Block>, name: string): (r: Option<Uuid>)
    ensures r.None? <==> forall j :: 0 <= j < |f| ==> f[j].content != name
    ensures r.Some? ==>
      exists k :: 0 <= k < |f| && f[k].content == name && f[k].uuid == r.value && forall j :: k < j < |f| ==> f[j].content != name
  {
    match LastMatch(f, name)
    case None => None
    case Some(k) => Some(f[k].uuid)
  }

  /**
   * `findBlock(tree, name)`.  The callback's `return` only leaves the
   * callback, so the scan runs to the end and a later match overwrites an
   * earlier one.
   */
  method FindBlock(tree: seq<Block>, name: string) returns (found: Option<Uuid>)
    ensures found == Lookup(tree, name)
  {
    found := None;
    var k := 0;
    while k < |tree|
      invariant 0 <= k <= |tree|
      invariant found == Lookup(tree[..k], name)
    {
      assert tree[..k + 1][..k] == tree[..k];
      if tree[k].content == name {
        found := Some(tree[k].uuid);
      }
      k := k + 1;
    }
    assert tree[..k] == tree;
  }

  /** The page and the answer after `findOrCreateBlock(tree, name)`, for a non-empty `tree`. */
  function FindOrCreate(s: PageState, tree: seq<Block>, name: string): (PageState, Option<Uuid>)
    requires tree != []
  {
    match Lookup(tree, name)
    case Some(u) => (s, Some(u))
    case None => InsertBlock(s, Some(tree[|tree| - 1].uuid), name, true)
  }

  /**
   * `findOrCreateBlock(tree, name)`: the last block named `name`, or a new
   * block named `name` inserted right after the last block of `tree`.  The
   * source reads `tree[tree.length - 1]`, so an empty `tree` is not allowed.
   */
  method FindOrCreateBlock(ed: Host.Editor, tree: seq<Block>, name: string) returns (id: Option<Uuid>)
    requires tree != []
    modifies ed
    ensures (ed.page, id) == FindOrCreate(old(ed.page), tree, name)
  {
    id := FindBlock(tree, name);
    if id.Some? {
      return;
    }
    id := ed.InsertBlock(Some(tree[|tree| - 1].uuid), name, true);
  }

  /** How a call of `enterMetric` ends. */
  datatype EnterOutcome =
    | PageNotCreated      // the data page was missing and could not be created
    | NotLocated          // `findOrCreateBlock` answered null for the metric or the child
    | Threw               // `findOrCreateBlock` was handed no tree (a TypeError rejects the call)
    | InsertFailed        // the data point's `insertBlock` resolved to null
    | Inserted(uuid: Uuid)

  function InsertEntry(s: PageState, parent: Option<Uuid>, entry: string): (PageState, EnterOutcome)
  {
    var (s', u) := InsertBlock(s, parent, entry, false);
    if u.Some? then (s', Inserted(u.value)) else (s', InsertFailed)
  }

  /** The page and the outcome after `enterMetric(name, child, entry)`; `child == ""` is no child name. */
  function Enter(s: PageState, name: string, child: string, entry: string): (PageState, EnterOutcome)
  {
    var (s1, ok) := if s.pageExists then (s, true) else CreatePage(s);
    if !ok then (s1, PageNotCreated)
    else
      var (s2, id) := ResolveMetric(s1, name);
      if s1.tree != [] && id.None? then (s2, NotLocated)
      else EnterBelow(s2, id, child, entry)
  }

  /** The metric step of `enterMetric`: a first block on an empty page, else find or create among the top-level blocks. */
  function ResolveMetric(s: PageState, name: string): (PageState, Option<Uuid>)
  {
    if s.tree == [] then AppendBlockInPage(s, name) else FindOrCreate(s, s.tree, name)
  }

  /** The rest of `enterMetric` once the metric block `id` is resolved: the child step, then the data point. */
  function EnterBelow(s: PageState, id: Option<Uuid>, child: string, entry: string): (PageState, EnterOutcome)
  {
    if child == "" then InsertEntry(s, id, entry)
    else
      match GetBlock(s, id)
      case None => (s, Threw)
      case Some(parent) =>
        if parent.children == [] then
          var (s', cid) := InsertBlock(s, id, child, false);
          InsertEntry(s', cid, entry)
        else
          var (s', cid) := FindOrCreate(s, parent.children, child);
          if cid.None? then (s', NotLocated) else InsertEntry(s', cid, entry)
  }

  /**
   * `enterMetric(name, child, entry)`: resolve or create the metric block,
   * then the child block when a child name is given, and add `entry` as the
   * last child of the block reached.
   */
  method EnterMetric(ed: Host.Editor, name: string, child: string, entry: string) returns (r: EnterOutcome)
    modifies ed
    ensures (ed.page, r) == Enter(old(ed.page), name, child, entry)
  {
    var found := ed.GetPage();
    if !found {
      var ok := ed.CreatePage();
      if !ok {
        return PageNotCreated;
      }
    }
    var tree := ed.GetPageBlocksTree();
    assert tree.Some?;
    var blockId: Option<Uuid>;
    if tree.value == [] {
      blockId := ed.AppendBlockInPage(name);
    } else {
      blockId := FindOrCreateBlock(ed, tree.value, name);
      if blockId.None? {
        return NotLocated;
      }
    }
    if child != "" {
      var parent := ed.GetBlock(blockId);
      if parent.Some? && parent.value.children == [] {
        blockId := ed.InsertBlock(blockId, child, false);
      } else if parent.None? {
        return Threw;
      } else {
        var childId := FindOrCreateBlock(ed, parent.value.children, child);
        if childId.None? {
          return NotLocated;
        }
        blockId := childId;
      }
    }
    var metricBlock := ed.InsertBlock(blockId, entry, false);
    r := if metricBlock.Some? then Inserted(metricBlock.value) else InsertFailed;
  }

  /** What `loadMetrics` resolves to, or `Failed` when it rejects (a TypeError or a `JSON.parse` error). */
  datatype LoadResult = Loaded(metrics: seq<Metric>) | Failed

  /** Decodes each block's content in order, as the `forEach` loops do; the first undecodable one makes it throw. */
  function DecodeAll(bs: seq<Block>, decode: Decoder): (r: LoadResult)
    ensures r.Loaded? <==> forall k :: 0 <= k < |bs| ==> decode(bs[k].content).Some?
    ensures r.Loaded? ==> |r.metrics| == |bs|
    ensures r.Loaded? ==> forall k :: 0 <= k < |bs| ==> r.metrics[k] == NewMetric(decode(bs[k].content).value)
  {
    if bs == [] then Loaded([])
    else
      match DecodeAll(bs[..|bs| - 1], decode)
      case Failed => Failed
      case Loaded(ms) =>
        match decode(bs[|bs| - 1].content)
        case None => Failed
        case Some(obj) => Loaded(ms + [NewMetric(obj)])
  }

  /** The children of every block of `cs`, in order. */
  function Grandchildren(cs: seq<Block>): (r: seq<Block>)
    ensures |cs| == 1 ==> r == cs[0].children
  {
    if cs == [] then [] else Grandchildren(cs[..|cs| - 1]) + cs[|cs| - 1].children
  }

  /** What `loadMetrics(name, child)` yields on page `s`; `child == ""` is no child name. */
  function Load(s: PageState, name: string, child: string, decode: Decoder): LoadResult
  {
    if !s.pageExists then Failed
    else
      match Lookup(s.tree, name)
      case None => Loaded([])
      case Some(id) =>
        if child != "" then
          match GetBlock(s, Some(id))
          case None => Failed
          case Some(b) =>
            match Lookup(b.children, child)
            case None => Loaded([])
            case Some(cid) =>
              match GetBlock(s, Some(cid))
              case None => Loaded([])
              case Some(c) => DecodeAll(c.children, decode)
        else
          match GetBlock(s, Some(id))
          case None => Loaded([])
          case Some(b) => DecodeAll(Grandchildren(b.children), decode)
  }

  /** Decodes `bs` into `metrics`, or reports that a decode threw. */
  method DecodeEach(bs: seq<Block>, decode: Decoder, metrics: seq<Metric>) returns (r: LoadResult)
    ensures r == match DecodeAll(bs, decode)
      case Failed => Failed
      case Loaded(ms) => Loaded(metrics + ms)
  {
    var k := 0;
    var ms := [];
    while k < |bs|
      invariant 0 <= k <= |bs|
      invariant DecodeAll(bs[..k], decode) == Loaded(ms)
    {
      assert bs[..k + 1][..k] == bs[..k];
      var parsed := decode(bs[k].content);
      if parsed.None? {
        DecodeAllFails(bs, k + 1, decode);
        return Failed;
      }
      ms := ms + [NewMetric(parsed.value)];
      k := k + 1;
    }
    assert bs[..k] == bs;
    r := Loaded(metrics + ms);
  }

  lemma DecodeAllFails(bs: seq<Block>, n: nat, decode: Decoder)
    requires 0 < n <= |bs| && decode(bs[n - 1].content).None?
    ensures DecodeAll(bs, decode).Failed?
  {
  }

  /** `loadMetrics(name, child)`. */
  method LoadMetrics(ed: Host.Editor, name: string, child: string, decode: Decoder) returns (r: LoadResult)
    ensures r == Load(ed.page, name, child, decode)
  {
    var tree := ed.GetPageBlocksTree();
    if tree.None? {
      return Failed;
    }
    var blockId := FindBlock(tree.value, name);
    if blockId.None? {
      return Loaded([]);
    }
    if child != "" {
      var block := ed.GetBlock(blockId);
      if block.None? {
        return Failed;
      }
      blockId := FindBlock(block.value.children, child);
    }
    if blockId.None? {
      return Loaded([]);
    }
    var block := ed.GetBlock(blockId);
    if block.None? {
      return Loaded([]);
    }
    if child != "" {
      r := DecodeEach(block.value.children, decode, []);
    } else {
      var cs := block.value.children;
      r := Loaded([]);
      var k := 0;
      while k < |cs|
        invariant 0 <= k <= |cs|
        invariant r == DecodeAll(Grandchildren(cs[..k]), decode)
      {
        assert cs[..k + 1][..k] == cs[..k];
        if r.Failed? {
          DecodeAllPrefixFails(Grandchildren(cs[..k]), cs[k].children, decode);
        } else {
          r := DecodeEach(cs[k].children, decode, r.metrics);
          DecodeAllConcat(Grandchildren(cs[..k]), cs[k].children, decode);
        }
        k := k + 1;
      }
      assert cs[..k] == cs;
    }
  }

  lemma DecodeAllPrefixFails(a: seq<Block>, b: seq<Block>, decode: Decoder)
    requires DecodeAll(a, decode).Failed?
    ensures DecodeAll(a + b, decode).Failed?
  {
    var k :| 0 <= k < |a| && decode(a[k].content).None?;
    assert (a + b)[k] == a[k];
  }

  /** Decoding two runs of blocks one after the other. */
  lemma DecodeAllConcat(a: seq<Block>, b: seq<Block>, decode: Decoder)
    ensures DecodeAll(a + b, decode) ==
      match (DecodeAll(a, decode), DecodeAll(b, decode))
      case (Loaded(ms), Loaded(ns)) => Loaded(ms + ns)
      case _ => Failed
  {
    var ab := a + b;
    if DecodeAll(a, decode).Failed? {
      DecodeAllPrefixFails(a, b, decode);
    } else if DecodeAll(b, decode).Failed? {
      var k :| 0 <= k < |b| && decode(b[k].content).None?;
      assert ab[|a| + k] == b[k];
    } else {
      forall k | 0 <= k < |ab| ensures decode(ab[k].content).Some? {
        if k < |a| { assert ab[k] == a[k]; } else { assert ab[k] == b[k - |a|]; }
      }
      var ms, ns := DecodeAll(a, decode).metrics, DecodeAll(b, decode).metrics;
      var r := DecodeAll(ab, decode).metrics;
      forall k | 0 <= k < |ab| ensures r[k] == (ms + ns)[k] {
        if k < |a| { assert ab[k] == a[k]; } else { assert ab[k] == b[k - |a|]; }
      }
    }
  }

  /**
   * What a load without a child name evidently means: every data point
   * filed under the metric, whether it sits directly under the metric
   * block (entered without a child name) or under one of its child-name
   * blocks.  A child whose content decodes is a data point; any other
   * child is a child-name block whose children are decoded.
   */
  function DecodePoints(cs: seq<Block>, decode: Decoder): LoadResult
  {
    if cs == [] then Loaded([])
    else
      match DecodePoints(cs[..|cs| - 1], decode)
      case Failed => Failed
      case Loaded(ms) =>
        match decode(cs[|cs| - 1].content)
        case Some(obj) => Loaded(ms + [NewMetric(obj)])
        case None =>
          match DecodeAll(cs[|cs| - 1].children, decode)
          case Failed => Failed
          case Loaded(ns) => Loaded(ms + ns)
  }

  /** `loadMetrics` with the child-less case corrected to read direct data points as well. */
  function LoadFixed(s: PageState, name: string, child: string, decode: Decoder): LoadResult
  {
    if child != "" then Load(s, name, child, decode)
    else if !s.pageExists then Failed
    else
      match Lookup(s.tree, name)
      case None => Loaded([])
      case Some(id) =>
        match GetBlock(s, Some(id))
        case None => Loaded([])
        case Some(b) => DecodePoints(b.children, decode)
  }
}
