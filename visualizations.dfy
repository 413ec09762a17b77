/**
 * The process-wide registry of visualization instances: at most one
 * instance per (block uuid, slot), built by `create` from a visualization
 * name, replaced by `setInstanceFor` and dropped by `releaseAll`.
 */
module Visualizations {
  import opened Wrappers
  import opened Text

  /** The uuid of the block that renders the visualization. */
  type BlockId = string
  type Slot = string

  /** The concrete visualization classes `create` can build. */
  datatype Kind = Card | PropertiesCard | BarChart | PropertiesBarChart | MetricsLineChart | PropertiesLineChart

  /**
   * A visualization instance with the fields its constructor sets;
   * `serial` stands for the object's identity (instances are compared by
   * reference in the source).
   */
  datatype Viz = Viz(serial: nat, kind: Kind, uuid: BlockId, slot: Slot,
                     metric: string, childMetric: string, vtype: string, args: seq<string>)

  /** The table `create` searches, row by row: a class and the names that select it. */
  const Types: seq<(Kind, seq<string>)> := [
    (Card, ["sum", "average", "latest", "count"]),
    (PropertiesCard, ["properties-sum", "properties-average", "properties-latest", "properties-count"]),
    (BarChart, ["bar"]),
    (PropertiesBarChart, ["properties-bar"]),
    (MetricsLineChart, ["line", "cumulative-line"]),
    (PropertiesLineChart, ["properties-line", "properties-cumulative-line"])
  ]

  /** Which class a (trimmed) visualization name selects; the fourteen names and nothing else. */
  function KindOf(name: string): Option<Kind>
  {
    if name in {"sum", "average", "latest", "count"} then Some(Card)
    else if name in {"properties-sum", "properties-average", "properties-latest", "properties-count"} then Some(PropertiesCard)
    else if name == "bar" then Some(BarChart)
    else if name == "properties-bar" then Some(PropertiesBarChart)
    else if name in {"line", "cumulative-line"} then Some(MetricsLineChart)
    else if name in {"properties-line", "properties-cumulative-line"} then Some(PropertiesLineChart)
    else None
  }

  /** A name listed in a row of the table selects that row's class. */
  lemma KindOfRow(name: string, j: nat)
    requires j < |Types| && name in Types[j].1
    ensures KindOf(name) == Some(Types[j].0)
  {
    assert Types[j].1 == [Types[j].1[0]] + Types[j].1[1..];
  }

  /** A name listed in no row of the table selects nothing. */
  lemma KindOfUnlisted(name: string)
    requires forall j :: 0 <= j < |Types| ==> name !in Types[j].1
    ensures KindOf(name) == None
  {
    assert name !in Types[0].1 && name !in Types[1].1 && name !in Types[2].1;
    assert name !in Types[3].1 && name !in Types[4].1 && name !in Types[5].1;
  }

  /** The class `create` selects for the visualization argument as given. */
  function Selected(vtype: string): Option<Kind>
  {
    KindOf(Trim(vtype))
  }

  /** The class `create` selects: the visualization argument trimmed, then looked up in the table. */
  method SelectKind(vtype: string) returns (k: Option<Kind>)
    ensures k == Selected(vtype)
  {
    k := FindKind(Trim(vtype));
  }

  /** The loop over the table in `create`: the first row whose names include `name`. */
  method FindKind(name: string) returns (k: Option<Kind>)
    ensures k == KindOf(name)
  {
    var i := 0;
    while i < |Types|
      invariant 0 <= i <= |Types|
      invariant forall j :: 0 <= j < i ==> name !in Types[j].1
    {
      if name in Types[i].1 {
        KindOfRow(name, i);
        return Some(Types[i].0);
      }
      i := i + 1;
    }
    KindOfUnlisted(name);
    k := None;
  }

  /** The child name `create` stores: trimmed, with the placeholder "-" meaning none. */
  function ChildLabel(childName: string): (r: string)
    ensures r != "-"
    ensures r == "" || r == Trim(childName)
    ensures Trim(childName) != "-" ==> r == Trim(childName)
  {
    var t := Trim(childName);
    if t == "-" then "" else t
  }

  /** The instance `create` builds: names trimmed, and the child placeholder dropped. */
  function Made(serial: nat, kind: Kind, uuid: BlockId, slot: Slot, name: string, childName: string,
                vtype: string, args: seq<string>): Viz
  {
    Viz(serial, kind, uuid, slot, Trim(name), ChildLabel(childName), Trim(vtype), args)
  }

  /** Every instance held in a registry map. */
  ghost function Registered(m: map<BlockId, map<Slot, Viz>>): set<Viz>
  {
    set u, s | u in m && s in m[u] :: m[u][s]
  }

  /** The instances of one block, and those of all the others. */
  lemma RegisteredSplit(m: map<BlockId, map<Slot, Viz>>, u: BlockId)
    requires u in m
    ensures Registered(m) == m[u].Values + Registered(m - {u})
  {
    forall v | v in Registered(m) ensures v in m[u].Values + Registered(m - {u}) {
      var u', s :| u' in m && s in m[u'] && m[u'][s] == v;
      if u' != u {
        assert (m - {u})[u'][s] == v;
      }
    }
    forall v | v in m[u].Values ensures v in Registered(m) {
      var s :| s in m[u] && m[u][s] == v;
    }
    forall v | v in Registered(m - {u}) ensures v in Registered(m) {
      var u', s :| u' in m - {u} && s in (m - {u})[u'] && (m - {u})[u'][s] == v;
      assert m[u'][s] == v;
    }
  }

  /** The instances released from position `start` on. */
  ghost function ReleasedFrom(released: seq<Viz>, start: nat): set<Viz>
  {
    set k | start <= k < |released| :: released[k]
  }

  lemma ReleasedFromSnoc(released: seq<Viz>, start: nat, v: Viz)
    requires start <= |released|
    ensures ReleasedFrom(released + [v], start) == ReleasedFrom(released, start) + {v}
  {
    var r := released + [v];
    assert r[|released|] == v;
    forall x | x in ReleasedFrom(released, start) ensures x in ReleasedFrom(r, start) {
      var k :| start <= k < |released| && released[k] == x;
      assert r[k] == x;
    }
  }

  lemma ReleasedFromSplit(released: seq<Viz>, start: nat, mid: nat)
    requires start <= mid <= |released|
    ensures ReleasedFrom(released, start) == ReleasedFrom(released[..mid], start) + ReleasedFrom(released, mid)
  {
    forall x | x in ReleasedFrom(released, start)
      ensures x in ReleasedFrom(released[..mid], start) + ReleasedFrom(released, mid)
    {
      var k :| start <= k < |released| && released[k] == x;
      if k < mid {
        assert released[..mid][k] == x;
      }
    }
    forall x | x in ReleasedFrom(released[..mid], start) ensures x in ReleasedFrom(released, start) {
      var k :| start <= k < mid && released[..mid][k] == x;
      assert released[k] == x;
    }
  }

  lemma ValuesRemove(slots: map<Slot, Viz>, s: Slot)
    requires s in slots
    ensures slots.Values == (slots - {s}).Values + {slots[s]}
  {
    forall v | v in slots.Values ensures v in (slots - {s}).Values + {slots[s]} {
      var t :| t in slots && slots[t] == v;
      if t != s {
        assert (slots - {s})[t] == v;
      }
    }
    forall v | v in (slots - {s}).Values ensures v in slots.Values {
      var t :| t in slots - {s} && (slots - {s})[t] == v;
      assert slots[t] == v;
    }
  }

  /** The occupied places of a registry map: one per (uuid, slot) entry. */
  ghost function Places(m: map<BlockId, map<Slot, Viz>>): set<(BlockId, Slot)>
  {
    set u, s | u in m && s in m[u] :: (u, s)
  }

  /** The places of one block's slots. */
  ghost function SlotPlaces(u: BlockId, slots: map<Slot, Viz>): set<(BlockId, Slot)>
  {
    set s | s in slots :: (u, s)
  }

  /** The places of one block, and those of all the others. */
  lemma PlacesSplit(m: map<BlockId, map<Slot, Viz>>, u: BlockId)
    requires u in m
    ensures Places(m) == SlotPlaces(u, m[u]) + Places(m - {u})
    ensures |Places(m)| == |SlotPlaces(u, m[u])| + |Places(m - {u})|
  {
    forall p | p in Places(m) ensures p in SlotPlaces(u, m[u]) + Places(m - {u}) {
      var u', s :| u' in m && s in m[u'] && p == (u', s);
      if u' != u {
        assert p in Places(m - {u});
      }
    }
    assert SlotPlaces(u, m[u]) !! Places(m - {u});
  }

  /** Taking one slot out takes out its place. */
  lemma SlotPlacesRemove(u: BlockId, slots: map<Slot, Viz>, s: Slot)
    requires s in slots
    ensures |SlotPlaces(u, slots)| == |SlotPlaces(u, slots - {s})| + 1
  {
    assert SlotPlaces(u, slots) == SlotPlaces(u, slots - {s}) + {(u, s)};
    assert (u, s) !in SlotPlaces(u, slots - {s});
  }

  /** The instance a registry map holds for (uuid, slot), if any. */
  function Lookup(m: map<BlockId, map<Slot, Viz>>, uuid: BlockId, slot: Slot): (r: Option<Viz>)
    ensures r.Some? <==> uuid in m && slot in m[uuid]
    ensures r.Some? ==> r.value == m[uuid][slot] && r.value in Registered(m)
  {
    if uuid in m && slot in m[uuid] then Some(m[uuid][slot]) else None
  }

  /** The registry map with `viz` in place (uuid, slot), creating the block's slot map when missing. */
  function Placed(m: map<BlockId, map<Slot, Viz>>, uuid: BlockId, slot: Slot, viz: Viz): (r: map<BlockId, map<Slot, Viz>>)
    ensures r.Keys == m.Keys + {uuid}
  {
    m[uuid := (if uuid in m then m[uuid] else map[])[slot := viz]]
  }

  /** Placing an instance makes it the one found at its place and changes no other place. */
  lemma PlacedLookup(m: map<BlockId, map<Slot, Viz>>, uuid: BlockId, slot: Slot, viz: Viz, u: BlockId, s: Slot)
    ensures Lookup(Placed(m, uuid, slot, viz), u, s) == if u == uuid && s == slot then Some(viz) else Lookup(m, u, s)
  {
  }

  /** Placing an instance adds it to the registered ones and drops at most the one it displaces. */
  lemma PlacedRegistered(m: map<BlockId, map<Slot, Viz>>, uuid: BlockId, slot: Slot, viz: Viz)
    ensures viz in Registered(Placed(m, uuid, slot, viz))
    ensures Registered(Placed(m, uuid, slot, viz)) <= Registered(m) + {viz}
    ensures Lookup(m, uuid, slot).None? ==> Registered(Placed(m, uuid, slot, viz)) == Registered(m) + {viz}
  {
    var p := Placed(m, uuid, slot, viz);
    assert p[uuid][slot] == viz;
    forall v | v in Registered(p) ensures v in Registered(m) + {viz} {
      var u, s :| u in p && s in p[u] && p[u][s] == v;
      if u != uuid || s != slot {
        assert m[u][s] == v;
      }
    }
    if Lookup(m, uuid, slot).None? {
      forall v | v in Registered(m) ensures v in Registered(p) {
        var u, s :| u in m && s in m[u] && m[u][s] == v;
        assert p[u][s] == v;
      }
    }
  }

  class Registry {
    /** `Visualization.instances`: block uuid to slot to instance. */
    var instances: map<BlockId, map<Slot, Viz>>
    /** Every `release()` call made so far, in order. */
    var released: seq<Viz>
    /** How many instances have been built; the next one's identity. */
    var built: nat

    constructor ()
      ensures instances == map[] && released == [] && built == 0
    {
      instances := map[];
      released := [];
      built := 0;
    }

    /** `getInstanceFor(uuid, slot)`: the instance in that place, or null. */
    function GetInstanceFor(uuid: BlockId, slot: Slot): (r: Option<Viz>)
      reads this
      ensures r.Some? <==> uuid in instances && slot in instances[uuid]
      ensures r.Some? ==> r.value == instances[uuid][slot]
    {
      Lookup(instances, uuid, slot)
    }

    /** `setInstanceFor(uuid, slot, instance)`: the previous occupant, if any, is released first. */
    method SetInstanceFor(uuid: BlockId, slot: Slot, viz: Viz)
      modifies this
      ensures instances == Placed(old(instances), uuid, slot, viz)
      ensures uuid !in old(instances) || slot !in old(instances)[uuid] ==> released == old(released)
      ensures uuid in old(instances) && slot in old(instances)[uuid] ==>
        released == old(released) + [old(instances)[uuid][slot]]
      ensures built == old(built)
    {
      var slots := if uuid in instances then instances[uuid] else map[];
      if slot in slots {
        released := released + [slots[slot]];
      }
      instances := instances[uuid := slots[slot := viz]];
    }

    /**
     * `create(uuid, slot, name, childName, visualization, args)`: the
     * instance already in that place, else a new instance of the class the
     * trimmed visualization name selects, registered there; null for an
     * unknown name.
     */
    method Create(uuid: BlockId, slot: Slot, name: string, childName: string, vtype: string, args: seq<string>)
      returns (r: Option<Viz>)
      modifies this
      ensures Lookup(old(instances), uuid, slot).Some? ==> r == Lookup(old(instances), uuid, slot) && unchanged(this)
      ensures Lookup(old(instances), uuid, slot).None? ==>
        match Selected(vtype)
        case None => r.None? && unchanged(this)
        case Some(kind) =>
          && r == Some(Made(old(built), kind, uuid, slot, name, childName, vtype, args))
          && instances == Placed(old(instances), uuid, slot, r.value)
          && released == old(released) && built == old(built) + 1
    {
      r := GetInstanceFor(uuid, slot);
      if r.None? {
        r := Build(uuid, slot, name, childName, vtype, args);
      }
    }

    /** The part of `create` that runs when the place is empty. */
    method Build(uuid: BlockId, slot: Slot, name: string, childName: string, vtype: string, args: seq<string>)
      returns (r: Option<Viz>)
      requires uuid !in instances || slot !in instances[uuid]
      modifies this
      ensures match Selected(vtype)
        case None => r.None? && unchanged(this)
        case Some(kind) =>
          && r == Some(Made(old(built), kind, uuid, slot, name, childName, vtype, args))
          && instances == Placed(old(instances), uuid, slot, r.value)
          && released == old(released) && built == old(built) + 1
    {
      var kind := SelectKind(vtype);
      r := None;
      if kind.Some? {
        var viz := Made(built, kind.value, uuid, slot, name, childName, vtype, args);
        built := built + 1;
        SetInstanceFor(uuid, slot, viz);
        r := Some(viz);
      }
    }

    /** `releaseAll()`: every registered instance is released, once per place, and the registry is emptied. */
    method ReleaseAll()
      modifies this
      ensures instances == map[] && built == old(built)
      ensures |released| == |old(released)| + |Places(old(instances))|
      ensures released[..|old(released)|] == old(released)
      ensures ReleasedFrom(released, |old(released)|) == Registered(old(instances))
    {
      ghost var start := |released|;
      while instances != map[]
        invariant |released| >= start && released[..start] == old(released) && built == old(built)
        invariant Registered(old(instances)) == ReleasedFrom(released, start) + Registered(instances)
        invariant |released| - start + |Places(instances)| == |Places(old(instances))|
        decreases instances.Keys
      {
        var u :| u in instances;
        RegisteredSplit(instances, u);
        PlacesSplit(instances, u);
        ghost var before := released;
        ReleaseBlock(u);
        ReleasedFromSplit(released, start, |before|);
        assert released[..|before|] == before;
        assert released[..start] == before[..start];
      }
      assert Places(instances) == {};
    }

    /** One pass of the outer loop of `releaseAll`: the instances of one block are released and its entry deleted. */
    method ReleaseBlock(u: BlockId)
      requires u in instances
      modifies this
      ensures instances == old(instances) - {u} && built == old(built)
      ensures |released| == |old(released)| + |SlotPlaces(u, old(instances)[u])|
      ensures released[..|old(released)|] == old(released)
      ensures ReleasedFrom(released, |old(released)|) == old(instances)[u].Values
    {
      ghost var start := |released|;
      var slots := instances[u];
      while slots != map[]
        invariant |released| >= start && released[..start] == old(released)
        invariant instances == old(instances) && built == old(built)
        invariant old(instances)[u].Values == ReleasedFrom(released, start) + slots.Values
        invariant |released| - start + |SlotPlaces(u, slots)| == |SlotPlaces(u, old(instances)[u])|
        decreases slots.Keys
      {
        var s :| s in slots;
        ReleasedFromSnoc(released, start, slots[s]);
        ValuesRemove(slots, s);
        SlotPlacesRemove(u, slots, s);
        released := released + [slots[s]];
        slots := slots - {s};
      }
      assert SlotPlaces(u, slots) == {};
      instances := instances - {u};
    }
  }
}
