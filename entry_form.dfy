/**
 * The "add metric" form: validation of its inputs, the data point it
 * builds, and the blocks it asks to re-render after an entry.
 *
 * An input is its text and its set of CSS classes; the DOM, events and
 * rendering are not modelled.
 */
module EntryForm {
  import opened Wrappers
  import opened DataUtils
  import opened Visualizations
  import opened Page
  import opened StoreProperties

  /** The border and focus-ring classes that mark an input invalid. */
  const InvalidClasses: set<string> := {"border-red-600", "focus:ring-red-500", "focus:border-red-500"}
  /** The border and focus-ring classes that mark an input valid. */
  const ValidClasses: set<string> := {"border-slate-300", "focus:ring-sky-500", "focus:border-sky-500"}

  /** One form field: its text and its class list. */
  class Input {
    var value: string
    var classes: set<string>

    constructor (value: string, classes: set<string>)
      ensures this.value == value && this.classes == classes
    {
      this.value := value;
      this.classes := classes;
    }

    /** Marked invalid: every invalid class and no valid one. */
    predicate MarkedInvalid()
      reads this
    {
      InvalidClasses <= classes && ValidClasses !! classes
    }

    /** Marked valid: every valid class and no invalid one. */
    predicate MarkedValid()
      reads this
    {
      ValidClasses <= classes && InvalidClasses !! classes
    }

    /** `makeInputInvalid(input)`: the valid classes removed, then the invalid ones added. */
    method MakeInvalid()
      modifies this
      ensures classes == old(classes) - ValidClasses + InvalidClasses
      ensures value == old(value)
      ensures MarkedInvalid() && !MarkedValid()
    {
      classes := classes - {"border-slate-300"};
      classes := classes - {"focus:ring-sky-500"};
      classes := classes - {"focus:border-sky-500"};
      classes := classes + {"border-red-600"};
      classes := classes + {"focus:ring-red-500"};
      classes := classes + {"focus:border-red-500"};
    }

    /** `makeInputValid(input)`: the invalid classes removed, then the valid ones added. */
    method MakeValid()
      modifies this
      ensures classes == old(classes) - InvalidClasses + ValidClasses
      ensures value == old(value)
      ensures MarkedValid() && !MarkedInvalid()
    {
      classes := classes - {"border-red-600"};
      classes := classes - {"focus:ring-red-500"};
      classes := classes - {"focus:border-red-500"};
      classes := classes + {"border-slate-300"};
      classes := classes + {"focus:ring-sky-500"};
      classes := classes + {"focus:border-sky-500"};
    }

    /** `validateInputNotEmpty(input)`: true and marked valid exactly when the text is not empty. */
    method ValidateNotEmpty() returns (ok: bool)
      modifies this
      ensures ok <==> value != ""
      ensures value == old(value)
      ensures ok ==> classes == old(classes) - InvalidClasses + ValidClasses
      ensures !ok ==> classes == old(classes) - ValidClasses + InvalidClasses
      ensures ok ==> MarkedValid() && !MarkedInvalid()
      ensures !ok ==> MarkedInvalid() && !MarkedValid()
    {
      if |value| == 0 {
        MakeInvalid();
        ok := false;
      } else {
        MakeValid();
        ok := true;
      }
    }
  }

  /** The form's fields. */
  class Form {
    const metricName: Input
    const childMetric: Input
    const date: Input
    const time: Input
    const amount: Input

    /** The fields are five different elements. */
    predicate Valid()
    {
      && metricName != childMetric && metricName != date && metricName != time && metricName != amount
      && childMetric != date && childMetric != time && childMetric != amount
      && date != time && date != amount && time != amount
    }

    constructor ()
      ensures Valid()
      ensures fresh(metricName) && fresh(childMetric) && fresh(date) && fresh(time) && fresh(amount)
    {
      metricName := new Input("", {});
      childMetric := new Input("", {});
      date := new Input("", {});
      time := new Input("", {});
      amount := new Input("", {});
    }

    /**
     * `validate()`: both names cleaned with `clearName`, then all four
     * required fields checked, each one even after an earlier one failed.
     */
    method Validate(clearName: string -> string) returns (ok: bool)
      requires Valid()
      modifies metricName, childMetric, date, time, amount
      ensures metricName.value == clearName(old(metricName.value))
      ensures childMetric.value == clearName(old(childMetric.value))
      ensures date.value == old(date.value) && time.value == old(time.value) && amount.value == old(amount.value)
      ensures ok <==> metricName.value != "" && date.value != "" && time.value != "" && amount.value != ""
      ensures metricName.value == "" ==> metricName.MarkedInvalid()
      ensures metricName.value != "" ==> metricName.MarkedValid()
      ensures date.value == "" ==> date.MarkedInvalid()
      ensures date.value != "" ==> date.MarkedValid()
      ensures time.value == "" ==> time.MarkedInvalid()
      ensures time.value != "" ==> time.MarkedValid()
      ensures amount.value == "" ==> amount.MarkedInvalid()
      ensures amount.value != "" ==> amount.MarkedValid()
      ensures childMetric.classes == old(childMetric.classes)
      ensures metricName.classes == if metricName.value == "" then old(metricName.classes) - ValidClasses + InvalidClasses
                                    else old(metricName.classes) - InvalidClasses + ValidClasses
      ensures date.classes == if date.value == "" then old(date.classes) - ValidClasses + InvalidClasses
                              else old(date.classes) - InvalidClasses + ValidClasses
      ensures time.classes == if time.value == "" then old(time.classes) - ValidClasses + InvalidClasses
                              else old(time.classes) - InvalidClasses + ValidClasses
      ensures amount.classes == if amount.value == "" then old(amount.classes) - ValidClasses + InvalidClasses
                                else old(amount.classes) - InvalidClasses + ValidClasses
    {
      ok := true;
      metricName.value := clearName(metricName.value);
      childMetric.value := clearName(childMetric.value);
      var r := metricName.ValidateNotEmpty();
      if !r {
        ok := false;
      }
      r := date.ValidateNotEmpty();
      if !r {
        ok := false;
      }
      r := time.ValidateNotEmpty();
      if !r {
        ok := false;
      }
      r := amount.ValidateNotEmpty();
      if !r {
        ok := false;
      }
    }

    /**
     * `formatMetric()`: the data point the form enters, as the object
     * `JSON.stringify` writes; `toIso` is the text a `Date` built from
     * "<date> <time>" is written as.
     */
    function FormatMetric(toIso: string -> string): (obj: JsonObject)
      reads this, date, time, amount
      ensures obj.Keys == {"date", "value"}
      ensures obj["value"] == amount.value
      ensures obj["date"] == toIso(date.value + " " + time.value)
    {
      map["date" := toIso(date.value + " " + time.value), "value" := amount.value]
    }
  }

  /**
   * The entry made from the form is read back as the form's point: with
   * `encode` standing for `JSON.stringify` and `decode` for `JSON.parse`
   * (which read each other's text back), a successful `enterMetric` of the
   * encoded point appends, to the load of that metric and child, the
   * metric whose date is the ISO form of "<date> <time>" and whose value is
   * the typed text, unparsed.  Without a child name this holds for the
   * corrected load.
   */
  lemma EnteredFormLoads(s: PageState, form: Form, toIso: string -> string, encode: JsonObject -> string, decode: Decoder)
    requires Valid(s)
    requires decode(encode(form.FormatMetric(toIso))) == Some(form.FormatMetric(toIso))
    requires Enter(s, form.metricName.value, form.childMetric.value, encode(form.FormatMetric(toIso))).1.Inserted?
    ensures var name, child, entry := form.metricName.value, form.childMetric.value, encode(form.FormatMetric(toIso));
      var point := Metric(Some(toIso(form.date.value + " " + form.time.value)), Some(form.amount.value));
      var s' := Enter(s, name, child, entry).0;
      && (child != "" ==> Load(s', name, child, decode) == Appended(if s.pageExists then Load(s, name, child, decode) else Loaded([]), point))
      && (child == "" ==> LoadFixed(s', name, "", decode) == Appended(if s.pageExists then LoadFixed(s, name, "", decode) else Loaded([]), point))
  {
    var name, child, entry := form.metricName.value, form.childMetric.value, encode(form.FormatMetric(toIso));
    var obj := form.FormatMetric(toIso);
    assert NewMetric(obj) == Metric(Some(toIso(form.date.value + " " + form.time.value)), Some(form.amount.value));
    if child != "" {
      EnterThenLoad(s, name, child, entry, decode);
    } else {
      EnterThenLoadFixed(s, name, entry, decode);
    }
  }

  /** The uuids of the registered visualizations of metric `name`. */
  ghost function Showing(m: map<BlockId, map<Slot, Viz>>, name: string): set<BlockId>
  {
    set v | v in Registered(m) && v.metric == name :: v.uuid
  }

  /** The uuids of the given instances that show metric `name`. */
  ghost function ShowingAmong(vs: set<Viz>, name: string): set<BlockId>
  {
    set v | v in vs && v.metric == name :: v.uuid
  }

  lemma ShowingSplit(m: map<BlockId, map<Slot, Viz>>, u: BlockId, name: string)
    requires u in m
    ensures Showing(m, name) == ShowingAmong(m[u].Values, name) + Showing(m - {u}, name)
  {
    RegisteredSplit(m, u);
  }

  lemma ShowingAmongRemove(slots: map<Slot, Viz>, s: Slot, name: string)
    requires s in slots
    ensures ShowingAmong(slots.Values, name)
      == ShowingAmong((slots - {s}).Values, name) + (if slots[s].metric == name then {slots[s].uuid} else {})
  {
    ValuesRemove(slots, s);
  }

  predicate NoDuplicates<T(==)>(s: seq<T>)
  {
    forall i, j :: 0 <= i < j < |s| ==> s[i] != s[j]
  }

  /**
   * The refresh list built after an entry: the uuid of every registered
   * visualization whose metric is the entered name, each once.  The order
   * the registry is walked in is left open.
   */
  method BlocksToRefresh(instances: map<BlockId, map<Slot, Viz>>, name: string) returns (uuids: seq<BlockId>)
    ensures NoDuplicates(uuids)
    ensures (set u | u in uuids) == Showing(instances, name)
  {
    uuids := [];
    var rest := instances;
    while rest != map[]
      invariant NoDuplicates(uuids)
      invariant Showing(instances, name) == (set u | u in uuids) + Showing(rest, name)
      decreases rest.Keys
    {
      var blockId :| blockId in rest;
      ShowingSplit(rest, blockId, name);
      uuids := AddShowing(uuids, rest[blockId], name);
      rest := rest - {blockId};
    }
  }

  /** The inner loop of the refresh list: one block's instances of metric `name`, each uuid added once. */
  method AddShowing(uuids: seq<BlockId>, blockInstances: map<Slot, Viz>, name: string) returns (r: seq<BlockId>)
    requires NoDuplicates(uuids)
    ensures NoDuplicates(r) && |r| >= |uuids| && r[..|uuids|] == uuids
    ensures (set u | u in r) == (set u | u in uuids) + ShowingAmong(blockInstances.Values, name)
  {
    r := uuids;
    var slots := blockInstances;
    while slots != map[]
      invariant NoDuplicates(r) && |r| >= |uuids| && r[..|uuids|] == uuids
      invariant (set u | u in uuids) + ShowingAmong(blockInstances.Values, name)
        == (set u | u in r) + ShowingAmong(slots.Values, name)
      decreases slots.Keys
    {
      var s :| s in slots;
      var viz := slots[s];
      ShowingAmongRemove(slots, s, name);
      ghost var seen := set u | u in r;
      ghost var here := if viz.metric == name then {viz.uuid} else {};
      if viz.metric == name {
        if viz.uuid !in r {
          r := r + [viz.uuid];
        }
      }
      assert (set u | u in r) == seen + here;
      slots := slots - {s};
    }
  }
}
