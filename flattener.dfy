/** The schema flattener: the loop of `run` that writes every class's
    induced slots into that class's own `attributes` map, in place. The
    schema library's `classInducedSlots` is a parameter of the model. */
module Flattener {
  import opened Wrappers

  /** A slot (attribute) definition. Only `name` is inspected; `details`
      stands for the rest of the definition, which is passed through. */
  datatype SlotDefinition = SlotDefinition(name: string, details: string)

  /** A class's `attributes` object: slot name to slot definition. */
  type Attributes = map<string, SlotDefinition>

  /** A class definition object of the loaded schema. Its `attributes` map
      is absent when the schema declares no attributes for the class. */
  class ClassDefinition {
    var attributes: Option<Attributes>

    constructor (attributes: Option<Attributes>)
      ensures this.attributes == attributes
    {
      this.attributes := attributes;
    }
  }

  /** The names carried by a sequence of slots. */
  function SlotNames(slots: seq<SlotDefinition>): set<string>
  {
    set k | 0 <= k < |slots| :: slots[k].name
  }

  lemma SlotNamesSnoc(slots: seq<SlotDefinition>, last: SlotDefinition)
    ensures SlotNames(slots + [last]) == SlotNames(slots) + {last.name}
  {
    var all := slots + [last];
    forall n | n in SlotNames(all) ensures n in SlotNames(slots) + {last.name} {
      var k :| 0 <= k < |all| && all[k].name == n;
      if k < |slots| { assert slots[k].name == n; }
    }
    forall n | n in SlotNames(slots) ensures n in SlotNames(all) {
      var k :| 0 <= k < |slots| && slots[k].name == n;
      assert all[k].name == n;
    }
    assert all[|slots|].name == last.name;
  }

  /** The map `m` after `m[attr.name] = attr` for each slot of `slots`, in
      order. Its keys are those of `m` plus the names of the slots. */
  function InsertSlots(m: Attributes, slots: seq<SlotDefinition>): (r: Attributes)
    ensures r.Keys == m.Keys + SlotNames(slots)
    decreases |slots|
  {
    if slots == [] then m
    else
      var last := slots[|slots| - 1];
      var before := slots[..|slots| - 1];
      SlotNamesSnoc(before, last);
      assert before + [last] == slots;
      InsertSlots(m, before)[last.name := last]
  }

  /** The index of the last slot named `n`. */
  function LastIndexNamed(slots: seq<SlotDefinition>, n: string): (j: nat)
    requires n in SlotNames(slots)
    ensures j < |slots| && slots[j].name == n
    ensures forall k :: j < k < |slots| ==> slots[k].name != n
    decreases |slots|
  {
    var last := slots[|slots| - 1];
    var before := slots[..|slots| - 1];
    SlotNamesSnoc(before, last);
    assert before + [last] == slots;
    if last.name == n then |slots| - 1 else LastIndexNamed(before, n)
  }

  /** Writing the slots one by one leaves, under each slot name, the last
      slot with that name (the last writer wins). */
  lemma {:induction false} InsertSlotsLastWins(m: Attributes, slots: seq<SlotDefinition>, n: string)
    requires n in SlotNames(slots)
    ensures n in InsertSlots(m, slots)
    ensures InsertSlots(m, slots)[n] == slots[LastIndexNamed(slots, n)]
    decreases |slots|
  {
    var last := slots[|slots| - 1];
    var before := slots[..|slots| - 1];
    if last.name != n {
      SlotNamesSnoc(before, last);
      assert before + [last] == slots;
      InsertSlotsLastWins(m, before, n);
    }
  }

  /** A key that no slot names keeps the value it had. */
  lemma {:induction false} InsertSlotsKeepsOthers(m: Attributes, slots: seq<SlotDefinition>, n: string)
    requires n in m && n !in SlotNames(slots)
    ensures n in InsertSlots(m, slots) && InsertSlots(m, slots)[n] == m[n]
    decreases |slots|
  {
    if slots != [] {
      var last := slots[|slots| - 1];
      var before := slots[..|slots| - 1];
      SlotNamesSnoc(before, last);
      assert before + [last] == slots;
      InsertSlotsKeepsOthers(m, before, n);
    }
  }

  /** Writing the same slots a second time changes nothing. */
  lemma InsertSlotsIdempotent(m: Attributes, slots: seq<SlotDefinition>)
    ensures InsertSlots(InsertSlots(m, slots), slots) == InsertSlots(m, slots)
  {
    var once := InsertSlots(m, slots);
    var twice := InsertSlots(once, slots);
    forall n | n in twice ensures twice[n] == once[n] {
      if n in SlotNames(slots) {
        InsertSlotsLastWins(once, slots, n);
        InsertSlotsLastWins(m, slots, n);
      } else {
        InsertSlotsKeepsOthers(once, slots, n);
      }
    }
  }

  /** What one class's `attributes` is after its turn in the loop, given
      what it was before and the class's induced slots: a map is created
      only when there is none and there are slots to write. */
  function FlattenClass(attributes: Option<Attributes>, induced: seq<SlotDefinition>): (r: Option<Attributes>)
    ensures r.Some? <==> attributes.Some? || |induced| > 0
    ensures r.Some? ==> r.value.Keys == (if attributes.Some? then attributes.value.Keys else {}) + SlotNames(induced)
  {
    match attributes
    case Some(m) => Some(InsertSlots(m, induced))
    case None => if |induced| == 0 then None else Some(InsertSlots(map[], induced))
  }

  /** Every induced slot name maps to the last induced slot of that name. */
  lemma FlattenClassLastWins(attributes: Option<Attributes>, induced: seq<SlotDefinition>, n: string)
    requires n in SlotNames(induced)
    ensures FlattenClass(attributes, induced).Some?
    ensures n in FlattenClass(attributes, induced).value
    ensures FlattenClass(attributes, induced).value[n] == induced[LastIndexNamed(induced, n)]
  {
    InsertSlotsLastWins(if attributes.Some? then attributes.value else map[], induced, n);
  }

  /** Existing entries whose names are not induced are left as they were;
      no key is ever removed. */
  lemma FlattenClassKeepsOthers(attributes: Option<Attributes>, induced: seq<SlotDefinition>, n: string)
    requires attributes.Some? && n in attributes.value && n !in SlotNames(induced)
    ensures FlattenClass(attributes, induced).Some?
    ensures n in FlattenClass(attributes, induced).value
    ensures FlattenClass(attributes, induced).value[n] == attributes.value[n]
  {
    InsertSlotsKeepsOthers(attributes.value, induced, n);
  }

  /** Flattening a class again with the same induced slots changes nothing. */
  lemma FlattenClassIdempotent(attributes: Option<Attributes>, induced: seq<SlotDefinition>)
    ensures FlattenClass(FlattenClass(attributes, induced), induced) == FlattenClass(attributes, induced)
  {
    if FlattenClass(attributes, induced).Some? {
      InsertSlotsIdempotent(if attributes.Some? then attributes.value else map[], induced);
    }
  }

  /** `view.allClasses()` is a JavaScript Map: `names` lists its keys in
      iteration order, each once, and every key has its own definition
      object. */
  ghost predicate WellFormedTable(names: seq<string>, classes: map<string, ClassDefinition>)
  {
    && (forall i, j :: 0 <= i < j < |names| ==> names[i] != names[j])
    && (forall n :: n in classes <==> n in names)
    && (forall a, b :: a in classes && b in classes && a != b ==> classes[a] != classes[b])
  }

  /** The flattening loop: for every class, in table order, create the
      `attributes` map if it is missing and there are induced slots, then
      write each induced slot under its name. */
  method FlattenAttributes(names: seq<string>, classes: map<string, ClassDefinition>,
                           inducedSlots: string -> seq<SlotDefinition>)
    requires WellFormedTable(names, classes)
    modifies classes.Values
    ensures forall n :: n in classes ==>
      classes[n].attributes == FlattenClass(old(classes[n].attributes), inducedSlots(n))
  {
    for i := 0 to |names|
      invariant forall k :: 0 <= k < i ==>
        classes[names[k]].attributes == FlattenClass(old(classes[names[k]].attributes), inducedSlots(names[k]))
      invariant forall k :: i <= k < |names| ==>
        classes[names[k]].attributes == old(classes[names[k]].attributes)
    {
      var className := names[i];
      var classDef := classes[className];
      var attrs := inducedSlots(className);
      if |attrs| > 0 && classDef.attributes.None? {
        classDef.attributes := Some(map[]);
      }
      ghost var start := classDef.attributes;
      for j := 0 to |attrs|
        modifies classDef
        invariant start.Some? ==> classDef.attributes == Some(InsertSlots(start.value, attrs[..j]))
        invariant start.None? ==> classDef.attributes == None
      {
        var attr := attrs[j];
        assert attrs[..j + 1] == attrs[..j] + [attr];
        classDef.attributes := Some(classDef.attributes.value[attr.name := attr]);
      }
      assert attrs[..|attrs|] == attrs;
      forall k | 0 <= k < |names| && k != i ensures classes[names[k]] != classDef {
        assert names[k] != className;
      }
    }
    forall n | n in classes
      ensures classes[n].attributes == FlattenClass(old(classes[n].attributes), inducedSlots(n))
    {
      var k :| 0 <= k < |names| && names[k] == n;
    }
  }
}
