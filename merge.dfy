/**
 * Json.DeserializeInto: a shallow merge of a JSON object into an existing object. Reflection is
 * replaced by an explicit list of the destination type's public properties; the table from
 * lower-cased name to slot is built from it as the source builds its dictionary.
 */
module Merge {
  import opened Results
  import opened Text
  import opened JsonValue
  import opened Serializer

  /** A public property of the destination's type, as reflection reports it. */
  datatype Property = Property(name: string, kind: Kind, writable: bool)

  /** The decoder applied to each member value, given the property's declared type. */
  type FieldDecoder = (Kind, Json) -> Result<Value>

  /** A JSON object's members, in document order; names may repeat. */
  type Members = seq<(string, Json)>

  predicate LowerNamesDistinct(props: seq<Property>)
  {
    forall i, j :: 0 <= i < j < |props| ==> Lower(props[i].name) != Lower(props[j].name)
  }

  /** The table maps each lower-cased property name, and nothing else, to that property's slot. */
  predicate IsTableOf(table: map<string, nat>, props: seq<Property>)
  {
    && (forall k :: k in table ==> table[k] < |props| && Lower(props[table[k]].name) == k)
    && (forall i :: 0 <= i < |props| ==> Lower(props[i].name) in table)
  }

  /** The dictionary of DeserializeInto; ToDictionary raises ArgumentException on a repeated key. */
  function BuildTable(props: seq<Property>): (r: Result<map<string, nat>>)
    ensures r.Success? <==> LowerNamesDistinct(props)
    ensures r.Failure? ==> r.error == DuplicateKey
    ensures r.Success? ==> IsTableOf(r.value, props)
    decreases |props|
  {
    if props == [] then Success(map[])
    else
      var n := |props| - 1;
      match BuildTable(props[..n])
      case Failure(e) =>
        PrefixRepeats(props);
        Failure(e)
      case Success(t) =>
        ExtendTable(props, t);
        if Lower(props[n].name) in t then Failure(DuplicateKey)
        else Success(t[Lower(props[n].name) := n])
  }

  /** A repeated name among the first properties is a repeated name of all of them. */
  lemma PrefixRepeats(props: seq<Property>)
    requires props != [] && !LowerNamesDistinct(props[..|props| - 1])
    ensures !LowerNamesDistinct(props)
  {
    var n := |props| - 1;
    var i, j :| 0 <= i < j < n && Lower(props[..n][i].name) == Lower(props[..n][j].name);
    assert props[..n][i] == props[i] && props[..n][j] == props[j];
  }

  /** Adding the last property to the table of the others: it collides exactly when its name repeats. */
  lemma ExtendTable(props: seq<Property>, t: map<string, nat>)
    requires props != [] && IsTableOf(t, props[..|props| - 1]) && LowerNamesDistinct(props[..|props| - 1])
    ensures Lower(props[|props| - 1].name) in t <==> !LowerNamesDistinct(props)
    ensures Lower(props[|props| - 1].name) !in t ==> IsTableOf(t[Lower(props[|props| - 1].name) := |props| - 1], props)
  {
    var n := |props| - 1;
    var key := Lower(props[n].name);
    assert forall i :: 0 <= i < n ==> props[..n][i] == props[i];
    if key in t {
      assert Lower(props[t[key]].name) == key;
    } else {
      forall i, j | 0 <= i < j < |props| ensures Lower(props[i].name) != Lower(props[j].name) {
        if j < n {
          assert Lower(props[..n][i].name) != Lower(props[..n][j].name);
        } else {
          assert Lower(props[..n][i].name) in t;
        }
      }
    }
  }

  /** With distinct names, a key leads to slot i exactly when it is slot i's lower-cased name. */
  lemma TableLookup(table: map<string, nat>, props: seq<Property>, key: string, i: nat)
    requires IsTableOf(table, props) && LowerNamesDistinct(props) && i < |props|
    ensures key in table && table[key] == i <==> key == Lower(props[i].name)
  {
  }

  /** The writes made so far, slot to value, and the exception that stopped the loop, if any. */
  datatype Plan = Plan(writes: map<nat, Value>, failure: Option<Error>)

  predicate SlotsInRange(table: map<string, nat>, props: seq<Property>)
  {
    forall k :: k in table ==> table[k] < |props|
  }

  /**
   * One iteration of the foreach loop. The value is decoded before SetValue is called, so a
   * decoding failure wins over a missing setter.
   */
  function Step(props: seq<Property>, table: map<string, nat>, decode: FieldDecoder,
                plan: Plan, member: (string, Json)): (r: Plan)
    requires SlotsInRange(table, props)
    ensures plan.failure.Some? || member.1.JNull? || Lower(member.0) !in table ==> r == plan
    ensures r.failure.None? ==> plan.failure.None?
    ensures forall i :: i in r.writes ==> i in plan.writes || (Lower(member.0) in table && i == table[Lower(member.0)])
    ensures forall i :: i in plan.writes && (Lower(member.0) !in table || i != table[Lower(member.0)]) ==>
      i in r.writes && r.writes[i] == plan.writes[i]
    ensures r.failure.None? && plan.failure.None? && !member.1.JNull? && Lower(member.0) in table ==>
      var slot := table[Lower(member.0)];
      props[slot].writable && slot in r.writes && decode(props[slot].kind, member.1) == Success(r.writes[slot])
  {
    if plan.failure.Some? || member.1.JNull? || Lower(member.0) !in table then plan
    else
      var slot := table[Lower(member.0)];
      match decode(props[slot].kind, member.1)
      case Failure(e) => Plan(plan.writes, Some(e))
      case Success(v) =>
        if props[slot].writable then Plan(plan.writes[slot := v], None)
        else Plan(plan.writes, Some(SetterMissing))
  }

  /** The loop over the members, as a fold from the first member to the last. */
  function PlanOf(props: seq<Property>, table: map<string, nat>, decode: FieldDecoder,
                  members: Members): (r: Plan)
    requires SlotsInRange(table, props)
    ensures forall i :: i in r.writes ==> i < |props|
    decreases |members|
  {
    if members == [] then Plan(map[], None)
    else
      var n := |members| - 1;
      Step(props, table, decode, PlanOf(props, table, decode, members[..n]), members[n])
  }

  /** The whole of DeserializeInto: the table, then EnumerateObject (which needs an object), then the loop. */
  function MergePlan(props: seq<Property>, decode: FieldDecoder, patch: Json): (r: Plan)
    ensures r.failure.None? ==> LowerNamesDistinct(props) && patch.JObject?
    ensures forall i :: i in r.writes ==> i < |props|
    ensures !LowerNamesDistinct(props) ==> r == Plan(map[], Some(DuplicateKey))
  {
    match BuildTable(props)
    case Failure(e) => Plan(map[], Some(e))
    case Success(table) =>
      if patch.JObject? then PlanOf(props, table, decode, patch.members)
      else Plan(map[], Some(InvalidOperation))
  }

  /** The destination's slots after the writes. */
  function Overlay(values: seq<Value>, writes: map<nat, Value>): seq<Value>
  {
    seq(|values|, i requires 0 <= i < |values| => if i in writes then writes[i] else values[i])
  }

  /** Writing one more slot overlays like updating that slot of the overlay. */
  lemma OverlayUpdate(values: seq<Value>, writes: map<nat, Value>, slot: nat, v: Value)
    requires slot < |values|
    ensures Overlay(values, writes[slot := v]) == Overlay(values, writes)[slot := v]
  {
  }

  /** A member value that sets property p: not JSON null, and named like p ignoring case. */
  predicate Names(member: (string, Json), p: Property)
  {
    !member.1.JNull? && Lower(member.0) == Lower(p.name)
  }

  /** Once a member has raised an exception, the later members change nothing. */
  lemma {:induction false} FailureSticks(props: seq<Property>, table: map<string, nat>,
                                         decode: FieldDecoder, members: Members, k: nat)
    requires SlotsInRange(table, props) && k <= |members|
    requires PlanOf(props, table, decode, members[..k]).failure.Some?
    ensures PlanOf(props, table, decode, members) == PlanOf(props, table, decode, members[..k])
    decreases |members|
  {
    if k < |members| {
      var n := |members| - 1;
      assert members[..n][..k] == members[..k];
      FailureSticks(props, table, decode, members[..n], k);
    } else {
      assert members[..k] == members;
    }
  }

  /** Only slots some non-null member names are written, whatever stops the loop. */
  lemma {:induction false} WritesOnlyNamedSlots(props: seq<Property>, table: map<string, nat>,
                                                decode: FieldDecoder, members: Members)
    requires IsTableOf(table, props) && LowerNamesDistinct(props)
    ensures forall i :: i in PlanOf(props, table, decode, members).writes ==>
      i < |props| && exists k :: 0 <= k < |members| && Names(members[k], props[i])
    decreases |members|
  {
    if members != [] {
      var n := |members| - 1;
      var prev := members[..n];
      WritesOnlyNamedSlots(props, table, decode, prev);
      var plan := PlanOf(props, table, decode, members);
      forall i | i in plan.writes
        ensures i < |props| && exists k :: 0 <= k < |members| && Names(members[k], props[i])
      {
        var before := PlanOf(props, table, decode, prev);
        if i in before.writes {
          var k :| 0 <= k < |prev| && Names(prev[k], props[i]);
          assert members[k] == prev[k];
        } else {
          var key := Lower(members[n].0);
          assert key in table && table[key] == i;
          TableLookup(table, props, key, i);
          assert Names(members[n], props[i]);
        }
      }
    }
  }

  /** The index of the last member that names p, if any. */
  function LastNaming(members: Members, p: Property): (r: Option<nat>)
    ensures r.Some? ==> r.value < |members| && Names(members[r.value], p)
    ensures r.Some? ==> forall k :: r.value < k < |members| ==> !Names(members[k], p)
    ensures r.None? ==> forall k :: 0 <= k < |members| ==> !Names(members[k], p)
    decreases |members|
  {
    if members == [] then None
    else if Names(members[|members| - 1], p) then Some(|members| - 1)
    else LastNaming(members[..|members| - 1], p)
  }

  /**
   * Slot i of the plan holds what the last member naming its property decodes to, and is not
   * written when no member names it.
   */
  predicate LastWins(plan: Plan, props: seq<Property>, decode: FieldDecoder, members: Members, i: nat)
    requires i < |props|
  {
    match LastNaming(members, props[i])
    case None => i !in plan.writes
    case Some(k) => i in plan.writes && decode(props[i].kind, members[k].1) == Success(plan.writes[i])
  }

  /** One more member keeps slot i holding the last naming member's value. */
  lemma LastStep(props: seq<Property>, table: map<string, nat>, decode: FieldDecoder,
                 members: Members, i: nat)
    requires IsTableOf(table, props) && LowerNamesDistinct(props) && members != [] && i < |props|
    requires PlanOf(props, table, decode, members).failure.None?
    requires LastWins(PlanOf(props, table, decode, members[..|members| - 1]), props, decode, members[..|members| - 1], i)
    ensures LastWins(PlanOf(props, table, decode, members), props, decode, members, i)
  {
    var n := |members| - 1;
    var prev := members[..n];
    var before := PlanOf(props, table, decode, prev);
    assert PlanOf(props, table, decode, members) == Step(props, table, decode, before, members[n]);
    var key := Lower(members[n].0);
    TableLookup(table, props, key, i);
    if Names(members[n], props[i]) {
      assert LastNaming(members, props[i]) == Some(n);
    } else {
      assert LastNaming(members, props[i]) == LastNaming(prev, props[i]);
      match LastNaming(prev, props[i])
      case None =>
      case Some(k) => assert members[k] == prev[k];
    }
  }

  /**
   * When no member raises an exception, a slot is written exactly when some member names it,
   * and it holds the decoded value of the last such member.
   */
  lemma {:induction false} SuccessfulPlan(props: seq<Property>, table: map<string, nat>,
                                          decode: FieldDecoder, members: Members)
    requires IsTableOf(table, props) && LowerNamesDistinct(props)
    requires PlanOf(props, table, decode, members).failure.None?
    ensures forall i :: 0 <= i < |props| ==> LastWins(PlanOf(props, table, decode, members), props, decode, members, i)
    decreases |members|
  {
    if members != [] {
      var prev := members[..|members| - 1];
      assert PlanOf(props, table, decode, prev).failure.None?;
      SuccessfulPlan(props, table, decode, prev);
      forall i | 0 <= i < |props| ensures LastWins(PlanOf(props, table, decode, members), props, decode, members, i) {
        LastStep(props, table, decode, members, i);
      }
    }
  }

  /** Members that name no property (unknown keys, null values) leave the destination as it was. */
  lemma {:induction false} IrrelevantMembers(props: seq<Property>, table: map<string, nat>,
                                             decode: FieldDecoder, members: Members)
    requires IsTableOf(table, props) && LowerNamesDistinct(props)
    requires forall k, i :: 0 <= k < |members| && 0 <= i < |props| ==> !Names(members[k], props[i])
    ensures PlanOf(props, table, decode, members) == Plan(map[], None)
    decreases |members|
  {
    if members != [] {
      var n := |members| - 1;
      IrrelevantMembers(props, table, decode, members[..n]);
      var key := Lower(members[n].0);
      if !members[n].1.JNull? && key in table {
        TableLookup(table, props, key, table[key]);
        assert Names(members[n], props[table[key]]);
      }
    }
  }

  /** Applying the same writes twice leaves the slots as applying them once. */
  lemma OverlayIdempotent(values: seq<Value>, writes: map<nat, Value>)
    ensures Overlay(Overlay(values, writes), writes) == Overlay(values, writes)
  {
  }

  /** The object DeserializeInto fills in: its type's properties and their current values, slot by slot. */
  class Target {
    const props: seq<Property>
    var values: seq<Value>

    ghost predicate Valid()
      reads this
    {
      |values| == |props|
    }

    constructor (props: seq<Property>, values: seq<Value>)
      requires |values| == |props|
      ensures Valid() && this.props == props && this.values == values
    {
      this.props := props;
      this.values := values;
    }
  }

  /**
   * Json.DeserializeInto: overwrites in place each property some non-null member names
   * (ignoring case), decoding the member with `decode`, and returns the same destination. An
   * exception leaves the writes made before it in place.
   */
  method DeserializeInto(json: Json, destination: Target, decode: FieldDecoder) returns (r: Result<Target>)
    requires destination.Valid()
    modifies destination
    ensures destination.Valid()
    ensures var plan := MergePlan(destination.props, decode, json);
      && destination.values == Overlay(old(destination.values), plan.writes)
      && r == if plan.failure.None? then Success(destination) else Failure(plan.failure.value)
  {
    var props := destination.props;
    var built := BuildTable(props);
    if built.Failure? {
      assert Overlay(destination.values, map[]) == destination.values;
      return Failure(built.error);
    }
    var table := built.value;
    if !json.JObject? {
      assert Overlay(destination.values, map[]) == destination.values;
      return Failure(InvalidOperation);
    }
    var members := json.members;
    ghost var initial := destination.values;
    assert Overlay(initial, map[]) == initial;
    var i := 0;
    while i < |members|
      invariant 0 <= i <= |members|
      invariant destination.Valid() && destination.props == props
      invariant PlanOf(props, table, decode, members[..i]).failure.None?
      invariant destination.values == Overlay(initial, PlanOf(props, table, decode, members[..i]).writes)
    {
      var (name, value) := members[i];
      ghost var before := PlanOf(props, table, decode, members[..i]);
      assert members[..i + 1][..i] == members[..i];
      assert PlanOf(props, table, decode, members[..i + 1]) == Step(props, table, decode, before, members[i]);
      if !value.JNull? && Lower(name) in table {
        var slot := table[Lower(name)];
        var decoded := decode(props[slot].kind, value);
        if decoded.Failure? {
          FailureSticks(props, table, decode, members, i + 1);
          return Failure(decoded.error);
        }
        if !props[slot].writable {
          FailureSticks(props, table, decode, members, i + 1);
          return Failure(SetterMissing);
        }
        OverlayUpdate(initial, before.writes, slot, decoded.value);
        destination.values := destination.values[slot := decoded.value];
      }
      i := i + 1;
    }
    assert members[..i] == members;
    return Success(destination);
  }

  /**
   * What DeserializeInto does, stated on its plan: a repeated lower-cased property name or a
   * patch that is not an object raises before anything is written; otherwise only slots some
   * non-null member names are written, and without an exception every such slot holds the
   * decoded value of the last member naming it.
   */
  lemma MergePlanSpec(props: seq<Property>, decode: FieldDecoder, patch: Json)
    ensures !LowerNamesDistinct(props) ==> MergePlan(props, decode, patch) == Plan(map[], Some(DuplicateKey))
    ensures LowerNamesDistinct(props) && !patch.JObject? ==>
      MergePlan(props, decode, patch) == Plan(map[], Some(InvalidOperation))
    ensures patch.JObject? ==> forall i :: i in MergePlan(props, decode, patch).writes ==>
      i < |props| && exists k :: 0 <= k < |patch.members| && Names(patch.members[k], props[i])
    ensures patch.JObject? && MergePlan(props, decode, patch).failure.None? ==>
      forall i :: 0 <= i < |props| ==> LastWins(MergePlan(props, decode, patch), props, decode, patch.members, i)
  {
    var built := BuildTable(props);
    if built.Success? && patch.JObject? {
      WritesOnlyNamedSlots(props, built.value, decode, patch.members);
      if PlanOf(props, built.value, decode, patch.members).failure.None? {
        SuccessfulPlan(props, built.value, decode, patch.members);
      }
    }
  }

  /** A patch whose members name no property changes nothing and raises nothing. */
  lemma MergeIgnoresUnknownAndNull(props: seq<Property>, decode: FieldDecoder, patch: Json)
    requires LowerNamesDistinct(props) && patch.JObject?
    requires forall k, i :: 0 <= k < |patch.members| && 0 <= i < |props| ==> !Names(patch.members[k], props[i])
    ensures MergePlan(props, decode, patch) == Plan(map[], None)
  {
    IrrelevantMembers(props, BuildTable(props).value, decode, patch.members);
  }

  /**
   * The plan depends on the patch alone, not on the destination's values, so merging the same
   * patch into the result of merging it gives that result again.
   */
  lemma MergeIdempotent(props: seq<Property>, decode: FieldDecoder, patch: Json, values: seq<Value>)
    ensures var writes := MergePlan(props, decode, patch).writes;
      Overlay(Overlay(values, writes), writes) == Overlay(values, writes)
  {
    OverlayIdempotent(values, MergePlan(props, decode, patch).writes);
  }

  /** System.IO.FileAccess, in ascending order of value. */
  const FileAccess: seq<string> := ["Read", "Write", "ReadWrite"]

  /** A destination with one FileAccess? property named OptEnum, as on FooType. */
  const OptEnumOnly: seq<Property> := [Property("OptEnum", EnumKind(FileAccess, true), true)]

  lemma OptEnumTable()
    ensures BuildTable(OptEnumOnly) == Success(map["optenum" := 0])
  {
    assert Lower("OptEnum") == "optenum";
  }

  /**
   * As written: a patch naming a FileAccess? property with an unknown name raises JsonException,
   * because each member goes through Json.Deserialize(string, Type), which refuses the null the
   * enum converter returns.
   */
  lemma UnknownEnumAbortsMerge(engine: Engine)
    ensures var patch := JObject([("optEnum", JString("unknown"))]);
      MergePlan(OptEnumOnly, (k, j) => DeserializeDynamic(engine, k, j), patch) == Plan(map[], Some(JsonError))
  {
    OptEnumTable();
    assert Lower("optEnum") == "optenum";
    Text.TrimIdentity("unknown", Text.IsWhiteSpace);
    forall j | 0 <= j < |FileAccess| ensures !EqualsIgnoreCase(FileAccess[j], "unknown") {
      assert |Lower(FileAccess[j])| != |Lower("unknown")|;
    }
    DynamicEnumRejectsUnknownNames(engine, FileAccess, "unknown");
    var patch := JObject([("optEnum", JString("unknown"))]);
    assert patch.members[..0] == [];
  }

  /** Corrected: with the lenient decoder the same patch stores null in the slot and raises nothing. */
  lemma UnknownEnumMergesAsNull(engine: Engine)
    ensures var patch := JObject([("optEnum", JString("unknown"))]);
      MergePlan(OptEnumOnly, (k, j) => DeserializeFieldLenient(engine, k, j), patch) == Plan(map[0 := Null], None)
  {
    OptEnumTable();
    assert Lower("optEnum") == "optenum";
    Text.TrimIdentity("unknown", Text.IsWhiteSpace);
    forall j | 0 <= j < |FileAccess| ensures !EqualsIgnoreCase(FileAccess[j], "unknown") {
      assert |Lower(FileAccess[j])| != |Lower("unknown")|;
    }
    LenientEnumAcceptsEveryName(engine, FileAccess, "unknown");
    var patch := JObject([("optEnum", JString("unknown"))]);
    assert patch.members[..0] == [];
  }
}
