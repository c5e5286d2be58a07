/**
 * What the two struct graphs are about: a struct that contains itself has no
 * value, and a recursive one has no value without empty collections.
 */
module StructValues {
  import opened Util
  import opened Algorithms
  import opened DeclarationTypeChecker

  /** Values that are finite. Arrays, mappings and the like are collections of elements. */
  datatype Value = Plain | Record(fields: seq<Value>) | Collection(elements: seq<Value>)

  /**
   * `v` is a value of type `t`. Arrays of fixed size have elements; other
   * collections may be empty, unless `filled` asks that none is. Functions are
   * plain values, whatever types they mention.
   */
  ghost predicate HasType(members: Members, v: Value, t: TypeName, filled: bool)
    decreases v
  {
    match t
    case Elementary => v.Plain?
    case UserDefinedOther => v.Plain?
    case FunctionTypeName(_, _) => v.Plain?
    case UserDefinedStruct(id) => v.Record? && HaveTypes(members, v, members(id), filled)
    case ArrayTypeName(baseType, fixedSize) =>
      && v.Collection? && (fixedSize || filled ==> v.elements != [])
      && (forall i :: 0 <= i < |v.elements| ==> HasType(members, v.elements[i], baseType, filled))
    case TvmStack(element) =>
      && v.Collection? && (filled ==> v.elements != [])
      && (forall i :: 0 <= i < |v.elements| ==> HasType(members, v.elements[i], element, filled))
    case Mapping(keyType, valueType) =>
      && v.Collection? && (filled ==> v.elements != [])
      && (forall i :: 0 <= i < |v.elements| ==>
            v.elements[i].Record? && HaveTypes(members, v.elements[i], [keyType, valueType], filled))
    case Optional(types) =>
      && v.Collection? && (filled ==> v.elements != [])
      && (forall i :: 0 <= i < |v.elements| ==>
            v.elements[i].Record? && HaveTypes(members, v.elements[i], types, filled))
    case TvmVector(types) =>
      && v.Collection? && (filled ==> v.elements != [])
      && (forall i :: 0 <= i < |v.elements| ==>
            v.elements[i].Record? && HaveTypes(members, v.elements[i], types, filled))
  }

  /** The fields of a record have the given types. */
  ghost predicate HaveTypes(members: Members, v: Value, ts: seq<TypeName>, filled: bool)
    requires v.Record?
    decreases v, 0
  {
    |v.fields| == |ts| && forall i :: 0 <= i < |ts| ==> HasType(members, v.fields[i], ts[i], filled)
  }

  /** The structs of which a value of the type holds a value: by value only, or in whatever way. */
  function Holds(t: TypeName, filled: bool): seq<StructId> {
    if filled then Mentions(t) else ContainedStruct(t)
  }

  function HoldsGraph(members: Members, filled: bool): StructId -> seq<StructId> {
    if filled then MentionGraph(members) else ContainGraph(members)
  }

  lemma HeldSomewhere(members: Members, s: StructId, t: StructId, filled: bool) returns (k: nat)
    requires t in HoldsGraph(members, filled)(s)
    ensures k < |members(s)| && t in Holds(members(s)[k], filled)
  {
    if filled {
      k := MentionedSomewhere(members(s), t);
    } else {
      k := ContainedSomewhere(members(s), t);
    }
  }

  lemma {:induction false} MentionedSomewhere(ts: seq<TypeName>, s: StructId) returns (k: nat)
    requires s in MentionsOfAll(ts)
    ensures k < |ts| && s in Mentions(ts[k])
    decreases |ts|
  {
    if s in Mentions(ts[0]) {
      k := 0;
    } else {
      var j := MentionedSomewhere(ts[1..], s);
      k := j + 1;
    }
  }

  lemma HeldByMember(members: Members, s: StructId, k: nat, t: StructId, filled: bool)
    requires k < |members(s)| && t in Holds(members(s)[k], filled)
    ensures t in HoldsGraph(members, filled)(s)
  {
    if filled {
      MentionsAt(members(s), k, t);
    } else {
      ContainedAt(members(s), k, t);
    }
  }

  /** From a struct held by a value that exists, no cycle can be reached. */
  lemma {:induction false} HeldHasNoCycle(members: Members, v: Value, t: TypeName, s: StructId, filled: bool)
    requires HasType(members, v, t, filled) && s in Holds(t, filled)
    ensures !CycleReachable(HoldsGraph(members, filled), s)
    decreases v
  {
    hide CycleReachable, HoldsGraph;
    match t
    case UserDefinedStruct(id) =>
      CycleStep(HoldsGraph(members, filled), s);
      if CycleReachable(HoldsGraph(members, filled), s) {
        var u :| u in HoldsGraph(members, filled)(s) && CycleReachable(HoldsGraph(members, filled), u);
        var k := HeldSomewhere(members, s, u, filled);
        HeldHasNoCycle(members, v.fields[k], members(s)[k], u, filled);
      }
    case ArrayTypeName(baseType, _) => HeldHasNoCycle(members, v.elements[0], baseType, s, filled);
    case TvmStack(element) => HeldHasNoCycle(members, v.elements[0], element, s, filled);
    case Mapping(keyType, valueType) =>
      MentionsOfPair(keyType, valueType);
      FieldsHaveNoCycle(members, v.elements[0], [keyType, valueType], s, filled);
    case Optional(types) => FieldsHaveNoCycle(members, v.elements[0], types, s, filled);
    case TvmVector(types) => FieldsHaveNoCycle(members, v.elements[0], types, s, filled);
    case _ =>
  }

  lemma MentionsOfPair(t: TypeName, u: TypeName)
    ensures MentionsOfAll([t, u]) == Mentions(t) + Mentions(u)
  {
    assert [t, u][1..] == [u] && [u][1..] == [];
    assert MentionsOfAll([u]) == Mentions(u) + MentionsOfAll([]);
  }

  lemma {:induction false} FieldsHaveNoCycle(members: Members, v: Value, ts: seq<TypeName>, s: StructId, filled: bool)
    requires v.Record? && HaveTypes(members, v, ts, filled) && filled && s in MentionsOfAll(ts)
    ensures !CycleReachable(HoldsGraph(members, filled), s)
    decreases v, 0
  {
    hide CycleReachable, HoldsGraph;
    var k := MentionedSomewhere(ts, s);
    HeldHasNoCycle(members, v.fields[k], ts[k], s, filled);
  }

  // ------------------------------------------------------------ building values

  function SizeOf(t: TypeName): nat {
    match t
    case ArrayTypeName(baseType, _) => 1 + SizeOf(baseType)
    case TvmStack(element) => 1 + SizeOf(element)
    case Mapping(keyType, valueType) => 3 + SizeOf(keyType) + SizeOf(valueType)
    case Optional(types) => 1 + SizeOfAll(types)
    case TvmVector(types) => 1 + SizeOfAll(types)
    case _ => 1
  }

  function SizeOfAll(ts: seq<TypeName>): nat {
    if ts == [] then 0 else 1 + SizeOf(ts[0]) + SizeOfAll(ts[1..])
  }

  /** Structs held by `t` come next after `stack`, and no cycle can be reached from them. */
  ghost predicate MayHold(members: Members, t: TypeName, stack: seq<StructId>, universe: set<StructId>, filled: bool) {
    forall s :: s in Holds(t, filled) ==>
      s in universe && !CycleReachable(HoldsGraph(members, filled), s)
      && (stack != [] ==> s in HoldsGraph(members, filled)(stack[|stack| - 1]))
  }

  ghost predicate IsClosed(members: Members, universe: set<StructId>, filled: bool) {
    forall s, t :: s in universe && t in HoldsGraph(members, filled)(s) ==> t in universe
  }

  /** `stack` lists the structs being built, outermost first. */
  ghost predicate IsStack(members: Members, stack: seq<StructId>, universe: set<StructId>, filled: bool) {
    IsWalk(HoldsGraph(members, filled), stack) && forall s :: s in stack ==> s in universe
  }

  function ElementsOf(stack: seq<StructId>): set<StructId> {
    set s | s in stack
  }

  lemma {:induction false} BuildValue(members: Members, t: TypeName, stack: seq<StructId>, universe: set<StructId>,
                                      filled: bool)
    returns (v: Value)
    requires IsClosed(members, universe, filled) && IsStack(members, stack, universe, filled)
    requires MayHold(members, t, stack, universe, filled)
    ensures HasType(members, v, t, filled)
    decreases universe - ElementsOf(stack), SizeOf(t)
  {
    hide CycleReachable, HoldsGraph, IsClosed, IsStack;
    match t
    case UserDefinedStruct(id) => v := BuildStruct(members, id, stack, universe, filled);
    case ArrayTypeName(baseType, fixedSize) =>
      if fixedSize || filled {
        assert Holds(t, filled) == Holds(baseType, filled);
        var e := BuildValue(members, baseType, stack, universe, filled);
        v := Collection([e]);
      } else {
        v := Collection([]);
      }
    case TvmStack(element) =>
      v := Collection([]);
      if filled {
        assert Holds(t, filled) == Holds(element, filled);
        var e := BuildValue(members, element, stack, universe, filled);
        v := Collection([e]);
      }
    case Mapping(keyType, valueType) =>
      v := Collection([]);
      if filled {
        MentionsOfPair(keyType, valueType);
        SizeOfPair(keyType, valueType);
        FieldsMayBeHeld(members, t, [keyType, valueType], stack, universe);
        var fields := BuildFields(members, [keyType, valueType], stack, universe, filled);
        v := Collection([Record(fields)]);
      }
    case Optional(types) =>
      v := Collection([]);
      if filled {
        FieldsMayBeHeld(members, t, types, stack, universe);
        var fields := BuildFields(members, types, stack, universe, filled);
        v := Collection([Record(fields)]);
      }
    case TvmVector(types) =>
      v := Collection([]);
      if filled {
        FieldsMayBeHeld(members, t, types, stack, universe);
        var fields := BuildFields(members, types, stack, universe, filled);
        v := Collection([Record(fields)]);
      }
    case _ => v := Plain;
  }

  lemma SizeOfPair(t: TypeName, u: TypeName)
    ensures SizeOfAll([t, u]) == 2 + SizeOf(t) + SizeOf(u)
  {
    assert [t, u][1..] == [u] && [u][1..] == [];
    assert SizeOfAll([u]) == 1 + SizeOf(u) + SizeOfAll([]);
  }

  lemma FieldsMayBeHeld(members: Members, t: TypeName, ts: seq<TypeName>, stack: seq<StructId>, universe: set<StructId>)
    requires MayHold(members, t, stack, universe, true) && Mentions(t) == MentionsOfAll(ts)
    ensures forall i :: 0 <= i < |ts| ==> MayHold(members, ts[i], stack, universe, true)
  {
    forall i, s | 0 <= i < |ts| && s in Mentions(ts[i]) ensures s in Holds(t, true) {
      MentionsAt(ts, i, s);
    }
  }

  lemma {:induction false} BuildFields(members: Members, ts: seq<TypeName>, stack: seq<StructId>,
                                       universe: set<StructId>, filled: bool)
    returns (fields: seq<Value>)
    requires IsClosed(members, universe, filled) && IsStack(members, stack, universe, filled)
    requires forall i :: 0 <= i < |ts| ==> MayHold(members, ts[i], stack, universe, filled)
    ensures HaveTypes(members, Record(fields), ts, filled)
    decreases universe - ElementsOf(stack), SizeOfAll(ts)
  {
    hide MayHold, IsClosed, IsStack;
    fields := [];
    if ts != [] {
      var first := BuildValue(members, ts[0], stack, universe, filled);
      var rest := BuildFields(members, ts[1..], stack, universe, filled);
      fields := [first] + rest;
      forall i | 0 <= i < |ts| ensures HasType(members, fields[i], ts[i], filled) {
        if i > 0 {
          assert HasType(members, rest[i - 1], ts[1..][i - 1], filled);
        }
      }
    }
  }

  lemma {:induction false} BuildStruct(members: Members, s: StructId, stack: seq<StructId>, universe: set<StructId>,
                                       filled: bool)
    returns (v: Value)
    requires IsClosed(members, universe, filled) && IsStack(members, stack, universe, filled)
    requires MayHold(members, UserDefinedStruct(s), stack, universe, filled)
    ensures HasType(members, v, UserDefinedStruct(s), filled)
    decreases universe - ElementsOf(stack), 0
  {
    hide CycleReachable, HoldsGraph;
    var next, longer := HoldsGraph(members, filled), stack + [s];
    assert s in Holds(UserDefinedStruct(s), filled);
    if s in stack {
      MeetingCloses(next, stack, s);
    }
    assert s in longer && forall u :: u in stack ==> u in longer;
    assert s in universe - ElementsOf(stack) && s !in universe - ElementsOf(longer);
    assert universe - ElementsOf(longer) < universe - ElementsOf(stack);
    CycleStep(next, s);
    forall i | 0 <= i < |members(s)| ensures MayHold(members, members(s)[i], longer, universe, filled) {
      forall u | u in Holds(members(s)[i], filled) ensures u in next(s) {
        HeldByMember(members, s, i, u, filled);
      }
    }
    var fields := BuildFields(members, members(s), longer, universe, filled);
    v := Record(fields);
  }

  /**
   * A struct has a value if and only if no cycle of containment is reachable
   * from it, and a value in which no collection is empty if and only if no
   * cycle of mentions is.
   */
  lemma HasValueUnlessCyclic(members: Members, s: StructId, universe: set<StructId>, filled: bool)
    requires IsClosed(members, universe, filled) && s in universe
    ensures HasValue(members, s, filled) <==> !CycleReachable(HoldsGraph(members, filled), s)
  {
    hide CycleReachable, HoldsGraph;
    assert s in Holds(UserDefinedStruct(s), filled);
    if v :| HasType(members, v, UserDefinedStruct(s), filled) {
      HeldHasNoCycle(members, v, UserDefinedStruct(s), s, filled);
    }
    if !CycleReachable(HoldsGraph(members, filled), s) {
      var v := BuildValue(members, UserDefinedStruct(s), [], universe, filled);
    }
  }

  ghost predicate HasValue(members: Members, s: StructId, filled: bool) {
    exists v :: HasType(members, v, UserDefinedStruct(s), filled)
  }

  /**
   * Checks structs in any order. What is accepted has values, and is flagged
   * exactly if none of them has all its collections filled; what is rejected
   * for containing itself has no value.
   */
  method CheckStructs(members: Members, order: seq<StructId>, ghost universe: set<StructId>)
      returns (fatal: Option<Fatal>, recursive: map<StructId, bool>)
    requires forall s, t :: s in universe && t in MentionGraph(members)(s) ==> t in universe
    requires forall s :: s in order ==> s in universe
    ensures fatal.None? ==> forall s :: s in order ==>
              s in recursive && HasValue(members, s, false) && (recursive[s] <==> !HasValue(members, s, true))
    ensures fatal.Some? && fatal.value.RecursiveStructDefinition? ==> !HasValue(members, fatal.value.struct, false)
  {
    var checker := new Checker(members);
    fatal := checker.Check(order, universe);
    recursive := checker.recursive;
    hide HasType, CycleReachable;
    forall s, t | s in universe && t in ContainGraph(members)(s) ensures t in universe {
      ContainedInStruct(members, s, t);
    }
    assert IsClosed(members, universe, false) && IsClosed(members, universe, true);
    forall s | s in order
      ensures HasValue(members, s, false) <==> !CycleReachable(ContainGraph(members), s)
      ensures HasValue(members, s, true) <==> !CycleReachable(MentionGraph(members), s)
    {
      HasValueUnlessCyclic(members, s, universe, false);
      HasValueUnlessCyclic(members, s, universe, true);
    }
    if fatal.Some? && fatal.value.RecursiveStructDefinition? {
      CyclicHasNoValue(members, fatal.value.struct, false);
    }
  }

  lemma CyclicHasNoValue(members: Members, s: StructId, filled: bool)
    requires CycleReachable(HoldsGraph(members, filled), s)
    ensures !HasValue(members, s, filled)
  {
    hide CycleReachable, HoldsGraph;
    assert s in Holds(UserDefinedStruct(s), filled);
    if v :| HasType(members, v, UserDefinedStruct(s), filled) {
      HeldHasNoCycle(members, v, UserDefinedStruct(s), s, filled);
    }
  }
}
