/**
 * The declaration type checker, as far as recursive structs are concerned:
 * the `recursive` annotation, computed while structs are still being visited,
 * and the rejection of structs that contain themselves by value.
 */
module DeclarationTypeChecker {
  import opened Util
  import opened Algorithms

  type StructId = nat

  datatype TypeName =
    | Elementary
    | UserDefinedStruct(id: StructId)
    | UserDefinedOther  // enums, contracts and user-defined value types
    | ArrayTypeName(baseType: TypeName, fixedSize: bool)
    | Mapping(keyType: TypeName, valueType: TypeName)
    | Optional(types: seq<TypeName>)
    | TvmVector(types: seq<TypeName>)
    | TvmStack(element: TypeName)
    | FunctionTypeName(parameterTypes: seq<TypeName>, returnTypes: seq<TypeName>)

  /** Fatal errors end the analysis. */
  datatype Fatal = RecursiveStructDefinition(struct: StructId) | ValidatorExhausted(struct: StructId)

  type Members = StructId -> seq<TypeName>

  // ---------------------------------------------------------- the two graphs

  /** The structs a type name mentions, outside function types. */
  function Mentions(t: TypeName): seq<StructId> {
    match t
    case Elementary => []
    case UserDefinedStruct(id) => [id]
    case UserDefinedOther => []
    case ArrayTypeName(baseType, _) => Mentions(baseType)
    case Mapping(keyType, valueType) => Mentions(keyType) + Mentions(valueType)
    case Optional(types) => MentionsOfAll(types)
    case TvmVector(types) => MentionsOfAll(types)
    case TvmStack(element) => Mentions(element)
    case FunctionTypeName(_, _) => []
  }

  function MentionsOfAll(ts: seq<TypeName>): seq<StructId> {
    if ts == [] then [] else Mentions(ts[0]) + MentionsOfAll(ts[1..])
  }

  /** The graph of member types. */
  function MentionGraph(members: Members): StructId -> seq<StructId> {
    (s: StructId) => MentionsOfAll(members(s))
  }

  /** The struct a value of the type contains, if any: only arrays of fixed size are looked through. */
  function ContainedStruct(t: TypeName): seq<StructId> {
    match t
    case UserDefinedStruct(id) => [id]
    case ArrayTypeName(baseType, fixedSize) => if fixedSize then ContainedStruct(baseType) else []
    case _ => []
  }

  function ContainedStructs(ts: seq<TypeName>): seq<StructId> {
    if ts == [] then [] else ContainedStruct(ts[0]) + ContainedStructs(ts[1..])
  }

  /** The graph of members by value. */
  function ContainGraph(members: Members): StructId -> seq<StructId> {
    (s: StructId) => ContainedStructs(members(s))
  }

  /** Members that have no type yet are skipped. */
  function TypedMembers(members: Members, typed: map<StructId, nat>, s: StructId): seq<TypeName> {
    if s in typed && typed[s] <= |members(s)| then members(s)[..typed[s]] else []
  }

  function TypedContainGraph(members: Members, typed: map<StructId, nat>): StructId -> seq<StructId> {
    (s: StructId) => ContainedStructs(TypedMembers(members, typed, s))
  }

  lemma {:induction false} ContainedIsMentioned(t: TypeName, s: StructId)
    requires s in ContainedStruct(t)
    ensures s in Mentions(t)
  {
    match t
    case ArrayTypeName(baseType, fixedSize) => ContainedIsMentioned(baseType, s);
    case _ =>
  }

  lemma {:induction false} MentionsAt(ts: seq<TypeName>, k: nat, s: StructId)
    requires k < |ts| && s in Mentions(ts[k])
    ensures s in MentionsOfAll(ts)
    decreases |ts|
  {
    if k > 0 {
      MentionsAt(ts[1..], k - 1, s);
    }
  }

  lemma {:induction false} ContainedSomewhere(ts: seq<TypeName>, s: StructId) returns (k: nat)
    requires s in ContainedStructs(ts)
    ensures k < |ts| && s in ContainedStruct(ts[k])
    decreases |ts|
  {
    if s in ContainedStruct(ts[0]) {
      k := 0;
    } else {
      var j := ContainedSomewhere(ts[1..], s);
      k := j + 1;
    }
  }

  lemma {:induction false} ContainedAt(ts: seq<TypeName>, k: nat, s: StructId)
    requires k < |ts| && s in ContainedStruct(ts[k])
    ensures s in ContainedStructs(ts)
    decreases |ts|
  {
    if k > 0 {
      ContainedAt(ts[1..], k - 1, s);
    }
  }

  lemma ContainedInStruct(members: Members, s: StructId, t: StructId)
    requires t in ContainGraph(members)(s)
    ensures t in MentionGraph(members)(s)
  {
    var k := ContainedSomewhere(members(s), t);
    ContainedIsMentioned(members(s)[k], t);
    MentionsAt(members(s), k, t);
  }

  lemma TypedIsContained(members: Members, typed: map<StructId, nat>, s: StructId, t: StructId)
    requires t in TypedContainGraph(members, typed)(s)
    ensures t in ContainGraph(members)(s)
  {
    var ts := TypedMembers(members, typed, s);
    var k := ContainedSomewhere(ts, t);
    assert ts[k] == members(s)[k];
    ContainedAt(members(s), k, t);
  }

  /** Walks of a subgraph are walks. */
  lemma SubgraphLeads(sub: StructId -> seq<StructId>, next: StructId -> seq<StructId>, s: StructId, t: StructId)
    requires forall u, v :: v in sub(u) ==> v in next(u)
    requires Leads(sub, s, t)
    ensures Leads(next, s, t)
  {
    var walk :| WalkTo(sub, walk, s, t);
    assert IsWalk(next, walk);
    assert WalkTo(next, walk, s, t);
  }

  lemma SubgraphCycle(sub: StructId -> seq<StructId>, next: StructId -> seq<StructId>, s: StructId)
    requires forall u, v :: v in sub(u) ==> v in next(u)
    requires CycleReachable(sub, s)
    ensures CycleReachable(next, s)
  {
    var u: StructId :| Leads(sub, s, u) && OnCycle(sub, u);
    var w: StructId :| w in sub(u) && Leads(sub, w, u);
    SubgraphLeads(sub, next, s, u);
    SubgraphLeads(sub, next, w, u);
    assert OnCycle(next, u);
  }

  // --------------------------------------------- no cycle by value among a set

  ghost predicate IsCycle(next: StructId -> seq<StructId>, walk: seq<StructId>) {
    |walk| >= 2 && IsWalk(next, walk) && walk[0] == walk[|walk| - 1]
  }

  ghost predicate Within(walk: seq<StructId>, s: set<StructId>) {
    forall i :: 0 <= i < |walk| ==> walk[i] in s
  }

  ghost predicate NoCycleWithin(next: StructId -> seq<StructId>, s: set<StructId>) {
    forall walk :: IsCycle(next, walk) ==> !Within(walk, s)
  }

  /** Each vertex of a cycle is on a cycle. */
  lemma CycleIsReachable(next: StructId -> seq<StructId>, walk: seq<StructId>, i: nat)
    requires IsCycle(next, walk) && i < |walk|
    ensures CycleReachable(next, walk[i])
  {
    assert walk[0 + 1] in next(walk[0]);
    WalkLeads(next, walk, 1, |walk| - 1);
    assert OnCycle(next, walk[0]);
    WalkLeads(next, walk, i, |walk| - 1);
  }

  /** A finished struct that is not rejected closes no cycle among the finished ones. */
  lemma NoCycleExtends(members: Members, typed: map<StructId, nat>, done: set<StructId>, s: StructId)
    requires NoCycleWithin(ContainGraph(members), done)
    requires forall u :: u in done || u == s ==> u in typed && typed[u] == |members(u)|
    requires !CycleReachable(TypedContainGraph(members, typed), s)
    ensures NoCycleWithin(ContainGraph(members), done + {s})
  {
    var next, sub := ContainGraph(members), TypedContainGraph(members, typed);
    forall walk | IsCycle(next, walk) ensures !Within(walk, done + {s}) {
      if Within(walk, done + {s}) {
        assert !Within(walk, done);
        var i :| 0 <= i < |walk| && walk[i] !in done;
        assert walk[i] == s;
        forall j | 0 <= j < |walk| - 1 ensures walk[j + 1] in sub(walk[j]) {
          assert walk[j] in done + {s};
          assert TypedMembers(members, typed, walk[j]) == members(walk[j]);
          assert walk[j + 1] in next(walk[j]);
        }
        CycleIsReachable(sub, walk, i);
      }
    }
  }

  /** In a closed set without cycles, no cycle is reachable. */
  lemma ClosedHasNoCycle(next: StructId -> seq<StructId>, done: set<StructId>, s: StructId)
    requires NoCycleWithin(next, done) && s in done
    requires forall u, v :: u in done && v in next(u) ==> v in done
    ensures !CycleReachable(next, s)
  {
    if CycleReachable(next, s) {
      var u: StructId :| Leads(next, s, u) && OnCycle(next, u);
      var walk :| WalkTo(next, walk, s, u);
      WalkStaysIn(next, walk, done);
      var w: StructId :| w in next(u) && Leads(next, w, u);
      var back :| WalkTo(next, back, w, u);
      var cycle := [u] + back;
      forall i | 0 <= i < |cycle| - 1 ensures cycle[i + 1] in next(cycle[i]) {
        if i > 0 {
          assert back[i - 1 + 1] in next(back[i - 1]);
        }
      }
      assert IsCycle(next, cycle);
      forall i | 0 <= i < |cycle| ensures cycle[i] in done {
        WalkLeads(next, cycle, 0, i);
        var part :| WalkTo(next, part, u, cycle[i]);
        WalkStaysIn(next, part, done);
      }
      assert Within(cycle, done);
    }
  }

  // ------------------------------------------------------------- the checker

  const DEPTH_LIMIT: nat := 256

  /** Every flag set so far is right, also on structs that are still being visited. */
  ghost predicate FlagsExact(members: Members, recursive: map<StructId, bool>) {
    forall s :: s in recursive ==> (recursive[s] <==> CycleReachable(MentionGraph(members), s))
  }

  /** The structs in `done` have been visited completely. */
  ghost predicate Completed(members: Members, typed: map<StructId, nat>, done: set<StructId>, started: set<StructId>) {
    && (forall s :: s in done ==> s in typed && typed[s] == |members(s)|)
    && (forall s, t :: s in done && t in MentionGraph(members)(s) ==> t in started)
    && NoCycleWithin(ContainGraph(members), done)
  }

  /** What holds while the structs in `stack` are being visited, outermost first. */
  ghost predicate IsState(members: Members, recursive: map<StructId, bool>, typed: map<StructId, nat>,
                          seen: set<StructId>, stack: seq<StructId>)
  {
    && (forall s :: s in seen <==> s in stack)
    && Distinct(stack) && IsWalk(MentionGraph(members), stack)
    && FlagsExact(members, recursive)
    && Completed(members, typed, recursive.Keys - seen, recursive.Keys + seen)
  }

  lemma StateStart(members: Members)
    ensures IsState(members, map[], map[], {}, [])
  {
    forall walk | IsCycle(ContainGraph(members), walk) ensures !Within(walk, {}) {
      assert walk[0] !in {};
    }
  }

  /** Meeting a struct that is being visited. */
  lemma StateFlag(members: Members, recursive: map<StructId, bool>, typed: map<StructId, nat>,
                  seen: set<StructId>, stack: seq<StructId>, s: StructId)
    requires IsState(members, recursive, typed, seen, stack) && s in seen
    requires stack != [] && s in MentionGraph(members)(stack[|stack| - 1])
    ensures CycleReachable(MentionGraph(members), s)
    ensures IsState(members, recursive[s := true], typed, seen, stack)
  {
    MeetingCloses(MentionGraph(members), stack, s);
    hide CycleReachable, IsWalk, MentionGraph, NoCycleWithin;
    assert recursive[s := true].Keys - seen == recursive.Keys - seen;
    assert recursive[s := true].Keys + seen == recursive.Keys + seen;
  }

  lemma CompletedMore(members: Members, typed: map<StructId, nat>, done: set<StructId>, started: set<StructId>,
                      more: set<StructId>)
    requires Completed(members, typed, done, started) && started <= more
    ensures Completed(members, typed, done, more)
  {
    hide NoCycleWithin, MentionGraph;
  }

  lemma CompletedOne(members: Members, typed: map<StructId, nat>, done: set<StructId>, started: set<StructId>,
                     s: StructId)
    requires Completed(members, typed, done, started)
    requires s in typed && typed[s] == |members(s)| && forall t :: t in MentionGraph(members)(s) ==> t in started
    requires !CycleReachable(TypedContainGraph(members, typed), s)
    ensures Completed(members, typed, done + {s}, started)
  {
    hide NoCycleWithin, CycleReachable, MentionGraph, TypedContainGraph;
    NoCycleExtends(members, typed, done, s);
  }

  lemma StatePush(members: Members, recursive: map<StructId, bool>, typed: map<StructId, nat>,
                  seen: set<StructId>, stack: seq<StructId>, s: StructId)
    requires IsState(members, recursive, typed, seen, stack) && s !in seen && s !in recursive
    requires stack != [] ==> s in MentionGraph(members)(stack[|stack| - 1])
    ensures IsState(members, recursive, typed, seen + {s}, stack + [s])
  {
    PushedWalk(MentionGraph(members), stack, s);
    CompletedMore(members, typed, recursive.Keys - seen, recursive.Keys + seen, recursive.Keys + (seen + {s}));
    hide FlagsExact, Completed, IsWalk, Distinct, MentionGraph;
    assert recursive.Keys - (seen + {s}) == recursive.Keys - seen;
  }

  lemma StateTyped(members: Members, recursive: map<StructId, bool>, typed: map<StructId, nat>,
                   seen: set<StructId>, stack: seq<StructId>, s: StructId, count: nat)
    requires IsState(members, recursive, typed, seen, stack) && s in seen
    ensures IsState(members, recursive, typed[s := count], seen, stack)
  {
    hide CycleReachable, IsWalk, Distinct, MentionGraph, NoCycleWithin;
  }

  lemma FlagsOne(members: Members, recursive: map<StructId, bool>, s: StructId, later: map<StructId, bool>)
    requires FlagsExact(members, recursive)
    requires later
             == (if s in recursive then recursive else recursive[s := AnyRecursive(members, MentionGraph(members)(s))])
    ensures FlagsExact(members, later) && s in later && (later[s] <==> CycleReachable(MentionGraph(members), s))
  {
    hide CycleReachable, MentionGraph;
    CycleStep(MentionGraph(members), s);
  }

  /** The end of a visit that has not been rejected. */
  lemma StatePop(members: Members, recursive: map<StructId, bool>, typed: map<StructId, nat>,
                 seen: set<StructId>, stack: seq<StructId>, s: StructId, later: map<StructId, bool>)
    requires IsState(members, recursive, typed, seen + {s}, stack + [s]) && s !in seen
    requires later
             == (if s in recursive then recursive else recursive[s := AnyRecursive(members, MentionGraph(members)(s))])
    requires s in typed && typed[s] == |members(s)|
    requires forall t :: t in MentionGraph(members)(s) ==> t in recursive.Keys + seen + {s}
    requires !CycleReachable(TypedContainGraph(members, typed), s)
    ensures IsState(members, later, typed, seen, stack)
    ensures s in later && (later[s] <==> CycleReachable(MentionGraph(members), s))
  {
    FlagsOne(members, recursive, s, later);
    PoppedWalk(MentionGraph(members), stack, s);
    hide FlagsExact, AnyRecursive, CycleReachable, IsWalk, Distinct, TypedContainGraph, MentionGraph, Completed;
    var done := recursive.Keys - (seen + {s});
    CompletedOne(members, typed, done, recursive.Keys + (seen + {s}), s);
    assert later.Keys - seen == done + {s};
    assert later.Keys + seen == recursive.Keys + (seen + {s});
    forall u ensures u in seen <==> u in stack {
      assert u in stack + [s] <==> u in stack || u == s;
    }
  }

  lemma PoppedWalk(next: StructId -> seq<StructId>, stack: seq<StructId>, s: StructId)
    requires IsWalk(next, stack + [s]) && Distinct(stack + [s])
    ensures IsWalk(next, stack) && Distinct(stack) && s !in stack
  {
    var all := stack + [s];
    assert all[|stack|] == s && forall i :: 0 <= i < |stack| ==> all[i] == stack[i];
    forall i | 0 <= i < |stack| - 1 ensures stack[i + 1] in next(stack[i]) {
      assert all[i + 1] in next(all[i]);
    }
  }

  /** A cycle can be reached from one of the structs. */
  ghost predicate AnyRecursive(members: Members, structs: seq<StructId>) {
    exists s :: s in structs && CycleReachable(MentionGraph(members), s)
  }

  class Checker {
    const members: Members
    var recursive: map<StructId, bool>  // the annotation
    var typed: map<StructId, nat>  // how many members have their type annotation
    var currentStructsSeen: set<StructId>
    var recursiveStructSeen: bool
    var insideFunctionType: bool

    constructor (members: Members)
      ensures this.members == members && recursive == map[]
      ensures Valid([]) && !insideFunctionType
    {
      this.members := members;
      recursive, typed := map[], map[];
      currentStructsSeen, recursiveStructSeen, insideFunctionType := {}, false, false;
      StateStart(members);
    }

    /** Structs whose visit has at least begun. */
    ghost function Started(): set<StructId>
      reads `recursive, `currentStructsSeen
    {
      recursive.Keys + currentStructsSeen
    }

    /** `stack` lists the structs being visited, outermost first. */
    ghost predicate Valid(stack: seq<StructId>)
      reads `recursive, `typed, `currentStructsSeen, `recursiveStructSeen
    {
      IsState(members, recursive, typed, currentStructsSeen, stack) && (stack == [] ==> !recursiveStructSeen)
    }

    /** What visits keep: no annotation is lost, and `structs` being visited are not touched. */
    twostate predicate Kept(structs: set<StructId>)
      reads this
    {
      && currentStructsSeen == old(currentStructsSeen) && insideFunctionType == old(insideFunctionType)
      && old(recursive).Keys <= recursive.Keys
      && (forall s :: s in structs ==> (s in typed <==> s in old(typed)) && (s in typed ==> typed[s] == old(typed)[s]))
    }

    ghost predicate FatalIsJustified(fatal: Fatal) {
      match fatal
      case RecursiveStructDefinition(s) => CycleReachable(ContainGraph(members), s)
      case ValidatorExhausted(s) => LongWalk(ContainGraph(members), s, 256)
    }

    ghost predicate IsUniverse(universe: set<StructId>) {
      forall s, t :: s in universe && t in MentionGraph(members)(s) ==> t in universe
    }

    /** Whether struct definitions that are mentioned are visited. */
    predicate Active()
      reads this
    {
      !insideFunctionType && currentStructsSeen != {}
    }

    /** The mentions are those of a member of the innermost struct being visited. */
    ghost predicate MayVisit(mentions: seq<StructId>, stack: seq<StructId>, universe: set<StructId>)
      reads this
    {
      forall s :: s in mentions && Active() ==>
          s in universe && stack != [] && s in MentionGraph(members)(stack[|stack| - 1])
    }

    /** What visiting type names that mention `mentions` has done. */
    twostate predicate Visited(mentions: seq<StructId>)
      reads this
    {
      if old(Active())
      then (recursiveStructSeen <==> old(recursiveStructSeen) || AnyRecursive(members, mentions))
           && (forall s :: s in mentions ==> s in Started())
      else recursiveStructSeen == old(recursiveStructSeen)
    }

    method VisitStruct(s: StructId, ghost stack: seq<StructId>, ghost universe: set<StructId>)
        returns (fatal: Option<Fatal>)
      requires Valid(stack) && !insideFunctionType && IsUniverse(universe) && s in universe
      requires stack != [] ==> s in MentionGraph(members)(stack[|stack| - 1])
      modifies this
      ensures fatal.None? ==> Valid(stack) && Kept(old(currentStructsSeen)) && s in recursive
      ensures fatal.None? && stack != [] ==>
                (recursiveStructSeen <==> old(recursiveStructSeen) || CycleReachable(MentionGraph(members), s))
      ensures fatal.Some? ==> FatalIsJustified(fatal.value)
      decreases universe - Started(), 0
    {
      hide CycleReachable, IsState, Checker.FatalIsJustified, MentionGraph, TypedContainGraph, AnyRecursive;
      SeenIsStack(members, recursive, typed, currentStructsSeen, stack);
      if s in recursive {
        FlagIsExact(members, recursive, typed, currentStructsSeen, stack, s);
        if currentStructsSeen != {} && recursive[s] {
          recursiveStructSeen := true;
        }
        return None;
      }
      if s in currentStructsSeen {
        StateFlag(members, recursive, typed, currentStructsSeen, stack, s);
        recursive := recursive[s := true];
        recursiveStructSeen := true;
        return None;
      }
      var previousRecursiveStructSeen := recursiveStructSeen;
      StatePush(members, recursive, typed, currentStructsSeen, stack, s);
      currentStructsSeen := currentStructsSeen + {s};
      var hasRecursiveChild;
      fatal, hasRecursiveChild := VisitMembers(s, stack, universe);
      if fatal.Some? {
        return;
      }
      ghost var before := recursive;
      if s !in recursive {
        recursive := recursive[s := hasRecursiveChild];
      }
      recursiveStructSeen := previousRecursiveStructSeen || recursive[s];
      currentStructsSeen := currentStructsSeen - {s};
      assert currentStructsSeen == old(currentStructsSeen);
      if currentStructsSeen == {} {
        recursiveStructSeen := false;
      }
      fatal := CheckDirectRecursion(s, universe);
      if fatal.None? {
        StatePop(members, before, typed, currentStructsSeen, stack, s, recursive);
      }
    }

    /** The detector only sees members whose type is known already. */
    method CheckDirectRecursion(s: StructId, ghost universe: set<StructId>) returns (fatal: Option<Fatal>)
      requires IsUniverse(universe) && s in universe
      ensures fatal.None? ==> !CycleReachable(TypedContainGraph(members, typed), s)
      ensures fatal.Some? ==> FatalIsJustified(fatal.value)
    {
      var next := TypedContainGraph(members, typed);
      forall u, v | v in next(u) ensures v in ContainGraph(members)(u) && v in MentionGraph(members)(u) {
        TypedIsContained(members, typed, u, v);
        ContainedInStruct(members, u, v);
      }
      var detector := new CycleDetector(next, Some(DEPTH_LIMIT));
      var hit := detector.Run(s, [], universe);
      if detector.aborted {
        LongerWalk(next, ContainGraph(members), s, DEPTH_LIMIT);
        return Some(ValidatorExhausted(s));
      }
      if hit.Some? {
        SubgraphCycle(next, ContainGraph(members), s);
        return Some(RecursiveStructDefinition(s));
      }
      return None;
    }

    method VisitMembers(s: StructId, ghost stack: seq<StructId>, ghost universe: set<StructId>)
        returns (fatal: Option<Fatal>, hasRecursiveChild: bool)
      requires Valid(stack + [s]) && !insideFunctionType && IsUniverse(universe) && s in universe
      modifies this
      ensures fatal.None? ==> Valid(stack + [s]) && Kept(old(currentStructsSeen) - {s})
      ensures fatal.None? ==> s in typed && typed[s] == |members(s)|
      ensures fatal.None? ==> forall t :: t in MentionGraph(members)(s) ==> t in Started()
      ensures fatal.None? ==> (hasRecursiveChild <==> AnyRecursive(members, MentionGraph(members)(s)))
      ensures fatal.Some? ==> FatalIsJustified(fatal.value)
      decreases universe - Started(), 2
    {
      hide CycleReachable, IsState, Checker.FatalIsJustified, Mentions, MentionsOfAll, AnyRecursive;
      SeenIsStack(members, recursive, typed, currentStructsSeen, stack + [s]);
      NothingMentioned(members);
      StateTyped(members, recursive, typed, currentStructsSeen, stack + [s], s, 0);
      assert (stack + [s])[|stack|] == s;
      fatal, hasRecursiveChild := None, false;
      typed := typed[s := 0];
      for i := 0 to |members(s)|
        invariant Valid(stack + [s]) && Kept(old(currentStructsSeen) - {s})
        invariant s in typed && typed[s] == i
        invariant forall t :: t in MentionsOfAll(members(s)[..i]) ==> t in Started()
        invariant hasRecursiveChild <==> AnyRecursive(members, MentionsOfAll(members(s)[..i]))
        invariant fatal.None?
      {
        MentionsSnoc(members(s), i);
        forall t | t in Mentions(members(s)[i]) ensures t in MentionGraph(members)(s) {
          MentionsAt(members(s), i, t);
        }
        AnyRecursiveOfBoth(members, MentionsOfAll(members(s)[..i]), Mentions(members(s)[i]));
        recursiveStructSeen := false;
        assert universe - Started() <= universe - old(Started());
        fatal := VisitTypeName(members(s)[i], stack + [s], universe);
        if fatal.Some? {
          return;
        }
        StateTyped(members, recursive, typed, currentStructsSeen, stack + [s], s, i + 1);
        typed := typed[s := i + 1];
        if recursiveStructSeen {
          hasRecursiveChild := true;
        }
      }
      assert members(s)[..|members(s)|] == members(s);
    }

    method VisitTypeName(t: TypeName, ghost stack: seq<StructId>, ghost universe: set<StructId>)
        returns (fatal: Option<Fatal>)
      requires Valid(stack) && IsUniverse(universe) && MayVisit(Mentions(t), stack, universe)
      modifies this
      ensures fatal.None? ==> Valid(stack) && Kept(old(currentStructsSeen)) && Visited(Mentions(t))
      ensures fatal.Some? ==> FatalIsJustified(fatal.value)
      decreases universe - Started(), 1, t
    {
      hide CycleReachable, IsState, Checker.FatalIsJustified, MentionGraph, Checker.IsUniverse;
      fatal := None;
      match t
      case Elementary =>
      case UserDefinedStruct(id) =>
        if Active() {
          assert id in Mentions(t);
          fatal := VisitStruct(id, stack, universe);
        }
      case UserDefinedOther =>
      case ArrayTypeName(baseType, _) =>
        fatal := VisitTypeName(baseType, stack, universe);
      case Mapping(keyType, valueType) =>
        assert forall s :: s in Mentions(t) <==> s in Mentions(keyType) || s in Mentions(valueType);
        AnyRecursiveOfBoth(members, Mentions(keyType), Mentions(valueType));
        fatal := VisitTypeName(keyType, stack, universe);
        if fatal.None? {
          assert universe - Started() <= universe - old(Started());
          fatal := VisitTypeName(valueType, stack, universe);
        }
      case Optional(types) =>
        fatal := VisitTypeNames(types, stack, universe);
      case TvmVector(types) =>
        fatal := VisitTypeNames(types, stack, universe);
      case TvmStack(element) =>
        fatal := VisitTypeName(element, stack, universe);
      case FunctionTypeName(parameterTypes, returnTypes) =>
        var previousInsideFunctionType := insideFunctionType;
        insideFunctionType := true;
        fatal := VisitTypeNames(parameterTypes, stack, universe);
        if fatal.None? {
          assert universe - Started() <= universe - old(Started());
          fatal := VisitTypeNames(returnTypes, stack, universe);
        }
        if fatal.None? {
          insideFunctionType := previousInsideFunctionType;
        }
    }

    method VisitTypeNames(ts: seq<TypeName>, ghost stack: seq<StructId>, ghost universe: set<StructId>)
        returns (fatal: Option<Fatal>)
      requires Valid(stack) && IsUniverse(universe) && MayVisit(MentionsOfAll(ts), stack, universe)
      modifies this
      ensures fatal.None? ==> Valid(stack) && Kept(old(currentStructsSeen)) && Visited(MentionsOfAll(ts))
      ensures fatal.Some? ==> FatalIsJustified(fatal.value)
      decreases universe - Started(), 1, ts
    {
      hide CycleReachable, IsState, Checker.FatalIsJustified, MentionGraph, Mentions;
      fatal := None;
      for i := 0 to |ts|
        invariant Valid(stack) && Kept(old(currentStructsSeen)) && Visited(MentionsOfAll(ts[..i])) && fatal.None?
      {
        MentionsSnoc(ts, i);
        forall s | s in Mentions(ts[i]) ensures s in MentionsOfAll(ts) {
          MentionsAt(ts, i, s);
        }
        assert universe - Started() <= universe - old(Started());
        fatal := VisitTypeName(ts[i], stack, universe);
        if fatal.Some? {
          return;
        }
      }
      assert ts[..|ts|] == ts;
    }

    /**
     * The structs of a program, visited in any order. Without a fatal error
     * every annotation is right and no struct contains itself by value.
     */
    method Check(order: seq<StructId>, ghost universe: set<StructId>) returns (fatal: Option<Fatal>)
      requires Valid([]) && !insideFunctionType && IsUniverse(universe) && forall s :: s in order ==> s in universe
      modifies this
      ensures fatal.None? ==> forall s :: s in order ==> s in recursive
      ensures fatal.None? ==> forall s :: s in recursive ==>
                (recursive[s] <==> CycleReachable(MentionGraph(members), s))
      ensures fatal.None? ==> forall s :: s in recursive ==> !CycleReachable(ContainGraph(members), s)
      ensures fatal.Some? ==> FatalIsJustified(fatal.value)
    {
      fatal := None;
      for i := 0 to |order|
        invariant Valid([]) && !insideFunctionType && fatal.None? && forall k :: 0 <= k < i ==> order[k] in recursive
      {
        fatal := VisitStruct(order[i], [], universe);
        if fatal.Some? {
          return;
        }
      }
      SeenIsStack(members, recursive, typed, currentStructsSeen, []);
      forall s | s in recursive ensures !CycleReachable(ContainGraph(members), s) {
        NothingRejected(members, recursive, typed, s);
      }
    }
  }

  lemma NothingRejected(members: Members, recursive: map<StructId, bool>, typed: map<StructId, nat>, s: StructId)
    requires IsState(members, recursive, typed, {}, []) && s in recursive
    ensures !CycleReachable(ContainGraph(members), s)
  {
    assert recursive.Keys - {} == recursive.Keys == recursive.Keys + {};
    forall u, v | u in recursive && v in ContainGraph(members)(u) ensures v in recursive {
      ContainedInStruct(members, u, v);
    }
    ClosedHasNoCycle(ContainGraph(members), recursive.Keys, s);
  }

  lemma SeenIsStack(members: Members, recursive: map<StructId, bool>, typed: map<StructId, nat>,
                    seen: set<StructId>, stack: seq<StructId>)
    requires IsState(members, recursive, typed, seen, stack)
    ensures seen == {} <==> stack == []
    ensures forall s :: s in seen <==> s in stack
  {
    if stack != [] {
      assert stack[0] in seen;
    }
  }

  lemma FlagIsExact(members: Members, recursive: map<StructId, bool>, typed: map<StructId, nat>,
                    seen: set<StructId>, stack: seq<StructId>, s: StructId)
    requires IsState(members, recursive, typed, seen, stack) && s in recursive
    ensures recursive[s] <==> CycleReachable(MentionGraph(members), s)
  {
  }

  lemma NothingMentioned(members: Members)
    ensures MentionsOfAll([]) == [] && !AnyRecursive(members, [])
  {
  }

  lemma AnyRecursiveOfBoth(members: Members, some: seq<StructId>, others: seq<StructId>)
    ensures AnyRecursive(members, some + others) <==> AnyRecursive(members, some) || AnyRecursive(members, others)
  {
    hide CycleReachable;
    if AnyRecursive(members, some) {
      var s: StructId :| s in some && CycleReachable(MentionGraph(members), s);
      assert s in some + others;
    }
    if AnyRecursive(members, others) {
      var s: StructId :| s in others && CycleReachable(MentionGraph(members), s);
      assert s in some + others;
    }
  }

  lemma {:induction false} MentionsSnoc(ts: seq<TypeName>, i: nat)
    requires i < |ts|
    ensures MentionsOfAll(ts[..i + 1]) == MentionsOfAll(ts[..i]) + Mentions(ts[i])
    decreases i
  {
    if i > 0 {
      assert ts[..i + 1][1..] == ts[1..][..i] && ts[..i][1..] == ts[1..][..i - 1];
      MentionsSnoc(ts[1..], i - 1);
    } else {
      assert ts[..1][1..] == [];
    }
  }

  lemma LongerWalk(sub: StructId -> seq<StructId>, next: StructId -> seq<StructId>, s: StructId, length: nat)
    requires forall u, v :: v in sub(u) ==> v in next(u)
    requires LongWalk(sub, s, length)
    ensures LongWalk(next, s, length)
  {
    var walk :| |walk| >= length && walk != [] && walk[0] == s && IsWalk(sub, walk) && Distinct(walk);
    assert IsWalk(next, walk);
  }
}
