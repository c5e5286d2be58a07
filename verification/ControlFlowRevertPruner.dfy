/**
 * The revert pruner: finds the functions that have a non-reverting path and
 * cuts the flow after calls of the others.
 */
module ControlFlowRevertPruner {
  import opened Util
  import opened ControlFlowGraph
  import opened Algorithms

  type ContractId = nat

  /** A function together with the most derived contract it is analysed for. */
  datatype FunctionContractTuple = FunctionContractTuple(contract: Option<ContractId>, definition: FunctionId)

  datatype RevertState = AllPathsRevert | HasNonRevertingPath | Unknown

  /** The facts about declarations the pruner asks the syntax tree for. */
  datatype Declarations = Declarations(
    isImplemented: FunctionId -> bool,
    contractOf: FunctionId -> Option<ContractId>,
    derivesFrom: (ContractId, ContractId) -> bool)

  /** The contract called from inherits from `declaring`, or is it. */
  ghost predicate Inherits(d: Declarations, callingContract: Option<ContractId>, declaring: ContractId) {
    exists c :: callingContract == Some(c) && d.derivesFrom(c, declaring)
  }

  /**
   * The contract for which a called function is analysed: none for a free
   * function, the most derived contract for a function it inherits, and the
   * declaring contract otherwise.
   */
  ghost predicate IsScope(d: Declarations, callee: FunctionId, callingContract: Option<ContractId>,
                          scope: Option<ContractId>)
  {
    && (scope == None <==> d.contractOf(callee) == None)
    && (forall declaring :: d.contractOf(callee) == Some(declaring) ==>
          && (Inherits(d, callingContract, declaring) ==> scope == callingContract)
          && (!Inherits(d, callingContract, declaring) ==> scope == Some(declaring)))
  }

  lemma ScopeIsUnique(d: Declarations, callee: FunctionId, callingContract: Option<ContractId>,
                      scope: Option<ContractId>, other: Option<ContractId>)
    requires IsScope(d, callee, callingContract, scope) && IsScope(d, callee, callingContract, other)
    ensures scope == other
  {
    if d.contractOf(callee).Some? {
      var declaring := d.contractOf(callee).value;
      assert d.contractOf(callee) == Some(declaring);
    }
  }

  /** The contract a called function is analysed for. */
  function FindScopeContract(d: Declarations, callee: FunctionId,
                             callingContract: Option<ContractId>): (scope: Option<ContractId>)
    ensures IsScope(d, callee, callingContract, scope)
  {
    var functionContract := d.contractOf(callee);
    if functionContract.Some? then
      if callingContract.Some? && d.derivesFrom(callingContract.value, functionContract.value) then
        callingContract
      else
        functionContract
    else
      None
  }

  /** The analysed function a node calls, when it belongs to the flow of `item`. */
  function Called(d: Declarations, node: CFGNode, item: FunctionContractTuple): Option<FunctionContractTuple> {
    if node.functionDefinition.Some? && d.isImplemented(node.functionDefinition.value) then
      var callee := node.functionDefinition.value;
      Some(FunctionContractTuple(FindScopeContract(d, callee, item.contract), callee))
    else
      None
  }

  /** All arcs of a graph. */
  function AllArcs(g: Graph): NodeId -> seq<NodeId> {
    (n: NodeId) => if n < |g| then g[n].exits else []
  }

  datatype Program = Program(declarations: Declarations, nodes: Graph, flows: map<FunctionContractTuple, FunctionFlow>)
  {
    ghost predicate Valid() {
      && (forall n: NodeId, m :: n < |nodes| && m in nodes[n].exits ==> m < |nodes|)
      && (forall item :: item in flows ==> flows[item].entry < |nodes|)
    }

    /** Node `n` belongs to the flow of `item`. */
    ghost predicate Owns(item: FunctionContractTuple, n: NodeId)
      requires item in flows
    {
      Leads(AllArcs(nodes), flows[item].entry, n)
    }

    /** Every implemented function that a flow calls has a flow. */
    ghost predicate CallsHaveFlows() {
      forall item, n: NodeId :: item in flows && Owns(item, n) && Callee(item, n).Some? ==>
          Callee(item, n).value in flows
    }

    function Callee(item: FunctionContractTuple, n: NodeId): Option<FunctionContractTuple> {
      if n < |nodes| then Called(declarations, nodes[n], item) else None
    }

    /** Control can pass node `n` of `item` when all functions in `s`, and only those, can return. */
    predicate Passes(item: FunctionContractTuple, n: NodeId, s: set<FunctionContractTuple>) {
      var callee := Callee(item, n);
      callee.Some? ==> callee.value in s
    }

    /** The arcs of such executions. */
    function Arcs(item: FunctionContractTuple, s: set<FunctionContractTuple>): NodeId -> seq<NodeId> {
      (n: NodeId) => if n < |nodes| && Passes(item, n, s) then nodes[n].exits else []
    }

    /** The nodes of `item` that such executions can reach. */
    ghost predicate ReachesWith(item: FunctionContractTuple, n: NodeId, s: set<FunctionContractTuple>)
      requires item in flows
    {
      Leads(Arcs(item, s), flows[item].entry, n)
    }

    /** Some path from entry to exit calls only functions in `s`. */
    ghost predicate CanReturnWith(item: FunctionContractTuple, s: set<FunctionContractTuple>)
      requires item in flows
    {
      ReachesWith(item, flows[item].exit, s)
    }

    /** No function outside `s` can return when those in `s` can. */
    ghost predicate Closed(s: set<FunctionContractTuple>) {
      forall item :: item in flows && CanReturnWith(item, s) ==> item in s
    }

    /** `s` is the least closed set: exactly the functions that have a non-reverting path. */
    ghost predicate IsLeastClosed(s: set<FunctionContractTuple>) {
      Closed(s) && forall other: set<FunctionContractTuple> :: Closed(other) ==> s <= other
    }

    lemma ReachedIsOwned(item: FunctionContractTuple, n: NodeId, s: set<FunctionContractTuple>)
      requires item in flows && ReachesWith(item, n, s)
      ensures Owns(item, n)
    {
      var walk :| WalkTo(Arcs(item, s), walk, flows[item].entry, n);
      forall i | 0 <= i < |walk| - 1 ensures walk[i + 1] in AllArcs(nodes)(walk[i]) {
        assert walk[i + 1] in Arcs(item, s)(walk[i]);
      }
      assert WalkTo(AllArcs(nodes), walk, flows[item].entry, n);
    }

    /** The callee of a node that a search comes across has a flow. */
    lemma QueuedHasFlow(item: FunctionContractTuple, s: set<FunctionContractTuple>, seen: set<NodeId>,
                        queue: seq<NodeId>)
      requires CallsHaveFlows() && item in flows && queue != []
      requires Explored([flows[item].entry], Arcs(item, s), seen, queue)
      ensures Callee(item, queue[0]).Some? ==> Callee(item, queue[0]).value in flows
    {
      hide Leads;
      assert queue[0] in queue;
      assert ReachesWith(item, queue[0], s);
      ReachedIsOwned(item, queue[0], s);
    }

    /** More functions that can return, more nodes that can be reached. */
    lemma ReachesMore(item: FunctionContractTuple, n: NodeId, s: set<FunctionContractTuple>,
                      s2: set<FunctionContractTuple>)
      requires item in flows && s <= s2 && ReachesWith(item, n, s)
      ensures ReachesWith(item, n, s2)
    {
      var walk :| WalkTo(Arcs(item, s), walk, flows[item].entry, n);
      forall i | 0 <= i < |walk| - 1 ensures walk[i + 1] in Arcs(item, s2)(walk[i]) {
        assert walk[i + 1] in Arcs(item, s)(walk[i]);
      }
      assert WalkTo(Arcs(item, s2), walk, flows[item].entry, n);
    }
  }

  type RevertStates = map<FunctionContractTuple, RevertState>

  /** The functions with the given state. */
  function InState(states: RevertStates, state: RevertState): set<FunctionContractTuple> {
    set item | item in states && states[item] == state
  }

  type WakeUps = map<FunctionContractTuple, set<FunctionContractTuple>>

  /** The searches to restart once `item` is known. */
  function Waiting(wakeUp: WakeUps, item: FunctionContractTuple): set<FunctionContractTuple> {
    if item in wakeUp then wakeUp[item] else {}
  }

  /** Node `n` of `item` calls a function with the given state. */
  predicate CallsOne(p: Program, states: RevertStates, item: FunctionContractTuple, n: NodeId, state: RevertState) {
    var callee := p.Callee(item, n);
    callee.Some? && callee.value in states && states[callee.value] == state
  }

  /** A node of `item` in `seen` calls `callee`, about which nothing is known. */
  ghost predicate CallsUnknown(p: Program, states: RevertStates, item: FunctionContractTuple, seen: set<NodeId>,
                               callee: FunctionContractTuple) {
    exists n :: n in seen && CallsOne(p, states, item, n, Unknown) && p.Callee(item, n) == Some(callee)
  }

  /** `item` is added to the wake-up lists of exactly the unknown functions called in `seen`. */
  ghost predicate Registered(p: Program, states: RevertStates, item: FunctionContractTuple, seen: set<NodeId>,
                             before: WakeUps, wakeUp: WakeUps) {
    && (forall n :: n in seen && CallsOne(p, states, item, n, Unknown) ==>
         item in Waiting(wakeUp, p.Callee(item, n).value))
    && (forall t, other :: other in Waiting(wakeUp, t) ==>
          other in Waiting(before, t) || (other == item && CallsUnknown(p, states, item, seen, t)))
    && (forall t, other :: other in Waiting(before, t) ==> other in Waiting(wakeUp, t))
  }

  lemma RegisterNone(p: Program, states: RevertStates, item: FunctionContractTuple, wakeUp: WakeUps)
    ensures Registered(p, states, item, {}, wakeUp, wakeUp)
  {
  }

  lemma RegisterOne(p: Program, states: RevertStates, item: FunctionContractTuple, seen: set<NodeId>, before: WakeUps,
                    wakeUp: WakeUps, n: NodeId)
    requires Registered(p, states, item, seen, before, wakeUp)
    ensures !CallsOne(p, states, item, n, Unknown) ==> Registered(p, states, item, seen + {n}, before, wakeUp)
    ensures CallsOne(p, states, item, n, Unknown) ==>
              var callee := p.Callee(item, n).value;
              Registered(p, states, item, seen + {n}, before, wakeUp[callee := Waiting(wakeUp, callee) + {item}])
  {
  }

  lemma SearchDone(p: Program, item: FunctionContractTuple, s: set<FunctionContractTuple>, next: NodeId -> seq<NodeId>,
                   visited: set<NodeId>)
    requires item in p.flows && next == p.Arcs(item, s)
    requires Explored([p.flows[item].entry], next, visited, [])
    ensures forall n :: n in visited <==> p.ReachesWith(item, n, s)
    ensures forall n, m :: n in visited && m in next(n) ==> m in visited
  {
    var roots := [p.flows[item].entry];
    ExploredAll(roots, next, visited);
    forall n ensures n in visited <==> p.ReachesWith(item, n, s) {
      assert n in visited <==> ReachableFrom(roots, next, n);
      assert roots[0] in roots;
    }
  }

  /** Nothing outside `v` can be reached without passing a call that reverts or is unknown; the exit is outside. */
  ghost predicate Covers(p: Program, states: RevertStates, item: FunctionContractTuple, v: set<NodeId>)
    requires item in p.flows
  {
    && p.flows[item].entry in v && p.flows[item].exit !in v
    && forall n :: n in v ==>
         n < |p.nodes| && (CallsOne(p, states, item, n, AllPathsRevert) || CallsOne(p, states, item, n, Unknown)
                           || forall m :: m in p.nodes[n].exits ==> m in v)
  }

  /** Why `item` certainly reverts. */
  ghost predicate Settled(p: Program, states: RevertStates, item: FunctionContractTuple, v: set<NodeId>)
    requires item in p.flows
  {
    Covers(p, states, item, v) && forall n :: n in v ==> !CallsOne(p, states, item, n, Unknown)
  }

  /** Why the search for `item` has to wait, and that it will be woken up. */
  ghost predicate Paused(p: Program, states: RevertStates, item: FunctionContractTuple, v: set<NodeId>, wakeUp: WakeUps)
    requires item in p.flows
  {
    && Covers(p, states, item, v)
    && (forall n :: n in v ==> p.ReachesWith(item, n, InState(states, HasNonRevertingPath)))
    && (exists n :: n in v && CallsOne(p, states, item, n, Unknown))
    && (forall n :: n in v && CallsOne(p, states, item, n, Unknown) ==>
         item in Waiting(wakeUp, p.Callee(item, n).value))
  }

  /** What every round of the worklist keeps; `searched` holds the nodes met by the last search for an item. */
  ghost predicate Invariant(p: Program, states: RevertStates, pending: set<FunctionContractTuple>, wakeUp: WakeUps,
                            searched: map<FunctionContractTuple, set<NodeId>>)
  {
    var returning := InState(states, HasNonRevertingPath);
    && states.Keys == p.flows.Keys && pending <= states.Keys
    && (forall t, item :: item in Waiting(wakeUp, t) ==> item in states)
    && (forall item :: item in returning ==> p.CanReturnWith(item, returning))
    && (forall other: set<FunctionContractTuple> :: p.Closed(other) ==> returning <= other)
    && (forall item :: item in states && states[item] == AllPathsRevert ==>
          item in searched && Settled(p, states, item, searched[item]))
    && (forall item :: item in states && states[item] == Unknown && item !in pending ==>
          item in searched && Paused(p, states, item, searched[item], wakeUp))
  }

  /** What a search that looked at all of `v` has found out about `item`. */
  ghost predicate SearchResult(p: Program, states: RevertStates, item: FunctionContractTuple, v: set<NodeId>,
                               before: WakeUps, wakeUp: WakeUps)
    requires item in p.flows
  {
    var returning := InState(states, HasNonRevertingPath);
    && (forall n :: n in v ==> n < |p.nodes|)
    && (forall n :: n in v <==> p.ReachesWith(item, n, returning))
    && (forall n, m :: n in v && m in p.Arcs(item, returning)(n) ==> m in v)
    && Registered(p, states, item, v, before, wakeUp)
  }

  lemma SearchCovers(p: Program, states: RevertStates, item: FunctionContractTuple, v: set<NodeId>, before: WakeUps,
                     wakeUp: WakeUps)
    requires p.Valid() && p.CallsHaveFlows() && states.Keys == p.flows.Keys && item in p.flows
    requires SearchResult(p, states, item, v, before, wakeUp) && p.flows[item].exit !in v
    ensures Covers(p, states, item, v)
  {
    var returning := InState(states, HasNonRevertingPath);
    LeadsToItself(p.Arcs(item, returning), p.flows[item].entry);
    forall n | n in v
      ensures CallsOne(p, states, item, n, AllPathsRevert) || CallsOne(p, states, item, n, Unknown)
              || forall m :: m in p.nodes[n].exits ==> m in v
    {
      if p.Passes(item, n, returning) {
        assert p.Arcs(item, returning)(n) == p.nodes[n].exits;
      } else {
        p.ReachedIsOwned(item, n, returning);
        assert p.Callee(item, n).value in states;
      }
    }
  }

  lemma WaitingAreKnown(p: Program, states: RevertStates, pending: set<FunctionContractTuple>, before: WakeUps,
                        searched: map<FunctionContractTuple, set<NodeId>>, item: FunctionContractTuple, v: set<NodeId>,
                        wakeUp: WakeUps)
    requires Invariant(p, states, pending, before, searched) && item in states
    requires SearchResult(p, states, item, v, before, wakeUp)
    ensures forall t, other :: other in Waiting(wakeUp, t) ==> other in states
  {
  }

  lemma ResolvedShrinks(states: RevertStates, item: FunctionContractTuple, state: RevertState)
    requires item in states && states[item] == Unknown && state != Unknown
    ensures InState(states[item := state], Unknown) < InState(states, Unknown)
  {
    assert item in InState(states, Unknown);
  }

  lemma NothingPending(p: Program, states: RevertStates, pending: set<FunctionContractTuple>, wakeUp: WakeUps,
                       searched: map<FunctionContractTuple, set<NodeId>>, item: FunctionContractTuple)
    requires Invariant(p, states, pending, wakeUp, searched) && item in states && states[item] != Unknown
    ensures Invariant(p, states, pending - {item}, wakeUp, searched)
  {
  }

  /** The search ended at unknown calls only: the item waits. */
  lemma KeepWaiting(p: Program, states: RevertStates, pending: set<FunctionContractTuple>, before: WakeUps,
                    searched: map<FunctionContractTuple, set<NodeId>>, item: FunctionContractTuple, v: set<NodeId>,
                    wakeUp: WakeUps)
    requires p.Valid() && p.CallsHaveFlows() && Invariant(p, states, pending, before, searched)
    requires item in states && states[item] == Unknown && SearchResult(p, states, item, v, before, wakeUp)
    requires p.flows[item].exit !in v && exists n :: n in v && CallsOne(p, states, item, n, Unknown)
    ensures Invariant(p, states, pending - {item}, wakeUp, searched[item := v])
  {
    SearchCovers(p, states, item, v, before, wakeUp);
  }

  lemma StillClosed(p: Program, states: RevertStates, item: FunctionContractTuple)
    requires item in states && states[item] == Unknown && states.Keys == p.flows.Keys
    requires var returning := InState(states, HasNonRevertingPath);
             && (forall i :: i in returning ==> p.CanReturnWith(i, returning))
             && (forall other: set<FunctionContractTuple> :: p.Closed(other) ==> returning <= other)
             && p.CanReturnWith(item, returning)
    ensures var returning := InState(states[item := HasNonRevertingPath], HasNonRevertingPath);
            && (forall i :: i in returning ==> p.CanReturnWith(i, returning))
            && (forall other: set<FunctionContractTuple> :: p.Closed(other) ==> returning <= other)
  {
    var known, more := InState(states, HasNonRevertingPath),
        InState(states[item := HasNonRevertingPath], HasNonRevertingPath);
    assert more == known + {item};
    forall i | i in more ensures p.CanReturnWith(i, more) {
      p.ReachesMore(i, p.flows[i].exit, known, more);
    }
    forall other: set<FunctionContractTuple> | p.Closed(other) ensures more <= other {
      p.ReachesMore(item, p.flows[item].exit, known, other);
    }
  }

  lemma PausedMore(p: Program, states: RevertStates, item: FunctionContractTuple, v: set<NodeId>, before: WakeUps,
                   wakeUp: WakeUps)
    requires item in p.flows && Paused(p, states, item, v, before)
    requires forall t, o :: o in Waiting(before, t) ==> o in Waiting(wakeUp, t)
    ensures Paused(p, states, item, v, wakeUp)
  {
  }

  /** What is known about another item survives, unless that item waited for this one. */
  lemma PausedSurvives(p: Program, states: RevertStates, other: FunctionContractTuple, v: set<NodeId>, wakeUp: WakeUps,
                       item: FunctionContractTuple, state: RevertState, later: WakeUps)
    requires item in states && states[item] == Unknown && state != Unknown && other in p.flows
    requires Paused(p, states, other, v, wakeUp) && other !in Waiting(wakeUp, item)
    requires forall t, o :: t != item && o in Waiting(wakeUp, t) ==> o in Waiting(later, t)
    ensures Paused(p, states[item := state], other, v, later)
  {
    var states2 := states[item := state];
    forall n | n in v ensures p.ReachesWith(other, n, InState(states2, HasNonRevertingPath)) {
      p.ReachesMore(other, n, InState(states, HasNonRevertingPath), InState(states2, HasNonRevertingPath));
    }
    forall n, s | n in v ensures CallsOne(p, states2, other, n, s) <==> CallsOne(p, states, other, n, s) {
      if CallsOne(p, states, other, n, Unknown) {
        assert p.Callee(other, n).value != item;
      }
    }
    assert Covers(p, states2, other, v);
    var n :| n in v && CallsOne(p, states, other, n, Unknown);
    assert CallsOne(p, states2, other, n, Unknown);
  }

  lemma SettledSurvives(p: Program, states: RevertStates, other: FunctionContractTuple, v: set<NodeId>,
                        item: FunctionContractTuple, state: RevertState)
    requires item in states && states[item] == Unknown && state != Unknown && other in p.flows
    requires Settled(p, states, other, v)
    ensures Settled(p, states[item := state], other, v)
  {
  }

  /** The item's state becomes known: the searches that waited for it are restarted. */
  lemma Resolve(p: Program, states: RevertStates, pending: set<FunctionContractTuple>, before: WakeUps,
                searched: map<FunctionContractTuple, set<NodeId>>, item: FunctionContractTuple, v: set<NodeId>,
                wakeUp: WakeUps, state: RevertState, restarted: set<FunctionContractTuple>)
    requires p.Valid() && p.CallsHaveFlows() && Invariant(p, states, pending, before, searched)
    requires item in states && states[item] == Unknown && SearchResult(p, states, item, v, before, wakeUp)
    requires p.flows[item].exit in v <==> state == HasNonRevertingPath
    requires state == AllPathsRevert ==> forall n :: n in v ==> !CallsOne(p, states, item, n, Unknown)
    requires state != Unknown
    requires forall other :: other in restarted <==>
               other in Waiting(wakeUp, item) && states[item := state][other] == Unknown
    ensures Invariant(p, states[item := state], pending - {item} + restarted, wakeUp - {item}, searched[item := v])
  {
    hide Program.Closed, Program.CanReturnWith, Program.ReachesWith, Program.Valid, Program.CallsHaveFlows, Paused,
        CallsOne;
    var states2, later := states[item := state], wakeUp - {item};
    var returning := InState(states, HasNonRevertingPath);
    if state == HasNonRevertingPath {
      StillClosed(p, states, item);
    } else {
      assert InState(states2, HasNonRevertingPath) == returning;
      SearchCovers(p, states, item, v, before, wakeUp);
      SettledSurvives(p, states, item, v, item, state);
    }
    forall other | other in states && states[other] == AllPathsRevert
      ensures Settled(p, states2, other, searched[other])
    {
      SettledSurvives(p, states, other, searched[other], item, state);
    }
    forall other | other in states2 && states2[other] == Unknown && other !in pending - {item} + restarted
      ensures Paused(p, states2, other, searched[other], later)
    {
      PausedMore(p, states, other, searched[other], before, wakeUp);
      PausedSurvives(p, states, other, searched[other], wakeUp, item, state, later);
    }
    forall t, other | other in Waiting(later, t) ensures other in states {
      assert other in Waiting(wakeUp, t);
    }
  }

  /** What the worklist has found out when nothing is pending any more. */
  ghost predicate Found(p: Program, states: RevertStates) {
    var returning := InState(states, HasNonRevertingPath);
    && states.Keys == p.flows.Keys
    && p.IsLeastClosed(returning)
    && (forall item :: item in p.flows ==> (item in returning <==> p.CanReturnWith(item, returning)))
    && (forall item :: item in p.flows && states[item] == Unknown ==>
          exists n :: p.ReachesWith(item, n, returning) && CallsOne(p, states, item, n, Unknown))
    && (forall item, n :: item in p.flows && states[item] == AllPathsRevert && p.ReachesWith(item, n, returning) ==>
          !CallsOne(p, states, item, n, Unknown))
  }

  /** A covered flow cannot return: control stays inside the cover. */
  lemma CoveredCannotReturn(p: Program, states: RevertStates, item: FunctionContractTuple, v: set<NodeId>, n: NodeId)
    requires item in p.flows && Covers(p, states, item, v)
    requires p.ReachesWith(item, n, InState(states, HasNonRevertingPath))
    ensures n in v
  {
    var next := p.Arcs(item, InState(states, HasNonRevertingPath));
    var walk :| WalkTo(next, walk, p.flows[item].entry, n);
    forall u, w | u in v && w in next(u) ensures w in v {
      assert p.Passes(item, u, InState(states, HasNonRevertingPath));
    }
    WalkStaysIn(next, walk, v);
  }

  lemma WorklistDone(p: Program, states: RevertStates, wakeUp: WakeUps,
                     searched: map<FunctionContractTuple, set<NodeId>>)
    requires Invariant(p, states, {}, wakeUp, searched)
    ensures Found(p, states)
  {
    var returning := InState(states, HasNonRevertingPath);
    forall item, n | item in p.flows && states[item] != HasNonRevertingPath && p.ReachesWith(item, n, returning)
      ensures n != p.flows[item].exit && n in searched[item]
    {
      CoveredCannotReturn(p, states, item, searched[item], n);
    }
    forall item | item in p.flows && states[item] == Unknown
      ensures exists n :: p.ReachesWith(item, n, returning) && CallsOne(p, states, item, n, Unknown)
    {
      assert Paused(p, states, item, searched[item], wakeUp);
      var n :| n in searched[item] && CallsOne(p, states, item, n, Unknown);
    }
  }

  class ControlFlowRevertPruner {
    var program: Program
    var functions: RevertStates

    constructor (program: Program)
      ensures this.program == program && functions == map[]
    {
      this.program := program;
      functions := map[];
    }

    ghost predicate Ready()
      reads this
    {
      program.Valid() && program.CallsHaveFlows() && functions.Keys == program.flows.Keys
    }

    /**
     * The search through the flow of `item`, which stops at calls that are not
     * known to return, and registers `item` for those that are not known at all.
     */
    method Search(item: FunctionContractTuple, wakeUpBefore: WakeUps)
      returns (foundExit: bool, foundUnknown: bool, wakeUp: WakeUps, ghost visited: set<NodeId>)
      requires Ready() && item in program.flows
      ensures SearchResult(program, functions, item, visited, wakeUpBefore, wakeUp)
      ensures foundExit <==> program.CanReturnWith(item, InState(functions, HasNonRevertingPath))
      ensures foundUnknown <==> exists n :: program.ReachesWith(item, n, InState(functions, HasNonRevertingPath))
                                       && CallsOne(program, functions, item, n, Unknown)
    {
      hide Explored, Leads, ReachableFrom, Registered;
      var flow := program.flows[item];
      ghost var returning := InState(functions, HasNonRevertingPath);
      ghost var next := program.Arcs(item, returning);
      ghost var universe := UpTo(|program.nodes|);
      foundExit, foundUnknown, wakeUp := false, false, wakeUpBefore;
      RegisterNone(program, functions, item, wakeUp);
      var seen: set<NodeId> := {};
      var queue := [flow.entry];
      ExploredStart(queue, next);
      while queue != []
        invariant forall n :: n in seen || n in queue ==> n < |program.nodes|
        invariant Explored([flow.entry], next, seen, queue)
        invariant foundExit <==> flow.exit in seen
        invariant foundUnknown <==> exists n :: n in seen && CallsOne(program, functions, item, n, Unknown)
        invariant Registered(program, functions, item, seen, wakeUpBefore, wakeUp)
        decreases universe - seen, |queue|
      {
        var node := queue[0];
        assert node in queue && forall n :: n in queue[1..] ==> n in queue;
        if node in seen {
          ExploredSkip([flow.entry], next, seen, queue);
          queue := queue[1..];
          continue;
        }
        ExploredVisit([flow.entry], next, seen, queue);
        program.QueuedHasFlow(item, returning, seen, queue);
        RegisterOne(program, functions, item, seen, wakeUpBefore, wakeUp, node);
        assert node in universe;
        assert queue[1..] + [] == queue[1..];
        var called := Called(program.declarations, program.nodes[node], item);
        assert called == program.Callee(item, node);
        assert next(node) == if called.None? || functions[called.value] == HasNonRevertingPath
                             then program.nodes[node].exits else [];
        queue, seen := queue[1..], seen + {node};
        if node == flow.exit {
          foundExit := true;
        }
        if called.Some? {
          match functions[called.value]
          case Unknown =>
            wakeUp := wakeUp[called.value := Waiting(wakeUp, called.value) + {item}];
            foundUnknown := true;
            assert CallsOne(program, functions, item, node, Unknown);
            continue;
          case AllPathsRevert => continue;
          case HasNonRevertingPath =>
        }
        queue := queue + program.nodes[node].exits;
      }
      visited := seen;
      SearchDone(program, item, returning, next, seen);
    }

    /** The items about which nothing is known. */
    method StillUnknown(items: set<FunctionContractTuple>) returns (result: set<FunctionContractTuple>)
      requires items <= functions.Keys
      ensures forall item :: item in result <==> item in items && functions[item] == Unknown
    {
      result := {};
      var rest := items;
      while rest != {}
        invariant rest <= items
        invariant forall item :: item in result <==> item in items - rest && functions[item] == Unknown
        decreases rest
      {
        var item :| item in rest;
        if functions[item] == Unknown {
          result := result + {item};
        }
        rest := rest - {item};
      }
    }

    method FindRevertStates()
      requires Ready() && forall item :: item in functions ==> functions[item] == Unknown
      modifies this`functions
      ensures Ready() && Found(program, functions)
    {
      var pending := functions.Keys;
      var wakeUp: WakeUps := map[];
      ghost var searched: map<FunctionContractTuple, set<NodeId>> := map[];
      NothingKnown(program, functions);
      hide Invariant, SearchResult, Found;
      while pending != {}
        invariant Ready() && pending <= functions.Keys
        invariant Invariant(program, functions, pending, wakeUp, searched)
        decreases InState(functions, Unknown), pending
      {
        var item :| item in pending;  // the code takes the smallest one
        pending := pending - {item};
        assert (pending + {item}) - {item} == pending;
        if functions[item] != Unknown {
          NothingPending(program, functions, pending + {item}, wakeUp, searched, item);
          continue;
        }
        var foundExit, foundUnknown;
        ghost var visited;
        ghost var before := wakeUp;
        foundExit, foundUnknown, wakeUp, visited := Search(item, wakeUp);
        var revertState := if foundExit then HasNonRevertingPath else if !foundUnknown then AllPathsRevert else Unknown;
        if revertState == Unknown {
          KeepWaiting(program, functions, pending + {item}, before, searched, item, visited, wakeUp);
        } else {
          WaitingAreKnown(program, functions, pending + {item}, before, searched, item, visited, wakeUp);
          ghost var states := functions;
          functions := functions[item := revertState];
          var restarted := StillUnknown(Waiting(wakeUp, item));
          Resolve(program, states, pending + {item}, before, searched, item, visited, wakeUp, revertState, restarted);
          ResolvedShrinks(states, item, revertState);
          pending := pending + restarted;
          wakeUp := wakeUp - {item};
        }
        searched := searched[item := visited];
      }
      WorklistDone(program, functions, wakeUp, searched);
    }

    /** Takes the node out of the entries of all its exits, one exit after the other, as the code does it. */
    method RemoveFromEntries(node: NodeId)
      requires node < |program.nodes| && forall m :: m in program.nodes[node].exits ==> m < |program.nodes|
      modifies this`program
      ensures program.flows == old(program).flows && program.declarations == old(program).declarations
      ensures SameExits(old(program).nodes, program.nodes)
      ensures EntriesRemoved(old(program).nodes, program.nodes, node, old(program).nodes[node].exits)
    {
      var exits := program.nodes[node].exits;
      assert exits[..0] == [];
      for i := 0 to |exits|
        invariant program.flows == old(program).flows && program.declarations == old(program).declarations
        invariant SameExits(old(program).nodes, program.nodes)
        invariant EntriesRemoved(old(program).nodes, program.nodes, node, exits[..i])
      {
        hide EntriesRemoved, RemoveWithoutErase;
        var m := exits[i];
        assert m in exits;
        assert exits[..i + 1] == exits[..i] + [m];
        ghost var before := program.nodes;
        program := program.(nodes := program.nodes[m := program.nodes[m].(
          entries := RemoveWithoutErase(program.nodes[m].entries, node))]);
        RemovedOnceMore(old(program).nodes, before, program.nodes, node, exits[..i], m);
        hide SameExits;
      }
      assert exits[..|exits|] == exits;
    }

    /** Makes the revert node the only exit of `node`. */
    method CutAfter(node: NodeId, revert: NodeId)
      requires node < |program.nodes| && revert < |program.nodes|
      requires forall m :: m in program.nodes[node].exits ==> m < |program.nodes|
      modifies this`program
      ensures program == old(program).(nodes := program.nodes)
      ensures IsCut(old(program).nodes, program.nodes, node, revert)
      ensures WellLinked(old(program).nodes) ==> WellLinked(program.nodes)
    {
      RemoveFromEntries(node);
      program := program.(nodes := program.nodes[node := program.nodes[node].(exits := [revert])]);
      var entries := program.nodes[revert].entries + [node];
      program := program.(nodes := program.nodes[revert := program.nodes[revert].(entries := entries)]);
      CuttingKeepsLinks(old(program).nodes, program.nodes, node, revert);
    }

    /** The search that cuts the flow of `item` after calls of functions that do not return. */
    method PruneFlow(item: FunctionContractTuple, ghost original: Program, ghost t: Territories)
      returns (ghost visited: set<NodeId>)
      requires original.Valid() && original.CallsHaveFlows() && functions.Keys == original.flows.Keys
      requires NodeDisjoint(original, t) && item in original.flows
      requires program == original.(nodes := program.nodes)
      requires SameContents(original.nodes, program.nodes) && SameExitsIn(original.nodes, program.nodes, t[item])
      modifies this`program
      ensures program == original.(nodes := program.nodes) && SameContents(original.nodes, program.nodes)
      ensures Pruned(original, program.nodes, item, InState(functions, HasNonRevertingPath))
      ensures SameExitsOutside(old(program).nodes, program.nodes, t[item])
      ensures WellLinked(old(program).nodes) ==> WellLinked(program.nodes)
      ensures forall n :: n in visited <==> original.ReachesWith(item, n, InState(functions, HasNonRevertingPath))
    {
      hide Explored, Leads, ReachableFrom, NodeDisjoint, Cutting, IsCut, PrunedExits, Pruned, SameContents,
          SameExitsOutside, WellLinked;
      hide SameExitsIn, Program.Valid, Program.CallsHaveFlows, Program.Arcs, Program.ReachesWith, Program.Owns;
      var flow := program.flows[item];
      ghost var s := InState(functions, HasNonRevertingPath);
      ghost var next := original.Arcs(item, s);
      ghost var universe := UpTo(|program.nodes|);
      ghost var before := program.nodes;
      var seen: set<NodeId> := {};
      var queue := [flow.entry];
      ExploredStart(queue, next);
      CuttingStart(original, program.nodes, item, s, t);
      while queue != []
        invariant forall n :: n in seen || n in queue ==> n < |original.nodes| && n in t[item]
        invariant Explored([flow.entry], next, seen, queue)
        invariant program == original.(nodes := program.nodes) && |program.nodes| == |original.nodes|
        invariant Cutting(original, before, program.nodes, item, s, seen, t[item])
        invariant WellLinked(before) ==> WellLinked(program.nodes)
        decreases universe - seen, |queue|
      {
        var node := queue[0];
        assert node in queue && forall n :: n in queue[1..] ==> n in queue;
        if node in seen {
          ExploredSkip([flow.entry], next, seen, queue);
          queue := queue[1..];
          continue;
        }
        ExploredVisit([flow.entry], next, seen, queue);
        assert node in universe;
        assert queue[1..] + [] == queue[1..];
        CuttingAt(original, before, program.nodes, item, s, seen, t, node);
        original.QueuedHasFlow(item, s, seen, queue);
        var called := Called(program.declarations, program.nodes[node], item);
        queue, seen := queue[1..], seen + {node};
        if called.Some? && functions[called.value] != HasNonRevertingPath {
          ghost var g := program.nodes;
          CutAfter(node, flow.revert);
          CuttingCuts(original, before, g, program.nodes, item, s, seen - {node}, t[item], node);
          continue;
        }
        CuttingPasses(original, before, program.nodes, item, s, seen - {node}, t[item], node);
        queue := queue + program.nodes[node].exits;
      }
      visited := seen;
      SearchDone(original, item, s, next, seen);
      CuttingDone(original, before, program.nodes, item, s, seen, t);
    }

    /** Cuts every flow; the order in which the flows are visited does not matter. */
    method ModifyFunctionFlows(ghost t: Territories)
      requires program.Valid() && program.CallsHaveFlows() && Found(program, functions) && NodeDisjoint(program, t)
      modifies this`program
      ensures program.flows == old(program).flows && SameContents(old(program).nodes, program.nodes)
      ensures WellLinked(old(program).nodes) ==> WellLinked(program.nodes)
      ensures forall item :: item in program.flows ==>
                && Pruned(old(program), program.nodes, item, InState(functions, HasNonRevertingPath))
                && FlowIsPruned(old(program), functions, program.nodes, item)
    {
      ghost var original, s := program, InState(functions, HasNonRevertingPath);
      ghost var visited: map<FunctionContractTuple, set<NodeId>> := map[];
      assert functions.Keys == original.flows.Keys;
      var rest := functions.Keys;
      while rest != {}
        invariant rest <= functions.Keys
        invariant program == original.(nodes := program.nodes) && SameContents(original.nodes, program.nodes)
        invariant FlowsCut(original, program.nodes, t, s, rest, visited)
        invariant WellLinked(original.nodes) ==> WellLinked(program.nodes)
        decreases rest
      {
        hide Found, Pruned, SameExitsOutside, SameContents, WellLinked;
        var item :| item in rest;
        ghost var before := program.nodes;
        ghost var v := PruneFlow(item, original, t);
        NextFlow(original, before, program.nodes, t, s, rest, visited, item, v);
        visited := visited[item := v];
        rest := rest - {item};
      }
      forall item | item in program.flows ensures FlowIsPruned(original, functions, program.nodes, item) {
        PruningIsExact(original, functions, t, program.nodes, item, visited[item]);
      }
    }

    /** Finds the states of all functions and cuts their flows. */
    method Run(ghost t: Territories)
      requires program.Valid() && program.CallsHaveFlows() && NodeDisjoint(program, t)
      modifies this
      ensures program.flows == old(program).flows && Found(old(program), functions)
      ensures SameContents(old(program).nodes, program.nodes)
      ensures WellLinked(old(program).nodes) ==> WellLinked(program.nodes)
      ensures forall item :: item in program.flows ==>
                && Pruned(old(program), program.nodes, item, InState(functions, HasNonRevertingPath))
                && FlowIsPruned(old(program), functions, program.nodes, item)
    {
      functions := map item | item in program.flows :: Unknown;
      FindRevertStates();
      ModifyFunctionFlows(t);
    }
  }

  function Without(entries: seq<NodeId>, node: NodeId): (r: seq<NodeId>)
    ensures |r| <= |entries|
  {
    if entries == [] then [] else (if entries[0] == node then [] else [entries[0]]) + Without(entries[1..], node)
  }

  /**
   * What the removal algorithm leaves behind when its result is not used to
   * shrink the vector: the kept elements move to the front, the tail stays.
   */
  function RemoveWithoutErase(entries: seq<NodeId>, node: NodeId): seq<NodeId> {
    Without(entries, node) + entries[|Without(entries, node)|..]
  }

  lemma {:induction false} WithoutHasNone(entries: seq<NodeId>, node: NodeId)
    ensures node !in Without(entries, node)
  {
    if entries != [] {
      WithoutHasNone(entries[1..], node);
    }
  }

  lemma {:induction false} WithoutIsPart(entries: seq<NodeId>, node: NodeId)
    ensures forall m :: m in Without(entries, node) <==> m in entries && m != node
  {
    if entries != [] {
      WithoutIsPart(entries[1..], node);
    }
  }

  /** What is left of `entries` after removing the node `count` times. */
  function RemovedTimes(entries: seq<NodeId>, node: NodeId, count: nat): seq<NodeId> {
    if count == 0 then entries else RemoveWithoutErase(RemovedTimes(entries, node, count - 1), node)
  }

  /** Only the entries differ: the node was removed from those of `m` once for each time `m` is in `exits`. */
  ghost predicate EntriesRemoved(g: Graph, h: Graph, node: NodeId, exits: seq<NodeId>) {
    |g| == |h| && forall m: NodeId :: m < |g| ==>
      h[m].entries == RemovedTimes(g[m].entries, node, multiset(exits)[m])
  }

  lemma RemovedOnceMore(g: Graph, h: Graph, h2: Graph, node: NodeId, done: seq<NodeId>, m: NodeId)
    requires EntriesRemoved(g, h, node, done) && SameExits(g, h) && m < |h|
    requires h2 == h[m := h[m].(entries := RemoveWithoutErase(h[m].entries, node))]
    ensures EntriesRemoved(g, h2, node, done + [m]) && SameExits(g, h2)
  {
    hide RemoveWithoutErase;
  }

  /** Other entries stay, and none is added. */
  lemma {:induction false} OthersStay(entries: seq<NodeId>, node: NodeId, count: nat)
    ensures forall m :: m in RemovedTimes(entries, node, count) ==> m in entries
    ensures forall m :: m in entries && m != node ==> m in RemovedTimes(entries, node, count)
  {
    hide RemoveWithoutErase;
    if count > 0 {
      OthersStay(entries, node, count - 1);
      OthersStayOnce(RemovedTimes(entries, node, count - 1), node);
    }
  }

  lemma OthersStayOnce(entries: seq<NodeId>, node: NodeId)
    ensures forall m :: m in RemoveWithoutErase(entries, node) ==> m in entries
    ensures forall m :: m in entries && m != node ==> m in RemoveWithoutErase(entries, node)
  {
    WithoutIsPart(entries, node);
  }

  /** After a cut every arc is still recorded at both ends. */
  lemma CuttingKeepsLinks(g: Graph, h: Graph, node: NodeId, revert: NodeId)
    requires IsCut(g, h, node, revert) && revert < |g|
    ensures WellLinked(g) ==> WellLinked(h)
  {
    hide RemovedTimes;
    forall m: NodeId | m < |g| {
      OthersStay(g[m].entries, node, multiset(g[node].exits)[m]);
    }
  }

  /**
   * The removal moves the other nodes to the front and leaves behind them what
   * was in the last places, one for each time the node was there.
   */
  lemma {:induction false} RemovalMeans(entries: seq<NodeId>, node: NodeId)
    ensures var kept, r := |entries| - multiset(entries)[node], RemoveWithoutErase(entries, node);
            && 0 <= kept && |r| == |entries|
            && multiset(r[..kept]) == multiset(entries)[node := 0] && r[kept..] == entries[kept..]
  {
    WithoutMeans(entries, node);
    var r, w := RemoveWithoutErase(entries, node), Without(entries, node);
    assert r[..|w|] == w && r[|w|..] == entries[|w|..];
  }

  lemma {:induction false} WithoutMeans(entries: seq<NodeId>, node: NodeId)
    ensures multiset(Without(entries, node)) == multiset(entries)[node := 0]
    ensures |Without(entries, node)| == |entries| - multiset(entries)[node]
  {
    if entries != [] {
      WithoutMeans(entries[1..], node);
      assert entries == [entries[0]] + entries[1..];
    }
  }

  /** The node is really gone only if it does not occur in the part that is not overwritten. */
  lemma RemovedOnlyFromFront(entries: seq<NodeId>, node: NodeId)
    ensures |RemoveWithoutErase(entries, node)| == |entries|
    ensures node !in RemoveWithoutErase(entries, node) <==> node !in entries[|entries| - multiset(entries)[node]..]
  {
    WithoutHasNone(entries, node);
    WithoutMeans(entries, node);
  }

  /** So a last entry is never removed. */
  lemma LastEntryStays(entries: seq<NodeId>, node: NodeId)
    requires entries != [] && entries[|entries| - 1] == node
    ensures node in RemoveWithoutErase(entries, node)
  {
    WithoutShorter(entries, node);
    RemovedOnlyFromFront(entries, node);
    var k := |Without(entries, node)|;
    assert entries[k..][|entries| - 1 - k] == node;
  }

  lemma {:induction false} WithoutShorter(entries: seq<NodeId>, node: NodeId)
    requires node in entries
    ensures |Without(entries, node)| < |entries|
  {
    if entries[0] != node {
      WithoutShorter(entries[1..], node);
    }
  }

  type Territories = map<FunctionContractTuple, set<NodeId>>

  /** The flows share no nodes, and their ends are ends. */
  ghost predicate NodeDisjoint(p: Program, t: Territories) {
    && t.Keys == p.flows.Keys
    && (forall item :: item in t ==>
          && p.flows[item].entry in t[item] && p.flows[item].revert in t[item]
          && p.flows[item].revert < |p.nodes| && p.flows[item].revert != p.flows[item].exit
          && p.nodes[p.flows[item].revert].exits == [] && p.nodes[p.flows[item].revert].functionDefinition == None)
    && (forall item, n, m :: item in t && n in t[item] && n < |p.nodes| && m in p.nodes[n].exits ==> m in t[item])
    && (forall item, other, n :: item in t && other in t && item != other && n in t[item] ==> n !in t[other])
  }

  predicate SameContent(n: CFGNode, m: CFGNode) {
    n.functionDefinition == m.functionDefinition && n.variableOccurrences == m.variableOccurrences
        && n.location == m.location
  }

  /** The graphs differ in their arcs only. */
  ghost predicate SameContents(g: Graph, h: Graph) {
    |g| == |h| && forall n :: 0 <= n < |g| ==> SameContent(g[n], h[n])
  }

  /** No arc leaves the graph, in either direction, and every arc is recorded where it ends. */
  ghost predicate WellLinked(g: Graph) {
    && (forall n: NodeId, m :: n < |g| && m in g[n].exits ==> m < |g|)
    && (forall n: NodeId, m :: n < |g| && m in g[n].entries ==> m < |g|)
    && (forall n: NodeId, m :: n < |g| && m in g[n].exits && m < |g| ==> n in g[m].entries)
  }

  /** The graphs differ in their entries only. */
  ghost predicate SameExits(g: Graph, h: Graph) {
    SameContents(g, h) && forall n :: 0 <= n < |g| ==> g[n].exits == h[n].exits
  }

  ghost predicate SameExitsIn(g: Graph, h: Graph, s: set<NodeId>) {
    |g| == |h| && forall n :: n in s && n < |g| ==> g[n].exits == h[n].exits
  }

  ghost predicate SameExitsOutside(g: Graph, h: Graph, s: set<NodeId>) {
    |g| == |h| && forall n: NodeId :: n !in s && n < |g| ==> g[n].exits == h[n].exits
  }

  lemma SameExitsElsewhere(p: Program, t: Territories, g: Graph, h: Graph, item: FunctionContractTuple,
                           other: FunctionContractTuple)
    requires NodeDisjoint(p, t) && item in t && other in t && item != other
    requires SameExitsIn(p.nodes, g, t[other]) && SameExitsOutside(g, h, t[item])
    ensures SameExitsIn(p.nodes, h, t[other])
  {
  }

  /** Whatever can be reached in a flow lies in its territory. */
  lemma TerritoryHoldsFlow(p: Program, t: Territories, item: FunctionContractTuple, n: NodeId,
                           s: set<FunctionContractTuple>)
    requires p.Valid() && NodeDisjoint(p, t) && item in t && p.ReachesWith(item, n, s)
    ensures n in t[item]
  {
    var walk :| WalkTo(p.Arcs(item, s), walk, p.flows[item].entry, n);
    WalkStaysIn(p.Arcs(item, s), walk, t[item]);
  }

  lemma PrunedElsewhere(p: Program, t: Territories, g: Graph, h: Graph, item: FunctionContractTuple,
                        other: FunctionContractTuple, s: set<FunctionContractTuple>)
    requires p.Valid() && NodeDisjoint(p, t) && item in t && other in t && item != other
    requires Pruned(p, g, other, s) && SameExitsOutside(g, h, t[item])
    ensures Pruned(p, h, other, s)
  {
    forall n: NodeId | p.ReachesWith(other, n, s) ensures n < |h| && h[n].exits == PrunedExits(p, other, n, s) {
      TerritoryHoldsFlow(p, t, other, n, s);
    }
  }

  /** The flows that are not in `rest` have been cut, the others are as they were. */
  ghost predicate FlowsCut(p: Program, g: Graph, t: Territories, s: set<FunctionContractTuple>,
                           rest: set<FunctionContractTuple>, visited: map<FunctionContractTuple, set<NodeId>>)
  {
    && t.Keys == p.flows.Keys && rest <= t.Keys
    && (forall item :: item in rest ==> SameExitsIn(p.nodes, g, t[item]))
    && (forall item :: item in t.Keys - rest ==>
          && Pruned(p, g, item, s) && item in visited
          && forall n :: n in visited[item] <==> p.ReachesWith(item, n, s))
  }

  lemma NextFlow(p: Program, g: Graph, h: Graph, t: Territories, s: set<FunctionContractTuple>,
                 rest: set<FunctionContractTuple>,
                 visited: map<FunctionContractTuple, set<NodeId>>, item: FunctionContractTuple, v: set<NodeId>)
    requires p.Valid() && NodeDisjoint(p, t) && FlowsCut(p, g, t, s, rest, visited) && item in rest
    requires SameExitsOutside(g, h, t[item]) && Pruned(p, h, item, s)
    requires forall n :: n in v <==> p.ReachesWith(item, n, s)
    ensures FlowsCut(p, h, t, s, rest - {item}, visited[item := v])
  {
    hide NodeDisjoint, Pruned, SameExitsOutside, SameExitsIn;
    forall other | other in t.Keys && other != item
      ensures other in rest ==> SameExitsIn(p.nodes, h, t[other])
      ensures other !in rest ==> Pruned(p, h, other, s)
    {
      if other in rest {
        SameExitsElsewhere(p, t, g, h, item, other);
      } else {
        PrunedElsewhere(p, t, g, h, item, other, s);
      }
    }
  }

  /** `revert` has become the only exit of `node`; apart from entries nothing else has changed. */
  ghost predicate IsCut(g: Graph, h: Graph, node: NodeId, revert: NodeId) {
    && SameContents(g, h) && node < |g| && h[node].exits == [revert]
    && (forall n :: 0 <= n < |g| && n != node ==> h[n].exits == g[n].exits)
    && forall m: NodeId :: m < |g| ==>
         h[m].entries == RemovedTimes(g[m].entries, node, multiset(g[node].exits)[m])
                         + if m == revert then [node] else []
  }

  /** Half-way through cutting a flow: the nodes in `seen` are done, the rest of the graph is as before. */
  ghost predicate Cutting(p: Program, before: Graph, g: Graph, item: FunctionContractTuple,
                          s: set<FunctionContractTuple>, seen: set<NodeId>, territory: set<NodeId>)
    requires item in p.flows
  {
    && SameContents(p.nodes, g) && SameExitsOutside(before, g, territory)
    && forall n :: n in territory && n < |p.nodes| ==>
         g[n].exits == if n in seen then PrunedExits(p, item, n, s) else p.nodes[n].exits
  }

  lemma CuttingStart(p: Program, g: Graph, item: FunctionContractTuple, s: set<FunctionContractTuple>, t: Territories)
    requires p.Valid() && item in p.flows && NodeDisjoint(p, t)
    requires SameContents(p.nodes, g) && SameExitsIn(p.nodes, g, t[item])
    ensures item in t && Cutting(p, g, g, item, s, {}, t[item])
    ensures p.flows[item].entry < |p.nodes| && p.flows[item].entry in t[item] && |g| == |p.nodes|
  {
  }

  lemma CuttingAt(p: Program, before: Graph, g: Graph, item: FunctionContractTuple, s: set<FunctionContractTuple>,
                  seen: set<NodeId>, t: Territories, node: NodeId)
    requires p.Valid() && item in p.flows && NodeDisjoint(p, t) && Cutting(p, before, g, item, s, seen, t[item])
    requires node in t[item] && node !in seen && node < |p.nodes|
    ensures g[node].exits == p.nodes[node].exits && Called(p.declarations, g[node], item) == p.Callee(item, node)
    ensures p.Arcs(item, s)(node) == if p.Passes(item, node, s) then p.nodes[node].exits else []
    ensures forall m :: m in p.nodes[node].exits ==> m < |p.nodes| && m in t[item]
    ensures p.flows[item].revert < |p.nodes|
  {
  }

  lemma CuttingCuts(p: Program, before: Graph, g: Graph, h: Graph, item: FunctionContractTuple,
                    s: set<FunctionContractTuple>, seen: set<NodeId>, territory: set<NodeId>, node: NodeId)
    requires item in p.flows && Cutting(p, before, g, item, s, seen, territory) && node in territory && node < |p.nodes|
    requires IsCut(g, h, node, p.flows[item].revert) && !p.Passes(item, node, s)
    ensures |h| == |p.nodes| && Cutting(p, before, h, item, s, seen + {node}, territory)
  {
  }

  lemma CuttingPasses(p: Program, before: Graph, g: Graph, item: FunctionContractTuple, s: set<FunctionContractTuple>,
                      seen: set<NodeId>, territory: set<NodeId>, node: NodeId)
    requires item in p.flows && Cutting(p, before, g, item, s, seen, territory) && node !in seen
    requires p.Passes(item, node, s)
    ensures Cutting(p, before, g, item, s, seen + {node}, territory)
  {
  }

  lemma CuttingDone(p: Program, before: Graph, g: Graph, item: FunctionContractTuple, s: set<FunctionContractTuple>,
                    seen: set<NodeId>, t: Territories)
    requires p.Valid() && item in p.flows && NodeDisjoint(p, t) && Cutting(p, before, g, item, s, seen, t[item])
    requires forall n :: n in seen <==> p.ReachesWith(item, n, s)
    requires forall n :: n in seen ==> n < |p.nodes| && n in t[item]
    ensures Pruned(p, g, item, s) && SameContents(p.nodes, g) && SameExitsOutside(before, g, t[item])
  {
    assert p.Passes(item, p.flows[item].revert, s);
  }

  /** The exits of node `n` of `item` after pruning, when exactly the functions in `s` can return. */
  function PrunedExits(p: Program, item: FunctionContractTuple, n: NodeId, s: set<FunctionContractTuple>): seq<NodeId>
    requires item in p.flows && n < |p.nodes|
  {
    if p.Passes(item, n, s) then p.nodes[n].exits else [p.flows[item].revert]
  }

  /** The flow of `item` in `g` is that in `p`, cut after calls of functions outside `s`. */
  ghost predicate Pruned(p: Program, g: Graph, item: FunctionContractTuple, s: set<FunctionContractTuple>)
    requires item in p.flows
  {
    && |g| == |p.nodes|
    && (forall n: NodeId :: p.ReachesWith(item, n, s) ==> n < |g| && g[n].exits == PrunedExits(p, item, n, s))
    && p.flows[item].revert < |g| && g[p.flows[item].revert].exits == []
  }

  /** A walk in the unpruned flow that passes all its calls is a walk in the pruned one. */
  lemma {:induction false} PassingWalkRemains(p: Program, g: Graph, item: FunctionContractTuple,
                                              s: set<FunctionContractTuple>, walk: seq<NodeId>)
    requires item in p.flows && Pruned(p, g, item, s) && walk != []
    requires walk[0] == p.flows[item].entry && IsWalk(p.Arcs(item, s), walk)
    ensures IsWalk(AllArcs(g), walk) && p.ReachesWith(item, walk[|walk| - 1], s)
    decreases |walk|
  {
    if |walk| == 1 {
      LeadsToItself(p.Arcs(item, s), walk[0]);
    } else {
      var k := |walk| - 1;
      var front := walk[..k];
      forall i | 0 <= i < k - 1 ensures front[i + 1] in p.Arcs(item, s)(front[i]) {
        assert walk[i + 1] in p.Arcs(item, s)(walk[i]);
      }
      PassingWalkRemains(p, g, item, s, front);
      assert walk[k - 1 + 1] in p.Arcs(item, s)(walk[k - 1]);
      LeadsStep(p.Arcs(item, s), walk[0], walk[k - 1], walk[k]);
      forall i | 0 <= i < |walk| - 1 ensures walk[i + 1] in AllArcs(g)(walk[i]) {
        if i < k - 1 {
          assert front[i + 1] in AllArcs(g)(front[i]);
        }
      }
    }
  }

  /** In the pruned flow, only the revert node can be reached that could not be reached by passing all calls. */
  lemma PrunedReaches(p: Program, g: Graph, item: FunctionContractTuple, s: set<FunctionContractTuple>, v: set<NodeId>,
                      n: NodeId)
    requires p.Valid() && item in p.flows && Pruned(p, g, item, s)
    requires forall m :: m in v <==> p.ReachesWith(item, m, s)
    requires Leads(AllArcs(g), p.flows[item].entry, n)
    ensures p.ReachesWith(item, n, s) || n == p.flows[item].revert
  {
    var next, revert := AllArcs(g), p.flows[item].revert;
    var reach := v + {revert};
    LeadsToItself(p.Arcs(item, s), p.flows[item].entry);
    forall u, w | u in reach && w in next(u) ensures w in reach {
      if u != revert && p.Passes(item, u, s) {
        assert w in p.Arcs(item, s)(u);
        LeadsStep(p.Arcs(item, s), p.flows[item].entry, u, w);
      }
    }
    var walk :| WalkTo(next, walk, p.flows[item].entry, n);
    WalkStaysIn(next, walk, reach);
  }

  /** Node `n` of `item` calls a function that has no non-reverting path. */
  predicate CallsNonReturning(p: Program, states: RevertStates, item: FunctionContractTuple, n: NodeId) {
    var callee := p.Callee(item, n);
    callee.Some? && callee.value in states && states[callee.value] != HasNonRevertingPath
  }

  /**
   * After pruning, the exit of a function can be reached if and only if the
   * function has a non-reverting path, and a reachable call of a function
   * without one leads to the revert node only.
   */
  ghost predicate FlowIsPruned(p: Program, states: RevertStates, g: Graph, item: FunctionContractTuple)
    requires item in p.flows && item in states
  {
    && (Leads(AllArcs(g), p.flows[item].entry, p.flows[item].exit) <==> states[item] == HasNonRevertingPath)
    && (forall n: NodeId :: Leads(AllArcs(g), p.flows[item].entry, n) && CallsNonReturning(p, states, item, n) ==>
          n < |g| && g[n].exits == [p.flows[item].revert])
  }

  lemma ReturningStays(p: Program, g: Graph, item: FunctionContractTuple, s: set<FunctionContractTuple>)
    requires item in p.flows && Pruned(p, g, item, s) && p.CanReturnWith(item, s)
    ensures Leads(AllArcs(g), p.flows[item].entry, p.flows[item].exit)
  {
    var flow := p.flows[item];
    var walk :| WalkTo(p.Arcs(item, s), walk, flow.entry, flow.exit);
    PassingWalkRemains(p, g, item, s, walk);
    assert WalkTo(AllArcs(g), walk, flow.entry, flow.exit);
  }

  lemma PruningIsExact(p: Program, states: RevertStates, t: Territories, g: Graph, item: FunctionContractTuple,
                       v: set<NodeId>)
    requires p.Valid() && Found(p, states) && NodeDisjoint(p, t) && item in p.flows
    requires Pruned(p, g, item, InState(states, HasNonRevertingPath))
    requires forall m :: m in v <==> p.ReachesWith(item, m, InState(states, HasNonRevertingPath))
    ensures FlowIsPruned(p, states, g, item)
  {
    var s, flow := InState(states, HasNonRevertingPath), p.flows[item];
    assert (item in s <==> p.CanReturnWith(item, s)) && item in states && flow.revert != flow.exit;
    assert flow.revert < |p.nodes| && p.nodes[flow.revert].functionDefinition == None;
    hide Found, NodeDisjoint, Leads, WalkTo, IsWalk;
    if states[item] == HasNonRevertingPath {
      ReturningStays(p, g, item, s);
    }
    forall n | Leads(AllArcs(g), flow.entry, n) ensures p.ReachesWith(item, n, s) || n == flow.revert {
      PrunedReaches(p, g, item, s, v, n);
    }
  }

  lemma NothingKnown(p: Program, states: RevertStates)
    requires states.Keys == p.flows.Keys && forall item :: item in states ==> states[item] == Unknown
    ensures Invariant(p, states, states.Keys, map[], map[])
  {
    assert InState(states, HasNonRevertingPath) == {};
  }

  /** Among more elements than a set has, two are equal. */
  lemma {:induction false} PigeonHole<T>(s: seq<T>, u: set<T>)
    requires (forall i :: 0 <= i < |s| ==> s[i] in u) && |s| > |u|
    ensures exists i, j :: 0 <= i < j < |s| && s[i] == s[j]
    decreases |s|
  {
    var k := |s| - 1;
    if i :| 0 <= i < k && s[i] == s[k] {
    } else {
      PigeonHole(s[..k], u - {s[k]});
      var i, j :| 0 <= i < j < k && s[..k][i] == s[..k][j];
      assert s[i] == s[j];
    }
  }

  /** On a node that it can reach, `item` calls `callee`, about which nothing is known. */
  ghost predicate WaitsFor(p: Program, states: RevertStates, item: FunctionContractTuple, callee: FunctionContractTuple)
    requires item in p.flows
  {
    exists n :: p.ReachesWith(item, n, InState(states, HasNonRevertingPath)) && CallsOne(p, states, item, n, Unknown)
                && p.Callee(item, n) == Some(callee)
  }

  ghost predicate WaitingChain(p: Program, states: RevertStates, chain: seq<FunctionContractTuple>)
    requires states.Keys == p.flows.Keys
  {
    && (forall i :: 0 <= i < |chain| ==> chain[i] in InState(states, Unknown))
    && (forall i :: 0 <= i < |chain| - 1 ==> WaitsFor(p, states, chain[i], chain[i + 1]))
  }

  lemma WaitsForSome(p: Program, states: RevertStates, item: FunctionContractTuple)
      returns (callee: FunctionContractTuple)
    requires Found(p, states) && item in states && states[item] == Unknown
    ensures callee in states && states[callee] == Unknown && item in p.flows && WaitsFor(p, states, item, callee)
    ensures states.Keys == p.flows.Keys
  {
    hide Program.IsLeastClosed, Program.CanReturnWith, Program.ReachesWith;
    assert states.Keys == p.flows.Keys;
    var n :| p.ReachesWith(item, n, InState(states, HasNonRevertingPath)) && CallsOne(p, states, item, n, Unknown);
    callee := p.Callee(item, n).value;
  }

  lemma {:induction false} WaitingChainOfLength(p: Program, states: RevertStates, item: FunctionContractTuple, k: nat)
    returns (chain: seq<FunctionContractTuple>)
    requires Found(p, states) && item in states && states[item] == Unknown
    ensures states.Keys == p.flows.Keys
    ensures WaitingChain(p, states, chain) && |chain| == k + 1 && chain[0] == item
    decreases k
  {
    hide Found, WaitsFor;
    var callee := WaitsForSome(p, states, item);
    chain := [item];
    if k > 0 {
      var rest := WaitingChainOfLength(p, states, callee, k - 1);
      chain := chain + rest;
      forall i | 0 <= i < |chain| - 1 ensures WaitsFor(p, states, chain[i], chain[i + 1]) {
        if i > 0 {
          assert WaitsFor(p, states, rest[i - 1], rest[i - 1 + 1]);
        }
      }
    }
  }

  /**
   * States stay unknown only because of recursion: from every function whose
   * state is unknown a cycle of such functions can be reached by calls.
   */
  lemma UnknownOnlyByRecursion(p: Program, states: RevertStates, item: FunctionContractTuple)
    returns (chain: seq<FunctionContractTuple>, i: nat, j: nat)
    requires Found(p, states) && item in states && states[item] == Unknown
    ensures states.Keys == p.flows.Keys
    ensures WaitingChain(p, states, chain) && |chain| > 0 && chain[0] == item
    ensures i < j < |chain| && chain[i] == chain[j]
  {
    var unknown := InState(states, Unknown);
    chain := WaitingChainOfLength(p, states, item, |unknown|);
    PigeonHole(chain, unknown);
    i, j :| 0 <= i < j < |chain| && chain[i] == chain[j];
  }
}
