/**
 * From one pass to the next: what the builder produces is what the revert
 * pruner and the analyzer rely on, and what the pruner finds in the graphs is
 * true of the executions of the functions.
 */
module ControlFlowPipeline {
  import opened Util
  import opened Algorithms
  import opened ControlFlowGraph
  import opened ControlFlowSemantics
  import opened ControlFlowBuilder
  import opened ControlFlowRuns
  import opened ControlFlowCorrectness
  import opened ControlFlowLocality
  import BuilderClass = ControlFlowBuilderClass
  import Pruner = ControlFlowRevertPruner
  import Analyzer = ControlFlowAnalyzer
  import Locations = SourceLocations

  /** A function's flow, and the end of the stretch of nodes made for it. */
  datatype Built = Built(flow: FunctionFlow, end: nat)

  /** `b` is a finished function in `g`. */
  ghost predicate IsBuilt(g: Graph, b: Built) {
    && b.flow.entry < b.flow.exit < b.flow.revert < b.end <= |g|
    && SameFlow(g[b.flow.revert], EMPTY_NODE)
    && (forall n: NodeId, m: NodeId :: b.flow.entry <= n < b.end && HasExit(g, n, m) ==> b.flow.entry <= m < b.end)
  }

  lemma FunctionIsBuilt(f: FunctionDefinition, nodes: Graph, g: Graph)
    requires WellFormed(f) && Holds(g, VisitFunction(f, nodes).result.nodes)
    ensures IsBuilt(g, Built(FlowOf(nodes), |VisitFunction(f, nodes).result.nodes|))
  {
    BuildingIsLocal(f, nodes);
    RevertNodeIsAnEnd(f, nodes);
    hide VisitFunction;
    var h := VisitFunction(f, nodes).result.nodes;
    forall n: NodeId, m: NodeId | |nodes| <= n < |h| && HasExit(g, n, m) ensures |nodes| <= m < |h| {
      assert HasExit(h, n, m);
    }
  }

  lemma RevertNodeIsAnEnd(f: FunctionDefinition, nodes: Graph)
    requires WellFormed(f)
    ensures FlowOf(nodes).revert < |VisitFunction(f, nodes).result.nodes|
    ensures SameFlow(VisitFunction(f, nodes).result.nodes[FlowOf(nodes).revert], EMPTY_NODE)
  {
    hide Visit, Frame, VisitReturnParameters;
    var r := VisitFunction(f, nodes);
    assert SameJumps(r.start, r.bodyEnd) && Building(r.bodyEnd, f.returnParameters);
  }

  /** One was finished before the other was begun. */
  ghost predicate Apart(a: Built, b: Built) {
    a.end <= b.flow.entry || b.end <= a.flow.entry
  }

  function Nodes(b: Built): set<NodeId> {
    set n: NodeId | n in UpTo(b.end) && b.flow.entry <= n
  }

  /** Functions that were built one after the other do not share nodes, so they can be pruned. */
  lemma BuiltFlowsAreDisjoint(p: Pruner.Program, parts: map<Pruner.FunctionContractTuple, Built>)
    requires parts.Keys == p.flows.Keys
    requires forall item :: item in parts ==> parts[item].flow == p.flows[item] && IsBuilt(p.nodes, parts[item])
    requires forall item, other :: item in parts && other in parts && item != other ==> Apart(parts[item], parts[other])
    ensures Pruner.NodeDisjoint(p, map item | item in parts :: Nodes(parts[item]))
  {
    hide Nodes, IsBuilt, Apart;
    var t := map item | item in parts :: Nodes(parts[item]);
    forall item | item in t
      ensures p.flows[item].entry in t[item] && p.flows[item].revert in t[item]
      ensures p.flows[item].revert < |p.nodes| && SameFlow(p.nodes[p.flows[item].revert], EMPTY_NODE)
      ensures p.flows[item].revert != p.flows[item].exit
      ensures forall n: NodeId, m: NodeId :: n in t[item] && n < |p.nodes| && m in p.nodes[n].exits ==> m in t[item]
    {
      FlowStaysIn(p.nodes, parts[item]);
    }
    forall item, other | item in t && other in t && item != other ensures t[item] !! t[other] {
      NodesAreApart(parts[item], parts[other]);
    }
  }

  lemma FlowStaysIn(g: Graph, b: Built)
    requires IsBuilt(g, b)
    ensures b.flow.entry in Nodes(b) && b.flow.revert in Nodes(b)
    ensures b.flow.revert < |g| && SameFlow(g[b.flow.revert], EMPTY_NODE) && b.flow.revert != b.flow.exit
    ensures forall n: NodeId, m: NodeId :: n in Nodes(b) && n < |g| && m in g[n].exits ==> m in Nodes(b)
  {
    forall n: NodeId, m: NodeId | n in Nodes(b) && n < |g| && m in g[n].exits ensures m in Nodes(b) {
      assert HasExit(g, n, m);
    }
  }

  lemma NodesAreApart(a: Built, b: Built)
    requires Apart(a, b)
    ensures Nodes(a) !! Nodes(b)
  {
  }

  // ------------------------------------------------- building all the functions

  type Item = Pruner.FunctionContractTuple

  /** A function to build a flow for, with its calls resolved for a contract. */
  datatype Unit = Unit(item: Item, definition: FunctionDefinition)

  /** A function, and the nodes that existed before it was built. */
  datatype Part = Part(definition: FunctionDefinition, nodes: Graph)

  predicate UnitsWellFormed(units: seq<Unit>) {
    forall i :: 0 <= i < |units| ==> WellFormed(units[i].definition)
  }

  function BuildAll(units: seq<Unit>): Graph
    requires UnitsWellFormed(units)
  {
    if units == [] then [] else
      var k := |units| - 1;
      VisitFunction(units[k].definition, BuildAll(units[..k])).result.nodes
  }

  /** A later flow replaces an earlier one of the same function. */
  function Parts(units: seq<Unit>): map<Item, Part>
    requires UnitsWellFormed(units)
  {
    if units == [] then map[] else
      var k := |units| - 1;
      Parts(units[..k])[units[k].item := Part(units[k].definition, BuildAll(units[..k]))]
  }

  function Flows(units: seq<Unit>): map<Item, FunctionFlow>
    requires UnitsWellFormed(units)
  {
    map item | item in Parts(units) :: FlowOf(Parts(units)[item].nodes)
  }

  function ProgramOf(d: Pruner.Declarations, units: seq<Unit>): Pruner.Program
    requires UnitsWellFormed(units)
  {
    Pruner.Program(d, BuildAll(units), Flows(units))
  }

  lemma NothingBuilt()
    ensures BuildAll([]) == [] && Flows([]) == map[]
  {
  }

  lemma BuildStep(units: seq<Unit>, i: nat)
    requires UnitsWellFormed(units) && i < |units|
    ensures UnitsWellFormed(units[..i]) && UnitsWellFormed(units[..i + 1])
    ensures BuildAll(units[..i + 1]) == VisitFunction(units[i].definition, BuildAll(units[..i])).result.nodes
    ensures Flows(units[..i + 1]) == Flows(units[..i])[units[i].item := FlowOf(BuildAll(units[..i]))]
  {
    hide VisitFunction;
    assert units[..i + 1][..i] == units[..i];
  }

  method ConstructFlows(container: NodeContainer, units: seq<Unit>) returns (flows: map<Item, FunctionFlow>)
    requires container.nodes == [] && UnitsWellFormed(units)
    modifies container
    ensures container.nodes == BuildAll(units) && flows == Flows(units)
  {
    hide VisitFunction, HasPath, CanReturn, CanRevert, BuildAll, Flows;
    flows := map[];
    NothingBuilt();
    for i := 0 to |units|
      invariant container.nodes == BuildAll(units[..i]) && flows == Flows(units[..i])
    {
      BuildStep(units, i);
      var flow := BuilderClass.CreateFunctionFlow(container, units[i].definition);
      flows := flows[units[i].item := flow];
    }
    assert units[..|units|] == units;
  }

  function BuiltOf(part: Part): Built
    requires WellFormed(part.definition)
  {
    Built(FlowOf(part.nodes), |VisitFunction(part.definition, part.nodes).result.nodes|)
  }

  ghost predicate IsPartOf(g: Graph, part: Part) {
    WellFormed(part.definition) && Holds(g, VisitFunction(part.definition, part.nodes).result.nodes)
  }

  lemma HoldsTransitive(g: Graph, h: Graph, k: Graph)
    requires Holds(g, h) && Holds(h, k)
    ensures Holds(g, k)
  {
  }

  /** All flows are finished, and stay so in any larger graph. */
  lemma {:induction false} PartsHold(units: seq<Unit>, g: Graph)
    requires UnitsWellFormed(units) && Holds(g, BuildAll(units))
    ensures forall item :: item in Parts(units) ==>
              && IsPartOf(g, Parts(units)[item])
              && BuiltOf(Parts(units)[item]).end <= |BuildAll(units)|
    decreases |units|
  {
    hide VisitFunction, Holds;
    if units != [] {
      var k := |units| - 1;
      var before := BuildAll(units[..k]);
      HoldsItself(before);
      LaterFunctionsHold(units[k].definition, before, before);
      HoldsTransitive(g, BuildAll(units), before);
      HoldsFewer(BuildAll(units), before);
      PartsHold(units[..k], g);
    }
  }

  lemma HoldsItself(g: Graph)
    ensures Holds(g, g)
  {
  }

  lemma HoldsFewer(g: Graph, h: Graph)
    requires Holds(g, h)
    ensures |h| <= |g|
  {
  }

  lemma PartIsWellFormed(units: seq<Unit>, item: Item)
    requires UnitsWellFormed(units) && item in Parts(units)
    ensures WellFormed(Parts(units)[item].definition)
  {
    hide WellFormed;
    var i := PartIsUnit(units, item);
  }

  lemma {:induction false} PartsAreApart(units: seq<Unit>, item: Item, other: Item)
    requires UnitsWellFormed(units) && item in Parts(units) && other in Parts(units) && item != other
    ensures WellFormed(Parts(units)[item].definition) && WellFormed(Parts(units)[other].definition)
    ensures Apart(BuiltOf(Parts(units)[item]), BuiltOf(Parts(units)[other]))
    decreases |units|
  {
    hide VisitFunction, Holds, WellFormed, BuildAll;
    var k := |units| - 1;
    HoldsItself(BuildAll(units[..k]));
    PartsHold(units[..k], BuildAll(units[..k]));
    if item != units[k].item && other != units[k].item {
      PartsAreApart(units[..k], item, other);
    }
  }

  function BuiltParts(units: seq<Unit>): map<Item, Built>
    requires UnitsWellFormed(units)
  {
    map item | item in Parts(units) :: PartIsWellFormed(units, item); BuiltOf(Parts(units)[item])
  }

  ghost function TerritoriesOf(units: seq<Unit>): Pruner.Territories
    requires UnitsWellFormed(units)
  {
    map item | item in BuiltParts(units) :: Nodes(BuiltParts(units)[item])
  }

  lemma PartIsBuilt(units: seq<Unit>, item: Item)
    requires UnitsWellFormed(units) && item in Parts(units)
    ensures item in BuiltParts(units) && BuiltParts(units)[item].flow == Flows(units)[item]
    ensures IsBuilt(BuildAll(units), BuiltParts(units)[item])
  {
    hide VisitFunction, Holds, IsBuilt, BuildAll, Parts, WellFormed;
    HoldsItself(BuildAll(units));
    PartsHold(units, BuildAll(units));
    FunctionIsBuilt(Parts(units)[item].definition, Parts(units)[item].nodes, BuildAll(units));
  }

  /** The flows of a program that was built from nothing do not share nodes. */
  lemma ProgramIsDisjoint(d: Pruner.Declarations, units: seq<Unit>)
    requires UnitsWellFormed(units)
    ensures Pruner.NodeDisjoint(ProgramOf(d, units), TerritoriesOf(units))
  {
    var p, parts := ProgramOf(d, units), BuiltParts(units);
    assert parts.Keys == p.flows.Keys;
    forall item, other | item in parts && other in parts && item != other ensures Apart(parts[item], parts[other]) {
      PartsAreApart(units, item, other);
    }
    hide IsBuilt, BuildAll, Apart, Nodes, Pruner.NodeDisjoint;
    forall item | item in parts ensures parts[item].flow == p.flows[item] && IsBuilt(p.nodes, parts[item]) {
      PartIsBuilt(units, item);
    }
    BuiltFlowsAreDisjoint(p, parts);
  }

  function CalleesOfUnits(units: seq<Unit>): set<FunctionId> {
    if units == [] then {} else CalleesOfUnits(units[..|units| - 1]) + CalleesOf(units[|units| - 1].definition)
  }

  lemma {:induction false} GraphIsLocal(units: seq<Unit>, calls: set<FunctionId>)
    requires UnitsWellFormed(units) && CalleesOfUnits(units) <= calls
    ensures LocalGraph(Scope(0, calls), BuildAll(units))
    decreases |units|
  {
    hide VisitFunction;
    if units == [] {
      NothingIsLocal([], calls);
    } else {
      var k := |units| - 1;
      GraphIsLocal(units[..k], calls);
      BuildingStaysLocal(units[k].definition, BuildAll(units[..k]), Scope(0, calls));
    }
  }

  lemma GraphIsClosed(units: seq<Unit>)
    requires UnitsWellFormed(units)
    ensures Pruner.WellLinked(BuildAll(units))
  {
    hide BuildAll;
    var g := BuildAll(units);
    GraphIsLocal(units, CalleesOfUnits(units));
    forall n: NodeId, m | n < |g| && m in g[n].exits ensures m < |g| {
      assert HasExit(g, n, m);
    }
    forall n: NodeId, m | n < |g| && m in g[n].entries ensures m < |g| {
      assert HasEntry(g, n, m);
    }
    forall n: NodeId, m | n < |g| && m in g[n].exits && m < |g| ensures n in g[m].entries {
      assert HasExit(g, n, m) && HasEntry(g, m, n);
    }
  }

  lemma FlowsEnd(units: seq<Unit>, item: Item)
    requires UnitsWellFormed(units) && item in Flows(units)
    ensures Flows(units)[item].transactionReturn < |BuildAll(units)|
  {
    hide VisitFunction, Holds, BuildAll, Parts;
    HoldsItself(BuildAll(units));
    PartsHold(units, BuildAll(units));
    BuildingIsLocal(Parts(units)[item].definition, Parts(units)[item].nodes);
  }

  /** Every flow of such a program is what the analyzer expects. */
  lemma FlowsAreInRange(units: seq<Unit>, item: Item)
    requires UnitsWellFormed(units) && item in Flows(units)
    ensures Analyzer.InRange(BuildAll(units), Flows(units)[item])
  {
    hide BuildAll, Parts;
    GraphIsClosed(units);
    FlowsEnd(units, item);
  }

  lemma ProgramIsValid(d: Pruner.Declarations, units: seq<Unit>)
    requires UnitsWellFormed(units)
    ensures ProgramOf(d, units).Valid()
  {
    hide BuildAll, Parts;
    GraphIsClosed(units);
    var p := ProgramOf(d, units);
    assert p.nodes == BuildAll(units);
    forall n: NodeId, m | n < |p.nodes| && m in p.nodes[n].exits ensures m < |p.nodes| {
      assert m in BuildAll(units)[n].exits;
    }
    forall item | item in p.flows ensures p.flows[item].entry < |p.nodes| {
      FlowsAreInRange(units, item);
    }
  }

  /** Every implemented function that is called in the source has been built. */
  ghost predicate CallsAreBuilt(d: Pruner.Declarations, units: seq<Unit>)
    requires UnitsWellFormed(units)
  {
    forall i, target: Item ::
      0 <= i < |units| && target.definition in CalleesOf(units[i].definition) && RunsAs(d, units[i].item, target) ==>
        target in Parts(units)
  }

  /**
   * A call from `item` to the definition of `target` runs `target`: it is
   * implemented, and analysed for that contract.
   */
  ghost predicate RunsAs(d: Pruner.Declarations, item: Item, target: Item) {
    d.isImplemented(target.definition) && Pruner.IsScope(d, target.definition, item.contract, target.contract)
  }

  /** The pruner's lookup finds what a call runs. */
  lemma CalleeRuns(p: Pruner.Program, item: Item, n: NodeId, target: Item)
    requires n < |p.nodes|
    ensures p.Callee(item, n) == Some(target) <==>
              p.nodes[n].functionDefinition == Some(target.definition) && RunsAs(p.declarations, item, target)
  {
    hide Pruner.IsScope;
    if p.nodes[n].functionDefinition == Some(target.definition) && RunsAs(p.declarations, item, target) {
      var scope := Pruner.FindScopeContract(p.declarations, target.definition, item.contract);
      Pruner.ScopeIsUnique(p.declarations, target.definition, item.contract, scope, target.contract);
    }
  }

  lemma {:induction false} PartIsUnit(units: seq<Unit>, item: Item) returns (i: nat)
    requires UnitsWellFormed(units) && item in Parts(units)
    ensures i < |units| && units[i].item == item && units[i].definition == Parts(units)[item].definition
    decreases |units|
  {
    var k := |units| - 1;
    if units[k].item == item {
      i := k;
    } else {
      i := PartIsUnit(units[..k], item);
    }
  }

  /** The nodes of a flow call only functions that the source of its function calls. */
  lemma OwnedCalls(d: Pruner.Declarations, units: seq<Unit>, item: Item, n: NodeId)
    requires UnitsWellFormed(units) && item in Flows(units) && ProgramOf(d, units).Owns(item, n)
    ensures n < |BuildAll(units)|
    ensures var definition := BuildAll(units)[n].functionDefinition;
            definition.Some? ==> definition.value in CalleesOf(Parts(units)[item].definition)
  {
    hide VisitFunction, Leads;
    var g, part := BuildAll(units), Parts(units)[item];
    HoldsItself(g);
    PartsHold(units, g);
    FunctionIsBuilt(part.definition, part.nodes, g);
    BuildingIsLocal(part.definition, part.nodes);
    FlowHoldsOwned(g, BuiltOf(part), n);
    var h := VisitFunction(part.definition, part.nodes).result.nodes;
    assert SameFlow(g[n], h[n]);
  }

  lemma FlowHoldsOwned(g: Graph, b: Built, n: NodeId)
    requires IsBuilt(g, b) && Leads(Pruner.AllArcs(g), b.flow.entry, n)
    ensures b.flow.entry <= n < b.end
  {
    var next := Pruner.AllArcs(g);
    var walk :| WalkTo(next, walk, b.flow.entry, n);
    forall u, w | u in Nodes(b) && w in next(u) ensures w in Nodes(b) {
      assert HasExit(g, u, w);
    }
    WalkStaysIn(next, walk, Nodes(b));
  }

  lemma ProgramCallsHaveFlows(d: Pruner.Declarations, units: seq<Unit>)
    requires UnitsWellFormed(units) && CallsAreBuilt(d, units)
    ensures ProgramOf(d, units).CallsHaveFlows()
  {
    var p := ProgramOf(d, units);
    hide BuildAll, Pruner.Program.Owns;
    forall item, n: NodeId | item in p.flows && p.Owns(item, n) && p.Callee(item, n).Some?
      ensures p.Callee(item, n).value in p.flows
    {
      OwnedCalls(d, units, item, n);
      var i := PartIsUnit(units, item);
      CalleeRuns(p, item, n, p.Callee(item, n).value);
    }
  }

  // ------------------------------------------------ from the graph to executions

  /** The trace calls no implemented function outside `s`. */
  ghost predicate CallsOnly(d: Pruner.Declarations, item: Item, t: Trace, s: set<Item>) {
    forall i, target: Item :: 0 <= i < |t| && t[i] == Calls(target.definition) && RunsAs(d, item, target) ==>
        target in s
  }

  /** Some execution returns that calls only functions in `s`. */
  ghost predicate ReturnsWith(d: Pruner.Declarations, item: Item, f: FunctionDefinition, s: set<Item>) {
    exists t :: CanReturn(f, t) && CallsOnly(d, item, t, s)
  }

  lemma CallsOfBoth(d: Pruner.Declarations, item: Item, t: Trace, u: Trace, s: set<Item>)
    ensures CallsOnly(d, item, t + u, s) <==> CallsOnly(d, item, t, s) && CallsOnly(d, item, u, s)
  {
    if CallsOnly(d, item, t + u, s) {
      assert forall i :: 0 <= i < |t| ==> (t + u)[i] == t[i];
      assert forall i :: 0 <= i < |u| ==> (t + u)[|t| + i] == u[i];
    }
  }

  lemma CallsOfNode(p: Pruner.Program, item: Item, n: NodeId, s: set<Item>)
    requires n < |p.nodes|
    ensures CallsOnly(p.declarations, item, Events(p.nodes[n]), s) <==> p.Passes(item, n, s)
  {
    var node := p.nodes[n];
    CallsOfBoth(p.declarations, item, OccurrenceEvents(node.variableOccurrences), CallEvents(node.functionDefinition),
                s);
    forall target ensures p.Callee(item, n) == Some(target) <==>
                            node.functionDefinition == Some(target.definition) && RunsAs(p.declarations, item, target)
    {
      CalleeRuns(p, item, n, target);
    }
    hide RunsAs;
    if node.functionDefinition.Some? {
      assert CallEvents(node.functionDefinition)[0] == Calls(node.functionDefinition.value);
    }
  }

  /** The trace of a path calls only functions in `s` if control can pass all its nodes. */
  lemma {:induction false} CallsOfPath(p: Pruner.Program, item: Item, path: seq<NodeId>, s: set<Item>)
    requires forall i :: 0 <= i < |path| ==> path[i] < |p.nodes|
    ensures CallsOnly(p.declarations, item, PathTrace(p.nodes, path), s)
       <==> forall i :: 0 <= i < |path| ==> p.Passes(item, path[i], s)
    decreases |path|
  {
    if path != [] {
      hide CallsOnly, Pruner.Program.Passes;
      CallsOfNode(p, item, path[0], s);
      CallsOfPath(p, item, path[1..], s);
      CallsOfBoth(p.declarations, item, Events(p.nodes[path[0]]), PathTrace(p.nodes, path[1..]), s);
      assert forall i :: 0 < i < |path| ==> path[i] == path[1..][i - 1];
    } else {
      assert PathTrace(p.nodes, path) == [];
    }
  }

  /** A way through the graph that passes all calls is a path whose trace calls only functions in `s`. */
  lemma PassingIsPath(p: Pruner.Program, item: Item, s: set<Item>)
    requires p.Valid() && item in p.flows && p.flows[item].exit < |p.nodes| && p.Passes(item, p.flows[item].exit, s)
    ensures p.CanReturnWith(item, s) <==>
              exists t :: HasPath(p.nodes, p.flows[item].entry, p.flows[item].exit, t)
                  && CallsOnly(p.declarations, item, t, s)
  {
    var next, entry, exit := p.Arcs(item, s), p.flows[item].entry, p.flows[item].exit;
    if p.CanReturnWith(item, s) {
      var walk :| WalkTo(next, walk, entry, exit);
      forall i | 0 <= i < |walk| ensures walk[i] < |p.nodes| && p.Passes(item, walk[i], s) {
        if i < |walk| - 1 {
          assert walk[i + 1] in next(walk[i]);
        }
      }
      forall i | 0 <= i < |walk| - 1 ensures walk[i + 1] in p.nodes[walk[i]].exits {
        assert walk[i + 1] in next(walk[i]);
      }
      assert IsPath(p.nodes, walk, entry, exit);
      CallsOfPath(p, item, walk, s);
      assert HasPath(p.nodes, entry, exit, PathTrace(p.nodes, walk));
    }
    if t :| HasPath(p.nodes, entry, exit, t) && CallsOnly(p.declarations, item, t, s) {
      var path :| IsPath(p.nodes, path, entry, exit) && PathTrace(p.nodes, path) == t;
      CallsOfPath(p, item, path, s);
      forall i | 0 <= i < |path| - 1 ensures path[i + 1] in next(path[i]) {
        assert path[i + 1] in p.nodes[path[i]].exits;
      }
      assert WalkTo(next, path, entry, exit);
    }
  }

  /** What the pruner asks of the graph is what can happen in an execution. */
  lemma GraphReturnsAsSource(d: Pruner.Declarations, units: seq<Unit>, item: Item, s: set<Item>)
    requires UnitsWellFormed(units) && item in Parts(units)
    ensures ProgramOf(d, units).CanReturnWith(item, s) <==> ReturnsWith(d, item, Parts(units)[item].definition, s)
  {
    hide VisitFunction, CanReturn, CallsOnly, Pruner.Program.CanReturnWith, BuildAll;
    var p, part := ProgramOf(d, units), Parts(units)[item];
    HoldsItself(p.nodes);
    PartsHold(units, p.nodes);
    ExitCallsNothing(part.definition, part.nodes, p.nodes);
    ProgramIsValid(d, units);
    PassingIsPath(p, item, s);
    forall t ensures HasPath(p.nodes, p.flows[item].entry, p.flows[item].exit, t) <==> CanReturn(part.definition, t) {
      BuildingPreservesReturns(part.definition, part.nodes, p.nodes, t);
    }
  }

  lemma ExitCallsNothing(f: FunctionDefinition, nodes: Graph, g: Graph)
    requires WellFormed(f) && Holds(g, VisitFunction(f, nodes).result.nodes)
    ensures FlowOf(nodes).exit < |g| && g[FlowOf(nodes).exit].functionDefinition == None
  {
    FunctionHasShape(f, nodes, VisitFunction(f, nodes), g);
    hide VisitFunction;
    if g[FlowOf(nodes).exit].functionDefinition.Some? {
      CallIsNoRead(g[FlowOf(nodes).exit], f.returnParameters);
    }
  }

  lemma CallIsNoRead(node: CFGNode, ps: seq<ReturnParameter>)
    requires node.functionDefinition.Some?
    ensures Events(node) != ReadAll(ps)
  {
    var e := Events(node);
    assert e[|e| - 1] == Calls(node.functionDefinition.value);
  }

  /** No function outside `s` has an execution that returns and calls only functions in `s`. */
  ghost predicate SourceClosed(d: Pruner.Declarations, units: seq<Unit>, s: set<Item>)
    requires UnitsWellFormed(units)
  {
    forall item :: item in Parts(units) && ReturnsWith(d, item, Parts(units)[item].definition, s) ==> item in s
  }

  ghost predicate LeastSourceClosed(d: Pruner.Declarations, units: seq<Unit>, s: set<Item>)
    requires UnitsWellFormed(units)
  {
    SourceClosed(d, units, s) && forall other: set<Item> :: SourceClosed(d, units, other) ==> s <= other
  }

  lemma ClosedAsSource(d: Pruner.Declarations, units: seq<Unit>, s: set<Item>)
    requires UnitsWellFormed(units)
    ensures ProgramOf(d, units).Closed(s) <==> SourceClosed(d, units, s)
  {
    hide Pruner.Program.CanReturnWith, ReturnsWith, BuildAll;
    forall item | item in Parts(units)
      ensures ProgramOf(d, units).CanReturnWith(item, s) <==> ReturnsWith(d, item, Parts(units)[item].definition, s)
    {
      GraphReturnsAsSource(d, units, item, s);
    }
  }

  /** What the pruner finds in the graphs, said of the source. */
  lemma FoundAsSource(d: Pruner.Declarations, units: seq<Unit>, states: Pruner.RevertStates)
    requires UnitsWellFormed(units) && Pruner.Found(ProgramOf(d, units), states)
    ensures states.Keys == Parts(units).Keys
    ensures LeastSourceClosed(d, units, Pruner.InState(states, Pruner.HasNonRevertingPath))
    ensures forall item :: item in states ==>
              (states[item] == Pruner.HasNonRevertingPath <==>
               ReturnsWith(d, item, Parts(units)[item].definition, Pruner.InState(states, Pruner.HasNonRevertingPath)))
  {
    hide Pruner.Program.CanReturnWith, Pruner.Program.Closed, Pruner.Program.ReachesWith, ReturnsWith, SourceClosed,
        BuildAll;
    var s := Pruner.InState(states, Pruner.HasNonRevertingPath);
    forall other: set<Item> ensures ProgramOf(d, units).Closed(other) <==> SourceClosed(d, units, other) {
      ClosedAsSource(d, units, other);
    }
    forall item | item in Parts(units)
      ensures ProgramOf(d, units).CanReturnWith(item, s) <==> ReturnsWith(d, item, Parts(units)[item].definition, s)
    {
      GraphReturnsAsSource(d, units, item, s);
    }
  }

  // ------------------------------------------------------- the graph after pruning

  /** On a path of the pruned flow to its exit, control passes every node before the last. */
  lemma {:induction false} PrunedPathPasses(p: Pruner.Program, g: Graph, item: Item, s: set<Item>, path: seq<NodeId>,
                                            k: nat)
    requires item in p.flows && Pruner.Pruned(p, g, item, s) && p.flows[item].exit != p.flows[item].revert
    requires IsPath(g, path, p.flows[item].entry, p.flows[item].exit) && k < |path|
    ensures p.ReachesWith(item, path[k], s) && (k < |path| - 1 ==> p.Passes(item, path[k], s))
  {
    hide Leads, Pruner.Program.Passes, Pruner.Program.Arcs;
    var next := p.Arcs(item, s);
    if k == 0 {
      LeadsToItself(next, path[0]);
    } else {
      PrunedPathPasses(p, g, item, s, path, k - 1);
      assert path[k - 1 + 1] in g[path[k - 1]].exits;
      ArcOfPassing(p, item, path[k - 1], s);
      LeadsStep(next, path[0], path[k - 1], path[k]);
    }
    if k < |path| - 1 && !p.Passes(item, path[k], s) {
      CutEndsPath(g, path, k, p.flows[item].revert);
    }
  }

  /** After a node whose only exit is the revert node, a path ends there. */
  lemma CutEndsPath(g: Graph, path: seq<NodeId>, k: nat, revert: NodeId)
    requires k < |path| - 1 && forall i :: 0 <= i < |path| ==> path[i] < |g|
    requires forall i :: 0 <= i < |path| - 1 ==> path[i + 1] in g[path[i]].exits
    requires g[path[k]].exits == [revert] && revert < |g| && g[revert].exits == []
    ensures path[|path| - 1] == revert
  {
    assert path[k + 1] in g[path[k]].exits;
    forall i | 0 <= i < |path| - 1 ensures g[path[i]].exits != [] {
      assert path[i + 1] in g[path[i]].exits;
    }
  }

  lemma ArcOfPassing(p: Pruner.Program, item: Item, n: NodeId, s: set<Item>)
    requires n < |p.nodes| && p.Passes(item, n, s)
    ensures p.Arcs(item, s)(n) == p.nodes[n].exits
  {
  }

  /** The paths to the exit that pruning leaves are those on which control passes all nodes. */
  lemma PathsAfterPruning(p: Pruner.Program, g: Graph, item: Item, s: set<Item>, path: seq<NodeId>)
    requires item in p.flows && Pruner.Pruned(p, g, item, s) && p.flows[item].exit != p.flows[item].revert
    requires p.Passes(item, p.flows[item].exit, s)
    ensures IsPath(g, path, p.flows[item].entry, p.flows[item].exit) <==>
              && IsPath(p.nodes, path, p.flows[item].entry, p.flows[item].exit)
              && forall i :: 0 <= i < |path| ==> p.Passes(item, path[i], s)
  {
    hide Leads, Pruner.Program.Passes, Pruner.Program.Arcs;
    var entry, exit := p.flows[item].entry, p.flows[item].exit;
    if IsPath(g, path, entry, exit) {
      forall i | 0 <= i < |path| ensures p.Passes(item, path[i], s) {
        PrunedPathPasses(p, g, item, s, path, i);
      }
      forall i | 0 <= i < |path| - 1 ensures path[i + 1] in p.nodes[path[i]].exits {
        PrunedPathPasses(p, g, item, s, path, i);
        assert path[i + 1] in g[path[i]].exits;
      }
    }
    if IsPath(p.nodes, path, entry, exit) && forall i :: 0 <= i < |path| ==> p.Passes(item, path[i], s) {
      forall i | 0 <= i < |path| - 1 ensures path[i + 1] in p.Arcs(item, s)(path[i]) {
        ArcOfPassing(p, item, path[i], s);
      }
      Pruner.PassingWalkRemains(p, g, item, s, path);
      forall i | 0 <= i < |path| - 1 ensures path[i + 1] in g[path[i]].exits {
        assert path[i + 1] in Pruner.AllArcs(g)(path[i]);
      }
    }
  }

  lemma {:induction false} SameTraces(g: Graph, h: Graph, path: seq<NodeId>)
    requires Pruner.SameContents(g, h) && forall i :: 0 <= i < |path| ==> path[i] < |g|
    ensures PathTrace(g, path) == PathTrace(h, path)
    decreases |path|
  {
    if path != [] {
      SameTraces(g, h, path[1..]);
    }
  }

  /**
   * The traces of a function that reach the exit in `nodes` are those of its
   * executions that call only functions in `s`.
   */
  ghost predicate TracesAreExact(d: Pruner.Declarations, item: Item, f: FunctionDefinition, nodes: Graph,
                                 flow: FunctionFlow, s: set<Item>)
  {
    forall t :: HasPath(nodes, flow.entry, flow.exit, t) <==> CanReturn(f, t) && CallsOnly(d, item, t, s)
  }

  lemma TracesAfterPruning(d: Pruner.Declarations, units: seq<Unit>, item: Item, s: set<Item>, g: Graph)
    requires UnitsWellFormed(units) && item in Parts(units)
    requires Pruner.Pruned(ProgramOf(d, units), g, item, s) && Pruner.SameContents(BuildAll(units), g)
    ensures TracesAreExact(d, item, Parts(units)[item].definition, g, Flows(units)[item], s)
  {
    hide VisitFunction, CanReturn, CallsOnly, BuildAll, Parts, Pruner.Pruned, Pruner.SameContents;
    var p, part := ProgramOf(d, units), Parts(units)[item];
    var entry, exit := p.flows[item].entry, p.flows[item].exit;
    HoldsItself(p.nodes);
    PartsHold(units, p.nodes);
    ExitCallsNothing(part.definition, part.nodes, p.nodes);
    hide Holds, IsPath;
    forall t ensures HasPath(g, entry, exit, t) <==> CanReturn(part.definition, t) && CallsOnly(d, item, t, s) {
      BuildingPreservesReturns(part.definition, part.nodes, p.nodes, t);
      PathsOfTrace(p, g, item, s, t);
    }
  }

  lemma PathsOfTrace(p: Pruner.Program, g: Graph, item: Item, s: set<Item>, t: Trace)
    requires item in p.flows && Pruner.Pruned(p, g, item, s) && Pruner.SameContents(p.nodes, g)
    requires p.flows[item].exit != p.flows[item].revert && p.Passes(item, p.flows[item].exit, s)
    ensures HasPath(g, p.flows[item].entry, p.flows[item].exit, t) <==>
              && HasPath(p.nodes, p.flows[item].entry, p.flows[item].exit, t)
              && CallsOnly(p.declarations, item, t, s)
  {
    hide Pruner.Pruned, Pruner.Program.Passes, CallsOnly;
    var entry, exit := p.flows[item].entry, p.flows[item].exit;
    if HasPath(g, entry, exit, t) {
      var path :| IsPath(g, path, entry, exit) && PathTrace(g, path) == t;
      PathsAfterPruning(p, g, item, s, path);
      SameTraces(p.nodes, g, path);
      CallsOfPath(p, item, path, s);
    }
    if HasPath(p.nodes, entry, exit, t) && CallsOnly(p.declarations, item, t, s) {
      var path :| IsPath(p.nodes, path, entry, exit) && PathTrace(p.nodes, path) == t;
      CallsOfPath(p, item, path, s);
      PathsAfterPruning(p, g, item, s, path);
      SameTraces(p.nodes, g, path);
    }
  }

  /** The node calls an implemented function outside `s`. */
  ghost predicate CallsOutside(d: Pruner.Declarations, item: Item, node: CFGNode, s: set<Item>) {
    exists target: Item :: node.functionDefinition == Some(target.definition) && RunsAs(d, item, target) && target !in s
  }

  /** Reachable calls of functions outside `s` lead to the revert node only. */
  ghost predicate CallsAreCut(d: Pruner.Declarations, item: Item, nodes: Graph, flow: FunctionFlow, s: set<Item>) {
    forall n: NodeId ::
      n < |nodes| && Leads(Pruner.AllArcs(nodes), flow.entry, n) && CallsOutside(d, item, nodes[n], s) ==>
        nodes[n].exits == [flow.revert]
  }

  lemma CallsAfterPruning(p: Pruner.Program, g: Graph, item: Item, s: set<Item>)
    requires p.Valid() && item in p.flows && Pruner.Pruned(p, g, item, s) && Pruner.SameContents(p.nodes, g)
    requires p.nodes[p.flows[item].revert].functionDefinition == None
    ensures CallsAreCut(p.declarations, item, g, p.flows[item], s)
  {
    hide Leads;
    var v := set n: NodeId | n in UpTo(|g|) && p.ReachesWith(item, n, s);
    forall n: NodeId | n < |g| && Leads(Pruner.AllArcs(g), p.flows[item].entry, n)
                       && CallsOutside(p.declarations, item, g[n], s)
      ensures g[n].exits == [p.flows[item].revert]
    {
      Pruner.PrunedReaches(p, g, item, s, v, n);
      assert Pruner.SameContent(p.nodes[n], g[n]);
      var target: Item :| g[n].functionDefinition == Some(target.definition) && RunsAs(p.declarations, item, target)
                    && target !in s;
      CalleeRuns(p, item, n, target);
    }
  }

  /** What is promised of a pruned flow when exactly the functions in `s` can return. */
  ghost predicate IsExact(d: Pruner.Declarations, units: seq<Unit>, item: Item, nodes: Graph, s: set<Item>)
    requires UnitsWellFormed(units) && item in Flows(units)
  {
    var f, flow := Parts(units)[item].definition, Flows(units)[item];
    && Analyzer.InRange(nodes, flow)
    && (Leads(Pruner.AllArcs(nodes), flow.entry, flow.exit) <==> ReturnsWith(d, item, f, s))
    && TracesAreExact(d, item, f, nodes, flow, s)
    && CallsAreCut(d, item, nodes, flow, s)
  }

  lemma PrunedFlowIsExact(d: Pruner.Declarations, units: seq<Unit>, item: Item, states: Pruner.RevertStates, g: Graph)
    requires UnitsWellFormed(units) && item in Flows(units) && Pruner.Found(ProgramOf(d, units), states)
    requires Pruner.SameContents(BuildAll(units), g) && Pruner.WellLinked(g)
    requires Pruner.Pruned(ProgramOf(d, units), g, item, Pruner.InState(states, Pruner.HasNonRevertingPath))
    requires item in states && Pruner.FlowIsPruned(ProgramOf(d, units), states, g, item)
    ensures IsExact(d, units, item, g, Pruner.InState(states, Pruner.HasNonRevertingPath))
  {
    hide BuildAll, Parts, Leads, ReturnsWith, LeastSourceClosed, Pruner.Found, Pruner.SameContents, Pruner.Pruned;
    hide TracesAreExact, CallsAreCut, Analyzer.InRange, Pruner.Program.Valid;
    var s := Pruner.InState(states, Pruner.HasNonRevertingPath);
    FoundAsSource(d, units, states);
    TracesAfterPruning(d, units, item, s, g);
    RevertCallsNothing(d, units, item);
    ProgramIsValid(d, units);
    CallsAfterPruning(ProgramOf(d, units), g, item, s);
    PruningKeepsRange(units, item, g);
  }

  /** Builds all flows from nothing, finds the states of the functions and cuts the flows. */
  method BuildAndPrune(d: Pruner.Declarations, units: seq<Unit>)
      returns (states: Pruner.RevertStates, flows: map<Item, FunctionFlow>, nodes: Graph)
    requires UnitsWellFormed(units) && CallsAreBuilt(d, units)
    ensures states.Keys == Parts(units).Keys && flows == Flows(units)
    ensures LeastSourceClosed(d, units, Pruner.InState(states, Pruner.HasNonRevertingPath))
    ensures Pruner.SameContents(BuildAll(units), nodes) && Pruner.WellLinked(nodes)
    ensures forall item :: item in flows ==>
              IsExact(d, units, item, nodes, Pruner.InState(states, Pruner.HasNonRevertingPath))
  {
    hide BuildAll, Parts, Leads, ReturnsWith, LeastSourceClosed, Pruner.Found, CallsAreBuilt, TerritoriesOf;
    hide Pruner.NodeDisjoint, Pruner.Program.Valid, Pruner.Program.CallsHaveFlows, Pruner.SameContents;
    hide Pruner.Pruned, Pruner.FlowIsPruned, Pruner.WellLinked, Pruner.InState, IsExact;
    var container := new NodeContainer();
    flows := ConstructFlows(container, units);
    var p := Pruner.Program(d, container.nodes, flows);
    ProgramIsValid(d, units);
    ProgramCallsHaveFlows(d, units);
    ProgramIsDisjoint(d, units);
    GraphIsClosed(units);
    var pruner := new Pruner.ControlFlowRevertPruner(p);
    pruner.Run(TerritoriesOf(units));
    states, nodes := pruner.functions, pruner.program.nodes;
    FoundAsSource(d, units, states);
    forall item | item in flows
      ensures IsExact(d, units, item, nodes, Pruner.InState(states, Pruner.HasNonRevertingPath))
    {
      PrunedFlowIsExact(d, units, item, states, nodes);
    }
  }

  lemma RevertCallsNothing(d: Pruner.Declarations, units: seq<Unit>, item: Item)
    requires UnitsWellFormed(units) && item in Flows(units)
    ensures var p := ProgramOf(d, units);
            p.flows[item].revert < |p.nodes| && p.nodes[p.flows[item].revert].functionDefinition == None
  {
    ProgramIsDisjoint(d, units);
  }

  /** What the analyzer relies on outlives pruning. */
  lemma PruningKeepsRange(units: seq<Unit>, item: Item, nodes: Graph)
    requires UnitsWellFormed(units) && item in Flows(units)
    requires Pruner.SameContents(BuildAll(units), nodes) && Pruner.WellLinked(nodes)
    ensures Analyzer.InRange(nodes, Flows(units)[item])
  {
    hide BuildAll, Parts;
    FlowsAreInRange(units, item);
  }

  // ------------------------------------------------------ from executions to reports

  /** The variable occurrences of a trace, without its calls. */
  function OccurrencesOf(t: Trace): seq<VariableOccurrence> {
    if t == [] then [] else (if t[0].Occurs? then [t[0].occurrence] else []) + OccurrencesOf(t[1..])
  }

  lemma {:induction false} OccurrencesOfBoth(t: Trace, u: Trace)
    ensures OccurrencesOf(t + u) == OccurrencesOf(t) + OccurrencesOf(u)
    decreases |t|
  {
    if t == [] {
      assert t + u == u;
    } else {
      assert (t + u)[1..] == t[1..] + u;
      OccurrencesOfBoth(t[1..], u);
    }
  }

  lemma {:induction false} OccurrencesOfEvents(os: seq<VariableOccurrence>)
    ensures OccurrencesOf(OccurrenceEvents(os)) == os
    decreases |os|
  {
    if os != [] {
      assert OccurrenceEvents(os)[1..] == OccurrenceEvents(os[1..]);
      OccurrencesOfEvents(os[1..]);
    }
  }

  lemma OccurrencesOfNode(node: CFGNode)
    ensures OccurrencesOf(Events(node)) == node.variableOccurrences
  {
    OccurrencesOfBoth(OccurrenceEvents(node.variableOccurrences), CallEvents(node.functionDefinition));
    OccurrencesOfEvents(node.variableOccurrences);
    assert OccurrencesOf(CallEvents(node.functionDefinition)) == [] by {
      if node.functionDefinition.Some? {
        assert CallEvents(node.functionDefinition)[1..] == [];
      }
    }
  }

  lemma {:induction false} TraceOfLonger(g: Graph, path: seq<NodeId>, n: NodeId)
    requires n < |g| && forall i :: 0 <= i < |path| ==> path[i] < |g|
    ensures PathTrace(g, path + [n]) == PathTrace(g, path) + Events(g[n])
    decreases |path|
  {
    if path == [] {
      assert (path + [n])[1..] == [] && PathTrace(g, []) == [];
    } else {
      assert (path + [n])[1..] == path[1..] + [n];
      TraceOfLonger(g, path[1..], n);
    }
  }

  /** The trace of a path: what is met before the last node, and the last node. */
  lemma {:induction false} OccurrencesOnPath(g: Graph, path: seq<NodeId>)
    requires path != [] && forall i :: 0 <= i < |path| ==> path[i] < |g|
    ensures OccurrencesOf(PathTrace(g, path))
         == Analyzer.OccurrencesBefore(g, path) + g[path[|path| - 1]].variableOccurrences
    decreases |path|
  {
    var k := |path| - 1;
    var front, last := path[..k], path[k];
    assert path == front + [last];
    TraceOfLonger(g, front, last);
    OccurrencesOfBoth(PathTrace(g, front), Events(g[last]));
    OccurrencesOfNode(g[last]);
    if k == 0 {
      assert PathTrace(g, front) == [];
    } else {
      OccurrencesOnPath(g, front);
    }
  }

  /** The execution declares `v` and does not assign it after its last declaration. */
  ghost predicate LeavesUnassigned(t: Trace, v: Variable) {
    Analyzer.LeftUnassigned(OccurrencesOf(t), v)
  }

  lemma ReadingChangesNothing(os: seq<VariableOccurrence>, tail: seq<VariableOccurrence>, v: Variable)
    requires forall i :: 0 <= i < |tail| ==> tail[i].kind == Kind.Return
    ensures Analyzer.LeftUnassigned(os + tail, v) <==> Analyzer.LeftUnassigned(os, v)
  {
    Analyzer.LeftUnassignedAppend(os, tail, v);
  }

  /** At an exit node that only reads, the meet over all paths is about the traces of paths. */
  lemma MeetAtExit(g: Graph, entry: NodeId, exit: NodeId, v: Variable)
    requires exit < |g|
    requires forall i :: 0 <= i < |g[exit].variableOccurrences| ==> g[exit].variableOccurrences[i].kind == Kind.Return
    ensures Analyzer.MayBeUnassigned(g, entry, exit, v) <==>
              exists t :: HasPath(g, entry, exit, t) && LeavesUnassigned(t, v)
  {
    hide Analyzer.LeftUnassigned;
    forall path | IsPath(g, path, entry, exit)
      ensures LeavesUnassigned(PathTrace(g, path), v) <==>
                Analyzer.LeftUnassigned(Analyzer.OccurrencesBefore(g, path), v)
    {
      OccurrencesOnPath(g, path);
      ReadingChangesNothing(Analyzer.OccurrencesBefore(g, path), g[exit].variableOccurrences, v);
    }
    if Analyzer.MayBeUnassigned(g, entry, exit, v) {
      var path :| IsPath(g, path, entry, exit) && Analyzer.LeftUnassigned(Analyzer.OccurrencesBefore(g, path), v);
      assert HasPath(g, entry, exit, PathTrace(g, path));
    }
    if t :| HasPath(g, entry, exit, t) && LeavesUnassigned(t, v) {
      var path :| IsPath(g, path, entry, exit) && PathTrace(g, path) == t;
    }
  }

  lemma ExitOnlyReads(units: seq<Unit>, item: Item)
    requires UnitsWellFormed(units) && item in Flows(units)
    ensures Flows(units)[item].exit < |BuildAll(units)|
    ensures var os := BuildAll(units)[Flows(units)[item].exit].variableOccurrences;
            forall i :: 0 <= i < |os| ==> os[i].kind == Kind.Return
  {
    hide VisitFunction, BuildAll;
    var g, part := BuildAll(units), Parts(units)[item];
    HoldsItself(g);
    PartsHold(units, g);
    FunctionHasShape(part.definition, part.nodes, VisitFunction(part.definition, part.nodes), g);
    var exit := FlowOf(part.nodes).exit;
    OccurrencesOfNode(g[exit]);
    OccurrencesOfEvents(ReturnOccurrences(part.definition.returnParameters));
    RecordedIsExecuted(0, false, [], part.definition.returnParameters);
  }

  /** Some execution that returns, and calls only functions in `s`, leaves `v` declared and unassigned. */
  ghost predicate MayReturnUnassigned(d: Pruner.Declarations, item: Item, f: FunctionDefinition, s: set<Item>,
                                      v: Variable)
  {
    exists t :: CanReturn(f, t) && CallsOnly(d, item, t, s) && LeavesUnassigned(t, v)
  }

  /** What the analyzer finds at the exit of a pruned flow, said of the source. */
  lemma UnassignedAsSource(d: Pruner.Declarations, units: seq<Unit>, item: Item, s: set<Item>, g: Graph,
                           infos: Analyzer.NodeInfos, v: Variable)
    requires UnitsWellFormed(units) && item in Flows(units) && Pruner.SameContents(BuildAll(units), g)
    requires IsExact(d, units, item, g, s)
    requires Analyzer.IsMeetOverAllPaths(g, Flows(units)[item].entry, infos)
    ensures v in UnassignedAt(infos, Flows(units)[item].exit) <==>
              MayReturnUnassigned(d, item, Parts(units)[item].definition, s, v)
  {
    hide BuildAll, Parts, CanReturn, CallsOnly, LeavesUnassigned, Analyzer.LeftUnassigned, CallsAreCut, Leads,
        ReturnsWith;
    ExitOnlyReads(units, item);
    var entry, exit := Flows(units)[item].entry, Flows(units)[item].exit;
    assert Pruner.SameContent(BuildAll(units)[exit], g[exit]);
    MeetAtExit(g, entry, exit, v);
    if Analyzer.MayBeUnassigned(g, entry, exit, v) {
      assert Reaches(g, entry, exit);
    }
  }

  function UnassignedAt(infos: Analyzer.NodeInfos, n: NodeId): set<Variable> {
    if n in infos then infos[n].unassignedVariablesAtEntry else {}
  }

  /** The analysis of one pruned flow. */
  method AnalyzeFlow(d: Pruner.Declarations, units: seq<Unit>, item: Item, ghost s: set<Item>, g: Graph,
                     analyzer: Analyzer.Analyzer)
      returns (unassigned: set<Variable>, unreachable: seq<SourceLocation>)
    requires UnitsWellFormed(units) && item in Flows(units) && Pruner.SameContents(BuildAll(units), g)
    requires IsExact(d, units, item, g, s)
    modifies analyzer
    ensures forall v :: v in unassigned <==> MayReturnUnassigned(d, item, Parts(units)[item].definition, s, v)
    ensures Analyzer.IsUnreachableSet(g, Flows(units)[item], unreachable)
    ensures analyzer.warnings == old(analyzer.warnings)
              + Analyzer.NotWarnedFor(Locations.Merge(unreachable), old(analyzer.unreachableLocationsAlreadyWarnedFor))
    ensures old(analyzer.WarnedOnce()) ==> analyzer.WarnedOnce()
    ensures old(analyzer.WarnedOnce()) ==>
              forall l :: l in analyzer.warnings <==>
                l in old(analyzer.warnings) || Analyzer.IsReported(g, Flows(units)[item], l)
  {
    hide BuildAll, Parts, Leads, ReturnsWith, Pruner.SameContents, TracesAreExact, CallsAreCut, MayReturnUnassigned;
    hide Analyzer.IsUnreachableSet, Analyzer.IsReported, Analyzer.NoDuplicates, Locations.Merge;
    var flow := Flows(units)[item];
    var infos, _ := Analyzer.CheckUninitializedAccess(g, flow.entry, flow.exit);
    forall v
      ensures v in UnassignedAt(infos, flow.exit) <==>
                MayReturnUnassigned(d, item, Parts(units)[item].definition, s, v)
    {
      UnassignedAsSource(d, units, item, s, g, infos, v);
    }
    ghost var before := analyzer.warnings;
    unreachable := analyzer.CheckUnreachable(g, flow);
    if old(analyzer.WarnedOnce()) {
      Analyzer.WarningsMean(before, Locations.Merge(unreachable));
      forall l
        ensures l in analyzer.warnings <==> l in before || Analyzer.IsReported(g, flow, l)
      {
        Analyzer.ReportedIsMerged(g, flow, unreachable, l);
        assert l in analyzer.warnings <==> l in Analyzer.Locations(analyzer.warnings);
      }
    }
    unassigned := UnassignedAt(infos, flow.exit);
  }

  /**
   * All passes over all functions: building, pruning, and the analysis of the
   * pruned flows, whose nodes are `nodes`. Each merged range of code that is
   * unreachable in one of them is warned about once, and nothing else is.
   */
  method BuildPruneAndAnalyze(d: Pruner.Declarations, units: seq<Unit>)
      returns (returning: set<Item>, unassigned: map<Item, set<Variable>>, nodes: Graph,
               warnings: seq<SourceLocation>)
    requires UnitsWellFormed(units) && CallsAreBuilt(d, units)
    ensures LeastSourceClosed(d, units, returning) && unassigned.Keys == Parts(units).Keys
    ensures forall item, v :: item in unassigned ==>
              (v in unassigned[item] <==>
               MayReturnUnassigned(d, item, Parts(units)[item].definition, returning, v))
    ensures Pruner.SameContents(BuildAll(units), nodes) && Pruner.WellLinked(nodes)
    ensures forall item :: item in Flows(units) ==> IsExact(d, units, item, nodes, returning)
    ensures forall l :: l in warnings <==>
              exists item :: item in Flows(units) && Analyzer.IsReported(nodes, Flows(units)[item], l)
    ensures Analyzer.NoDuplicates(warnings)
  {
    hide BuildAll, Parts, IsExact, LeastSourceClosed, CallsAreBuilt, Pruner.SameContents, MayReturnUnassigned;
    hide Analyzer.IsReported, Analyzer.NoDuplicates;
    var states, flows, pruned := BuildAndPrune(d, units);
    nodes := pruned;
    returning := Pruner.InState(states, Pruner.HasNonRevertingPath);
    unassigned := map[];
    var analyzer := new Analyzer.Analyzer();
    NothingWarned();
    var rest := flows.Keys;
    while rest != {}
      invariant rest <= flows.Keys && unassigned.Keys == flows.Keys - rest && analyzer.WarnedOnce()
      invariant forall item, v :: item in unassigned ==>
                  (v in unassigned[item] <==>
                   MayReturnUnassigned(d, item, Parts(units)[item].definition, returning, v))
      invariant forall l :: l in analyzer.warnings <==>
                  exists item :: item in unassigned && Analyzer.IsReported(nodes, Flows(units)[item], l)
      decreases rest
    {
      var item :| item in rest;  // the code takes the smallest one
      ghost var done := unassigned;
      var atExit, _ := AnalyzeFlow(d, units, item, returning, nodes, analyzer);
      unassigned := unassigned[item := atExit];
      rest := rest - {item};
      forall l
        ensures l in analyzer.warnings <==>
                  exists i :: i in unassigned && Analyzer.IsReported(nodes, Flows(units)[i], l)
      {
        if i :| i in unassigned && Analyzer.IsReported(nodes, Flows(units)[i], l) {
          assert i == item || i in done;
        }
      }
    }
    warnings := analyzer.warnings;
  }

  lemma NothingWarned()
    ensures Analyzer.NoDuplicates([]) && Analyzer.Locations([]) == {}
  {
  }
}
