/**
 * Building preserves meaning: the paths through a function's graph have
 * exactly the traces of the executions of the function.
 */
module ControlFlowCorrectness {
  import opened Util
  import opened ControlFlowGraph
  import opened ControlFlowSemantics
  import opened ControlFlowBehaviours
  import opened ControlFlowBuilder
  import opened ControlFlowRuns
  import opened ControlFlowShapes
  import opened ControlFlowPeel
  import opened ControlFlowWalk

  /** `g` holds a finished graph unchanged; nodes of other functions may follow. */
  ghost predicate Holds(g: Graph, finished: Graph) {
    |finished| <= |g| && forall n :: 0 <= n < |finished| ==> SameFlow(g[n], finished[n])
  }

  lemma HoldsExtends(g: Graph, finished: Graph)
    requires Holds(g, finished)
    ensures Extends(finished, g)
  {
  }

  lemma ReadExtends(b: BuilderState, ps: seq<ReturnParameter>, variable: Variable, g: Graph)
    requires Building(b, ps) && Extends(ReadAtReturn(b, variable).nodes, g)
    ensures Extends(b.nodes, g) && Here(ReadAtReturn(b, variable)) == Here(b)
  {
    assert Extends(b.nodes, ReadAtReturn(b, variable).nodes);
    ExtendsTransitive(b.nodes, ReadAtReturn(b, variable).nodes, g);
  }

  /** The last return parameter's declaration, within the visit of all of them. */
  lemma LastReturn(ps: seq<ReturnParameter>, b: BuilderState, r: BuilderState, g: Graph)
      returns (b1: BuilderState, b2: BuilderState)
    requires Building(b, []) && ReturnsWellFormed(ps) && ps != []
    requires r == VisitReturnParameters(ps, b) && Extends(r.nodes, g)
    ensures var k := |ps| - 1;
            b1 == VisitReturnParameters(ps[..k], b) && IsVisit(ps[k].declaration, b1, b2)
    ensures Extends(b1.nodes, g) && Extends(b2.nodes, g)
    ensures SameJumps(b, b1) && SameJumps(b, b2) && SameJumps(b, r) && Here(r) == Here(b2)
  {
    hide Visit, Extends, Frame;
    var k := |ps| - 1;
    b1 := VisitReturnParameters(ps[..k], b);
    b2 := Visit(ps[k].declaration, b1);
    VisitKeepsBuilding(b1, b2, ps[..k]);
    ReadExtends(b2, ps[..k], ps[k].variable, g);
    VisitedExtends(b1, b2, g);
  }

  lemma {:induction false} ReturnsExtend(ps: seq<ReturnParameter>, b: BuilderState, g: Graph)
    requires Building(b, []) && ReturnsWellFormed(ps) && Extends(VisitReturnParameters(ps, b).nodes, g)
    ensures Extends(b.nodes, g)
  {
    if ps != [] {
      var b1, b2 := LastReturn(ps, b, VisitReturnParameters(ps, b), g);
      ReturnsExtend(ps[..|ps| - 1], b, g);
    }
  }

  lemma NoReturns(b: BuilderState)
    requires Building(b, [])
    ensures VisitReturnParameters([], b) == b && DeclareReturns([]) == Emit([])
  {
  }

  lemma PeeledWithin(e: Behaviour, b: BuilderState, r: BuilderState,
                     g: Graph, k: nat, t: Trace, to: Position, o: Outcome, i: nat, l: nat)
    requires Peeled(e, b, r, g, k, t, to, o, i, l)
    ensures i <= |t| && (o == Normal ==> Run(g, Here(r), l, t[i..], to))
  {
  }

  lemma SamePeel(e: Behaviour, b: BuilderState, r: BuilderState, r2: BuilderState,
                 g: Graph, k: nat, t: Trace, to: Position, o: Outcome, i: nat, l: nat)
    requires Peeled(e, b, r, g, k, t, to, o, i, l) && Here(r) == Here(r2)
    ensures Peeled(e, b, r2, g, k, t, to, o, i, l)
  {
    hide Run;
    assert Target(b, r, o) == Target(b, r2, o);
  }

  lemma {:induction false} PeelReturns(ps: seq<ReturnParameter>, b: BuilderState, r: BuilderState, g: Graph, k: nat,
                                       t: Trace, to: Position)
    returns (o: Outcome, i: nat, l: nat)
    requires Building(b, []) && ReturnsWellFormed(ps) && r == VisitReturnParameters(ps, b) && Extends(r.nodes, g)
    requires Run(g, Here(b), k, t, to) && Terminal(g, to)
    ensures Peeled(DeclareReturns(ps), b, r, g, k, t, to, o, i, l)
    decreases |ps|
  {
    hide Run, Extends, Frame, Visit, Executions, Building, VisitReturnParameters, Then, Peeled;
    if ps == [] {
      NoReturns(b);
      PeelNothing(b, g, k, t, to);
      return Normal, 0, k;
    }
    var n := |ps| - 1;
    var b1, b2 := LastReturn(ps, b, r, g);
    var e := Executions(ps[n].declaration);
    o, i, l := PeelReturns(ps[..n], b, b1, g, k, t, to);
    PeeledWithin(DeclareReturns(ps[..n]), b, b1, g, k, t, to, o, i, l);
    if o == Normal {
      var o2, i2, l2 := Peel(ps[n].declaration, b1, b2, g, l, t[i..], to);
      PeelThen(DeclareReturns(ps[..n]), e, b, b1, b2, g, k, t, to, i, l, o2, i2, l2);
      o, i, l := o2, i + i2, l2;
    } else {
      PeelStops(DeclareReturns(ps[..n]), e, b, b1, b2, g, k, t, to, o, i, l);
    }
    SamePeel(DeclareReturns(ps), b, b2, r, g, k, t, to, o, i, l);
  }

  lemma {:induction false} WalkReturns(ps: seq<ReturnParameter>, b: BuilderState, r: BuilderState, g: Graph, t: Trace,
                                       o: Outcome)
    requires Building(b, []) && ReturnsWellFormed(ps) && r == VisitReturnParameters(ps, b) && Extends(r.nodes, g)
    requires DeclareReturns(ps)(t, o)
    ensures Walks(b, r, g, t, o)
    decreases |ps|
  {
    if ps == [] {
      StandStill(g, Here(b));
      return;
    }
    hide HasRun, Extends, Frame, Visit, Executions, Building, VisitReturnParameters, Then;
    var n := |ps| - 1;
    var b1, b2 := LastReturn(ps, b, r, g);
    var e := Executions(ps[n].declaration);
    var stopped, i := ThenElim(DeclareReturns(ps[..n]), e, t, o);
    if stopped {
      WalkReturns(ps[..n], b, b1, g, t, o);
    } else {
      WalkReturns(ps[..n], b, b1, g, t[..i], Normal);
      Walk(ps[n].declaration, b1, b2, g, t[i..], o);
      HasRunConcat(g, Here(b), t, i, Here(b1), Target(b, r, o));
    }
  }

  ghost predicate Built(f: FunctionDefinition, nodes: Graph, r: FunctionStages, g: Graph) {
    WellFormed(f) && r == VisitFunction(f, nodes) && Holds(g, r.result.nodes)
  }

  /** What a finished graph holds of a function: its two ends, and the arc from the end of its body. */
  ghost predicate FunctionShape(f: FunctionDefinition, r: FunctionStages, g: Graph) {
    var exit, revert := r.start.returnNode, r.start.revertNode;
    && exit < |g| && revert < |g| && exit != revert
    && Extends(r.parametersEnd.nodes, g) && Extends(r.returnsEnd.nodes, g) && Extends(r.bodyEnd.nodes, g)
    && Sealed(r.bodyEnd, g, [exit])
    && Events(g[exit]) == ReadAll(f.returnParameters) && g[exit].exits == []
    && Events(g[revert]) == [] && g[revert].exits == []
  }

  lemma FunctionHasShape(f: FunctionDefinition, nodes: Graph, r: FunctionStages, g: Graph)
    requires Built(f, nodes, r, g)
    ensures FunctionShape(f, r, g)
    ensures IsVisit(f.parameters, r.start, r.parametersEnd) && IsVisit(f.body, r.returnsEnd, r.bodyEnd)
    ensures r.returnsEnd == VisitReturnParameters(f.returnParameters, r.parametersEnd)
    ensures r.start.breakJump.None? && Here(r.start) == Start(|nodes|) && |nodes| < |g|
    ensures r.start.returnNode == FlowOf(nodes).exit && r.start.revertNode == FlowOf(nodes).revert
  {
    hide Visit, Frame, VisitReturnParameters;
    HoldsExtends(g, r.result.nodes);
    RecordedIsExecuted(0, false, [], f.returnParameters);
    LeaveSeals(r.bodyEnd, [r.bodyEnd.returnNode], r.bodyEnd.returnNode, g);
    VisitedExtends(r.returnsEnd, r.bodyEnd, g);
    ReturnsExtend(f.returnParameters, r.parametersEnd, g);
  }

  /** Runs from a function's entry decompose into an execution of the function's parts. */
  lemma PeelFunction(f: FunctionDefinition, r: FunctionStages, g: Graph, k: nat, t: Trace, to: Position)
    returns (o: Outcome, i: nat, l: nat)
    requires WellFormed(f) && FunctionShape(f, r, g) && Building(r.parametersEnd, [])
             && SameJumps(r.start, r.parametersEnd)
    requires IsVisit(f.parameters, r.start, r.parametersEnd) && IsVisit(f.body, r.returnsEnd, r.bodyEnd)
    requires r.returnsEnd == VisitReturnParameters(f.returnParameters, r.parametersEnd)
    requires Run(g, Here(r.start), k, t, to) && Terminal(g, to)
    ensures Peeled(BodyExecutions(f), r.start, r.bodyEnd, g, k, t, to, o, i, l)
  {
    hide Run, Extends, Frame, Visit, Executions, VisitReturnParameters, Sealed, DeclareReturns;
    var p, d, e := Executions(f.parameters), DeclareReturns(f.returnParameters), Executions(f.body);
    o, i, l := Peel(f.parameters, r.start, r.parametersEnd, g, k, t, to);
    if o == Normal {
      var o2, i2, l2 := PeelReturns(f.returnParameters, r.parametersEnd, r.returnsEnd, g, l, t[i..], to);
      PeelThen(p, d, r.start, r.parametersEnd, r.returnsEnd, g, k, t, to, i, l, o2, i2, l2);
      o, i, l := o2, i + i2, l2;
    } else {
      PeelStops(p, d, r.start, r.parametersEnd, r.returnsEnd, g, k, t, to, o, i, l);
    }
    if o == Normal {
      var o2, i2, l2 := Peel(f.body, r.returnsEnd, r.bodyEnd, g, l, t[i..], to);
      PeelThen(Then(p, d), e, r.start, r.returnsEnd, r.bodyEnd, g, k, t, to, i, l, o2, i2, l2);
      o, i, l := o2, i + i2, l2;
    } else {
      PeelStops(Then(p, d), e, r.start, r.returnsEnd, r.bodyEnd, g, k, t, to, o, i, l);
    }
  }

  lemma WalkFunction(f: FunctionDefinition, r: FunctionStages, g: Graph, t: Trace, o: Outcome)
    requires WellFormed(f) && FunctionShape(f, r, g) && Building(r.parametersEnd, [])
             && SameJumps(r.start, r.parametersEnd)
    requires IsVisit(f.parameters, r.start, r.parametersEnd) && IsVisit(f.body, r.returnsEnd, r.bodyEnd)
    requires r.returnsEnd == VisitReturnParameters(f.returnParameters, r.parametersEnd)
    requires BodyExecutions(f)(t, o)
    ensures Walks(r.start, r.bodyEnd, g, t, o)
  {
    hide HasRun, Extends, Frame, Visit, Executions, VisitReturnParameters, Sealed, DeclareReturns, Then;
    var p, d, e := Executions(f.parameters), DeclareReturns(f.returnParameters), Executions(f.body);
    var stopped, i := ThenElim(Then(p, d), e, t, o);
    var u, o1 := if stopped then t else t[..i], if stopped then o else Normal;
    var stopped2, j := ThenElim(p, d, u, o1);
    if stopped2 {
      Walk(f.parameters, r.start, r.parametersEnd, g, u, o1);
    } else {
      Walk(f.parameters, r.start, r.parametersEnd, g, u[..j], Normal);
      WalkReturns(f.returnParameters, r.parametersEnd, r.returnsEnd, g, u[j..], o1);
      HasRunConcat(g, Here(r.start), u, j, Here(r.parametersEnd), Target(r.start, r.returnsEnd, o1));
    }
    if !stopped {
      Walk(f.body, r.returnsEnd, r.bodyEnd, g, t[i..], o);
      HasRunConcat(g, Here(r.start), t, i, Here(r.returnsEnd), Target(r.start, r.bodyEnd, o));
    }
  }

  /** A run in a node without exits just emits the rest of the node. */
  lemma RunAtEnd(g: Graph, n: NodeId, k: nat, t: Trace, to: Position)
    requires Run(g, Start(n), k, t, to) && Terminal(g, to) && g[n].exits == []
    ensures to.node == n && t == Events(g[n])
  {
    var m := |Events(g[n])|;
    PassEvents(g, Start(n), k, t, to, m);
    assert Events(g[n])[0..m] == Events(g[n]);
    assert Run(g, Position(n, m), k - m, t[m..], to);
    assert t[..m] + t[m..] == t;
  }

  /** The position at which a function's control flow ends without reverting. */
  function End(g: Graph, n: NodeId): Position {
    Position(n, if n < |g| then |Events(g[n])| else 0)
  }

  lemma ReturnRunsAreExecutions(f: FunctionDefinition, nodes: Graph, g: Graph, k: nat, t: Trace)
    requires WellFormed(f) && Holds(g, VisitFunction(f, nodes).result.nodes)
    requires Run(g, Start(|nodes|), k, t, End(g, FlowOf(nodes).exit))
    ensures CanReturn(f, t)
  {
    hide VisitFunction, Visit, Frame, Executions, Extends, Run, BodyExecutions, VisitReturnParameters, Events;
    var r, exit, final := VisitFunction(f, nodes), FlowOf(nodes).exit, End(g, FlowOf(nodes).exit);
    FunctionHasShape(f, nodes, r, g);
    var o, i, l := PeelFunction(f, r, g, k, t, final);
    if o == Normal {
      var m := PeelArc(r.bodyEnd, g, [exit], l, t[i..], final);
      l := l - 1;
    } else if o == Reverted {
      RunAtEnd(g, FlowOf(nodes).revert, l, t[i..], final);
    }
    RunAtEnd(g, exit, l, t[i..], final);
  }

  lemma ReturnsHaveRuns(f: FunctionDefinition, nodes: Graph, g: Graph, t: Trace)
    requires WellFormed(f) && Holds(g, VisitFunction(f, nodes).result.nodes) && CanReturn(f, t)
    ensures HasRun(g, Start(|nodes|), t, End(g, FlowOf(nodes).exit))
  {
    hide VisitFunction, Visit, Frame, Executions, Extends, Run, BodyExecutions, VisitReturnParameters, Events, HasRun;
    var r, exit := VisitFunction(f, nodes), FlowOf(nodes).exit;
    FunctionHasShape(f, nodes, r, g);
    var i :| 0 <= i <= |t| && t[i..] == Events(g[exit])
             && (BodyExecutions(f)(t[..i], Normal) || BodyExecutions(f)(t[..i], Returned));
    if BodyExecutions(f)(t[..i], Normal) {
      WalkFunction(f, r, g, t[..i], Normal);
      WalkArc(r.bodyEnd, g, [exit], exit);
      HasRunThen(g, Start(|nodes|), t[..i], Here(r.bodyEnd), Start(exit));
    } else {
      WalkFunction(f, r, g, t[..i], Returned);
    }
    assert HasRun(g, Start(exit), t[i..], End(g, exit)) by { PassThrough(g, exit); }
    HasRunConcat(g, Start(|nodes|), t, i, Start(exit), End(g, exit));
  }

  lemma PassThrough(g: Graph, n: NodeId)
    requires n < |g|
    ensures HasRun(g, Start(n), Events(g[n]), End(g, n))
  {
    RunThroughNode(g, n);
  }

  /**
   * Building preserves meaning, for returning executions: the paths from entry
   * to exit of a function's flow have exactly the traces of calls that return.
   */
  lemma BuildingPreservesReturns(f: FunctionDefinition, nodes: Graph, g: Graph, t: Trace)
    requires WellFormed(f) && Holds(g, VisitFunction(f, nodes).result.nodes)
    ensures HasPath(g, FlowOf(nodes).entry, FlowOf(nodes).exit, t) <==> CanReturn(f, t)
  {
    hide VisitFunction, Visit, CanReturn, Run, Events;
    FunctionHasShape(f, nodes, VisitFunction(f, nodes), g);
    RunsArePaths(g, |nodes|, FlowOf(nodes).exit, t);
    if HasRun(g, Start(|nodes|), t, End(g, FlowOf(nodes).exit)) {
      var k: nat :| Run(g, Start(|nodes|), k, t, End(g, FlowOf(nodes).exit));
      ReturnRunsAreExecutions(f, nodes, g, k, t);
    }
    if CanReturn(f, t) {
      ReturnsHaveRuns(f, nodes, g, t);
    }
  }

  lemma RevertRunsAreExecutions(f: FunctionDefinition, nodes: Graph, g: Graph, k: nat, t: Trace)
    requires WellFormed(f) && Holds(g, VisitFunction(f, nodes).result.nodes)
    requires Run(g, Start(|nodes|), k, t, End(g, FlowOf(nodes).revert))
    ensures CanRevert(f, t)
  {
    hide VisitFunction, Visit, Frame, Executions, Extends, Run, BodyExecutions, VisitReturnParameters, Events;
    var r, exit, final := VisitFunction(f, nodes), FlowOf(nodes).exit, End(g, FlowOf(nodes).revert);
    FunctionHasShape(f, nodes, r, g);
    var o, i, l := PeelFunction(f, r, g, k, t, final);
    if o == Normal {
      var m := PeelArc(r.bodyEnd, g, [exit], l, t[i..], final);
      l := l - 1;
    }
    if o != Reverted {
      RunAtEnd(g, exit, l, t[i..], final);
    }
    RunAtEnd(g, FlowOf(nodes).revert, l, t[i..], final);
    assert t[..i] == t;
  }

  /** Building preserves meaning, for reverting executions. */
  lemma BuildingPreservesReverts(f: FunctionDefinition, nodes: Graph, g: Graph, t: Trace)
    requires WellFormed(f) && Holds(g, VisitFunction(f, nodes).result.nodes)
    ensures HasPath(g, FlowOf(nodes).entry, FlowOf(nodes).revert, t) <==> CanRevert(f, t)
  {
    hide VisitFunction, Visit, Run, Events, BodyExecutions, VisitReturnParameters, Frame, Extends, Sealed;
    var r, revert := VisitFunction(f, nodes), FlowOf(nodes).revert;
    FunctionHasShape(f, nodes, r, g);
    RunsArePaths(g, |nodes|, revert, t);
    if HasRun(g, Start(|nodes|), t, End(g, revert)) {
      var k: nat :| Run(g, Start(|nodes|), k, t, End(g, revert));
      RevertRunsAreExecutions(f, nodes, g, k, t);
    }
    if CanRevert(f, t) {
      WalkFunction(f, r, g, t, Reverted);
    }
  }

  /** A finished function stays what it is while further functions are built. */
  lemma LaterFunctionsHold(f: FunctionDefinition, g: Graph, finished: Graph)
    requires WellFormed(f) && Holds(g, finished)
    ensures Holds(VisitFunction(f, g).result.nodes, finished)
  {
    hide VisitFunction;
    FunctionKeepsNodes(f, g);
  }
}
