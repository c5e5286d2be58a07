/**
 * From executions to paths: every execution of a node is a run through the
 * code built for it.
 */
module ControlFlowWalk {
  import opened Util
  import opened ControlFlowGraph
  import opened ControlFlowSemantics
  import opened ControlFlowBehaviours
  import opened ControlFlowBuilder
  import opened ControlFlowRuns
  import opened ControlFlowShapes
  import opened ControlFlowPeel

  /** `t` leads from `b` to where an execution with outcome `o` continues. */
  ghost predicate Walks(b: BuilderState, r: BuilderState, g: Graph, t: Trace, o: Outcome) {
    JumpsSomewhere(b, o) && HasRun(g, Here(b), t, Target(b, r, o))
  }

  lemma StandStill(g: Graph, p: Position)
    requires p.node < |g|
    ensures HasRun(g, p, [], p)
  {
    assert Run(g, p, 0, [], p);
  }

  lemma WalkArc(b: BuilderState, g: Graph, targets: seq<NodeId>, m: NodeId)
    requires Sealed(b, g, targets) && b.Open(b.current) && m in targets && m < |g|
    ensures HasRun(g, Here(b), [], Start(m))
  {
    TakeArc(g, Here(b), m);
  }

  lemma WalkAppend(b: BuilderState, occurrences: seq<VariableOccurrence>, g: Graph)
    requires b.current < |b.nodes| && Extends(b.Append(occurrences).nodes, g)
    ensures HasRun(g, Here(b), OccurrenceEvents(occurrences), Here(b.Append(occurrences)))
  {
    AppendEvents(b, occurrences, g);
    RunInNode(g, Here(b), Here(b).index + |occurrences|);
  }

  lemma WalkCall(b: BuilderState, definition: Option<FunctionId>, g: Graph)
    requires b.Ready() && CallSealed(b, definition, g) && |b.nodes| < |g|
    ensures HasRun(g, Here(b), CallEvents(definition), Start(|b.nodes|))
  {
    var n := |Events(g[b.current])|;
    RunInNode(g, Here(b), n);
    assert Events(g[b.current])[Here(b).index..n] == CallEvents(definition);
    TakeArc(g, Position(b.current, n), |b.nodes|);
    HasRunThen(g, Here(b), CallEvents(definition), Position(b.current, n), Start(|b.nodes|));
  }

  lemma WalkJump(b: BuilderState, r: BuilderState, g: Graph, target: NodeId, o: Outcome)
    requires Sealed(b, g, [target]) && b.Open(b.current) && target < |g|
    requires Target(b, r, o) == Start(target) && JumpsSomewhere(b, o)
    ensures Walks(b, r, g, [], o)
  {
    WalkArc(b, g, [target], target);
  }

  lemma WalkLeaf(s: Ast, b: BuilderState, r: BuilderState, g: Graph, t: Trace, o: Outcome)
    requires IsLeaf(s) && IsVisit(s, b, r) && Extends(r.nodes, g) && Executions(s)(t, o)
    ensures Walks(b, r, g, t, o)
  {
    hide Extends, Sealed, Frame, HasRun, BuilderState.JumpTo, BuilderState.Append;
    InGraph(b, r, g);
    match s
    case Skip => StandStill(g, Here(b));
    case Identifier(v, w) =>
      var os := [VariableOccurrence(v, if w then Assignment else Access)];
      WalkAppend(b, os, g);
      assert OccurrenceEvents(os) == [Occurs(os[0])];
    case Break =>
      JumpSeals(b, b.breakJump.value, g);
      WalkJump(b, r, g, b.breakJump.value, o);
    case Continue =>
      JumpSeals(b, b.continueJump.value, g);
      WalkJump(b, r, g, b.continueJump.value, o);
    case Revert =>
      JumpSeals(b, b.revertNode, g);
      WalkJump(b, r, g, b.revertNode, o);
  }

  lemma {:induction false} WalkBranching(s: Ast, b: BuilderState, r: BuilderState, g: Graph, t: Trace, o: Outcome)
    requires IsBranching(s) && IsVisit(s, b, r) && Extends(r.nodes, g) && Executions(s)(t, o)
    ensures Walks(b, r, g, t, o)
    decreases s, 2, 0, 4
  {
    hide IfSteps, WhileSteps, DoWhileSteps, ForSteps, Visited, BuilderState.Split, BuilderState.Leave,
        BuilderState.EnterLabel, BuilderState.Merge;
    hide Extends, Sealed, Frame, HasRun, BuilderState.JumpTo, BuilderState.Append, Then, Loop, LoopDo, Walks;
    match s
    case If(_, _, _) => WalkIf(s, b, VisitIf(s, b), g, t, o);
    case While(_, _) => WalkWhile(s, b, VisitWhile(s, b), g, t, o);
    case DoWhile(_, _) => WalkDoWhile(s, b, VisitDoWhile(s, b), g, t, o);
    case For(_, _, _, _) => WalkFor(s, b, VisitFor(s, b), g, t, o);
  }

  lemma {:induction false} WalkStraight(s: Ast, b: BuilderState, r: BuilderState, g: Graph, t: Trace, o: Outcome)
    requires !IsLeaf(s) && !IsBranching(s) && IsVisit(s, b, r) && Extends(r.nodes, g) && Executions(s)(t, o)
    ensures Walks(b, r, g, t, o)
    decreases s, 2, 0, 4
  {
    hide Extends, Sealed, Frame, HasRun, BuilderState.JumpTo, BuilderState.Append, Then, Loop, LoopDo, Walks;
    match s
    case Seq(_, _) => WalkSeq(s, b, r, g, t, o);
    case VariableDeclaration(_, _, _, _) =>
      RecordedIsExecuted(s.variable, s.initializer.Some? || s.externallyAssigned, [], []);
      WalkVariableDeclaration(s, b, r, g, t, o);
    case VariableDeclarationStatement(_, _, _) =>
      RecordedIsExecuted(0, false, s.variables, []);
      WalkVariableDeclarationStatement(s, b, r, g, t, o);
    case Return(_, _) =>
      RecordedIsExecuted(0, false, s.parameters, []);
      WalkReturn(s, b, r, g, t, o);
    case RevertCall(_) => WalkRevertCall(s, b, r, g, t, o);
    case RequireCall(_) => WalkRequireCall(s, b, r, g, t, o);
    case InternalCall(_, _) => WalkInternalCall(s, b, r, g, t, o);
  }

  /** Every execution of `s` is a run through the code built for it. */
  lemma {:induction false} Walk(s: Ast, b: BuilderState, r: BuilderState, g: Graph, t: Trace, o: Outcome)
    requires IsVisit(s, b, r) && Extends(r.nodes, g) && Executions(s)(t, o)
    ensures Walks(b, r, g, t, o)
    decreases s, 2, 0, 5
  {
    hide Extends, Walks, IsVisit, Executions;
    if IsLeaf(s) {
      WalkLeaf(s, b, r, g, t, o);
    } else if IsBranching(s) {
      WalkBranching(s, b, r, g, t, o);
    } else {
      WalkStraight(s, b, r, g, t, o);
    }
  }

  /** All nodes a state refers to are nodes of any graph built from it. */
  lemma InGraph(b: BuilderState, r: BuilderState, g: Graph)
    requires b.Ready() && Visited(b, r) && Extends(r.nodes, g)
    ensures b.(nodes := g).InRange() && r.(nodes := g).InRange()
  {
  }

  lemma {:induction false} WalkSeq(s: Ast, b: BuilderState, r: BuilderState, g: Graph, t: Trace, o: Outcome)
    requires s.Seq? && b.Ready() && JumpsInLoops(s, b.breakJump.Some?) && r == VisitSeq(s, b) && Extends(r.nodes, g)
    requires Then(Executions(s.first), Executions(s.second))(t, o)
    ensures Walks(b, r, g, t, o)
    decreases s, 2, 0, 3
  {
    hide HasRun, Extends, Sealed, Frame, Visit, Executions, Then;
    var b1 := Visit(s.first, b);
    VisitedExtends(b1, r, g);
    var stopped, i := ThenElim(Executions(s.first), Executions(s.second), t, o);
    if stopped {
      Walk(s.first, b, b1, g, t, o);
    } else {
      Walk(s.first, b, b1, g, t[..i], Normal);
      Walk(s.second, b1, r, g, t[i..], o);
      HasRunConcat(g, Here(b), t, i, Here(b1), Target(b, r, o));
    }
  }

  lemma {:induction false} WalkVariableDeclaration(s: Ast, b: BuilderState, r: BuilderState, g: Graph, t: Trace,
                                                   o: Outcome)
    requires s.VariableDeclaration? && b.Ready() && JumpsInLoops(s, b.breakJump.Some?)
    requires r == VisitVariableDeclaration(s, b) && Extends(r.nodes, g)
    requires var os := DeclarationOccurrences(s.variable, s.initializer.Some? || s.externallyAssigned);
             var value := if s.initializer.Some? then Executions(s.initializer.value) else Emit([]);
             Then(Emit(OccurrenceEvents(os)), Then(Executions(s.typeName), value))(t, o)
    ensures Walks(b, r, g, t, o)
    decreases s, 2, 0, 3
  {
    hide HasRun, Extends, Sealed, Frame, Visit, Executions, OccurrenceEvents, BuilderState.Append, Then;
    var os := DeclarationOccurrences(s.variable, s.initializer.Some? || s.externallyAssigned);
    var value := if s.initializer.Some? then Executions(s.initializer.value) else Emit([]);
    VisitedSelf(b);
    AppendVisited(b, b, os);
    var b1 := b.Append(os);
    var b2 := Visit(s.typeName, b1);
    if s.initializer.Some? {
      VisitedExtends(b2, r, g);
    }
    VisitedExtends(b1, b2, g);
    WalkAppend(b, os, g);
    var _, i := ThenElim(Emit(OccurrenceEvents(os)), Then(Executions(s.typeName), value), t, o);
    var u := t[i..];
    var stopped, j := ThenElim(Executions(s.typeName), value, u, o);
    if stopped {
      Walk(s.typeName, b1, b2, g, u, o);
    } else {
      Walk(s.typeName, b1, b2, g, u[..j], Normal);
      if s.initializer.Some? {
        Walk(s.initializer.value, b2, r, g, u[j..], o);
      } else {
        InGraph(b1, b2, g);
        StandStill(g, Here(b2));
      }
      HasRunConcat(g, Here(b1), u, j, Here(b2), Target(b, r, o));
    }
    HasRunConcat(g, Here(b), t, i, Here(b1), Target(b, r, o));
  }

  lemma {:induction false} WalkThenAppend(e: Ast, os: seq<VariableOccurrence>, b: BuilderState, b1: BuilderState,
                                          g: Graph, t: Trace, o: Outcome)
    requires IsVisit(e, b, b1) && Extends(b1.Append(os).nodes, g)
    requires Then(Executions(e), Emit(OccurrenceEvents(os)))(t, o)
    ensures Walks(b, b1.Append(os), g, t, o)
    decreases e, 2, 0, 6
  {
    hide HasRun, Extends, Sealed, Frame, Visit, Executions, OccurrenceEvents, BuilderState.Append, Then;
    VisitedSelf(b1);
    AppendVisited(b1, b1, os);
    VisitedExtends(b1, b1.Append(os), g);
    var stopped, i := ThenElim(Executions(e), Emit(OccurrenceEvents(os)), t, o);
    if stopped {
      Walk(e, b, b1, g, t, o);
    } else {
      Walk(e, b, b1, g, t[..i], Normal);
      WalkAppend(b1, os, g);
      HasRunConcat(g, Here(b), t, i, Here(b1), Here(b1.Append(os)));
    }
  }

  lemma {:induction false} WalkVariableDeclarationStatement(s: Ast, b: BuilderState, r: BuilderState, g: Graph,
                                                            t: Trace, o: Outcome)
    requires s.VariableDeclarationStatement? && b.Ready() && JumpsInLoops(s, b.breakJump.Some?)
    requires r == VisitVariableDeclarationStatement(s, b) && Extends(r.nodes, g)
    requires var value := if s.initialValue.None? then Emit([]) else
                            Then(Executions(s.initialValue.value), Emit(OccurrenceEvents(Assignments(s.variables))));
             Then(Executions(s.declarations), value)(t, o)
    ensures Walks(b, r, g, t, o)
    decreases s, 2, 0, 3
  {
    hide HasRun, Extends, Sealed, Frame, Visit, Executions, OccurrenceEvents, BuilderState.Append, Assignments, Then;
    var value := if s.initialValue.None? then Emit([]) else
      Then(Executions(s.initialValue.value), Emit(OccurrenceEvents(Assignments(s.variables))));
    var b1 := Visit(s.declarations, b);
    if s.initialValue.Some? {
      AppendVisited(b1, Visit(s.initialValue.value, b1), Assignments(s.variables));
      VisitedExtends(b1, r, g);
    }
    var stopped, i := ThenElim(Executions(s.declarations), value, t, o);
    if stopped {
      Walk(s.declarations, b, b1, g, t, o);
    } else {
      Walk(s.declarations, b, b1, g, t[..i], Normal);
      if s.initialValue.Some? {
        WalkThenAppend(s.initialValue.value, Assignments(s.variables), b1, Visit(s.initialValue.value, b1), g, t[i..],
                       o);
      } else {
        InGraph(b, r, g);
        StandStill(g, Here(r));
      }
      HasRunConcat(g, Here(b), t, i, Here(b1), Target(b, r, o));
    }
  }

  /** A walk to the end of a part goes on to the fresh node it leads to. */
  lemma WalkJoin(b: BuilderState, x: BuilderState, y: BuilderState, r: BuilderState, g: Graph, t: Trace, o: Outcome)
    requires Walks(x, y, g, t, o) && SameJumps(b, x) && Here(b).node < |g|
    requires Sealed(y, g, [r.current]) && y.Open(y.current) && r.Fresh(r.current) && r.current < |g|
    ensures JumpsSomewhere(b, o) && HasRun(g, Here(x), t, Target(b, r, o))
  {
    if o == Normal {
      WalkArc(y, g, [r.current], r.current);
      HasRunThen(g, Here(x), t, Here(y), Start(r.current));
    }
  }

  lemma {:induction false} WalkSides(s: Ast, b: BuilderState, r: IfStages, g: Graph, t: Trace, o: Outcome)
    requires s.If? && IfShape(r, s.whenFalse.Some?, g) && SameJumps(b, r.condition) && SameJumps(b, r.trueEnd)
    requires IsVisit(s.whenTrue, r.condition.Split(), r.trueEnd)
    requires s.whenFalse.Some? ==> IsVisit(s.whenFalse.value, r.trueEnd.At(|r.condition.nodes| + 1), r.falseEnd)
    requires b.(nodes := g).InRange() && r.result.current < |g| && r.condition.Ready() && |r.condition.nodes| + 1 < |g|
    requires Sides(s)(t, o)
    ensures JumpsSomewhere(b, o) && HasRun(g, Here(r.condition), t, Target(b, r.result, o))
    decreases s, 2, 0, 2
  {
    hide HasRun, Extends, Sealed, Frame, Visit, Executions;
    var n := |r.condition.nodes|;
    if Executions(s.whenTrue)(t, o) {
      var x := r.condition.Split();
      Walk(s.whenTrue, x, r.trueEnd, g, t, o);
      WalkJoin(b, x, r.trueEnd, r.result, g, t, o);
      WalkArc(r.condition, g, [n, n + 1], n);
      HasRunAfter(g, Here(r.condition), t, Start(n), Target(b, r.result, o));
    } else if s.whenFalse.Some? {
      var x := r.trueEnd.At(n + 1);
      Walk(s.whenFalse.value, x, r.falseEnd, g, t, o);
      WalkJoin(b, x, r.falseEnd, r.result, g, t, o);
      WalkArc(r.condition, g, [n, n + 1], n + 1);
      HasRunAfter(g, Here(r.condition), t, Start(n + 1), Target(b, r.result, o));
    } else {
      WalkArc(r.condition, g, [n, n + 1], n + 1);
    }
  }

  lemma {:induction false} WalkIf(s: Ast, b: BuilderState, r: IfStages, g: Graph, t: Trace, o: Outcome)
    requires s.If? && b.Ready() && JumpsInLoops(s, b.breakJump.Some?)
    requires r == VisitIf(s, b) && Extends(r.result.nodes, g)
    requires Then(Executions(s.condition), Sides(s))(t, o)
    ensures Walks(b, r.result, g, t, o)
    decreases s, 2, 0, 3
  {
    hide HasRun, Extends, Sealed, Frame, Visit, VisitIf, Executions, Sides, Then;
    IfVisits(s, b, r);
    IfHasShape(r, s.whenFalse.Some?, g);
    InGraph(b, r.result, g);
    SplitVisited(r.condition);
    VisitedExtends(r.condition.Split(), r.trueEnd, g);
    InGraph(r.condition.Split(), r.trueEnd, g);
    SplitInGraph(r.condition, g);
    var stopped, i := ThenElim(Executions(s.condition), Sides(s), t, o);
    if stopped {
      Walk(s.condition, b, r.condition, g, t, o);
    } else {
      Walk(s.condition, b, r.condition, g, t[..i], Normal);
      WalkSides(s, b, r, g, t[i..], o);
      HasRunConcat(g, Here(b), t, i, Here(r.condition), Target(b, r.result, o));
    }
  }

  lemma SplitInGraph(b: BuilderState, g: Graph)
    requires b.Ready() && Extends(b.Split().nodes, g)
    ensures |b.nodes| + 1 < |g|
  {
  }

  lemma {:induction false} WalkWhile(s: Ast, b: BuilderState, r: LoopStages, g: Graph, t: Trace, o: Outcome)
    requires s.While? && b.Ready() && JumpsInLoops(s, b.breakJump.Some?)
    requires r == VisitWhile(s, b) && Extends(r.result.nodes, g)
    requires Loop(Executions(s.condition), Executions(s.body), Emit([]))(t, o)
    ensures Walks(b, r.result, g, t, o)
    decreases s, 2, 0, 3
  {
    hide HasRun, Extends, Sealed, Frame, Visit, VisitWhile, Executions, Iterate, Loop;
    WhileVisits(s, b, r);
    WhileHasShape(b, r, g);
    InGraph(b, r.result, g);
    InGraph(r.head, r.condition, g);
    InGraph(r.bodyStart, r.bodyEnd, g);
    var n := LoopElim(Executions(s.condition), Executions(s.body), Emit([]), t, o);
    WalkWhileRounds(s, b, r, g, n, t, o);
    WalkArc(b, g, [r.head.current], r.head.current);
    HasRunAfter(g, Here(b), t, Start(r.head.current), Target(b, r.result, o));
  }

  ghost predicate WhileInGraph(b: BuilderState, r: LoopStages, g: Graph) {
    && WhileShape(b, r, g) && SameJumps(b, r.head)
    && r.head.current < |g| && r.bodyStart.current < |g| && r.result.current < |g|
  }

  lemma {:induction false} WalkWhileRounds(s: Ast, b: BuilderState, r: LoopStages, g: Graph, n: nat, t: Trace,
                                           o: Outcome)
    requires s.While? && WhileInGraph(b, r, g)
    requires IsVisit(s.condition, r.head, r.condition) && IsVisit(s.body, r.bodyStart, r.bodyEnd)
    requires Iterate(n, Executions(s.condition), Executions(s.body), Emit([]))(t, o)
    ensures JumpsSomewhere(b, o) && HasRun(g, Start(r.head.current), t, Target(b, r.result, o))
    decreases s, 1, n, 2
  {
    hide HasRun, Extends, Sealed, Frame, Visit, Executions, Then, BodyThen;
    var c, body := Executions(s.condition), Executions(s.body);
    var again := if n == 0 then Nothing else Iterate(n - 1, c, body, Emit([]));
    var round := Choice(Emit([]), BodyThen(body, Then(Emit([]), again)));
    var stopped, i := ThenElim(c, round, t, o);
    if stopped {
      Walk(s.condition, r.head, r.condition, g, t, o);
      return;
    }
    Walk(s.condition, r.head, r.condition, g, t[..i], Normal);
    if Emit([])(t[i..], o) {
      WalkArc(r.condition, g, [r.bodyStart.current, r.result.current], r.result.current);
    } else {
      WalkArc(r.condition, g, [r.bodyStart.current, r.result.current], r.bodyStart.current);
      WalkWhileBody(s, b, r, g, n, t[i..], o);
      HasRunAfter(g, Here(r.condition), t[i..], Start(r.bodyStart.current), Target(b, r.result, o));
    }
    HasRunConcat(g, Here(r.head), t, i, Here(r.condition), Target(b, r.result, o));
  }

  lemma {:induction false} WalkWhileBody(s: Ast, b: BuilderState, r: LoopStages, g: Graph, n: nat, t: Trace, o: Outcome)
    requires s.While? && WhileInGraph(b, r, g)
    requires IsVisit(s.condition, r.head, r.condition) && IsVisit(s.body, r.bodyStart, r.bodyEnd)
    requires var again := if n == 0 then Nothing
             else Iterate(n - 1, Executions(s.condition), Executions(s.body), Emit([]));
             BodyThen(Executions(s.body), Then(Emit([]), again))(t, o)
    ensures JumpsSomewhere(b, o) && HasRun(g, Start(r.bodyStart.current), t, Target(b, r.result, o))
    decreases s, 1, n, 1
  {
    hide HasRun, Extends, Sealed, Frame, Visit, Executions, Then, BodyThen, Iterate;
    var c, body := Executions(s.condition), Executions(s.body);
    var again := if n == 0 then Nothing else Iterate(n - 1, c, body, Emit([]));
    var ended, i := BodyThenElim(body, Then(Emit([]), again), t, o);
    Walk(s.body, r.bodyStart, r.bodyEnd, g, t[..i], ended);
    if ended != Normal && ended != Continued {
      assert t[..i] == t;
      return;
    }
    if ended == Normal {
      WalkArc(r.bodyEnd, g, [r.head.current], r.head.current);
      HasRunThen(g, Start(r.bodyStart.current), t[..i], Here(r.bodyEnd), Start(r.head.current));
    }
    var _, j := ThenElim(Emit([]), again, t[i..], o);
    assert t[i..][j..] == t[i..];
    WalkWhileRounds(s, b, r, g, n - 1, t[i..], o);
    HasRunConcat(g, Start(r.bodyStart.current), t, i, Start(r.head.current), Target(b, r.result, o));
  }

  lemma {:induction false} WalkFor(s: Ast, b: BuilderState, r: LoopStages, g: Graph, t: Trace, o: Outcome)
    requires s.For? && b.Ready() && JumpsInLoops(s, b.breakJump.Some?)
    requires r == VisitFor(s, b) && Extends(r.result.nodes, g)
    requires Then(Executions(s.initialization),
                  Loop(Executions(s.condition), Executions(s.body), Executions(s.loopExpression)))(t, o)
    ensures Walks(b, r.result, g, t, o)
    decreases s, 2, 0, 3
  {
    hide HasRun, Extends, Sealed, Frame, Visit, VisitForLoop, Executions, Then, Iterate, Loop;
    var loop := Loop(Executions(s.condition), Executions(s.body), Executions(s.loopExpression));
    var b1 := Visit(s.initialization, b);
    ForVisits(s, b1, r);
    ForHasShape(b1, r, g);
    VisitedExtends(b1, r.result, g);
    var stopped, i := ThenElim(Executions(s.initialization), loop, t, o);
    if stopped {
      Walk(s.initialization, b, b1, g, t, o);
      return;
    }
    Walk(s.initialization, b, b1, g, t[..i], Normal);
    InGraph(b1, r.result, g);
    InGraph(r.head, r.condition, g);
    InGraph(r.bodyStart, r.bodyEnd, g);
    InGraph(r.postStart, r.postEnd, g);
    var n := LoopElim(Executions(s.condition), Executions(s.body), Executions(s.loopExpression), t[i..], o);
    WalkForRounds(s, b1, r, g, n, t[i..], o);
    WalkArc(b1, g, [r.head.current], r.head.current);
    HasRunAfter(g, Here(b1), t[i..], Start(r.head.current), Target(b, r.result, o));
    HasRunConcat(g, Here(b), t, i, Here(b1), Target(b, r.result, o));
  }

  ghost predicate ForInGraph(s: Ast, b: BuilderState, r: LoopStages, g: Graph)
    requires s.For?
  {
    && ForVisited(s, b, r, g)
    && r.head.current < |g| && r.bodyStart.current < |g| && r.postStart.current < |g| && r.result.current < |g|
  }

  ghost function ForAgain(s: Ast, n: nat): Behaviour
    requires s.For?
  {
    if n == 0 then Nothing
        else Iterate(n - 1, Executions(s.condition), Executions(s.body), Executions(s.loopExpression))
  }

  lemma {:induction false} WalkForRounds(s: Ast, b: BuilderState, r: LoopStages, g: Graph, n: nat, t: Trace, o: Outcome)
    requires s.For? && ForInGraph(s, b, r, g)
    requires Iterate(n, Executions(s.condition), Executions(s.body), Executions(s.loopExpression))(t, o)
    ensures JumpsSomewhere(b, o) && HasRun(g, Start(r.head.current), t, Target(b, r.result, o))
    decreases s, 1, n, 3
  {
    hide HasRun, Extends, Sealed, Frame, Visit, Executions, Then, BodyThen;
    var c, body, post := Executions(s.condition), Executions(s.body), Executions(s.loopExpression);
    var round := Choice(Emit([]), BodyThen(body, Then(post, ForAgain(s, n))));
    var stopped, i := ThenElim(c, round, t, o);
    if stopped {
      Walk(s.condition, r.head, r.condition, g, t, o);
      return;
    }
    Walk(s.condition, r.head, r.condition, g, t[..i], Normal);
    if Emit([])(t[i..], o) {
      WalkArc(r.condition, g, [r.bodyStart.current, r.result.current], r.result.current);
    } else {
      WalkArc(r.condition, g, [r.bodyStart.current, r.result.current], r.bodyStart.current);
      WalkForBody(s, b, r, g, n, t[i..], o);
      HasRunAfter(g, Here(r.condition), t[i..], Start(r.bodyStart.current), Target(b, r.result, o));
    }
    HasRunConcat(g, Here(r.head), t, i, Here(r.condition), Target(b, r.result, o));
  }

  lemma {:induction false} WalkForBody(s: Ast, b: BuilderState, r: LoopStages, g: Graph, n: nat, t: Trace, o: Outcome)
    requires s.For? && ForInGraph(s, b, r, g)
    requires BodyThen(Executions(s.body), Then(Executions(s.loopExpression), ForAgain(s, n)))(t, o)
    ensures JumpsSomewhere(b, o) && HasRun(g, Start(r.bodyStart.current), t, Target(b, r.result, o))
    decreases s, 1, n, 2
  {
    hide HasRun, Extends, Sealed, Frame, Visit, Executions, Then, BodyThen, Iterate;
    var body, next := Executions(s.body), Then(Executions(s.loopExpression), ForAgain(s, n));
    var ended, i := BodyThenElim(body, next, t, o);
    Walk(s.body, r.bodyStart, r.bodyEnd, g, t[..i], ended);
    if ended != Normal && ended != Continued {
      assert t[..i] == t;
      return;
    }
    if ended == Normal {
      WalkArc(r.bodyEnd, g, [r.postStart.current], r.postStart.current);
      HasRunThen(g, Start(r.bodyStart.current), t[..i], Here(r.bodyEnd), Start(r.postStart.current));
    }
    WalkForPost(s, b, r, g, n, t[i..], o);
    HasRunConcat(g, Start(r.bodyStart.current), t, i, Start(r.postStart.current), Target(b, r.result, o));
  }

  lemma {:induction false} WalkForPost(s: Ast, b: BuilderState, r: LoopStages, g: Graph, n: nat, t: Trace, o: Outcome)
    requires s.For? && ForInGraph(s, b, r, g)
    requires Then(Executions(s.loopExpression), ForAgain(s, n))(t, o)
    ensures JumpsSomewhere(b, o) && HasRun(g, Start(r.postStart.current), t, Target(b, r.result, o))
    decreases s, 1, n, 1
  {
    hide HasRun, Extends, Sealed, Frame, Visit, Executions, Then, Iterate;
    var stopped, i := ThenElim(Executions(s.loopExpression), ForAgain(s, n), t, o);
    if stopped {
      Walk(s.loopExpression, r.postStart, r.postEnd, g, t, o);
    } else {
      Walk(s.loopExpression, r.postStart, r.postEnd, g, t[..i], Normal);
      WalkArc(r.postEnd, g, [r.head.current], r.head.current);
      WalkForRounds(s, b, r, g, n - 1, t[i..], o);
      HasRunAfter(g, Here(r.postEnd), t[i..], Start(r.head.current), Target(b, r.result, o));
      HasRunConcat(g, Start(r.postStart.current), t, i, Here(r.postEnd), Target(b, r.result, o));
    }
  }

  lemma {:induction false} WalkDoWhile(s: Ast, b: BuilderState, r: LoopStages, g: Graph, t: Trace, o: Outcome)
    requires s.DoWhile? && b.Ready() && JumpsInLoops(s, b.breakJump.Some?)
    requires r == VisitDoWhile(s, b) && Extends(r.result.nodes, g)
    requires LoopDo(Executions(s.body), Executions(s.condition))(t, o)
    ensures Walks(b, r.result, g, t, o)
    decreases s, 2, 0, 3
  {
    hide HasRun, Extends, Sealed, Frame, Visit, VisitDoWhile, Executions, IterateDo, LoopDo;
    DoWhileVisits(s, b, r);
    DoWhileHasShape(b, r, g);
    InGraph(b, r.result, g);
    InGraph(r.bodyStart, r.bodyEnd, g);
    InGraph(r.postStart, r.postEnd, g);
    var n := LoopDoElim(Executions(s.body), Executions(s.condition), t, o);
    WalkDoRounds(s, b, r, g, n, t, o);
    WalkArc(b, g, [r.head.current], r.head.current);
    HasRunAfter(g, Here(b), t, Start(r.head.current), Target(b, r.result, o));
  }

  ghost predicate DoInGraph(s: Ast, b: BuilderState, r: LoopStages, g: Graph)
    requires s.DoWhile?
  {
    DoWhileVisited(s, b, r, g) && r.head.current < |g| && r.postStart.current < |g| && r.result.current < |g|
  }

  ghost function DoAgain(s: Ast, n: nat): Behaviour
    requires s.DoWhile?
  {
    if n == 0 then Nothing else IterateDo(n - 1, Executions(s.body), Executions(s.condition))
  }

  lemma {:induction false} WalkDoRounds(s: Ast, b: BuilderState, r: LoopStages, g: Graph, n: nat, t: Trace, o: Outcome)
    requires s.DoWhile? && DoInGraph(s, b, r, g)
    requires IterateDo(n, Executions(s.body), Executions(s.condition))(t, o)
    ensures JumpsSomewhere(b, o) && HasRun(g, Start(r.head.current), t, Target(b, r.result, o))
    decreases s, 1, n, 2
  {
    hide HasRun, Extends, Sealed, Frame, Visit, Executions, Then, BodyThen;
    var body, next := Executions(s.body), Then(Executions(s.condition), Choice(Emit([]), DoAgain(s, n)));
    var ended, i := BodyThenElim(body, next, t, o);
    Walk(s.body, r.bodyStart, r.bodyEnd, g, t[..i], ended);
    if ended != Normal && ended != Continued {
      assert t[..i] == t;
      return;
    }
    if ended == Normal {
      WalkArc(r.bodyEnd, g, [r.postStart.current], r.postStart.current);
      HasRunThen(g, Start(r.head.current), t[..i], Here(r.bodyEnd), Start(r.postStart.current));
    }
    WalkDoCondition(s, b, r, g, n, t[i..], o);
    HasRunConcat(g, Start(r.head.current), t, i, Start(r.postStart.current), Target(b, r.result, o));
  }

  lemma {:induction false} WalkDoCondition(s: Ast, b: BuilderState, r: LoopStages, g: Graph, n: nat, t: Trace,
                                           o: Outcome)
    requires s.DoWhile? && DoInGraph(s, b, r, g)
    requires Then(Executions(s.condition), Choice(Emit([]), DoAgain(s, n)))(t, o)
    ensures JumpsSomewhere(b, o) && HasRun(g, Start(r.postStart.current), t, Target(b, r.result, o))
    decreases s, 1, n, 1
  {
    hide HasRun, Extends, Sealed, Frame, Visit, Executions, Then, IterateDo;
    var stopped, i := ThenElim(Executions(s.condition), Choice(Emit([]), DoAgain(s, n)), t, o);
    if stopped {
      Walk(s.condition, r.postStart, r.postEnd, g, t, o);
      return;
    }
    Walk(s.condition, r.postStart, r.postEnd, g, t[..i], Normal);
    var targets := [r.head.current, r.result.current];
    if Emit([])(t[i..], o) {
      WalkArc(r.postEnd, g, targets, r.result.current);
    } else {
      WalkArc(r.postEnd, g, targets, r.head.current);
      WalkDoRounds(s, b, r, g, n - 1, t[i..], o);
      HasRunAfter(g, Here(r.postEnd), t[i..], Start(r.head.current), Target(b, r.result, o));
    }
    HasRunConcat(g, Start(r.postStart.current), t, i, Here(r.postEnd), Target(b, r.result, o));
  }

  lemma {:induction false} WalkReturn(s: Ast, b: BuilderState, r: BuilderState, g: Graph, t: Trace, o: Outcome)
    requires s.Return? && b.Ready() && JumpsInLoops(s, b.breakJump.Some?) && r == VisitReturn(s, b)
             && Extends(r.nodes, g)
    requires s.expression.None? ==> Jump(Returned)(t, o)
    requires s.expression.Some? ==>
               var e := Then(Executions(s.expression.value), Emit(OccurrenceEvents(Assignments(s.parameters))));
               Then(e, Jump(Returned))(t, o)
    ensures Walks(b, r, g, t, o)
    decreases s, 2, 0, 3
  {
    hide HasRun, Extends, Sealed, Frame, Visit, Executions, OccurrenceEvents, BuilderState.Append, BuilderState.JumpTo,
        Assignments, Then;
    InGraph(b, r, g);
    if s.expression.None? {
      JumpSeals(b, b.returnNode, g);
      WalkJump(b, r, g, b.returnNode, o);
      return;
    }
    var os := Assignments(s.parameters);
    var b1 := Visit(s.expression.value, b);
    VisitedSelf(b1);
    AppendVisited(b1, b1, os);
    var b2 := b1.Append(os);
    JumpSeals(b2, b.returnNode, g);
    var e := Then(Executions(s.expression.value), Emit(OccurrenceEvents(os)));
    var stopped, i := ThenElim(e, Jump(Returned), t, o);
    if stopped {
      WalkThenAppend(s.expression.value, os, b, b1, g, t, o);
    } else {
      WalkThenAppend(s.expression.value, os, b, b1, g, t[..i], Normal);
      WalkJump(b2, r, g, b.returnNode, o);
      HasRunConcat(g, Here(b), t, i, Here(b2), Start(b.returnNode));
    }
  }

  lemma {:induction false} WalkRevertCall(s: Ast, b: BuilderState, r: BuilderState, g: Graph, t: Trace, o: Outcome)
    requires s.RevertCall? && b.Ready() && JumpsInLoops(s, b.breakJump.Some?)
    requires r == VisitRevertCall(s, b) && Extends(r.nodes, g)
    requires Then(Executions(s.callee), Jump(Reverted))(t, o)
    ensures Walks(b, r, g, t, o)
    decreases s, 2, 0, 3
  {
    hide HasRun, Extends, Sealed, Frame, Visit, Executions, BuilderState.JumpTo, Then;
    InGraph(b, r, g);
    var b1 := Visit(s.callee, b);
    JumpSeals(b1, b.revertNode, g);
    var stopped, i := ThenElim(Executions(s.callee), Jump(Reverted), t, o);
    if stopped {
      Walk(s.callee, b, b1, g, t, o);
    } else {
      Walk(s.callee, b, b1, g, t[..i], Normal);
      WalkJump(b1, r, g, b.revertNode, o);
      HasRunConcat(g, Here(b), t, i, Here(b1), Start(b.revertNode));
    }
  }

  lemma {:induction false} WalkRequireCall(s: Ast, b: BuilderState, r: BuilderState, g: Graph, t: Trace, o: Outcome)
    requires s.RequireCall? && b.Ready() && JumpsInLoops(s, b.breakJump.Some?)
    requires r == VisitRequireCall(s, b) && Extends(r.nodes, g)
    requires Then(Executions(s.callee), Choice(Jump(Reverted), Emit([])))(t, o)
    ensures Walks(b, r, g, t, o)
    decreases s, 2, 0, 3
  {
    hide HasRun, Extends, Sealed, Frame, Visit, Executions, BuilderState.Leave, Then;
    InGraph(b, r, g);
    var b1 := Visit(s.callee, b);
    var next := |b1.nodes|;
    RequireSeals(b1, b.revertNode, g);
    var stopped, i := ThenElim(Executions(s.callee), Choice(Jump(Reverted), Emit([])), t, o);
    if stopped {
      Walk(s.callee, b, b1, g, t, o);
    } else {
      Walk(s.callee, b, b1, g, t[..i], Normal);
      WalkArc(b1, g, [b.revertNode, next], if o == Normal then next else b.revertNode);
      HasRunConcat(g, Here(b), t, i, Here(b1), Target(b, r, o));
    }
  }

  lemma {:induction false} WalkInternalCall(s: Ast, b: BuilderState, r: BuilderState, g: Graph, t: Trace, o: Outcome)
    requires s.InternalCall? && b.Ready() && JumpsInLoops(s, b.breakJump.Some?)
    requires r == VisitInternalCall(s, b) && Extends(r.nodes, g)
    requires Then(Executions(s.callee), Emit(CallEvents(s.definition)))(t, o)
    ensures Walks(b, r, g, t, o)
    decreases s, 2, 0, 3
  {
    hide HasRun, Extends, Sealed, Frame, Visit, Executions, BuilderState.CallOut, Then;
    InGraph(b, r, g);
    var b1 := Visit(s.callee, b);
    CallSeals(b1, s.definition, g);
    var stopped, i := ThenElim(Executions(s.callee), Emit(CallEvents(s.definition)), t, o);
    if stopped {
      Walk(s.callee, b, b1, g, t, o);
    } else {
      Walk(s.callee, b, b1, g, t[..i], Normal);
      WalkCall(b1, s.definition, g);
      HasRunConcat(g, Here(b), t, i, Here(b1), Target(b, r, o));
    }
  }
}
