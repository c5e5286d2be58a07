/**
 * From paths to executions: the part of a run that lies in the code built for
 * a node is an execution of that node.
 */
module ControlFlowPeel {
  import opened Util
  import opened ControlFlowGraph
  import opened ControlFlowSemantics
  import opened ControlFlowBehaviours
  import opened ControlFlowBuilder
  import opened ControlFlowRuns
  import opened ControlFlowShapes

  /** Where an execution of the code built between `b` and `r` continues. */
  function Target(b: BuilderState, r: BuilderState, o: Outcome): Position {
    match o
    case Normal => Here(r)
    case Broke => if b.breakJump.Some? then Start(b.breakJump.value) else Start(0)
    case Continued => if b.continueJump.Some? then Start(b.continueJump.value) else Start(0)
    case Returned => Start(b.returnNode)
    case Reverted => Start(b.revertNode)
  }

  ghost predicate JumpsSomewhere(b: BuilderState, o: Outcome) {
    o == Broke || o == Continued ==> b.breakJump.Some? && b.continueJump.Some?
  }

  /** The first `i` events of the run `t` execute `e` with outcome `o`, and `l` steps remain. */
  ghost predicate Peeled(
    e: Behaviour, b: BuilderState, r: BuilderState, g: Graph, k: nat, t: Trace, to: Position,
    o: Outcome, i: nat, l: nat)
  {
    && i <= |t| && l <= k && JumpsSomewhere(b, o)
    && e(t[..i], o)
    && Run(g, Target(b, r, o), l, t[i..], to)
  }

  lemma Slices(t: Trace, i: nat, j: nat)
    requires i + j <= |t|
    ensures t[..i] + t[i..][..j] == t[..i + j] && t[i..][j..] == t[i + j..]
  {
  }

  lemma PeelThen(a: Behaviour, c: Behaviour, b: BuilderState, b1: BuilderState, b2: BuilderState,
                 g: Graph, k: nat, t: Trace, to: Position, i: nat, l: nat, o: Outcome, i2: nat, l2: nat)
    requires Peeled(a, b, b1, g, k, t, to, Normal, i, l) && SameJumps(b, b1)
    requires Peeled(c, b1, b2, g, l, t[i..], to, o, i2, l2)
    ensures Peeled(Then(a, c), b, b2, g, k, t, to, o, i + i2, l2)
  {
    hide Run;
    Slices(t, i, i2);
    ThenIntro(a, c, t[..i], t[i..][..i2], o);
  }

  lemma PeelStops(a: Behaviour, c: Behaviour, b: BuilderState, b1: BuilderState, b2: BuilderState,
                  g: Graph, k: nat, t: Trace, to: Position, o: Outcome, i: nat, l: nat)
    requires Peeled(a, b, b1, g, k, t, to, o, i, l) && o != Normal
    ensures Peeled(Then(a, c), b, b2, g, k, t, to, o, i, l)
  {
    hide Run;
    ThenStops(a, c, t[..i], o);
  }

  lemma PeelNothing(b: BuilderState, g: Graph, k: nat, t: Trace, to: Position)
    requires Run(g, Here(b), k, t, to)
    ensures Peeled(Emit([]), b, b, g, k, t, to, Normal, 0, k)
  {
    assert t[..0] == [] && t[0..] == t;
  }

  lemma AppendEvents(b: BuilderState, occurrences: seq<VariableOccurrence>, g: Graph)
    requires b.current < |b.nodes| && Extends(b.Append(occurrences).nodes, g)
    ensures var i, n := Here(b).index, |occurrences|;
            && i + n <= |Events(g[b.current])|
            && Events(g[b.current])[i..i + n] == OccurrenceEvents(occurrences)
            && Here(b.Append(occurrences)) == Position(b.current, i + n)
  {
    var r := b.Append(occurrences);
    var os := r.nodes[b.current].variableOccurrences;
    assert os <= g[b.current].variableOccurrences;
    assert os == b.nodes[b.current].variableOccurrences + occurrences;
  }

  lemma PeelAppend(b: BuilderState, occurrences: seq<VariableOccurrence>, g: Graph, k: nat, t: Trace, to: Position)
    returns (l: nat)
    requires b.current < |b.nodes| && Extends(b.Append(occurrences).nodes, g)
    requires Run(g, Here(b), k, t, to) && Terminal(g, to)
    ensures Peeled(Emit(OccurrenceEvents(occurrences)), b, b.Append(occurrences), g, k, t, to, Normal, |occurrences|, l)
  {
    AppendEvents(b, occurrences, g);
    PassEvents(g, Here(b), k, t, to, Here(b).index + |occurrences|);
    l := k - |occurrences|;
  }

  /** A run at the end of a finished node takes one of its arcs. */
  lemma PeelArc(b: BuilderState, g: Graph, targets: seq<NodeId>, k: nat, t: Trace, to: Position) returns (m: NodeId)
    requires Sealed(b, g, targets) && targets != [] && b.Open(b.current)
    requires Run(g, Here(b), k, t, to) && Terminal(g, to)
    ensures k > 0 && m in targets && Run(g, Start(m), k - 1, t, to)
  {
    m := PassArc(g, Here(b), k, t, to);
  }

  lemma PeelJump(b: BuilderState, r: BuilderState, g: Graph, target: NodeId, o: Outcome, k: nat, t: Trace, to: Position)
    returns (l: nat)
    requires Sealed(b, g, [target]) && b.Open(b.current)
    requires Run(g, Here(b), k, t, to) && Terminal(g, to)
    requires Target(b, r, o) == Start(target) && JumpsSomewhere(b, o)
    ensures Peeled(Jump(o), b, r, g, k, t, to, o, 0, l)
  {
    var m := PeelArc(b, g, [target], k, t, to);
    l := k - 1;
    assert t[..0] == [] && t[0..] == t;
  }

  lemma PeelCall(b: BuilderState, definition: Option<FunctionId>, g: Graph, k: nat, t: Trace, to: Position)
      returns (l: nat)
    requires b.Ready() && CallSealed(b, definition, g)
    requires Run(g, Here(b), k, t, to) && Terminal(g, to)
    ensures Peeled(Emit(CallEvents(definition)), b, b.CallOut(definition), g, k, t, to, Normal,
                   |CallEvents(definition)|, l)
  {
    var n, c := |Events(g[b.current])|, |CallEvents(definition)|;
    PassEvents(g, Here(b), k, t, to, n);
    assert Events(g[b.current])[Here(b).index..n] == CallEvents(definition);
    var m := PassArc(g, Position(b.current, n), k - c, t[c..], to);
    l := k - c - 1;
    CallOutVisited(b, definition);
    assert Here(b.CallOut(definition)) == Start(|b.nodes|);
  }

  predicate IsLeaf(s: Ast) {
    s.Skip? || s.Identifier? || s.Break? || s.Continue? || s.Revert?
  }

  predicate IsBranching(s: Ast) {
    s.If? || s.While? || s.DoWhile? || s.For?
  }

  lemma PeelLeaf(s: Ast, b: BuilderState, r: BuilderState, g: Graph, k: nat, t: Trace, to: Position)
    returns (o: Outcome, i: nat, l: nat)
    requires IsLeaf(s) && IsVisit(s, b, r) && Extends(r.nodes, g)
    requires Run(g, Here(b), k, t, to) && Terminal(g, to)
    ensures Peeled(Executions(s), b, r, g, k, t, to, o, i, l)
  {
    hide Run, Extends, Sealed, Frame, Peeled, BuilderState.JumpTo, BuilderState.Append;
    match s
    case Skip =>
      PeelNothing(b, g, k, t, to);
      o, i, l := Normal, 0, k;
    case Identifier(v, w) =>
      var os := [VariableOccurrence(v, if w then Assignment else Access)];
      o, i := Normal, 1;
      l := PeelAppend(b, os, g, k, t, to);
      assert OccurrenceEvents(os) == [Occurs(os[0])];
    case Break =>
      JumpSeals(b, b.breakJump.value, g);
      o, i := Broke, 0;
      l := PeelJump(b, r, g, b.breakJump.value, o, k, t, to);
    case Continue =>
      JumpSeals(b, b.continueJump.value, g);
      o, i := Continued, 0;
      l := PeelJump(b, r, g, b.continueJump.value, o, k, t, to);
    case Revert =>
      JumpSeals(b, b.revertNode, g);
      o, i := Reverted, 0;
      l := PeelJump(b, r, g, b.revertNode, o, k, t, to);
  }

  lemma {:induction false} PeelBranching(s: Ast, b: BuilderState, r: BuilderState, g: Graph, k: nat, t: Trace,
                                         to: Position)
    returns (o: Outcome, i: nat, l: nat)
    requires IsBranching(s) && IsVisit(s, b, r) && Extends(r.nodes, g)
    requires Run(g, Here(b), k, t, to) && Terminal(g, to)
    ensures Peeled(Executions(s), b, r, g, k, t, to, o, i, l)
    decreases s, k, 2
  {
    hide IfSteps, WhileSteps, DoWhileSteps, ForSteps, Visited, BuilderState.Split, BuilderState.Leave,
        BuilderState.EnterLabel, BuilderState.Merge;
    hide Run, Terminal, Extends, Sealed, Frame, Peeled, BuilderState.JumpTo, BuilderState.Append;
    match s
    case If(_, _, _) => o, i, l := PeelIf(s, b, VisitIf(s, b), g, k, t, to);
    case While(_, _) => o, i, l := PeelWhile(s, b, VisitWhile(s, b), g, k, t, to);
    case DoWhile(_, _) => o, i, l := PeelDoWhile(s, b, VisitDoWhile(s, b), g, k, t, to);
    case For(_, _, _, _) => o, i, l := PeelFor(s, b, VisitFor(s, b), g, k, t, to);
  }

  lemma {:induction false} PeelStraight(s: Ast, b: BuilderState, r: BuilderState, g: Graph, k: nat, t: Trace,
                                        to: Position)
    returns (o: Outcome, i: nat, l: nat)
    requires !IsLeaf(s) && !IsBranching(s) && IsVisit(s, b, r) && Extends(r.nodes, g)
    requires Run(g, Here(b), k, t, to) && Terminal(g, to)
    ensures Peeled(Executions(s), b, r, g, k, t, to, o, i, l)
    decreases s, k, 2
  {
    hide Run, Terminal, Extends, Sealed, Frame, Peeled, BuilderState.JumpTo, BuilderState.Append;
    match s
    case Seq(_, _) => o, i, l := PeelSeq(s, b, r, g, k, t, to);
    case VariableDeclaration(_, _, _, _) =>
      RecordedIsExecuted(s.variable, s.initializer.Some? || s.externallyAssigned, [], []);
      o, i, l := PeelVariableDeclaration(s, b, r, g, k, t, to);
    case VariableDeclarationStatement(_, _, _) =>
      RecordedIsExecuted(0, false, s.variables, []);
      o, i, l := PeelVariableDeclarationStatement(s, b, r, g, k, t, to);
    case Return(_, _) =>
      RecordedIsExecuted(0, false, s.parameters, []);
      o, i, l := PeelReturn(s, b, r, g, k, t, to);
    case RevertCall(_) => o, i, l := PeelRevertCall(s, b, r, g, k, t, to);
    case RequireCall(_) => o, i, l := PeelRequireCall(s, b, r, g, k, t, to);
    case InternalCall(_, _) => o, i, l := PeelInternalCall(s, b, r, g, k, t, to);
  }

  /** Every run through the code built for `s` starts with an execution of `s`. */
  lemma {:induction false} Peel(s: Ast, b: BuilderState, r: BuilderState, g: Graph, k: nat, t: Trace, to: Position)
    returns (o: Outcome, i: nat, l: nat)
    requires IsVisit(s, b, r) && Extends(r.nodes, g)
    requires Run(g, Here(b), k, t, to) && Terminal(g, to)
    ensures Peeled(Executions(s), b, r, g, k, t, to, o, i, l)
    decreases s, k, 3
  {
    hide Run, Terminal, Extends, Peeled, IsVisit, Executions;
    if IsLeaf(s) {
      o, i, l := PeelLeaf(s, b, r, g, k, t, to);
    } else if IsBranching(s) {
      o, i, l := PeelBranching(s, b, r, g, k, t, to);
    } else {
      o, i, l := PeelStraight(s, b, r, g, k, t, to);
    }
  }

  lemma {:induction false} PeelSeq(s: Ast, b: BuilderState, r: BuilderState, g: Graph, k: nat, t: Trace, to: Position)
    returns (o: Outcome, i: nat, l: nat)
    requires s.Seq? && b.Ready() && JumpsInLoops(s, b.breakJump.Some?) && r == VisitSeq(s, b) && Extends(r.nodes, g)
    requires Run(g, Here(b), k, t, to) && Terminal(g, to)
    ensures Peeled(Then(Executions(s.first), Executions(s.second)), b, r, g, k, t, to, o, i, l)
    decreases s, k, 1
  {
    hide Run, Extends, Sealed, Frame, Visit, Executions;
    var b1 := Visit(s.first, b);
    VisitedExtends(b1, r, g);
    o, i, l := Peel(s.first, b, b1, g, k, t, to);
    if o == Normal {
      var o2, i2, l2 := Peel(s.second, b1, r, g, l, t[i..], to);
      PeelThen(Executions(s.first), Executions(s.second), b, b1, r, g, k, t, to, i, l, o2, i2, l2);
      o, i, l := o2, i + i2, l2;
    } else {
      PeelStops(Executions(s.first), Executions(s.second), b, b1, r, g, k, t, to, o, i, l);
    }
  }

  lemma {:induction false} PeelVariableDeclaration(s: Ast, b: BuilderState, r: BuilderState, g: Graph, k: nat, t: Trace,
                                                   to: Position)
    returns (o: Outcome, i: nat, l: nat)
    requires s.VariableDeclaration? && b.Ready() && JumpsInLoops(s, b.breakJump.Some?)
    requires r == VisitVariableDeclaration(s, b) && Extends(r.nodes, g)
    requires Run(g, Here(b), k, t, to) && Terminal(g, to)
    ensures var os := DeclarationOccurrences(s.variable, s.initializer.Some? || s.externallyAssigned);
            var value := if s.initializer.Some? then Executions(s.initializer.value) else Emit([]);
            Peeled(Then(Emit(OccurrenceEvents(os)), Then(Executions(s.typeName), value)), b, r, g, k, t, to, o, i, l)
    decreases s, k, 1
  {
    hide Run, Extends, Sealed, Frame, Visit, Executions, OccurrenceEvents, BuilderState.Append;
    var os := DeclarationOccurrences(s.variable, s.initializer.Some? || s.externallyAssigned);
    var value := if s.initializer.Some? then Executions(s.initializer.value) else Emit([]);
    VisitedSelf(b);
    AppendVisited(b, b, os);
    var b1 := b.Append(os);
    var b2 := Visit(s.typeName, b1);
    if s.initializer.Some? {
      VisitedExtends(b2, r, g);
    }
    VisitedExtends(b1, b2, g);
    var l1 := PeelAppend(b, os, g, k, t, to);
    o, i, l := Peel(s.typeName, b1, b2, g, l1, t[|os|..], to);
    if o == Normal {
      var o2, i2, l2;
      if s.initializer.Some? {
        o2, i2, l2 := Peel(s.initializer.value, b2, r, g, l, t[|os|..][i..], to);
      } else {
        o2, i2, l2 := Normal, 0, l;
        PeelNothing(r, g, l, t[|os|..][i..], to);
      }
      PeelThen(Executions(s.typeName), value, b1, b2, r, g, l1, t[|os|..], to, i, l, o2, i2, l2);
      o, i, l := o2, i + i2, l2;
    } else {
      PeelStops(Executions(s.typeName), value, b1, b2, r, g, l1, t[|os|..], to, o, i, l);
    }
    PeelThen(Emit(OccurrenceEvents(os)), Then(Executions(s.typeName), value), b, b1, r, g, k, t, to, |os|, l1, o, i, l);
    i := |os| + i;
  }

  /** `e`, whose occurrences are followed by some of the builder's own. */
  lemma {:induction false} PeelThenAppend(e: Ast, os: seq<VariableOccurrence>, b: BuilderState, b1: BuilderState,
                                          g: Graph, k: nat, t: Trace, to: Position)
    returns (o: Outcome, i: nat, l: nat)
    requires IsVisit(e, b, b1) && Extends(b1.Append(os).nodes, g)
    requires Run(g, Here(b), k, t, to) && Terminal(g, to)
    ensures Peeled(Then(Executions(e), Emit(OccurrenceEvents(os))), b, b1.Append(os), g, k, t, to, o, i, l)
    decreases e, k, 4
  {
    hide Run, Extends, Sealed, Frame, Visit, Executions, OccurrenceEvents, BuilderState.Append;
    VisitedSelf(b1);
    AppendVisited(b1, b1, os);
    VisitedExtends(b1, b1.Append(os), g);
    o, i, l := Peel(e, b, b1, g, k, t, to);
    if o == Normal {
      var l2 := PeelAppend(b1, os, g, l, t[i..], to);
      PeelThen(Executions(e), Emit(OccurrenceEvents(os)), b, b1, b1.Append(os), g, k, t, to, i, l, Normal, |os|, l2);
      i, l := i + |os|, l2;
    } else {
      PeelStops(Executions(e), Emit(OccurrenceEvents(os)), b, b1, b1.Append(os), g, k, t, to, o, i, l);
    }
  }

  lemma {:induction false} PeelVariableDeclarationStatement(s: Ast, b: BuilderState, r: BuilderState, g: Graph, k: nat,
                                                            t: Trace, to: Position)
    returns (o: Outcome, i: nat, l: nat)
    requires s.VariableDeclarationStatement? && b.Ready() && JumpsInLoops(s, b.breakJump.Some?)
    requires r == VisitVariableDeclarationStatement(s, b) && Extends(r.nodes, g)
    requires Run(g, Here(b), k, t, to) && Terminal(g, to)
    ensures var value := if s.initialValue.None? then Emit([]) else
                           Then(Executions(s.initialValue.value), Emit(OccurrenceEvents(Assignments(s.variables))));
            Peeled(Then(Executions(s.declarations), value), b, r, g, k, t, to, o, i, l)
    decreases s, k, 1
  {
    hide Run, Extends, Sealed, Frame, Visit, Executions, OccurrenceEvents, BuilderState.Append, Assignments;
    var value := if s.initialValue.None? then Emit([]) else
      Then(Executions(s.initialValue.value), Emit(OccurrenceEvents(Assignments(s.variables))));
    var b1 := Visit(s.declarations, b);
    if s.initialValue.Some? {
      AppendVisited(b1, Visit(s.initialValue.value, b1), Assignments(s.variables));
      VisitedExtends(b1, r, g);
    }
    o, i, l := Peel(s.declarations, b, b1, g, k, t, to);
    if o != Normal {
      PeelStops(Executions(s.declarations), value, b, b1, r, g, k, t, to, o, i, l);
      return;
    }
    var o2, i2, l2;
    if s.initialValue.Some? {
      o2, i2, l2 := PeelThenAppend(s.initialValue.value, Assignments(s.variables), b1, Visit(s.initialValue.value, b1),
                                   g, l, t[i..], to);
    } else {
      o2, i2, l2 := Normal, 0, l;
      PeelNothing(r, g, l, t[i..], to);
    }
    PeelThen(Executions(s.declarations), value, b, b1, r, g, k, t, to, i, l, o2, i2, l2);
    o, i, l := o2, i + i2, l2;
  }

  /** The end of a part that leads to the fresh node where control flow continues. */
  lemma PeelJoin(e: Behaviour, b: BuilderState, x: BuilderState, y: BuilderState, r: BuilderState,
                 g: Graph, k: nat, t: Trace, to: Position, o: Outcome, i: nat, l: nat) returns (l2: nat)
    requires Peeled(e, x, y, g, k, t, to, o, i, l) && SameJumps(b, x) && Terminal(g, to)
    requires Sealed(y, g, [r.current]) && y.Open(y.current) && r.Fresh(r.current)
    ensures Peeled(e, b, r, g, k, t, to, o, i, l2)
    ensures o == Normal ==> l2 < l
  {
    hide Run;
    l2 := l;
    if o == Normal {
      var m := PeelArc(y, g, [r.current], l, t[i..], to);
      l2 := l - 1;
    }
  }

  /** The two sides of a branch, entered at their first nodes. */
  ghost function Sides(s: Ast): Behaviour
    requires s.If?
  {
    Choice(Executions(s.whenTrue), if s.whenFalse.Some? then Executions(s.whenFalse.value) else Emit([]))
  }

  lemma {:induction false} PeelSides(s: Ast, b: BuilderState, r: IfStages, g: Graph, m: NodeId, k: nat, t: Trace,
                                     to: Position)
    returns (o: Outcome, i: nat, l: nat)
    requires s.If? && IfShape(r, s.whenFalse.Some?, g) && SameJumps(b, r.condition) && SameJumps(b, r.trueEnd)
    requires IsVisit(s.whenTrue, r.condition.Split(), r.trueEnd)
    requires s.whenFalse.Some? ==> IsVisit(s.whenFalse.value, r.trueEnd.At(|r.condition.nodes| + 1), r.falseEnd)
    requires m == |r.condition.nodes| || m == |r.condition.nodes| + 1
    requires Run(g, Start(m), k, t, to) && Terminal(g, to)
    ensures Peeled(Sides(s), b, r.result, g, k, t, to, o, i, l)
    decreases s, k, 0
  {
    hide Run, Extends, Sealed, Frame, Visit, Executions;
    if m == |r.condition.nodes| {
      var x := r.condition.Split();
      o, i, l := Peel(s.whenTrue, x, r.trueEnd, g, k, t, to);
      l := PeelJoin(Executions(s.whenTrue), b, x, r.trueEnd, r.result, g, k, t, to, o, i, l);
    } else if s.whenFalse.Some? {
      var x := r.trueEnd.At(m);
      o, i, l := Peel(s.whenFalse.value, x, r.falseEnd, g, k, t, to);
      l := PeelJoin(Executions(s.whenFalse.value), b, x, r.falseEnd, r.result, g, k, t, to, o, i, l);
    } else {
      o, i, l := Normal, 0, k;
      assert t[..0] == [] && t[0..] == t;
    }
  }

  lemma {:induction false} PeelIf(s: Ast, b: BuilderState, r: IfStages, g: Graph, k: nat, t: Trace, to: Position)
    returns (o: Outcome, i: nat, l: nat)
    requires s.If? && b.Ready() && JumpsInLoops(s, b.breakJump.Some?)
    requires r == VisitIf(s, b) && Extends(r.result.nodes, g)
    requires Run(g, Here(b), k, t, to) && Terminal(g, to)
    ensures Peeled(Then(Executions(s.condition), Sides(s)), b, r.result, g, k, t, to, o, i, l)
    decreases s, k, 1
  {
    hide Run, Extends, Sealed, Frame, Visit, VisitIf, Executions, Sides;
    IfVisits(s, b, r);
    IfHasShape(r, s.whenFalse.Some?, g);
    o, i, l := Peel(s.condition, b, r.condition, g, k, t, to);
    if o == Normal {
      var m := PeelArc(r.condition, g, [|r.condition.nodes|, |r.condition.nodes| + 1], l, t[i..], to);
      var o2, i2, l2 := PeelSides(s, b, r, g, m, l - 1, t[i..], to);
      PeelThen(Executions(s.condition), Sides(s), b, r.condition, r.result, g, k, t, to, i, l, o2, i2, l2);
      o, i, l := o2, i + i2, l2;
    } else {
      PeelStops(Executions(s.condition), Sides(s), b, r.condition, r.result, g, k, t, to, o, i, l);
    }
  }

  /** A round of a loop whose condition comes first. */
  ghost function Round(s: Ast, post: Behaviour, again: Behaviour): Behaviour
    requires s.While? || s.For?
  {
    Choice(Emit([]), BodyThen(Executions(s.body), Then(post, again)))
  }

  lemma RoundsAreLoop(s: Ast, post: Behaviour, b: BuilderState, r: BuilderState,
                      g: Graph, k: nat, t: Trace, to: Position, o: Outcome, i: nat, l: nat)
    requires s.While? || s.For?
    requires var loop := Loop(Executions(s.condition), Executions(s.body), post);
             Peeled(Then(Executions(s.condition), Round(s, post, loop)), b, r, g, k, t, to, o, i, l)
    ensures Peeled(Loop(Executions(s.condition), Executions(s.body), post), b, r, g, k, t, to, o, i, l)
  {
    hide Run, Executions;
    LoopUnrolls(Executions(s.condition), Executions(s.body), post, t[..i], o);
  }

  lemma {:induction false} PeelWhile(s: Ast, b: BuilderState, r: LoopStages, g: Graph, k: nat, t: Trace, to: Position)
    returns (o: Outcome, i: nat, l: nat)
    requires s.While? && b.Ready() && JumpsInLoops(s, b.breakJump.Some?)
    requires r == VisitWhile(s, b) && Extends(r.result.nodes, g)
    requires Run(g, Here(b), k, t, to) && Terminal(g, to)
    ensures Peeled(Loop(Executions(s.condition), Executions(s.body), Emit([])), b, r.result, g, k, t, to, o, i, l)
    decreases s, k, 1
  {
    hide Run, Extends, Sealed, Frame, Visit, VisitWhile, Executions, Loop;
    WhileVisits(s, b, r);
    WhileHasShape(b, r, g);
    var m := PeelArc(b, g, [r.head.current], k, t, to);
    o, i, l := PeelWhileRounds(s, b, r, g, k - 1, t, to);
  }

  /** Rounds of a while loop, starting at its condition. */
  lemma {:induction false} PeelWhileRounds(s: Ast, b: BuilderState, r: LoopStages, g: Graph, k: nat, t: Trace,
                                           to: Position)
    returns (o: Outcome, i: nat, l: nat)
    requires s.While? && WhileShape(b, r, g) && SameJumps(b, r.head)
    requires IsVisit(s.condition, r.head, r.condition) && IsVisit(s.body, r.bodyStart, r.bodyEnd)
    requires Run(g, Start(r.head.current), k, t, to) && Terminal(g, to)
    ensures Peeled(Loop(Executions(s.condition), Executions(s.body), Emit([])), b, r.result, g, k, t, to, o, i, l)
    decreases s, k, 1
  {
    hide Run, Extends, Sealed, Frame, Visit, Executions, Loop, Round;
    var c, loop := Executions(s.condition), Loop(Executions(s.condition), Executions(s.body), Emit([]));
    var round := Round(s, Emit([]), loop);
    o, i, l := Peel(s.condition, r.head, r.condition, g, k, t, to);
    if o == Normal {
      var m := PeelArc(r.condition, g, [r.bodyStart.current, r.result.current], l, t[i..], to);
      var o2, i2, l2 := PeelWhileBody(s, b, r, g, m, l - 1, t[i..], to);
      PeelThen(c, round, b, r.condition, r.result, g, k, t, to, i, l, o2, i2, l2);
      o, i, l := o2, i + i2, l2;
    } else {
      PeelStops(c, round, b, r.condition, r.result, g, k, t, to, o, i, l);
    }
    RoundsAreLoop(s, Emit([]), b, r.result, g, k, t, to, o, i, l);
  }

  lemma {:induction false} PeelWhileBody(s: Ast, b: BuilderState, r: LoopStages, g: Graph, m: NodeId, k: nat, t: Trace,
                                         to: Position)
    returns (o: Outcome, i: nat, l: nat)
    requires s.While? && WhileShape(b, r, g) && SameJumps(b, r.head)
    requires IsVisit(s.condition, r.head, r.condition) && IsVisit(s.body, r.bodyStart, r.bodyEnd)
    requires m == r.bodyStart.current || m == r.result.current
    requires Run(g, Start(m), k, t, to) && Terminal(g, to)
    ensures var loop := Loop(Executions(s.condition), Executions(s.body), Emit([]));
            Peeled(Round(s, Emit([]), loop), b, r.result, g, k, t, to, o, i, l)
    decreases s, k, 2
  {
    hide Run, Extends, Sealed, Frame, Visit, Executions, Loop, Then;
    var body, loop := Executions(s.body), Loop(Executions(s.condition), Executions(s.body), Emit([]));
    if m == r.result.current {
      o, i, l := Normal, 0, k;
      assert t[..0] == [] && t[0..] == t;
      return;
    }
    o, i, l := Peel(s.body, r.bodyStart, r.bodyEnd, g, k, t, to);
    if o != Normal && o != Continued {
      BodyLeaves(body, Then(Emit([]), loop), t[..i], o);
      o := LoopOutcome(o);
      return;
    }
    if o == Normal {
      var m := PeelArc(r.bodyEnd, g, [r.head.current], l, t[i..], to);
      l := l - 1;
    }
    var o2, i2, l2 := PeelWhileRounds(s, b, r, g, l, t[i..], to);
    Slices(t, i, i2);
    ThenIntro(Emit([]), loop, [], t[i..][..i2], o2);
    assert [] + t[i..][..i2] == t[i..][..i2];
    BodyThenIntro(body, Then(Emit([]), loop), t[..i], t[i..][..i2], o2);
    o, i, l := o2, i + i2, l2;
  }

  lemma {:induction false} PeelFor(s: Ast, b: BuilderState, r: LoopStages, g: Graph, k: nat, t: Trace, to: Position)
    returns (o: Outcome, i: nat, l: nat)
    requires s.For? && b.Ready() && JumpsInLoops(s, b.breakJump.Some?)
    requires r == VisitFor(s, b) && Extends(r.result.nodes, g)
    requires Run(g, Here(b), k, t, to) && Terminal(g, to)
    ensures var loop := Loop(Executions(s.condition), Executions(s.body), Executions(s.loopExpression));
            Peeled(Then(Executions(s.initialization), loop), b, r.result, g, k, t, to, o, i, l)
    decreases s, k, 1
  {
    hide Run, Extends, Sealed, Frame, Visit, VisitForLoop, Executions, Loop;
    var loop := Loop(Executions(s.condition), Executions(s.body), Executions(s.loopExpression));
    var b1 := Visit(s.initialization, b);
    ForVisits(s, b1, r);
    ForHasShape(b1, r, g);
    VisitedExtends(b1, r.result, g);
    o, i, l := Peel(s.initialization, b, b1, g, k, t, to);
    if o == Normal {
      var m := PeelArc(b1, g, [r.head.current], l, t[i..], to);
      var o2, i2, l2 := PeelForRounds(s, b1, r, g, l - 1, t[i..], to);
      PeelThen(Executions(s.initialization), loop, b, b1, r.result, g, k, t, to, i, l, o2, i2, l2);
      o, i, l := o2, i + i2, l2;
    } else {
      PeelStops(Executions(s.initialization), loop, b, b1, r.result, g, k, t, to, o, i, l);
    }
  }

  ghost predicate ForVisited(s: Ast, b: BuilderState, r: LoopStages, g: Graph)
    requires s.For?
  {
    && ForShape(b, r, g) && SameJumps(b, r.head) && SameJumps(b, r.postStart)
    && IsVisit(s.condition, r.head, r.condition) && IsVisit(s.body, r.bodyStart, r.bodyEnd)
    && IsVisit(s.loopExpression, r.postStart, r.postEnd)
  }

  /** Rounds of a for loop, starting at its condition. */
  lemma {:induction false} PeelForRounds(s: Ast, b: BuilderState, r: LoopStages, g: Graph, k: nat, t: Trace,
                                         to: Position)
    returns (o: Outcome, i: nat, l: nat)
    requires s.For? && ForVisited(s, b, r, g)
    requires Run(g, Start(r.head.current), k, t, to) && Terminal(g, to)
    ensures var loop := Loop(Executions(s.condition), Executions(s.body), Executions(s.loopExpression));
            Peeled(loop, b, r.result, g, k, t, to, o, i, l)
    decreases s, k, 1
  {
    hide Run, Extends, Sealed, Frame, Visit, Executions, Loop, Round;
    var c, post := Executions(s.condition), Executions(s.loopExpression);
    var round := Round(s, post, Loop(Executions(s.condition), Executions(s.body), post));
    o, i, l := Peel(s.condition, r.head, r.condition, g, k, t, to);
    if o == Normal {
      var m := PeelArc(r.condition, g, [r.bodyStart.current, r.result.current], l, t[i..], to);
      var o2, i2, l2 := PeelForBody(s, b, r, g, m, l - 1, t[i..], to);
      PeelThen(c, round, b, r.condition, r.result, g, k, t, to, i, l, o2, i2, l2);
      o, i, l := o2, i + i2, l2;
    } else {
      PeelStops(c, round, b, r.condition, r.result, g, k, t, to, o, i, l);
    }
    RoundsAreLoop(s, post, b, r.result, g, k, t, to, o, i, l);
  }

  lemma {:induction false} PeelForBody(s: Ast, b: BuilderState, r: LoopStages, g: Graph, m: NodeId, k: nat, t: Trace,
                                       to: Position)
    returns (o: Outcome, i: nat, l: nat)
    requires s.For? && ForVisited(s, b, r, g)
    requires m == r.bodyStart.current || m == r.result.current
    requires Run(g, Start(m), k, t, to) && Terminal(g, to)
    ensures var post := Executions(s.loopExpression);
            Peeled(Round(s, post, Loop(Executions(s.condition), Executions(s.body), post)), b, r.result, g, k, t, to, o,
                   i, l)
    decreases s, k, 3
  {
    hide Run, Extends, Sealed, Frame, Visit, Executions, Loop, Then;
    var body, post := Executions(s.body), Executions(s.loopExpression);
    var next := Then(post, Loop(Executions(s.condition), body, post));
    if m == r.result.current {
      o, i, l := Normal, 0, k;
      assert t[..0] == [] && t[0..] == t;
      return;
    }
    o, i, l := Peel(s.body, r.bodyStart, r.bodyEnd, g, k, t, to);
    if o != Normal && o != Continued {
      BodyLeaves(body, next, t[..i], o);
      o := LoopOutcome(o);
      return;
    }
    if o == Normal {
      var m := PeelArc(r.bodyEnd, g, [r.postStart.current], l, t[i..], to);
      l := l - 1;
    }
    var o2, i2, l2 := PeelForPost(s, b, r, g, l, t[i..], to);
    Slices(t, i, i2);
    BodyThenIntro(body, next, t[..i], t[i..][..i2], o2);
    o, i, l := o2, i + i2, l2;
  }

  lemma {:induction false} PeelForPost(s: Ast, b: BuilderState, r: LoopStages, g: Graph, k: nat, t: Trace, to: Position)
    returns (o: Outcome, i: nat, l: nat)
    requires s.For? && ForVisited(s, b, r, g)
    requires Run(g, Start(r.postStart.current), k, t, to) && Terminal(g, to)
    ensures var post := Executions(s.loopExpression);
            Peeled(Then(post, Loop(Executions(s.condition), Executions(s.body), post)), b, r.result, g, k, t, to, o, i,
                   l)
    decreases s, k, 2
  {
    hide Run, Extends, Sealed, Frame, Visit, Executions, Loop;
    var post := Executions(s.loopExpression);
    var loop := Loop(Executions(s.condition), Executions(s.body), post);
    o, i, l := Peel(s.loopExpression, r.postStart, r.postEnd, g, k, t, to);
    if o == Normal {
      var m := PeelArc(r.postEnd, g, [r.head.current], l, t[i..], to);
      var o2, i2, l2 := PeelForRounds(s, b, r, g, l - 1, t[i..], to);
      PeelThen(post, loop, b, r.postEnd, r.result, g, k, t, to, i, l, o2, i2, l2);
      o, i, l := o2, i + i2, l2;
    } else {
      PeelStops(post, loop, b, r.postEnd, r.result, g, k, t, to, o, i, l);
    }
  }

  ghost predicate DoWhileVisited(s: Ast, b: BuilderState, r: LoopStages, g: Graph)
    requires s.DoWhile?
  {
    && DoWhileShape(b, r, g) && SameJumps(b, r.postStart)
    && IsVisit(s.body, r.bodyStart, r.bodyEnd) && IsVisit(s.condition, r.postStart, r.postEnd)
  }

  lemma {:induction false} PeelDoWhile(s: Ast, b: BuilderState, r: LoopStages, g: Graph, k: nat, t: Trace, to: Position)
    returns (o: Outcome, i: nat, l: nat)
    requires s.DoWhile? && b.Ready() && JumpsInLoops(s, b.breakJump.Some?)
    requires r == VisitDoWhile(s, b) && Extends(r.result.nodes, g)
    requires Run(g, Here(b), k, t, to) && Terminal(g, to)
    ensures Peeled(LoopDo(Executions(s.body), Executions(s.condition)), b, r.result, g, k, t, to, o, i, l)
    decreases s, k, 1
  {
    hide Run, Extends, Sealed, Frame, Visit, VisitDoWhile, Executions, LoopDo;
    DoWhileVisits(s, b, r);
    DoWhileHasShape(b, r, g);
    var m := PeelArc(b, g, [r.head.current], k, t, to);
    o, i, l := PeelDoRounds(s, b, r, g, k - 1, t, to);
  }

  /** Rounds of a do-while loop, starting at its body. */
  lemma {:induction false} PeelDoRounds(s: Ast, b: BuilderState, r: LoopStages, g: Graph, k: nat, t: Trace,
                                        to: Position)
    returns (o: Outcome, i: nat, l: nat)
    requires s.DoWhile? && DoWhileVisited(s, b, r, g)
    requires Run(g, Start(r.head.current), k, t, to) && Terminal(g, to)
    ensures Peeled(LoopDo(Executions(s.body), Executions(s.condition)), b, r.result, g, k, t, to, o, i, l)
    decreases s, k, 2
  {
    hide Run, Extends, Sealed, Frame, Visit, Executions, LoopDo, Then;
    var body, c := Executions(s.body), Executions(s.condition);
    var next := Then(c, Choice(Emit([]), LoopDo(body, c)));
    o, i, l := Peel(s.body, r.bodyStart, r.bodyEnd, g, k, t, to);
    if o != Normal && o != Continued {
      BodyLeaves(body, next, t[..i], o);
      o := LoopOutcome(o);
    } else {
      if o == Normal {
        var m := PeelArc(r.bodyEnd, g, [r.postStart.current], l, t[i..], to);
        l := l - 1;
      }
      var o2, i2, l2 := PeelDoCondition(s, b, r, g, l, t[i..], to);
      Slices(t, i, i2);
      BodyThenIntro(body, next, t[..i], t[i..][..i2], o2);
      o, i, l := o2, i + i2, l2;
    }
    LoopDoUnrolls(body, c, t[..i], o);
  }

  lemma {:induction false} PeelDoCondition(s: Ast, b: BuilderState, r: LoopStages, g: Graph, k: nat, t: Trace,
                                           to: Position)
    returns (o: Outcome, i: nat, l: nat)
    requires s.DoWhile? && DoWhileVisited(s, b, r, g)
    requires Run(g, Start(r.postStart.current), k, t, to) && Terminal(g, to)
    ensures var body, c := Executions(s.body), Executions(s.condition);
            Peeled(Then(c, Choice(Emit([]), LoopDo(body, c))), b, r.result, g, k, t, to, o, i, l)
    decreases s, k, 1
  {
    hide Run, Extends, Sealed, Frame, Visit, Executions, LoopDo;
    var c, again := Executions(s.condition), Choice(Emit([]), LoopDo(Executions(s.body), Executions(s.condition)));
    o, i, l := Peel(s.condition, r.postStart, r.postEnd, g, k, t, to);
    if o == Normal {
      var m := PeelArc(r.postEnd, g, [r.head.current, r.result.current], l, t[i..], to);
      var o2, i2, l2 := Normal, 0, l - 1;
      if m == r.head.current {
        o2, i2, l2 := PeelDoRounds(s, b, r, g, l - 1, t[i..], to);
      } else {
        assert t[i..][..0] == [] && t[i..][0..] == t[i..];
      }
      PeelThen(c, again, b, r.postEnd, r.result, g, k, t, to, i, l, o2, i2, l2);
      o, i, l := o2, i + i2, l2;
    } else {
      PeelStops(c, again, b, r.postEnd, r.result, g, k, t, to, o, i, l);
    }
  }

  lemma {:induction false} PeelReturn(s: Ast, b: BuilderState, r: BuilderState, g: Graph, k: nat, t: Trace,
                                      to: Position)
    returns (o: Outcome, i: nat, l: nat)
    requires s.Return? && b.Ready() && JumpsInLoops(s, b.breakJump.Some?) && r == VisitReturn(s, b)
             && Extends(r.nodes, g)
    requires Run(g, Here(b), k, t, to) && Terminal(g, to)
    ensures var value := if s.expression.None? then Jump(Returned) else
              Then(Then(Executions(s.expression.value), Emit(OccurrenceEvents(Assignments(s.parameters)))),
                   Jump(Returned));
            Peeled(value, b, r, g, k, t, to, o, i, l)
    decreases s, k, 1
  {
    hide Run, Extends, Sealed, Frame, Visit, Executions, OccurrenceEvents, BuilderState.Append, BuilderState.JumpTo,
        Assignments;
    if s.expression.None? {
      JumpSeals(b, b.returnNode, g);
      o, i := Returned, 0;
      l := PeelJump(b, r, g, b.returnNode, o, k, t, to);
      return;
    }
    var os := Assignments(s.parameters);
    var b1 := Visit(s.expression.value, b);
    VisitedSelf(b1);
    AppendVisited(b1, b1, os);
    var b2 := b1.Append(os);
    JumpSeals(b2, b.returnNode, g);
    var e := Then(Executions(s.expression.value), Emit(OccurrenceEvents(os)));
    o, i, l := PeelThenAppend(s.expression.value, os, b, b1, g, k, t, to);
    if o == Normal {
      var l2 := PeelJump(b2, r, g, b.returnNode, Returned, l, t[i..], to);
      PeelThen(e, Jump(Returned), b, b2, r, g, k, t, to, i, l, Returned, 0, l2);
      o, l := Returned, l2;
    } else {
      PeelStops(e, Jump(Returned), b, b2, r, g, k, t, to, o, i, l);
    }
  }

  lemma {:induction false} PeelRevertCall(s: Ast, b: BuilderState, r: BuilderState, g: Graph, k: nat, t: Trace,
                                          to: Position)
    returns (o: Outcome, i: nat, l: nat)
    requires s.RevertCall? && b.Ready() && JumpsInLoops(s, b.breakJump.Some?)
    requires r == VisitRevertCall(s, b) && Extends(r.nodes, g)
    requires Run(g, Here(b), k, t, to) && Terminal(g, to)
    ensures Peeled(Then(Executions(s.callee), Jump(Reverted)), b, r, g, k, t, to, o, i, l)
    decreases s, k, 1
  {
    hide Run, Extends, Sealed, Frame, Visit, Executions, BuilderState.JumpTo;
    var b1 := Visit(s.callee, b);
    JumpSeals(b1, b.revertNode, g);
    o, i, l := Peel(s.callee, b, b1, g, k, t, to);
    if o == Normal {
      var l2 := PeelJump(b1, r, g, b.revertNode, Reverted, l, t[i..], to);
      PeelThen(Executions(s.callee), Jump(Reverted), b, b1, r, g, k, t, to, i, l, Reverted, 0, l2);
      o, l := Reverted, l2;
    } else {
      PeelStops(Executions(s.callee), Jump(Reverted), b, b1, r, g, k, t, to, o, i, l);
    }
  }

  lemma {:induction false} PeelRequireCall(s: Ast, b: BuilderState, r: BuilderState, g: Graph, k: nat, t: Trace,
                                           to: Position)
    returns (o: Outcome, i: nat, l: nat)
    requires s.RequireCall? && b.Ready() && JumpsInLoops(s, b.breakJump.Some?)
    requires r == VisitRequireCall(s, b) && Extends(r.nodes, g)
    requires Run(g, Here(b), k, t, to) && Terminal(g, to)
    ensures Peeled(Then(Executions(s.callee), Choice(Jump(Reverted), Emit([]))), b, r, g, k, t, to, o, i, l)
    decreases s, k, 1
  {
    hide Run, Extends, Sealed, Frame, Visit, Executions, BuilderState.Leave;
    var tail := Choice(Jump(Reverted), Emit([]));
    var b1 := Visit(s.callee, b);
    var next := |b1.nodes|;
    RequireSeals(b1, b.revertNode, g);
    o, i, l := Peel(s.callee, b, b1, g, k, t, to);
    if o == Normal {
      var m := PeelArc(b1, g, [b.revertNode, next], l, t[i..], to);
      o, l := if m == next then Normal else Reverted, l - 1;
      assert t[i..][..0] == [] && t[i..][0..] == t[i..];
      PeelThen(Executions(s.callee), tail, b, b1, r, g, k, t, to, i, l + 1, o, 0, l);
    } else {
      PeelStops(Executions(s.callee), tail, b, b1, r, g, k, t, to, o, i, l);
    }
  }

  lemma {:induction false} PeelInternalCall(s: Ast, b: BuilderState, r: BuilderState, g: Graph, k: nat, t: Trace,
                                            to: Position)
    returns (o: Outcome, i: nat, l: nat)
    requires s.InternalCall? && b.Ready() && JumpsInLoops(s, b.breakJump.Some?)
    requires r == VisitInternalCall(s, b) && Extends(r.nodes, g)
    requires Run(g, Here(b), k, t, to) && Terminal(g, to)
    ensures Peeled(Then(Executions(s.callee), Emit(CallEvents(s.definition))), b, r, g, k, t, to, o, i, l)
    decreases s, k, 1
  {
    hide Run, Extends, Sealed, Frame, Visit, Executions, BuilderState.CallOut;
    var b1 := Visit(s.callee, b);
    CallSeals(b1, s.definition, g);
    o, i, l := Peel(s.callee, b, b1, g, k, t, to);
    if o == Normal {
      var l2 := PeelCall(b1, s.definition, g, l, t[i..], to);
      PeelThen(Executions(s.callee), Emit(CallEvents(s.definition)), b, b1, r, g, k, t, to, i, l,
               Normal, |CallEvents(s.definition)|, l2);
      i, l := i + |CallEvents(s.definition)|, l2;
    } else {
      PeelStops(Executions(s.callee), Emit(CallEvents(s.definition)), b, b1, r, g, k, t, to, o, i, l);
    }
  }
}
