/**
 * What the builder leaves behind for the passes that follow: every function
 * has its own nodes, arcs never leave them, and both ends of an arc record it.
 */
module ControlFlowLocality {
  import opened Util
  import opened ControlFlowGraph
  import opened ControlFlowSemantics
  import opened ControlFlowBuilder

  predicate HasExit(g: Graph, n: NodeId, m: NodeId) {
    n < |g| && m in g[n].exits
  }

  predicate HasEntry(g: Graph, n: NodeId, m: NodeId) {
    n < |g| && m in g[n].entries
  }

  /** The nodes from `base` on, and the functions they may call. */
  datatype Scope = Scope(base: nat, calls: set<FunctionId>)

  /** Among the nodes of a scope, arcs stay among them and are recorded at both ends. */
  ghost predicate LocalGraph(scope: Scope, g: Graph) {
    && scope.base <= |g|
    && CallsIn(scope, g)
    && (forall n, m :: scope.base <= n && HasExit(g, n, m) ==> scope.base <= m && HasEntry(g, m, n))
    && (forall n, m :: scope.base <= n && HasEntry(g, n, m) ==> scope.base <= m && HasExit(g, m, n))
  }

  ghost predicate CallsIn(scope: Scope, g: Graph) {
    forall n: NodeId :: scope.base <= n < |g| && g[n].functionDefinition.Some? ==>
        g[n].functionDefinition.value in scope.calls
  }

  /** `h` has the arcs of `g`, and nodes without arcs besides. */
  ghost predicate ArcsExtended(g: Graph, h: Graph) {
    && |g| <= |h|
    && (forall n :: 0 <= n < |h| ==> h[n].exits == (if n < |g| then g[n].exits else []))
    && (forall n :: 0 <= n < |h| ==> h[n].entries == (if n < |g| then g[n].entries else []))
  }

  lemma ExtensionIsLocal(scope: Scope, g: Graph, h: Graph)
    requires LocalGraph(scope, g) && ArcsExtended(g, h) && CallsIn(scope, h)
    ensures LocalGraph(scope, h)
  {
    forall n, m | scope.base <= n && HasExit(h, n, m) ensures scope.base <= m && HasEntry(h, m, n) {
      assert HasExit(g, n, m);
    }
    forall n, m | scope.base <= n && HasEntry(h, n, m) ensures scope.base <= m && HasExit(h, m, n) {
      assert HasEntry(g, n, m);
    }
  }

  ghost predicate Local(scope: Scope, b: BuilderState) {
    && LocalGraph(scope, b.nodes)
    && scope.base <= b.current < |b.nodes| && scope.base <= b.returnNode < |b.nodes|
       && scope.base <= b.revertNode < |b.nodes|
    && (b.breakJump.Some? ==> scope.base <= b.breakJump.value < |b.nodes|)
    && (b.continueJump.Some? ==> scope.base <= b.continueJump.value < |b.nodes|)
  }

  lemma {:induction false} EntriesForMeaning(node: NodeId, from: NodeId, targets: seq<NodeId>)
    ensures forall m: NodeId :: m in EntriesFor(node, from, targets) <==> m == from && node in targets
  {
    if targets != [] {
      EntriesForMeaning(node, from, targets[1..]);
      assert node in targets <==> targets[0] == node || node in targets[1..];
    }
  }

  lemma ConnectIsLocal(scope: Scope, g: Graph, from: NodeId, targets: seq<NodeId>)
    requires LocalGraph(scope, g) && scope.base <= from < |g|
    requires forall m: NodeId :: m in targets ==> scope.base <= m < |g|
    ensures LocalGraph(scope, ConnectAll(g, from, targets))
  {
    var h := ConnectAll(g, from, targets);
    forall n, m | scope.base <= n && HasExit(h, n, m) ensures scope.base <= m && HasEntry(h, m, n) {
      if HasExit(g, n, m) {
        assert HasEntry(g, m, n);
      } else {
        EntriesForMeaning(m, from, targets);
      }
    }
    forall n, m | scope.base <= n && HasEntry(h, n, m) ensures scope.base <= m && HasExit(h, m, n) {
      EntriesForMeaning(n, from, targets);
      if HasEntry(g, n, m) {
        assert HasExit(g, m, n);
      }
    }
  }

  lemma AllocIsLocal(scope: Scope, b: BuilderState, count: nat)
    requires Local(scope, b)
    ensures Local(scope, b.Alloc(count))
  {
    ExtensionIsLocal(scope, b.nodes, b.Alloc(count).nodes);
    hide LocalGraph;
  }

  lemma AppendIsLocal(scope: Scope, b: BuilderState, occurrences: seq<VariableOccurrence>)
    requires Local(scope, b)
    ensures Local(scope, b.Append(occurrences))
  {
    ExtensionIsLocal(scope, b.nodes, b.Append(occurrences).nodes);
    hide LocalGraph;
  }

  lemma LeaveIsLocal(scope: Scope, b: BuilderState, targets: seq<NodeId>, next: NodeId)
    requires Local(scope, b) && scope.base <= next < |b.nodes| && forall m: NodeId :: m in targets ==>
               scope.base <= m < |b.nodes|
    ensures Local(scope, b.Leave(targets, next))
  {
    ConnectIsLocal(scope, b.nodes, b.current, targets);
    hide LocalGraph;
  }

  lemma JumpIsLocal(scope: Scope, b: BuilderState, target: NodeId)
    requires Local(scope, b) && scope.base <= target < |b.nodes|
    ensures Local(scope, b.JumpTo(target))
  {
    AllocIsLocal(scope, b, 1);
    LeaveIsLocal(scope, b.Alloc(1), [target], |b.nodes|);
    hide Local;
  }

  lemma EnterLabelIsLocal(scope: Scope, b: BuilderState)
    requires Local(scope, b)
    ensures Local(scope, b.EnterLabel())
  {
    AllocIsLocal(scope, b, 1);
    LeaveIsLocal(scope, b.Alloc(1), [|b.nodes|], |b.nodes|);
  }

  lemma SplitIsLocal(scope: Scope, b: BuilderState)
    requires Local(scope, b)
    ensures Local(scope, b.Split())
  {
    AllocIsLocal(scope, b, 2);
    LeaveIsLocal(scope, b.Alloc(2), [|b.nodes|, |b.nodes| + 1], |b.nodes|);
  }

  lemma AtIsLocal(scope: Scope, b: BuilderState, node: NodeId)
    requires Local(scope, b) && scope.base <= node < |b.nodes|
    ensures Local(scope, b.At(node))
  {
    hide LocalGraph;
  }

  lemma MergeIsLocal(scope: Scope, b: BuilderState, other: NodeId)
    requires Local(scope, b) && scope.base <= other < |b.nodes|
    ensures Local(scope, b.Merge(other))
  {
    var a := b.Alloc(1);
    AllocIsLocal(scope, b, 1);
    AtIsLocal(scope, a, other);
    LeaveIsLocal(scope, a.At(other), [|b.nodes|], b.current);
    LeaveIsLocal(scope, a.At(other).Leave([|b.nodes|], b.current), [|b.nodes|], |b.nodes|);
    hide LocalGraph, ConnectAll;
  }

  lemma CallOutIsLocal(scope: Scope, b: BuilderState, definition: Option<FunctionId>)
    requires Local(scope, b) && (definition.Some? ==> definition.value in scope.calls)
    ensures Local(scope, b.CallOut(definition))
  {
    var called := b.(nodes := b.nodes[b.current := b.nodes[b.current].(functionDefinition := definition)]);
    ExtensionIsLocal(scope, b.nodes, called.nodes);
    hide LocalGraph;
    EnterLabelIsLocal(scope, called);
  }

  lemma WithJumpsIsLocal(scope: Scope, b: BuilderState, breakTo: Option<NodeId>, continueTo: Option<NodeId>)
    requires Local(scope, b)
    requires breakTo.Some? ==> scope.base <= breakTo.value < |b.nodes|
    requires continueTo.Some? ==> scope.base <= continueTo.value < |b.nodes|
    ensures Local(scope, b.WithJumps(breakTo, continueTo))
  {
    hide LocalGraph;
  }

  /** Every visit keeps to the nodes of its function. */
  lemma {:induction false} VisitIsLocal(s: Ast, b: BuilderState, scope: Scope)
    requires b.Ready() && JumpsInLoops(s, b.breakJump.Some?) && Local(scope, b) && Callees(s) <= scope.calls
    ensures Local(scope, Visit(s, b))
    decreases s, 1
  {
    hide Local, Frame, BuilderState.Leave, BuilderState.Split, BuilderState.Merge, BuilderState.EnterLabel,
        BuilderState.JumpTo;
    RegistersAreLocal(scope, b);
    match s
    case Skip =>
    case Seq(_, _) =>
      VisitIsLocal(s.first, b, scope);
      VisitIsLocal(s.second, Visit(s.first, b), scope);
    case Identifier(v, w) => AppendIsLocal(scope, b, [VariableOccurrence(v, if w then Assignment else Access)]);
    case VariableDeclaration(_, _, _, _) =>
      var occurrences := DeclarationOccurrences(s.variable, s.initializer.Some? || s.externallyAssigned);
      AppendIsLocal(scope, b, occurrences);
      VisitIsLocal(s.typeName, b.Append(occurrences), scope);
      if s.initializer.Some? {
        VisitIsLocal(s.initializer.value, Visit(s.typeName, b.Append(occurrences)), scope);
      }
    case VariableDeclarationStatement(_, _, _) =>
      VisitIsLocal(s.declarations, b, scope);
      if s.initialValue.Some? {
        VisitIsLocal(s.initialValue.value, Visit(s.declarations, b), scope);
        AppendIsLocal(scope, Visit(s.initialValue.value, Visit(s.declarations, b)), Assignments(s.variables));
      }
    case If(_, _, _) => IfIsLocal(s, b, scope);
    case While(_, _) => WhileIsLocal(s, b, scope);
    case DoWhile(_, _) => DoWhileIsLocal(s, b, scope);
    case For(_, _, _, _) =>
      VisitIsLocal(s.initialization, b, scope);
      ForIsLocal(s, Visit(s.initialization, b), scope);
    case Break => JumpIsLocal(scope, b, b.breakJump.value);
    case Continue => JumpIsLocal(scope, b, b.continueJump.value);
    case Revert => JumpIsLocal(scope, b, b.revertNode);
    case Return(_, _) =>
      if s.expression.None? {
        JumpIsLocal(scope, b, b.returnNode);
      } else {
        var b1 := Visit(s.expression.value, b);
        VisitIsLocal(s.expression.value, b, scope);
        AppendIsLocal(scope, b1, Assignments(s.parameters));
        RegistersAreLocal(scope, b1.Append(Assignments(s.parameters)));
        JumpIsLocal(scope, b1.Append(Assignments(s.parameters)), b.returnNode);
      }
    case RevertCall(_) =>
      var b1 := Visit(s.callee, b);
      VisitIsLocal(s.callee, b, scope);
      RegistersAreLocal(scope, b1);
      JumpIsLocal(scope, b1, b.revertNode);
    case RequireCall(_) =>
      var b1 := Visit(s.callee, b);
      VisitIsLocal(s.callee, b, scope);
      RegistersAreLocal(scope, b1);
      AllocIsLocal(scope, b1, 1);
      LeaveIsLocal(scope, b1.Alloc(1), [b.revertNode, |b1.nodes|], |b1.nodes|);
    case InternalCall(_, _) =>
      VisitIsLocal(s.callee, b, scope);
      CallOutIsLocal(scope, Visit(s.callee, b), s.definition);
  }

  lemma RegistersAreLocal(scope: Scope, b: BuilderState)
    requires Local(scope, b)
    ensures scope.base <= |b.nodes|
    ensures scope.base <= b.current < |b.nodes| && scope.base <= b.returnNode < |b.nodes|
            && scope.base <= b.revertNode < |b.nodes|
    ensures b.breakJump.Some? ==> scope.base <= b.breakJump.value < |b.nodes|
    ensures b.continueJump.Some? ==> scope.base <= b.continueJump.value < |b.nodes|
  {
  }

  lemma IfIsLocal(s: Ast, b: BuilderState, scope: Scope)
    requires s.If? && b.Ready() && JumpsInLoops(s, b.breakJump.Some?) && Local(scope, b) && Callees(s) <= scope.calls
    ensures Local(scope, VisitIf(s, b).result)
    decreases s, 0
  {
    hide Local, Visit, Frame, BuilderState.Leave, BuilderState.Split, BuilderState.Merge;
    var r := VisitIf(s, b);
    IfVisits(s, b, r);
    hide VisitIf;
    VisitIsLocal(s.condition, b, scope);
    RegistersAreLocal(scope, r.condition);
    SplitIsLocal(scope, r.condition);
    SplitSize(r.condition);
    VisitIsLocal(s.whenTrue, r.condition.Split(), scope);
    RegistersAreLocal(scope, r.trueEnd);
    var elseNode := |r.condition.nodes| + 1;
    StaysInRange(r.condition.Split(), r.trueEnd);
    SplitSize(r.condition);
    if s.whenFalse.Some? {
      AtIsLocal(scope, r.trueEnd, elseNode);
      VisitIsLocal(s.whenFalse.value, r.trueEnd.At(elseNode), scope);
      StaysInRange(r.trueEnd.At(elseNode), r.falseEnd);
      MergeIsLocal(scope, r.falseEnd, r.trueEnd.current);
    } else {
      LeaveIsLocal(scope, r.trueEnd, [elseNode], elseNode);
    }
  }

  lemma StaysInRange(b: BuilderState, x: BuilderState)
    requires Visited(b, x)
    ensures |b.nodes| <= |x.nodes|
  {
  }

  lemma SplitSize(b: BuilderState)
    ensures |b.Split().nodes| == |b.nodes| + 2 && SameJumps(b, b.Split()) && SameJumps(b, b.Alloc(1).Split())
    ensures |b.Alloc(1).Split().nodes| == |b.nodes| + 3
  {
  }

  lemma EnterLabelSize(b: BuilderState)
    ensures |b.EnterLabel().nodes| == |b.nodes| + 1 && b.EnterLabel().current == |b.nodes|
            && SameJumps(b, b.EnterLabel())
  {
  }

  lemma LeaveSize(b: BuilderState, targets: seq<NodeId>, next: NodeId)
    ensures |b.Leave(targets, next).nodes| == |b.nodes|
  {
  }

  lemma WhileIsLocal(s: Ast, b: BuilderState, scope: Scope)
    requires s.While? && b.Ready() && JumpsInLoops(s, b.breakJump.Some?) && Local(scope, b) && Callees(s) <= scope.calls
    ensures Local(scope, VisitWhile(s, b).result)
    decreases s, 0
  {
    hide Local, Visit, Frame, BuilderState.Leave, BuilderState.Split, BuilderState.EnterLabel;
    var r := VisitWhile(s, b);
    RegistersAreLocal(scope, b);
    EnterLabelIsLocal(scope, b);
    EnterLabelSize(b);
    VisitIsLocal(s.condition, r.head, scope);
    StaysInRange(r.head, r.condition);
    SplitIsLocal(scope, r.condition);
    SplitSize(r.condition);
    var after := |r.condition.nodes| + 1;
    WithJumpsIsLocal(scope, r.condition.Split(), Some(after), Some(r.head.current));
    VisitIsLocal(s.body, r.bodyStart, scope);
    StaysInRange(r.bodyStart, r.bodyEnd);
    WithJumpsIsLocal(scope, r.bodyEnd, b.breakJump, b.continueJump);
    LeaveIsLocal(scope, r.postEnd, [r.head.current], after);
  }

  lemma DoWhileIsLocal(s: Ast, b: BuilderState, scope: Scope)
    requires s.DoWhile? && b.Ready() && JumpsInLoops(s, b.breakJump.Some?) && Local(scope, b)
             && Callees(s) <= scope.calls
    ensures Local(scope, VisitDoWhile(s, b).result)
    decreases s, 0
  {
    hide Local, Visit, Frame, BuilderState.Leave, BuilderState.EnterLabel;
    var r := VisitDoWhile(s, b);
    RegistersAreLocal(scope, b);
    AllocIsLocal(scope, b, 1);
    EnterLabelIsLocal(scope, b.Alloc(1));
    EnterLabelSize(b.Alloc(1));
    AllocIsLocal(scope, r.head, 1);
    var after, condition := |b.nodes|, |r.head.nodes|;
    WithJumpsIsLocal(scope, r.head.Alloc(1), Some(after), Some(condition));
    VisitIsLocal(s.body, r.bodyStart, scope);
    StaysInRange(r.bodyStart, r.bodyEnd);
    WithJumpsIsLocal(scope, r.bodyEnd, b.breakJump, b.continueJump);
    var placed := r.bodyEnd.WithJumps(b.breakJump, b.continueJump);
    LeaveIsLocal(scope, placed, [condition], condition);
    LeaveSize(placed, [condition], condition);
    VisitIsLocal(s.condition, r.postStart, scope);
    StaysInRange(r.postStart, r.postEnd);
    LeaveIsLocal(scope, r.postEnd, [r.head.current, after], after);
  }

  lemma ForIsLocal(s: Ast, b: BuilderState, scope: Scope)
    requires s.For? && b.Ready() && JumpsInLoops(s, b.breakJump.Some?) && Local(scope, b) && Callees(s) <= scope.calls
    ensures Local(scope, VisitForLoop(s, b).result)
    decreases s, 0
  {
    hide Local, Visit, Frame, BuilderState.Leave, BuilderState.Split, BuilderState.EnterLabel;
    var r := VisitForLoop(s, b);
    RegistersAreLocal(scope, b);
    EnterLabelIsLocal(scope, b);
    EnterLabelSize(b);
    VisitIsLocal(s.condition, r.head, scope);
    StaysInRange(r.head, r.condition);
    AllocIsLocal(scope, r.condition, 1);
    SplitIsLocal(scope, r.condition.Alloc(1));
    SplitSize(r.condition);
    var post, after := |r.condition.nodes|, |r.condition.nodes| + 2;
    WithJumpsIsLocal(scope, r.condition.Alloc(1).Split(), Some(after), Some(post));
    VisitIsLocal(s.body, r.bodyStart, scope);
    StaysInRange(r.bodyStart, r.bodyEnd);
    WithJumpsIsLocal(scope, r.bodyEnd, b.breakJump, b.continueJump);
    var placed := r.bodyEnd.WithJumps(b.breakJump, b.continueJump);
    LeaveIsLocal(scope, placed, [post], post);
    LeaveSize(placed, [post], post);
    VisitIsLocal(s.loopExpression, r.postStart, scope);
    StaysInRange(r.postStart, r.postEnd);
    LeaveIsLocal(scope, r.postEnd, [r.head.current], after);
  }

  lemma {:induction false} ReturnParametersAreLocal(ps: seq<ReturnParameter>, b: BuilderState, scope: Scope)
    requires Building(b, []) && ReturnsWellFormed(ps) && Local(scope, b) && CalleesOfReturns(ps) <= scope.calls
    ensures Local(scope, VisitReturnParameters(ps, b))
    decreases |ps|
  {
    hide Visit, Frame;
    if ps != [] {
      var k := |ps| - 1;
      ReturnParametersAreLocal(ps[..k], b, scope);
      var b1 := VisitReturnParameters(ps[..k], b);
      VisitIsLocal(ps[k].declaration, b1, scope);
      ReadIsLocal(scope, Visit(ps[k].declaration, b1), ps[k].variable);
    }
  }

  lemma ReadIsLocal(scope: Scope, b: BuilderState, variable: Variable)
    requires Local(scope, b)
    ensures Local(scope, ReadAtReturn(b, variable))
  {
    ExtensionIsLocal(scope, b.nodes, ReadAtReturn(b, variable).nodes);
    hide LocalGraph;
  }

  lemma StartIsLocal(scope: Scope, nodes: Graph)
    requires LocalGraph(scope, nodes)
    ensures Local(scope, StartOfFunction(nodes))
  {
    ExtensionIsLocal(scope, nodes, StartOfFunction(nodes).nodes);
    hide LocalGraph;
  }

  /** Building keeps the arcs of the nodes from `base` on among them. */
  lemma BuildingStaysLocal(f: FunctionDefinition, nodes: Graph, scope: Scope)
    requires WellFormed(f) && LocalGraph(scope, nodes) && CalleesOf(f) <= scope.calls
    ensures LocalGraph(scope, VisitFunction(f, nodes).result.nodes)
  {
    hide Visit, Frame, VisitReturnParameters, Local;
    var r := VisitFunction(f, nodes);
    StartIsLocal(scope, nodes);
    VisitIsLocal(f.parameters, r.start, scope);
    ReturnParametersAreLocal(f.returnParameters, r.parametersEnd, scope);
    VisitIsLocal(f.body, r.returnsEnd, scope);
    RegistersAreLocal(scope, r.bodyEnd);
    LeaveIsLocal(scope, r.bodyEnd, [r.bodyEnd.returnNode], r.bodyEnd.returnNode);
    LocalGraphOf(scope, r.result);
  }

  /** The flow of a function stays within the nodes made for it. */
  lemma BuildingIsLocal(f: FunctionDefinition, nodes: Graph)
    requires WellFormed(f)
    ensures LocalGraph(Scope(|nodes|, CalleesOf(f)), VisitFunction(f, nodes).result.nodes)
    ensures |nodes| + 4 <= |VisitFunction(f, nodes).result.nodes|
  {
    hide VisitFunction;
    NothingIsLocal(nodes, CalleesOf(f));
    BuildingStaysLocal(f, nodes, Scope(|nodes|, CalleesOf(f)));
    FunctionGrows(f, nodes);
  }

  lemma NothingIsLocal(nodes: Graph, calls: set<FunctionId>)
    ensures LocalGraph(Scope(|nodes|, calls), nodes)
  {
  }

  lemma LocalGraphOf(scope: Scope, b: BuilderState)
    requires Local(scope, b)
    ensures LocalGraph(scope, b.nodes)
  {
  }

  lemma FunctionGrows(f: FunctionDefinition, nodes: Graph)
    requires WellFormed(f)
    ensures |nodes| + 4 <= |VisitFunction(f, nodes).result.nodes|
  {
    hide Visit, VisitReturnParameters;
    var r := VisitFunction(f, nodes);
    StaysInRange(r.start, r.parametersEnd);
    ReturnsGrow(f.returnParameters, r.parametersEnd);
    StaysInRange(r.returnsEnd, r.bodyEnd);
  }

  lemma {:induction false} ReturnsGrow(ps: seq<ReturnParameter>, b: BuilderState)
    requires Building(b, []) && ReturnsWellFormed(ps)
    ensures |b.nodes| <= |VisitReturnParameters(ps, b).nodes|
    decreases |ps|
  {
    hide Visit, Frame;
    if ps != [] {
      var k := |ps| - 1;
      ReturnsGrow(ps[..k], b);
      var b1 := VisitReturnParameters(ps[..k], b);
      StaysInRange(b1, Visit(ps[k].declaration, b1));
    }
  }
}
