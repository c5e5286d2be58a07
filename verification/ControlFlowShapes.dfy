/** What any later graph keeps of the nodes a visit has finished. */
module ControlFlowShapes {
  import opened Util
  import opened ControlFlowGraph
  import opened ControlFlowSemantics
  import opened ControlFlowBuilder
  import opened ControlFlowRuns

  /** `g` was built from `x`: nodes have grown, and those with exits are as they were. */
  ghost predicate Extends(x: Graph, g: Graph) {
    && |x| <= |g|
    && (forall n :: 0 <= n < |x| ==> x[n].variableOccurrences <= g[n].variableOccurrences)
    && (forall n :: 0 <= n < |x| && x[n].exits != [] ==> SameFlow(g[n], x[n]))
  }

  lemma ExtendsTransitive(x: Graph, y: Graph, g: Graph)
    requires Extends(x, y) && Extends(y, g)
    ensures Extends(x, g)
  {
  }

  lemma VisitedExtends(x: BuilderState, y: BuilderState, g: Graph)
    requires Visited(x, y) && x.Open(x.current) && Extends(y.nodes, g)
    ensures Extends(x.nodes, g)
  {
    assert Extends(x.nodes, y.nodes);
  }

  /** Where control flow continues in a state. */
  function Here(x: BuilderState): Position {
    Position(x.current, if x.current < |x.nodes| then |x.nodes[x.current].variableOccurrences| else 0)
  }

  /** In `g`, the current node of `x` is finished as it is, with the given exits. */
  ghost predicate Sealed(x: BuilderState, g: Graph, targets: seq<NodeId>) {
    && x.current < |x.nodes| && x.current < |g|
    && g[x.current].exits == targets
    && Events(g[x.current]) == Events(x.nodes[x.current])
  }

  lemma LeaveSeals(x: BuilderState, targets: seq<NodeId>, next: NodeId, g: Graph)
    requires x.current < |x.nodes| && x.nodes[x.current].exits == [] && targets != []
    requires Extends(x.Leave(targets, next).nodes, g)
    ensures Sealed(x, g, targets) && Extends(x.nodes, g)
  {
    var y := x.Leave(targets, next);
    assert y.nodes[x.current].exits == targets;
    assert SameFlow(g[x.current], y.nodes[x.current]);
    assert Extends(x.nodes, y.nodes);
    ExtendsTransitive(x.nodes, y.nodes, g);
  }

  lemma LeaveKeepsFresh(x: BuilderState, targets: seq<NodeId>, next: NodeId, n: NodeId)
    requires x.Fresh(n) && n != x.current
    ensures x.Leave(targets, next).Fresh(n) && x.Leave(targets, next).current == next
  {
  }

  lemma SealedElsewhere(x: BuilderState, y: BuilderState, g: Graph, targets: seq<NodeId>)
    requires Sealed(y, g, targets) && x.current == y.current && x.current < |x.nodes|
    requires SameFlow(x.nodes[x.current], y.nodes[x.current])
    ensures Sealed(x, g, targets)
  {
  }

  lemma AllocExtends(x: BuilderState, count: nat, g: Graph)
    requires Extends(x.Alloc(count).nodes, g)
    ensures Extends(x.nodes, g)
  {
    assert Extends(x.nodes, x.Alloc(count).nodes);
    ExtendsTransitive(x.nodes, x.Alloc(count).nodes, g);
  }

  lemma EnterLabelSeals(x: BuilderState, g: Graph)
    requires x.current < |x.nodes| && x.nodes[x.current].exits == []
    requires Extends(x.EnterLabel().nodes, g)
    ensures Sealed(x, g, [|x.nodes|]) && Extends(x.nodes, g)
  {
    LeaveSeals(x.Alloc(1), [|x.nodes|], |x.nodes|, g);
    AllocExtends(x, 1, g);
    SealedElsewhere(x, x.Alloc(1), g, [|x.nodes|]);
  }

  lemma SplitSeals(x: BuilderState, g: Graph)
    requires x.Ready() && Extends(x.Split().nodes, g)
    ensures Sealed(x, g, [|x.nodes|, |x.nodes| + 1]) && Extends(x.nodes, g)
  {
    LeaveSeals(x.Alloc(2), [|x.nodes|, |x.nodes| + 1], |x.nodes|, g);
    AllocExtends(x, 2, g);
    SealedElsewhere(x, x.Alloc(2), g, [|x.nodes|, |x.nodes| + 1]);
  }

  lemma JumpSeals(x: BuilderState, target: NodeId, g: Graph)
    requires x.Ready() && Extends(x.JumpTo(target).nodes, g)
    ensures Sealed(x, g, [target]) && Extends(x.nodes, g)
  {
    LeaveSeals(x.Alloc(1), [target], |x.nodes|, g);
    AllocExtends(x, 1, g);
    SealedElsewhere(x, x.Alloc(1), g, [target]);
  }

  lemma RequireSeals(x: BuilderState, revertNode: NodeId, g: Graph)
    requires x.Ready()
    requires var next := |x.nodes|; Extends(x.Alloc(1).Leave([revertNode, next], next).nodes, g)
    ensures Sealed(x, g, [revertNode, |x.nodes|]) && Extends(x.nodes, g)
    ensures var r := x.Alloc(1).Leave([revertNode, |x.nodes|], |x.nodes|); r.Fresh(|x.nodes|) && r.current == |x.nodes|
  {
    var next := |x.nodes|;
    LeaveSeals(x.Alloc(1), [revertNode, next], next, g);
    LeaveKeepsFresh(x.Alloc(1), [revertNode, next], next, next);
    AllocExtends(x, 1, g);
    SealedElsewhere(x, x.Alloc(1), g, [revertNode, next]);
  }

  /** The current node of `x` is finished by a call and leads to the node after it. */
  ghost predicate CallSealed(x: BuilderState, definition: Option<FunctionId>, g: Graph)
    requires x.current < |x.nodes|
  {
    && x.current < |g| && g[x.current].exits == [|x.nodes|]
    && Events(g[x.current]) == OccurrenceEvents(x.nodes[x.current].variableOccurrences) + CallEvents(definition)
  }

  lemma CallSeals(x: BuilderState, definition: Option<FunctionId>, g: Graph)
    requires x.Ready() && Extends(x.CallOut(definition).nodes, g)
    ensures CallSealed(x, definition, g) && Extends(x.nodes, g)
    ensures x.CallOut(definition).Fresh(|x.nodes|) && x.CallOut(definition).current == |x.nodes|
  {
    var y := x.(nodes := x.nodes[x.current := x.nodes[x.current].(functionDefinition := definition)]);
    EnterLabelSeals(y, g);
    LeaveKeepsFresh(y.Alloc(1), [|x.nodes|], |x.nodes|, |x.nodes|);
    assert Extends(x.nodes, y.nodes);
    ExtendsTransitive(x.nodes, y.nodes, g);
  }

  lemma MergeIsFresh(x: BuilderState, other: NodeId)
    requires x.current < |x.nodes| && other < |x.nodes|
    ensures x.Merge(other).Fresh(|x.nodes|) && x.Merge(other).current == |x.nodes|
  {
  }

  /** Both merged ends lead to the new node. */
  lemma MergeSeals(x: BuilderState, y: BuilderState, g: Graph)
    requires x.current < |x.nodes| && y.Ready() && y.Open(x.current) && x.current != y.current
    requires SameFlow(x.nodes[x.current], y.nodes[x.current])
    requires Extends(y.Merge(x.current).nodes, g)
    ensures Sealed(x, g, [|y.nodes|]) && Sealed(y, g, [|y.nodes|]) && Extends(y.nodes, g)
  {
    var join := |y.nodes|;
    var z := y.Alloc(1).At(x.current);
    var w := z.Leave([join], y.current);
    LeaveSeals(w, [join], join, g);
    SealedElsewhere(y, w, g, [join]);
    LeaveSeals(z, [join], y.current, g);
    SealedElsewhere(x, z, g, [join]);
    AllocExtends(y, 1, g);
  }

  ghost predicate IfShape(r: IfStages, hasElse: bool, g: Graph) {
    && Extends(r.condition.nodes, g) && Extends(r.trueEnd.nodes, g) && Extends(r.falseEnd.nodes, g)
    && Sealed(r.condition, g, [|r.condition.nodes|, |r.condition.nodes| + 1])
    && r.condition.Split().Fresh(|r.condition.nodes|)
    && r.trueEnd.Fresh(|r.condition.nodes| + 1)
    && r.result.Fresh(r.result.current)
    && Sealed(r.trueEnd, g, [r.result.current])
    && (hasElse ==> Sealed(r.falseEnd, g, [r.result.current]))
    && (!hasElse ==> r.result.current == |r.condition.nodes| + 1)
  }

  lemma IfHasShape(r: IfStages, hasElse: bool, g: Graph)
    requires IfSteps(r, hasElse) && Extends(r.result.nodes, g)
    ensures IfShape(r, hasElse, g)
  {
    hide Frame, Extends, Sealed, BuilderState.Leave, BuilderState.Split, BuilderState.Merge;
    var elseNode := |r.condition.nodes| + 1;
    var start := r.condition.Split();
    SplitVisited(r.condition);
    StaysSame(start, r.trueEnd, elseNode);
    if hasElse {
      var x := r.trueEnd.At(elseNode);
      StaysSame(x, r.falseEnd, r.trueEnd.current);
      MergeIsFresh(r.falseEnd, r.trueEnd.current);
      MergeSeals(r.trueEnd, r.falseEnd, g);
      VisitedExtends(x, r.falseEnd, g);
    } else {
      LeaveKeepsFresh(r.trueEnd, [elseNode], elseNode, elseNode);
      LeaveSeals(r.trueEnd, [elseNode], elseNode, g);
    }
    VisitedExtends(start, r.trueEnd, g);
    SplitSeals(r.condition, g);
  }

  ghost predicate LoopShape(b: BuilderState, r: LoopStages, g: Graph) {
    && Sealed(b, g, [r.head.current]) && r.head.Fresh(r.head.current)
    && Extends(r.condition.nodes, g) && Extends(r.bodyEnd.nodes, g) && Extends(r.postEnd.nodes, g)
    && r.bodyStart.Fresh(r.bodyStart.current) && r.result.Fresh(r.result.current)
    && r.bodyStart.breakJump == Some(r.result.current)
    && r.bodyStart.returnNode == b.returnNode && r.bodyStart.revertNode == b.revertNode
  }

  ghost predicate WhileShape(b: BuilderState, r: LoopStages, g: Graph) {
    && LoopShape(b, r, g)
    && Sealed(r.condition, g, [r.bodyStart.current, r.result.current])
    && r.bodyStart.continueJump == Some(r.head.current)
    && Sealed(r.bodyEnd, g, [r.head.current])
  }

  lemma WhileHasShape(b: BuilderState, r: LoopStages, g: Graph)
    requires b.Ready() && WhileSteps(b, r) && Extends(r.result.nodes, g)
    ensures WhileShape(b, r, g)
  {
    hide Frame, Extends, Sealed, BuilderState.Leave, BuilderState.Split, BuilderState.EnterLabel;
    EnterLabelVisited(b);
    SplitVisited(r.condition);
    var after := |r.condition.nodes| + 1;
    StaysSame(r.bodyStart, r.bodyEnd, after);
    LeaveKeepsFresh(r.postEnd, [r.head.current], after, after);
    LeaveSeals(r.postEnd, [r.head.current], after, g);
    SealedElsewhere(r.bodyEnd, r.postEnd, g, [r.head.current]);
    VisitedExtends(r.bodyStart, r.bodyEnd, g);
    SplitSeals(r.condition, g);
    VisitedExtends(r.head, r.condition, g);
    EnterLabelSeals(b, g);
  }

  ghost predicate DoWhileShape(b: BuilderState, r: LoopStages, g: Graph) {
    && LoopShape(b, r, g)
    && r.bodyStart.current == r.head.current
    && r.bodyStart.continueJump == Some(r.postStart.current)
    && Sealed(r.bodyEnd, g, [r.postStart.current]) && r.postStart.Fresh(r.postStart.current)
    && Sealed(r.postEnd, g, [r.head.current, r.result.current])
  }

  lemma DoWhileHasShape(b: BuilderState, r: LoopStages, g: Graph)
    requires b.Ready() && DoWhileSteps(b, r) && Extends(r.result.nodes, g)
    ensures DoWhileShape(b, r, g)
  {
    hide Frame, Extends, Sealed, BuilderState.Leave, BuilderState.EnterLabel;
    var after, condition := |b.nodes|, |r.head.nodes|;
    AllocVisited(b, 1);
    EnterLabelVisited(b.Alloc(1));
    StaysSame(b.Alloc(1), r.head, after);
    AllocVisited(r.head, 1);
    StaysSame(r.head, r.head.Alloc(1), after);
    StaysSame(r.bodyStart, r.bodyEnd, condition);
    StaysSame(r.bodyStart, r.bodyEnd, after);
    var x := r.bodyEnd.WithJumps(b.breakJump, b.continueJump);
    LeaveKeepsFresh(x, [condition], condition, condition);
    LeaveKeepsFresh(x, [condition], condition, after);
    StaysSame(r.postStart, r.postEnd, after);
    LeaveKeepsFresh(r.postEnd, [r.head.current, after], after, after);
    LeaveSeals(r.postEnd, [r.head.current, after], after, g);
    VisitedExtends(r.postStart, r.postEnd, g);
    LeaveSeals(x, [condition], condition, g);
    SealedElsewhere(r.bodyEnd, x, g, [condition]);
    VisitedExtends(r.bodyStart, r.bodyEnd, g);
    AllocExtends(r.head, 1, g);
    EnterLabelSeals(b.Alloc(1), g);
    SealedElsewhere(b, b.Alloc(1), g, [r.head.current]);
  }

  ghost predicate ForShape(b: BuilderState, r: LoopStages, g: Graph) {
    && LoopShape(b, r, g)
    && Sealed(r.condition, g, [r.bodyStart.current, r.result.current])
    && r.bodyStart.continueJump == Some(r.postStart.current)
    && Sealed(r.bodyEnd, g, [r.postStart.current]) && r.postStart.Fresh(r.postStart.current)
    && Sealed(r.postEnd, g, [r.head.current])
  }

  lemma ForHasShape(b: BuilderState, r: LoopStages, g: Graph)
    requires b.Ready() && ForSteps(b, r) && Extends(r.result.nodes, g)
    ensures ForShape(b, r, g)
  {
    hide Frame, Extends, Sealed, BuilderState.Leave, BuilderState.Split, BuilderState.EnterLabel;
    EnterLabelVisited(b);
    var post, after := |r.condition.nodes|, |r.condition.nodes| + 2;
    AllocVisited(r.condition, 1);
    SplitAfterLabelVisited(r.condition);
    StaysSame(r.bodyStart, r.bodyEnd, post);
    StaysSame(r.bodyStart, r.bodyEnd, after);
    var x := r.bodyEnd.WithJumps(b.breakJump, b.continueJump);
    LeaveKeepsFresh(x, [post], post, post);
    LeaveKeepsFresh(x, [post], post, after);
    StaysSame(r.postStart, r.postEnd, after);
    LeaveKeepsFresh(r.postEnd, [r.head.current], after, after);
    LeaveSeals(r.postEnd, [r.head.current], after, g);
    VisitedExtends(r.postStart, r.postEnd, g);
    LeaveSeals(x, [post], post, g);
    SealedElsewhere(r.bodyEnd, x, g, [post]);
    VisitedExtends(r.bodyStart, r.bodyEnd, g);
    SplitSeals(r.condition.Alloc(1), g);
    SealedElsewhere(r.condition, r.condition.Alloc(1), g, [r.bodyStart.current, r.result.current]);
    AllocExtends(r.condition, 1, g);
    VisitedExtends(r.head, r.condition, g);
    EnterLabelSeals(b, g);
  }
}
