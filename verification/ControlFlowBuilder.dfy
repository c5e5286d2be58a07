/**
 * The control flow builder: a value-level description of what every visit does
 * to the graph, and the class that does it step by step.
 */
module ControlFlowBuilder {
  import opened Util
  import opened ControlFlowGraph
  import opened ControlFlowSemantics

  /** Equal in everything an execution can see: all but the entries. */
  predicate SameFlow(n: CFGNode, m: CFGNode) {
    n.exits == m.exits && n.functionDefinition == m.functionDefinition && n.variableOccurrences == m.variableOccurrences
  }

  /** `from` once for every time `node` is among `targets`. */
  function EntriesFor(node: NodeId, from: NodeId, targets: seq<NodeId>): seq<NodeId> {
    if targets == [] then [] else (if targets[0] == node then [from] else []) + EntriesFor(node, from, targets[1..])
  }

  /** Arcs from one node to each of `targets`; both ends of an arc record it. */
  function ConnectAll(g: Graph, from: NodeId, targets: seq<NodeId>): Graph {
    seq(|g|, i requires 0 <= i < |g| =>
      g[i].(exits := if i == from then g[i].exits + targets else g[i].exits,
            entries := g[i].entries + EntriesFor(i, from, targets)))
  }

  datatype BuilderState = BuilderState(
    nodes: Graph,
    current: NodeId,
    returnNode: NodeId,
    revertNode: NodeId,
    breakJump: Option<NodeId>,
    continueJump: Option<NodeId>)
  {
    predicate InRange() {
      && current < |nodes| && returnNode < |nodes| && revertNode < |nodes|
      && (breakJump.Some? <==> continueJump.Some?)
      && (breakJump.Some? ==> breakJump.value < |nodes| && continueJump.value < |nodes|)
    }

    /** No control flow leaves the node yet. */
    predicate Open(n: NodeId) {
      n < |nodes| && nodes[n].exits == [] && nodes[n].functionDefinition == None
    }

    /** A label nothing was put into yet. */
    predicate Fresh(n: NodeId) {
      n < |nodes| && SameFlow(nodes[n], EMPTY_NODE)
    }

    /** The state between two visits: the current node is still being filled. */
    predicate Ready() {
      InRange() && Open(current)
    }

    /** A node the visit starting in this state may change: its current node, or one it created. */
    predicate Owns(n: NodeId) {
      n == current || n >= |nodes|
    }

    function Alloc(count: nat): BuilderState {
      this.(nodes := nodes + seq(count, _ => EMPTY_NODE))
    }

    function Append(occurrences: seq<VariableOccurrence>): BuilderState
      requires current < |nodes|
    {
      this.(nodes := nodes[current := nodes[current].(
        variableOccurrences := nodes[current].variableOccurrences + occurrences)])
    }

    function At(node: NodeId): BuilderState {
      this.(current := node)
    }

    /** Ends the current node with arcs to `targets` and continues at `next`. */
    function Leave(targets: seq<NodeId>, next: NodeId): BuilderState
    {
      this.(nodes := ConnectAll(nodes, current, targets), current := next)
    }

    function EnterLabel(): BuilderState
    {
      Alloc(1).Leave([|nodes|], |nodes|)
    }

    /** Branches to two new nodes and continues at the first. */
    function Split(): BuilderState
    {
      Alloc(2).Leave([|nodes|, |nodes| + 1], |nodes|)
    }

    /** Ends the current node with an arc to `target`; what follows is unreachable. */
    function JumpTo(target: NodeId): BuilderState
    {
      Alloc(1).Leave([target], |nodes|)
    }

    /** Merges the flow ending at `other` with the current one in a new node. */
    function Merge(other: NodeId): BuilderState
    {
      Alloc(1).At(other).Leave([|nodes|], current).Leave([|nodes|], |nodes|)
    }

    /** Ends the current node by a call. */
    function CallOut(definition: Option<FunctionId>): BuilderState
      requires current < |nodes|
    {
      this.(nodes := nodes[current := nodes[current].(functionDefinition := definition)]).EnterLabel()
    }

    function WithJumps(breakTo: Option<NodeId>, continueTo: Option<NodeId>): BuilderState {
      this.(breakJump := breakTo, continueJump := continueTo)
    }
  }

  /** Only nodes owned by `b` differ in `x`, and the current node of `b` has only grown. */
  ghost predicate Frame(b: BuilderState, x: BuilderState) {
    && |b.nodes| <= |x.nodes|
    && (forall n :: 0 <= n < |b.nodes| && n != b.current ==> SameFlow(x.nodes[n], b.nodes[n]))
    && (b.current < |b.nodes| ==> b.nodes[b.current].variableOccurrences <= x.nodes[b.current].variableOccurrences)
  }

  predicate SameJumps(b: BuilderState, x: BuilderState) {
    b.returnNode == x.returnNode && b.revertNode == x.revertNode
    && b.breakJump == x.breakJump && b.continueJump == x.continueJump
  }

  /** What every visit keeps. */
  ghost predicate Visited(b: BuilderState, x: BuilderState) {
    Frame(b, x) && SameJumps(b, x) && x.Ready() && b.Owns(x.current)
  }

  lemma VisitedTransitive(b: BuilderState, x: BuilderState, y: BuilderState)
    requires Visited(b, x) && Visited(x, y) && b.Ready()
    ensures Visited(b, y)
  {
  }

  /** A visit does not touch the nodes that existed before, except its current node. */
  lemma StaysSame(x: BuilderState, y: BuilderState, n: NodeId)
    requires Visited(x, y) && n < |x.nodes| && n != x.current
    ensures n < |y.nodes| && SameFlow(x.nodes[n], y.nodes[n]) && n != y.current
  {
  }

  lemma VisitedSelf(b: BuilderState)
    requires b.Ready()
    ensures Visited(b, b)
  {
  }

  lemma AppendVisited(b: BuilderState, x: BuilderState, occurrences: seq<VariableOccurrence>)
    requires Visited(b, x) && b.Ready()
    ensures Visited(b, x.Append(occurrences))
  {
  }

  lemma AllocVisited(b: BuilderState, count: nat)
    requires b.Ready()
    ensures Visited(b, b.Alloc(count))
    ensures forall n :: |b.nodes| <= n < |b.nodes| + count ==> b.Alloc(count).Fresh(n)
  {
  }

  lemma EnterLabelVisited(b: BuilderState)
    requires b.Ready()
    ensures Visited(b, b.EnterLabel()) && b.EnterLabel().current == |b.nodes| && b.EnterLabel().Fresh(|b.nodes|)
  {
  }

  lemma JumpToVisited(b: BuilderState, target: NodeId)
    requires b.Ready()
    ensures Visited(b, b.JumpTo(target))
  {
  }

  lemma CallOutVisited(b: BuilderState, definition: Option<FunctionId>)
    requires b.Ready()
    ensures Visited(b, b.CallOut(definition))
  {
  }

  /** A loop body is visited with its own jump targets, which are then put back. */
  lemma BodyVisited(b: BuilderState, x: BuilderState, breakTo: NodeId, continueTo: NodeId, y: BuilderState)
    requires b.Ready() && Visited(b, x) && Visited(x.WithJumps(Some(breakTo), Some(continueTo)), y)
    ensures Visited(b, y.WithJumps(b.breakJump, b.continueJump))
  {
  }

  lemma SplitVisited(b: BuilderState)
    requires b.Ready()
    ensures Visited(b, b.Split())
    ensures b.Split().Fresh(|b.nodes|) && b.Split().Fresh(|b.nodes| + 1)
    ensures b.Split().current == |b.nodes|
  {
  }

  lemma SplitAfterLabelVisited(b: BuilderState)
    requires b.Ready()
    ensures var r := b.Alloc(1).Split();
            Visited(b, r) && r.current == |b.nodes| + 1 && r.Fresh(|b.nodes|)
            && r.Fresh(|b.nodes| + 1) && r.Fresh(|b.nodes| + 2)
  {
  }

  lemma LeaveVisited(b: BuilderState, x: BuilderState, targets: seq<NodeId>, next: NodeId)
    requires Visited(b, x) && |b.nodes| <= next && x.Fresh(next) && next != x.current
    ensures Visited(b, x.Leave(targets, next)) && x.Leave(targets, next).Fresh(next)
  {
  }

  /** Placing a label keeps another unplaced label open. */
  lemma PlaceVisited(b: BuilderState, x: BuilderState, place: NodeId, other: NodeId)
    requires Visited(b, x) && |b.nodes| <= place && x.Fresh(place) && place != x.current
    requires x.Fresh(other) && other != x.current && other != place
    ensures Visited(b, x.Leave([place], place)) && x.Leave([place], place).Fresh(place)
    ensures x.Leave([place], place).Fresh(other)
  {
    LeaveVisited(b, x, [place], place);
  }

  lemma MergeVisited(b: BuilderState, x: BuilderState, other: NodeId)
    requires Visited(b, x) && b.Owns(other) && x.Open(other)
    ensures Visited(b, x.Merge(other)) && x.Merge(other).Fresh(|x.nodes|)
  {
  }

  /** The graph after visiting `s`; one function per node type with its own control flow. */
  function Visit(s: Ast, b: BuilderState): (r: BuilderState)
    requires b.Ready() && JumpsInLoops(s, b.breakJump.Some?)
    ensures Visited(b, r)
    decreases s, 2
  {
    match s
    case Skip => b
    case Seq(_, _) => VisitSeq(s, b)
    case Identifier(v, w) =>
      var occurrence := VariableOccurrence(v, if w then Assignment else Access);
      AppendVisited(b, b, [occurrence]);
      b.Append([occurrence])
    case VariableDeclaration(_, _, _, _) => VisitVariableDeclaration(s, b)
    case VariableDeclarationStatement(_, _, _) => VisitVariableDeclarationStatement(s, b)
    case If(_, _, _) => VisitIf(s, b).result
    case While(_, _) => VisitWhile(s, b).result
    case DoWhile(_, _) => VisitDoWhile(s, b).result
    case For(_, _, _, _) => VisitFor(s, b).result
    case Break => JumpToVisited(b, b.breakJump.value); b.JumpTo(b.breakJump.value)
    case Continue => JumpToVisited(b, b.continueJump.value); b.JumpTo(b.continueJump.value)
    case Revert => JumpToVisited(b, b.revertNode); b.JumpTo(b.revertNode)
    case Return(_, _) => VisitReturn(s, b)
    case RevertCall(_) => VisitRevertCall(s, b)
    case RequireCall(_) => VisitRequireCall(s, b)
    case InternalCall(_, _) => VisitInternalCall(s, b)
  }

  function VisitSeq(s: Ast, b: BuilderState): (r: BuilderState)
    requires s.Seq? && b.Ready() && JumpsInLoops(s, b.breakJump.Some?)
    ensures Visited(b, r)
    decreases s, 0
  {
    var b1 := Visit(s.first, b);
    var b2 := Visit(s.second, b1);
    VisitedTransitive(b, b1, b2);
    b2
  }

  // The occurrences the builder records on its own.

  function Assignments(variables: seq<Variable>): seq<VariableOccurrence> {
    seq(|variables|, i requires 0 <= i < |variables| => VariableOccurrence(variables[i], Assignment))
  }

  function DeclarationOccurrences(variable: Variable, isAssigned: bool): seq<VariableOccurrence> {
    [VariableOccurrence(variable, Declaration)] + if isAssigned then [VariableOccurrence(variable, Assignment)] else []
  }

  function ReturnOccurrences(ps: seq<ReturnParameter>): seq<VariableOccurrence> {
    seq(|ps|, i requires 0 <= i < |ps| => VariableOccurrence(ps[i].variable, Kind.Return))
  }

  /** They are what executions do. */
  lemma RecordedIsExecuted(variable: Variable, isAssigned: bool, variables: seq<Variable>, ps: seq<ReturnParameter>)
    ensures OccurrenceEvents(DeclarationOccurrences(variable, isAssigned))
         == [Occurs(VariableOccurrence(variable, Declaration))]
            + if isAssigned then [Occurs(VariableOccurrence(variable, Assignment))] else []
    ensures OccurrenceEvents(Assignments(variables)) == AssignAll(variables)
    ensures OccurrenceEvents(ReturnOccurrences(ps)) == ReadAll(ps)
  {
  }

  function VisitVariableDeclaration(s: Ast, b: BuilderState): (r: BuilderState)
    requires s.VariableDeclaration? && b.Ready() && JumpsInLoops(s, b.breakJump.Some?)
    ensures Visited(b, r)
    decreases s, 0
  {
    var occurrences := DeclarationOccurrences(s.variable, s.initializer.Some? || s.externallyAssigned);
    AppendVisited(b, b, occurrences);
    var b1 := b.Append(occurrences);
    var b2 := Visit(s.typeName, b1);
    VisitedTransitive(b, b1, b2);
    if s.initializer.None? then b2 else
      var b3 := Visit(s.initializer.value, b2);
      VisitedTransitive(b, b2, b3);
      b3
  }

  function VisitVariableDeclarationStatement(s: Ast, b: BuilderState): (r: BuilderState)
    requires s.VariableDeclarationStatement? && b.Ready() && JumpsInLoops(s, b.breakJump.Some?)
    ensures Visited(b, r)
    decreases s, 0
  {
    var b1 := Visit(s.declarations, b);
    if s.initialValue.None? then b1 else
      var b2 := Visit(s.initialValue.value, b1);
      VisitedTransitive(b, b1, b2);
      AppendVisited(b, b2, Assignments(s.variables));
      b2.Append(Assignments(s.variables))
  }

  /** The builder's states around the parts of a branch. */
  datatype IfStages = IfStages(condition: BuilderState, trueEnd: BuilderState, falseEnd: BuilderState,
                               result: BuilderState)

  ghost predicate IfSteps(r: IfStages, hasElse: bool) {
    var elseNode := |r.condition.nodes| + 1;
    && r.condition.Ready() && r.condition.Split().Ready()
    && Visited(r.condition.Split(), r.trueEnd)
    && if hasElse then
         && r.trueEnd.At(elseNode).Ready()
         && Visited(r.trueEnd.At(elseNode), r.falseEnd)
         && r.result == r.falseEnd.Merge(r.trueEnd.current)
       else
         && r.falseEnd == r.trueEnd.At(elseNode)
         && r.result == r.trueEnd.Leave([elseNode], elseNode)
  }

  function VisitIf(s: Ast, b: BuilderState): (r: IfStages)
    requires s.If? && b.Ready() && JumpsInLoops(s, b.breakJump.Some?)
    ensures Visited(b, r.result) && Visited(b, r.condition) && IfSteps(r, s.whenFalse.Some?)
    decreases s, 1
  {
    hide Visit, Visited, SameFlow, BuilderState.Leave, BuilderState.Split, BuilderState.Merge;
    var b1 := Visit(s.condition, b);
    VisitedReady(b, b1);
    SplitVisited(b1);
    VisitedTransitive(b, b1, b1.Split());
    VisitedReady(b, b1.Split());
    var b2 := Visit(s.whenTrue, b1.Split());
    ElseStaysOpen(b1, b2);
    VisitedTransitive(b, b1.Split(), b2);
    ElseSteps(s, b, b1, b2);
    VisitElse(s, b, b1, b2)
  }

  /** The rest of a branch, once its first side has been visited. */
  function VisitElse(s: Ast, b: BuilderState, b1: BuilderState, b2: BuilderState): (r: IfStages)
    requires s.If? && b.Ready() && JumpsInLoops(s, b.breakJump.Some?)
    requires Visited(b, b2) && |b.nodes| <= |b1.nodes|
    requires b2.Fresh(|b1.nodes| + 1) && |b1.nodes| + 1 != b2.current
    ensures Visited(b, r.result)
    decreases s, 0, 0
  {
    hide Visit, Visited, SameFlow, BuilderState.Leave, BuilderState.Merge, BuilderState.Ready, BuilderState.Fresh;
    var elseNode := |b1.nodes| + 1;
    VisitedReady(b, b2);
    ElseIsReady(b, b2, elseNode);
    if s.whenFalse.Some? then
      var b3 := VisitSecond(s.whenFalse.value, b, b2, elseNode);
      IfStages(b1, b2, b3, b3.Merge(b2.current))
    else
      IfStages(b1, b2, b2.At(elseNode), b2.Leave([elseNode], elseNode))
  }

  lemma {:induction false} ElseSteps(s: Ast, b: BuilderState, b1: BuilderState, b2: BuilderState)
    requires s.If? && b.Ready() && JumpsInLoops(s, b.breakJump.Some?)
    requires b1.Ready() && b1.Split().Ready() && Visited(b1.Split(), b2) && Visited(b, b2)
    requires |b.nodes| <= |b1.nodes| && b2.Fresh(|b1.nodes| + 1) && |b1.nodes| + 1 != b2.current
    ensures var r := VisitElse(s, b, b1, b2);
            && r.condition == b1 && r.trueEnd == b2 && IfSteps(r, s.whenFalse.Some?)
            && var x := b2.At(|b1.nodes| + 1);
               s.whenFalse.Some? ==>
                 && x.Ready() && JumpsInLoops(s.whenFalse.value, x.breakJump.Some?)
                 && r.falseEnd == Visit(s.whenFalse.value, x)
    decreases s, 0, 1
  {
    hide Visit, Visited, SameFlow, BuilderState.Leave, BuilderState.Merge, BuilderState.Split, BuilderState.Ready,
        IfSteps;
    var elseNode := |b1.nodes| + 1;
    VisitedReady(b, b2);
    ElseIsReady(b, b2, elseNode);
    if s.whenFalse.Some? {
      StepsWithElse(b1, b2, VisitSecond(s.whenFalse.value, b, b2, elseNode));
    } else {
      StepsWithoutElse(b1, b2);
    }
  }

  lemma ElseIsReady(b: BuilderState, x: BuilderState, elseNode: NodeId)
    requires b.Ready() && Visited(b, x) && |b.nodes| <= elseNode && x.Fresh(elseNode)
    ensures x.Open(elseNode) && x.At(elseNode).Ready() && Visited(b, x.At(elseNode))
    ensures elseNode != x.current ==> Visited(b, x.Leave([elseNode], elseNode))
  {
    if elseNode != x.current {
      LeaveVisited(b, x, [elseNode], elseNode);
    }
  }

  /** The second side of a branch, which ends next to the first. */
  function VisitSecond(e: Ast, b: BuilderState, x: BuilderState, elseNode: NodeId): (r: BuilderState)
    requires b.Ready() && Visited(b, x) && x.At(elseNode).Ready() && Visited(b, x.At(elseNode))
    requires JumpsInLoops(e, x.breakJump.Some?) && elseNode != x.current
    ensures Visited(x.At(elseNode), r) && Visited(b, r.Merge(x.current))
    decreases e, 3
  {
    var r := Visit(e, x.At(elseNode));
    EndStaysOpen(x.At(elseNode), r, x.current);
    VisitedTransitive(b, x.At(elseNode), r);
    MergeVisited(b, r, x.current);
    r
  }

  lemma StepsWithElse(b1: BuilderState, b2: BuilderState, b3: BuilderState)
    requires b1.Ready() && b1.Split().Ready() && Visited(b1.Split(), b2)
    requires b2.At(|b1.nodes| + 1).Ready() && Visited(b2.At(|b1.nodes| + 1), b3)
    ensures IfSteps(IfStages(b1, b2, b3, b3.Merge(b2.current)), true)
  {
    hide Visited, BuilderState.Split, BuilderState.Merge;
  }

  lemma StepsWithoutElse(b1: BuilderState, b2: BuilderState)
    requires b1.Ready() && b1.Split().Ready() && Visited(b1.Split(), b2)
    ensures var elseNode := |b1.nodes| + 1;
            IfSteps(IfStages(b1, b2, b2.At(elseNode), b2.Leave([elseNode], elseNode)), false)
  {
    hide Visited, BuilderState.Split, BuilderState.Leave;
  }

  lemma VisitedReady(b: BuilderState, x: BuilderState)
    requires Visited(b, x)
    ensures x.Ready() && b.Owns(x.current) && |b.nodes| <= |x.nodes|
    ensures x.breakJump == b.breakJump && x.continueJump == b.continueJump
  {
  }

  /** The branch that has not been visited yet. */
  lemma ElseStaysOpen(condition: BuilderState, trueEnd: BuilderState)
    requires condition.Ready() && Visited(condition.Split(), trueEnd)
    ensures var elseNode := |condition.nodes| + 1;
            trueEnd.Fresh(elseNode) && trueEnd.Open(elseNode) && elseNode != trueEnd.current
  {
    SplitVisited(condition);
    StaysSame(condition.Split(), trueEnd, |condition.nodes| + 1);
  }

  lemma EndStaysOpen(b: BuilderState, x: BuilderState, end: NodeId)
    requires Visited(b, x) && b.Open(end) && end != b.current
    ensures x.Open(end) && end != x.current
  {
    StaysSame(b, x, end);
  }

  /** The builder's states at the start and end of the parts of a loop. */
  datatype LoopStages = LoopStages(
    head: BuilderState, condition: BuilderState,
    bodyStart: BuilderState, bodyEnd: BuilderState,
    postStart: BuilderState, postEnd: BuilderState,
    result: BuilderState)

  ghost predicate WhileSteps(b: BuilderState, r: LoopStages) {
    var after := |r.condition.nodes| + 1;
    && r.head == b.EnterLabel() && r.head.Ready() && Visited(r.head, r.condition) && r.bodyStart.Ready()
    && r.bodyStart == r.condition.Split().WithJumps(Some(after), Some(r.head.current))
    && Visited(r.bodyStart, r.bodyEnd)
    && r.postStart == r.postEnd == r.bodyEnd.WithJumps(b.breakJump, b.continueJump)
    && r.result == r.postEnd.Leave([r.head.current], after)
  }

  function VisitWhile(s: Ast, b: BuilderState): (r: LoopStages)
    requires s.While? && b.Ready() && JumpsInLoops(s, b.breakJump.Some?)
    ensures Visited(b, r.result) && WhileSteps(b, r)
    decreases s, 0
  {
    hide Visit, Frame, BuilderState.Leave, BuilderState.Split, BuilderState.EnterLabel;
    EnterLabelVisited(b);
    var b1 := b.EnterLabel();
    var b2 := Visit(s.condition, b1);
    VisitedTransitive(b, b1, b2);
    var after := |b2.nodes| + 1;
    SplitVisited(b2);
    VisitedTransitive(b, b2, b2.Split());
    var b3 := b2.Split().WithJumps(Some(after), Some(b1.current));
    var b4 := VisitBody(s.body, b, b2.Split(), after, b1.current);
    var b5 := b4.WithJumps(b.breakJump, b.continueJump);
    LeaveVisited(b, b5, [b1.current], after);
    LoopStages(b1, b2, b3, b4, b5, b5, b5.Leave([b1.current], after))
  }

  ghost predicate DoWhileSteps(b: BuilderState, r: LoopStages) {
    var after, condition := |b.nodes|, |r.head.nodes|;
    && r.head == b.Alloc(1).EnterLabel() && r.bodyStart.Ready() && r.postStart.Ready()
    && r.bodyStart == r.head.Alloc(1).WithJumps(Some(after), Some(condition))
    && Visited(r.bodyStart, r.bodyEnd)
    && r.postStart == r.bodyEnd.WithJumps(b.breakJump, b.continueJump).Leave([condition], condition)
    && Visited(r.postStart, r.postEnd)
    && r.condition == r.postEnd && SameJumps(b, r.postStart)
    && r.result == r.postEnd.Leave([r.head.current, after], after)
  }

  function VisitDoWhile(s: Ast, b: BuilderState): (r: LoopStages)
    requires s.DoWhile? && b.Ready() && JumpsInLoops(s, b.breakJump.Some?)
    ensures Visited(b, r.result) && DoWhileSteps(b, r)
    decreases s, 0
  {
    hide Visit, Frame, BuilderState.Leave, BuilderState.EnterLabel;
    var after := |b.nodes|;
    AllocVisited(b, 1);
    EnterLabelVisited(b.Alloc(1));
    var b1 := b.Alloc(1).EnterLabel();
    VisitedTransitive(b, b.Alloc(1), b1);
    StaysSame(b.Alloc(1), b1, after);
    var condition := |b1.nodes|;
    AllocVisited(b1, 1);
    StaysSame(b1, b1.Alloc(1), after);
    VisitedTransitive(b, b1, b1.Alloc(1));
    var b2 := b1.Alloc(1).WithJumps(Some(after), Some(condition));
    var b3 := VisitBody(s.body, b, b1.Alloc(1), after, condition);
    var b4 := b3.WithJumps(b.breakJump, b.continueJump);
    var b6 := VisitAtLabel(s.condition, b, b4, condition, after);
    LeaveVisited(b, b6, [b1.current, after], after);
    LoopStages(b1, b6, b2, b3, b4.Leave([condition], condition), b6, b6.Leave([b1.current, after], after))
  }

  function VisitFor(s: Ast, b: BuilderState): (r: LoopStages)
    requires s.For? && b.Ready() && JumpsInLoops(s, b.breakJump.Some?)
    ensures Visited(b, r.result)
    decreases s, 1
  {
    var b1 := Visit(s.initialization, b);
    var r := VisitForLoop(s, b1);
    VisitedTransitive(b, b1, r.result);
    r
  }

  ghost predicate ForSteps(b: BuilderState, r: LoopStages) {
    var post, after := |r.condition.nodes|, |r.condition.nodes| + 2;
    && r.head == b.EnterLabel() && r.head.Ready() && Visited(r.head, r.condition) && r.bodyStart.Ready()
    && r.bodyStart == r.condition.Alloc(1).Split().WithJumps(Some(after), Some(post))
    && Visited(r.bodyStart, r.bodyEnd)
    && r.postStart == r.bodyEnd.WithJumps(b.breakJump, b.continueJump).Leave([post], post) && r.postStart.Ready()
    && SameJumps(b, r.head) && SameJumps(b, r.postStart)
    && Visited(r.postStart, r.postEnd)
    && r.result == r.postEnd.Leave([r.head.current], after)
  }

  function VisitForLoop(s: Ast, b: BuilderState): (r: LoopStages)
    requires s.For? && b.Ready() && JumpsInLoops(s, b.breakJump.Some?)
    ensures Visited(b, r.result) && ForSteps(b, r)
    decreases s, 0
  {
    hide Visit, Frame, BuilderState.Leave, BuilderState.Split, BuilderState.EnterLabel;
    EnterLabelVisited(b);
    var b1 := b.EnterLabel();
    var b2 := Visit(s.condition, b1);
    VisitedTransitive(b, b1, b2);
    var post := |b2.nodes|;
    var after := post + 2;
    SplitAfterLabelVisited(b2);
    VisitedTransitive(b, b2, b2.Alloc(1).Split());
    var b3 := b2.Alloc(1).Split().WithJumps(Some(after), Some(post));
    var b4 := VisitBody(s.body, b, b2.Alloc(1).Split(), after, post);
    var b5 := b4.WithJumps(b.breakJump, b.continueJump);
    var b7 := VisitAtLabel(s.loopExpression, b, b5, post, after);
    LeaveVisited(b, b7, [b1.current], after);
    LoopStages(b1, b2, b3, b4, b5.Leave([post], post), b7, b7.Leave([b1.current], after))
  }

  /** Visits a loop body with its own jump targets. */
  function VisitBody(e: Ast, b: BuilderState, x: BuilderState, after: NodeId, next: NodeId): (r: BuilderState)
    requires JumpsInLoops(e, true) && b.Ready() && Visited(b, x) && next < |x.nodes|
    requires x.Fresh(after) && after != x.current
    ensures Visited(b, r.WithJumps(b.breakJump, b.continueJump))
    ensures x.WithJumps(Some(after), Some(next)).Ready() && r == Visit(e, x.WithJumps(Some(after), Some(next)))
    ensures Visited(x.WithJumps(Some(after), Some(next)), r)
    ensures r.Fresh(after) && after != r.current
    ensures x.Fresh(next) && next != x.current ==> r.Fresh(next) && next != r.current
    decreases e, 3
  {
    var y := x.WithJumps(Some(after), Some(next));
    var r := Visit(e, y);
    StaysSame(y, r, after);
    BodyVisited(b, x, after, next, r);
    r
  }

  /** Places a label and visits `e` there; `other` is a label still to be placed. */
  function VisitAtLabel(e: Ast, b: BuilderState, x: BuilderState, place: NodeId, other: NodeId): (r: BuilderState)
    requires JumpsInLoops(e, x.breakJump.Some?) && b.Ready()
    requires Visited(b, x) && |b.nodes| <= place && x.Fresh(place) && place != x.current
    requires x.Fresh(other) && other != x.current && other != place
    ensures Visited(b, r) && r.Fresh(other) && other != r.current
    ensures x.Leave([place], place).Ready() && SameJumps(x, x.Leave([place], place))
    ensures Visited(x.Leave([place], place), r) && r == Visit(e, x.Leave([place], place))
    decreases e, 3
  {
    PlaceVisited(b, x, place, other);
    var y := x.Leave([place], place);
    var r := Visit(e, y);
    StaysSame(y, r, other);
    VisitedTransitive(b, y, r);
    r
  }

  function VisitReturn(s: Ast, b: BuilderState): (r: BuilderState)
    requires s.Return? && b.Ready() && JumpsInLoops(s, b.breakJump.Some?)
    ensures Visited(b, r)
    decreases s, 0
  {
    if s.expression.None? then
      JumpToVisited(b, b.returnNode);
      b.JumpTo(b.returnNode)
    else
      var b1 := Visit(s.expression.value, b);
      AppendVisited(b, b1, Assignments(s.parameters));
      var b2 := b1.Append(Assignments(s.parameters));
      JumpToVisited(b2, b.returnNode);
      VisitedTransitive(b, b2, b2.JumpTo(b.returnNode));
      b2.JumpTo(b.returnNode)
  }

  function VisitRevertCall(s: Ast, b: BuilderState): (r: BuilderState)
    requires s.RevertCall? && b.Ready() && JumpsInLoops(s, b.breakJump.Some?)
    ensures Visited(b, r)
    decreases s, 0
  {
    var b1 := Visit(s.callee, b);
    JumpToVisited(b1, b.revertNode);
    VisitedTransitive(b, b1, b1.JumpTo(b.revertNode));
    b1.JumpTo(b.revertNode)
  }

  function VisitRequireCall(s: Ast, b: BuilderState): (r: BuilderState)
    requires s.RequireCall? && b.Ready() && JumpsInLoops(s, b.breakJump.Some?)
    ensures Visited(b, r)
    decreases s, 0
  {
    var b1 := Visit(s.callee, b);
    AllocVisited(b1, 1);
    VisitedTransitive(b, b1, b1.Alloc(1));
    LeaveVisited(b, b1.Alloc(1), [b.revertNode, |b1.nodes|], |b1.nodes|);
    b1.Alloc(1).Leave([b.revertNode, |b1.nodes|], |b1.nodes|)
  }

  function VisitInternalCall(s: Ast, b: BuilderState): (r: BuilderState)
    requires s.InternalCall? && b.Ready() && JumpsInLoops(s, b.breakJump.Some?)
    ensures Visited(b, r)
    decreases s, 0
  {
    var b1 := Visit(s.callee, b);
    CallOutVisited(b1, s.definition);
    VisitedTransitive(b, b1, b1.CallOut(s.definition));
    b1.CallOut(s.definition)
  }

  /** Records that the return node reads a return parameter. */
  function ReadAtReturn(b: BuilderState, variable: Variable): BuilderState
    requires b.returnNode < |b.nodes|
  {
    var node := b.nodes[b.returnNode];
    b.(nodes := b.nodes[b.returnNode := node.(variableOccurrences :=
      node.variableOccurrences + [VariableOccurrence(variable, Kind.Return)])])
  }

  /** What is kept while a function is being built: its two ends stay ends. */
  ghost predicate Building(b: BuilderState, ps: seq<ReturnParameter>) {
    && b.Ready() && b.breakJump.None?
    && b.current != b.returnNode && b.current != b.revertNode && b.returnNode != b.revertNode
    && SameFlow(b.nodes[b.returnNode], EMPTY_NODE.(variableOccurrences := ReturnOccurrences(ps)))
    && SameFlow(b.nodes[b.revertNode], EMPTY_NODE)
  }

  predicate ReturnsWellFormed(ps: seq<ReturnParameter>) {
    forall i :: 0 <= i < |ps| ==> JumpsInLoops(ps[i].declaration, false)
  }

  lemma VisitKeepsBuilding(b: BuilderState, r: BuilderState, ps: seq<ReturnParameter>)
    requires Building(b, ps) && Visited(b, r)
    ensures Building(r, ps)
  {
  }

  lemma ReadKeepsBuilding(b: BuilderState, ps: seq<ReturnParameter>, p: ReturnParameter)
    requires Building(b, ps)
    ensures Building(ReadAtReturn(b, p.variable), ps + [p])
  {
    assert ReturnOccurrences(ps + [p]) == ReturnOccurrences(ps) + [VariableOccurrence(p.variable, Kind.Return)];
  }

  function VisitReturnParameters(ps: seq<ReturnParameter>, b: BuilderState): (r: BuilderState)
    requires Building(b, []) && ReturnsWellFormed(ps)
    ensures Building(r, ps) && SameJumps(b, r)
  {
    if ps == [] then b else
      var k := |ps| - 1;
      var b1 := VisitReturnParameters(ps[..k], b);
      var b2 := Visit(ps[k].declaration, b1);
      VisitKeepsBuilding(b1, b2, ps[..k]);
      ReadKeepsBuilding(b2, ps[..k], ps[k]);
      assert ps[..k] + [ps[k]] == ps;
      ReadAtReturn(b2, ps[k].variable)
  }

  predicate WellFormed(f: FunctionDefinition) {
    JumpsInLoops(f.parameters, false) && ReturnsWellFormed(f.returnParameters) && JumpsInLoops(f.body, false)
  }

  /** The builder's states around the parts of a function. */
  datatype FunctionStages = FunctionStages(
    start: BuilderState, parametersEnd: BuilderState, returnsEnd: BuilderState, bodyEnd: BuilderState,
    result: BuilderState)

  /** The state in which a function's parameters are visited: four new nodes, none of them connected. */
  function StartOfFunction(nodes: Graph): BuilderState {
    BuilderState(nodes + seq(4, _ => EMPTY_NODE), |nodes|, |nodes| + 1, |nodes| + 2, None, None)
  }

  function VisitFunction(f: FunctionDefinition, nodes: Graph): (r: FunctionStages)
    requires WellFormed(f)
    ensures Building(r.start, []) && Building(r.parametersEnd, [])
    ensures Building(r.returnsEnd, f.returnParameters) && Building(r.bodyEnd, f.returnParameters)
    ensures SameJumps(r.start, r.parametersEnd) && SameJumps(r.start, r.returnsEnd) && SameJumps(r.start, r.bodyEnd)
  {
    var b0 := StartOfFunction(nodes);
    assert ReturnOccurrences([]) == [];
    var b1 := Visit(f.parameters, b0);
    VisitKeepsBuilding(b0, b1, []);
    var b2 := VisitReturnParameters(f.returnParameters, b1);
    var b3 := Visit(f.body, b2);
    VisitKeepsBuilding(b2, b3, f.returnParameters);
    FunctionStages(b0, b1, b2, b3, b3.Leave([b3.returnNode], b3.returnNode))
  }

  /** Everything a state holds from index `n` downwards is as in `nodes`. */
  ghost predicate KeepsNodes(nodes: Graph, b: BuilderState) {
    && |nodes| <= |b.nodes| && |nodes| <= b.current && |nodes| <= b.returnNode
    && forall n :: 0 <= n < |nodes| ==> SameFlow(b.nodes[n], nodes[n])
  }

  lemma VisitKeepsNodes(nodes: Graph, b: BuilderState, r: BuilderState)
    requires KeepsNodes(nodes, b) && Visited(b, r)
    ensures KeepsNodes(nodes, r)
  {
  }

  lemma ReadKeepsNodes(nodes: Graph, b: BuilderState, variable: Variable)
    requires KeepsNodes(nodes, b) && b.returnNode < |b.nodes|
    ensures KeepsNodes(nodes, ReadAtReturn(b, variable))
  {
  }

  lemma {:induction false} ReturnsKeepNodes(nodes: Graph, ps: seq<ReturnParameter>, b: BuilderState)
    requires Building(b, []) && ReturnsWellFormed(ps) && KeepsNodes(nodes, b)
    ensures KeepsNodes(nodes, VisitReturnParameters(ps, b))
    decreases |ps|
  {
    if ps != [] {
      hide Visit, Frame, KeepsNodes, SameFlow, ReadAtReturn;
      var k := |ps| - 1;
      var b1 := VisitReturnParameters(ps[..k], b);
      ReturnsKeepNodes(nodes, ps[..k], b);
      VisitKeepsNodes(nodes, b1, Visit(ps[k].declaration, b1));
      ReadKeepsNodes(nodes, Visit(ps[k].declaration, b1), ps[k].variable);
    }
  }

  /** Building a function leaves all nodes built before alone. */
  lemma FunctionKeepsNodes(f: FunctionDefinition, nodes: Graph)
    requires WellFormed(f)
    ensures var g := VisitFunction(f, nodes).result.nodes;
            |nodes| <= |g| && forall n :: 0 <= n < |nodes| ==> SameFlow(g[n], nodes[n])
  {
    hide Visit, Frame, VisitReturnParameters;
    var r := VisitFunction(f, nodes);
    VisitKeepsNodes(nodes, r.start, r.parametersEnd);
    ReturnsKeepNodes(nodes, f.returnParameters, r.parametersEnd);
    VisitKeepsNodes(nodes, r.returnsEnd, r.bodyEnd);
  }

  function FlowOf(nodes: Graph): FunctionFlow {
    FunctionFlow(|nodes|, |nodes| + 1, |nodes| + 2, |nodes| + 3)
  }

  /** Visiting `s` in state `b` leads to `r`. */
  ghost predicate IsVisit(s: Ast, b: BuilderState, r: BuilderState) {
    b.Ready() && JumpsInLoops(s, b.breakJump.Some?) && r == Visit(s, b)
  }

  lemma IfVisits(s: Ast, b: BuilderState, r: IfStages)
    requires s.If? && b.Ready() && JumpsInLoops(s, b.breakJump.Some?) && r == VisitIf(s, b)
    ensures IsVisit(s.condition, b, r.condition) && IsVisit(s.whenTrue, r.condition.Split(), r.trueEnd)
    ensures s.whenFalse.Some? ==>
              IsVisit(s.whenFalse.value, r.trueEnd.At(|r.condition.nodes| + 1), r.falseEnd)
  {
    hide Visit, Visited, Frame, SameFlow, BuilderState.Split, BuilderState.Leave, BuilderState.Merge;
    VisitedReady(b, r.condition);
    SplitVisited(r.condition);
    VisitedReady(r.condition, r.condition.Split());
    VisitedReady(r.condition.Split(), r.trueEnd);
    VisitedTransitive(b, r.condition, r.condition.Split());
    VisitedTransitive(b, r.condition.Split(), r.trueEnd);
    ElseStaysOpen(r.condition, r.trueEnd);
    hide BuilderState.Ready, BuilderState.Fresh, BuilderState.Open, VisitElse;
    ElseSteps(s, b, r.condition, r.trueEnd);
  }

  lemma WhileVisits(s: Ast, b: BuilderState, r: LoopStages)
    requires s.While? && b.Ready() && JumpsInLoops(s, b.breakJump.Some?) && r == VisitWhile(s, b)
    ensures IsVisit(s.condition, r.head, r.condition) && IsVisit(s.body, r.bodyStart, r.bodyEnd)
  {
    hide Visit, Frame;
  }

  lemma DoWhileVisits(s: Ast, b: BuilderState, r: LoopStages)
    requires s.DoWhile? && b.Ready() && JumpsInLoops(s, b.breakJump.Some?) && r == VisitDoWhile(s, b)
    ensures IsVisit(s.body, r.bodyStart, r.bodyEnd) && IsVisit(s.condition, r.postStart, r.postEnd)
  {
    hide Visit, Frame;
  }

  lemma ForVisits(s: Ast, b: BuilderState, r: LoopStages)
    requires s.For? && b.Ready() && JumpsInLoops(s, b.breakJump.Some?) && r == VisitForLoop(s, b)
    ensures IsVisit(s.condition, r.head, r.condition) && IsVisit(s.body, r.bodyStart, r.bodyEnd)
    ensures IsVisit(s.loopExpression, r.postStart, r.postEnd)
  {
    hide Visit, Frame;
  }
}
