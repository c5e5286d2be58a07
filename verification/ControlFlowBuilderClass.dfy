/** The builder as the object it is: visits move a current node through a growing graph. */
module ControlFlowBuilderClass {
  import opened Util
  import opened ControlFlowGraph
  import opened ControlFlowSemantics
  import opened ControlFlowBuilder
  import opened ControlFlowCorrectness
  import opened ControlFlowRuns

  lemma ConnectOne(g: Graph, from: NodeId, to: NodeId)
    requires from < |g| && to < |g|
    ensures var g1 := g[from := g[from].(exits := g[from].exits + [to])];
            g1[to := g1[to].(entries := g1[to].entries + [from])] == ConnectAll(g, from, [to])
  {
    var g1 := g[from := g[from].(exits := g[from].exits + [to])];
    var g2 := g1[to := g1[to].(entries := g1[to].entries + [from])];
    forall i | 0 <= i < |g| ensures g2[i] == ConnectAll(g, from, [to])[i] {
      assert EntriesFor(i, from, [to]) == if i == to then [from] else [];
      assert g[i].entries + [] == g[i].entries;
    }
  }

  lemma Associates<T>(a: seq<T>, b: seq<T>, c: seq<T>)
    ensures a + (b + c) == a + b + c
  {
  }

  lemma {:induction false} EntriesForConcat(n: NodeId, from: NodeId, ts: seq<NodeId>, us: seq<NodeId>)
    ensures EntriesFor(n, from, ts + us) == EntriesFor(n, from, ts) + EntriesFor(n, from, us)
  {
    if ts == [] {
      assert ts + us == us;
    } else {
      var head := if ts[0] == n then [from] else [];
      assert (ts + us)[0] == ts[0] && (ts + us)[1..] == ts[1..] + us;
      assert EntriesFor(n, from, ts + us) == head + EntriesFor(n, from, ts[1..] + us);
      assert EntriesFor(n, from, ts) == head + EntriesFor(n, from, ts[1..]);
      hide EntriesFor;
      EntriesForConcat(n, from, ts[1..], us);
      Associates(head, EntriesFor(n, from, ts[1..]), EntriesFor(n, from, us));
    }
  }

  lemma ConnectMore(g: Graph, from: NodeId, ts: seq<NodeId>, us: seq<NodeId>)
    ensures ConnectAll(ConnectAll(g, from, ts), from, us) == ConnectAll(g, from, ts + us)
  {
    var g1 := ConnectAll(g, from, ts);
    forall i | 0 <= i < |g| ensures ConnectAll(g1, from, us)[i] == ConnectAll(g, from, ts + us)[i] {
      EntriesForConcat(i, from, ts, us);
      assert g[i].entries + EntriesFor(i, from, ts) + EntriesFor(i, from, us)
          == g[i].entries + (EntriesFor(i, from, ts) + EntriesFor(i, from, us));
      assert g[i].exits + ts + us == g[i].exits + (ts + us);
    }
  }

  lemma ConnectNone(g: Graph, from: NodeId)
    ensures ConnectAll(g, from, []) == g
  {
    forall i | 0 <= i < |g| ensures ConnectAll(g, from, [])[i] == g[i] {
      assert g[i].exits + [] == g[i].exits && g[i].entries + [] == g[i].entries;
    }
  }

  lemma {:induction false} NoEntries(n: NodeId, from: NodeId, ts: seq<NodeId>)
    requires n !in ts
    ensures EntriesFor(n, from, ts) == []
  {
    if ts != [] {
      NoEntries(n, from, ts[1..]);
    }
  }

  /** A node allocated after some arcs could as well have been there before. */
  lemma AllocAfterConnect(g: Graph, from: NodeId, ts: seq<NodeId>)
    requires from < |g| && forall i :: 0 <= i < |ts| ==> ts[i] < |g|
    ensures ConnectAll(g, from, ts) + [EMPTY_NODE] == ConnectAll(g + [EMPTY_NODE], from, ts)
  {
    var lhs, rhs := ConnectAll(g, from, ts) + [EMPTY_NODE], ConnectAll(g + [EMPTY_NODE], from, ts);
    NoEntries(|g|, from, ts);
    assert EMPTY_NODE.entries + [] == EMPTY_NODE.entries;
    forall i | 0 <= i < |lhs| ensures lhs[i] == rhs[i] {
    }
  }

  lemma AppendTwice(b: BuilderState, os: seq<VariableOccurrence>, os2: seq<VariableOccurrence>)
    requires b.current < |b.nodes|
    ensures b.Append(os).Append(os2) == b.Append(os + os2)
  {
    var n := b.nodes[b.current].variableOccurrences;
    assert n + os + os2 == n + (os + os2);
  }

  lemma AppendNone(b: BuilderState)
    requires b.current < |b.nodes|
    ensures b.Append([]) == b
  {
    assert b.nodes[b.current].variableOccurrences + [] == b.nodes[b.current].variableOccurrences;
  }

  lemma MergedOne(g: Graph, from: NodeId, to: NodeId)
    requires from != to
    ensures Merged(g, [from, to], to) == ConnectAll(g, from, [to])
  {
    var g1 := ConnectAll(g, from, [to]);
    assert [from, to][1..] == [to] && [to][1..] == [];
    assert Merged(g, [from, to], to) == Merged(g1, [to], to) == Merged(g1, [], to);
  }

  lemma MergedTwo(g: Graph, a: NodeId, c: NodeId, to: NodeId)
    requires a != to && c != to
    ensures Merged(g, [a, c], to) == ConnectAll(ConnectAll(g, a, [to]), c, [to])
  {
    var g1 := ConnectAll(g, a, [to]);
    assert [a, c][1..] == [c] && [c][1..] == [];
    assert Merged(g, [a, c], to) == Merged(g1, [c], to) == Merged(ConnectAll(g1, c, [to]), [], to);
  }

  /** The graph in which every node of `nodes` but the destination itself leads to the destination. */
  function Merged(g: Graph, nodes: seq<NodeId>, destination: NodeId): Graph
    decreases |nodes|
  {
    if nodes == [] then g else
      Merged(if nodes[0] == destination then g else ConnectAll(g, nodes[0], [destination]), nodes[1..], destination)
  }

  function Ids(first: NodeId, count: nat): seq<NodeId> {
    seq(count, i requires 0 <= i < count => first + i)
  }

  class Builder {
    const container: NodeContainer
    var currentNode: Option<NodeId>
    const returnNode: NodeId
    const revertNode: NodeId
    var breakJump: Option<NodeId>
    var continueJump: Option<NodeId>

    constructor (container: NodeContainer, flow: FunctionFlow)
      ensures this.container == container && currentNode == Some(flow.entry)
      ensures returnNode == flow.exit && revertNode == flow.revert && breakJump == None && continueJump == None
    {
      this.container := container;
      currentNode := Some(flow.entry);
      returnNode, revertNode := flow.exit, flow.revert;
      breakJump, continueJump := None, None;
    }

    /** The builder with its graph, as a value; there is a current node between visits. */
    ghost function State(): BuilderState
      requires currentNode.Some?
      reads this, container
    {
      BuilderState(container.nodes, currentNode.value, returnNode, revertNode, breakJump, continueJump)
    }

    ghost predicate Ready()
      reads this, container
    {
      currentNode.Some? && State().Ready()
    }

    method Connect(from: NodeId, to: NodeId)
      requires from < |container.nodes| && to < |container.nodes|
      modifies container
      ensures container.nodes == ConnectAll(old(container.nodes), from, [to])
    {
      ConnectOne(container.nodes, from, to);
      container.nodes := container.nodes[from := container.nodes[from].(exits := container.nodes[from].exits + [to])];
      container.nodes := container.nodes[to := container.nodes[to].(entries := container.nodes[to].entries + [from])];
    }

    method NewLabel() returns (place: NodeId)
      modifies container
      ensures place == |old(container.nodes)| && container.nodes == old(container.nodes) + [EMPTY_NODE]
      ensures currentNode.Some? ==> State() == old(State()).Alloc(1)
    {
      place := container.NewNode();
      assert seq(1, _ => EMPTY_NODE) == [EMPTY_NODE];
    }

    method CreateLabelHere() returns (place: NodeId)
      requires currentNode.Some? && currentNode.value < |container.nodes|
      modifies this, container
      ensures currentNode == Some(place) && State() == old(State()).EnterLabel()
    {
      place := NewLabel();
      Connect(currentNode.value, place);
      currentNode := Some(place);
    }

    method PlaceAndConnectLabel(node: NodeId)
      requires currentNode.Some? && currentNode.value < |container.nodes| && node < |container.nodes|
      modifies this, container
      ensures currentNode == Some(node) && State() == old(State()).Leave([node], node)
    {
      Connect(currentNode.value, node);
      currentNode := Some(node);
    }

    /** Arcs from the current node to `count` new nodes; there is no current node afterwards. */
    method SplitFlow(count: nat) returns (result: seq<NodeId>)
      requires currentNode.Some? && currentNode.value < |container.nodes|
      modifies this, container
      ensures result == Ids(|old(container.nodes)|, count) && currentNode == None
      ensures breakJump == old(breakJump) && continueJump == old(continueJump)
      ensures container.nodes ==
              ConnectAll(old(container.nodes) + seq(count, _ => EMPTY_NODE), old(currentNode).value, result)
    {
      ghost var g := container.nodes;
      result := [];
      assert g + seq(0, _ => EMPTY_NODE) == g;
      ConnectNone(g, currentNode.value);
      for i := 0 to count
        invariant currentNode == old(currentNode) && breakJump == old(breakJump) && continueJump == old(continueJump)
        invariant result == Ids(|g|, i)
        invariant container.nodes == ConnectAll(g + seq(i, _ => EMPTY_NODE), currentNode.value, result)
      {
        ghost var h := g + seq(i, _ => EMPTY_NODE);
        AllocAfterConnect(h, currentNode.value, result);
        assert h + [EMPTY_NODE] == g + seq(i + 1, _ => EMPTY_NODE);
        ConnectMore(h + [EMPTY_NODE], currentNode.value, result, [|h|]);
        var node := container.NewNode();
        Connect(currentNode.value, node);
        result := result + [node];
      }
      currentNode := None;
    }

    method SplitFlow2() returns (result: seq<NodeId>)
      requires currentNode.Some? && currentNode.value < |container.nodes|
      modifies this, container
      ensures currentNode == None && breakJump == old(breakJump) && continueJump == old(continueJump)
      ensures result == [|old(container.nodes)|, |old(container.nodes)| + 1]
      ensures BuilderState(container.nodes, result[0], returnNode, revertNode, breakJump, continueJump)
              == old(State()).Split()
    {
      result := SplitFlow(2);
    }

    /** An arc back to `target`; control flow continues at `next`. */
    method LoopBack(target: NodeId, next: NodeId)
      requires currentNode.Some? && currentNode.value < |container.nodes| && target < |container.nodes|
      modifies this, container
      ensures currentNode.Some? && State() == old(State()).Leave([target], next)
    {
      Connect(currentNode.value, target);
      currentNode := Some(next);
    }

    /** An arc back to `target` and one to a label, which is placed. */
    method LoopBackAndPlace(target: NodeId, place: NodeId)
      requires currentNode.Some? && currentNode.value < |container.nodes|
      requires target < |container.nodes| && place < |container.nodes|
      modifies this, container
      ensures currentNode.Some? && State() == old(State()).Leave([target, place], place)
    {
      ConnectMore(container.nodes, currentNode.value, [target], [place]);
      assert [target] + [place] == [target, place];
      Connect(currentNode.value, target);
      Connect(currentNode.value, place);
      currentNode := Some(place);
    }

    /** Arcs from the given nodes to `endNode`, which becomes the current node. */
    method MergeFlow(nodes: seq<NodeId>, endNode: Option<NodeId>)
      requires forall i :: 0 <= i < |nodes| ==> nodes[i] < |container.nodes|
      requires endNode.Some? ==> endNode.value < |container.nodes|
      modifies this, container
      ensures breakJump == old(breakJump) && continueJump == old(continueJump)
      ensures currentNode == Some(if endNode.Some? then endNode.value else |old(container.nodes)|)
      ensures container.nodes
              == Merged(old(container.nodes) + if endNode.Some? then [] else [EMPTY_NODE], nodes, currentNode.value)
    {
      var destination;
      if endNode.Some? {
        destination := endNode.value;
        assert container.nodes + [] == container.nodes;
      } else {
        destination := container.NewNode();
      }
      ghost var g := container.nodes;
      for i := 0 to |nodes|
        invariant |container.nodes| == |g|
        invariant breakJump == old(breakJump) && continueJump == old(continueJump)
        invariant Merged(container.nodes, nodes[i..], destination) == Merged(g, nodes, destination)
      {
        assert nodes[i..][1..] == nodes[i + 1..];
        if nodes[i] != destination {
          Connect(nodes[i], destination);
        }
      }
      currentNode := Some(destination);
    }

    /** Starts at `entry` and visits `s`; the current node is not affected. */
    method CreateFlow(entry: NodeId, s: Ast) returns (endNode: NodeId)
      requires var b := BuilderState(container.nodes, entry, returnNode, revertNode, breakJump, continueJump);
               b.Ready() && JumpsInLoops(s, breakJump.Some?)
      modifies this, container
      ensures currentNode == old(currentNode) && breakJump == old(breakJump) && continueJump == old(continueJump)
      ensures var b := BuilderState(old(container.nodes), entry, returnNode, revertNode, breakJump, continueJump);
              Visit(s, b) == BuilderState(container.nodes, endNode, returnNode, revertNode, breakJump, continueJump)
      decreases s, 4
    {
      var oldCurrentNode := currentNode;
      currentNode := Some(entry);
      AppendControlFlow(s);
      endNode := currentNode.value;
      currentNode := oldCurrentNode;
    }

    method Record(occurrences: seq<VariableOccurrence>)
      requires currentNode.Some? && currentNode.value < |container.nodes|
      modifies container
      ensures State() == old(State()).Append(occurrences)
    {
      var n := currentNode.value;
      container.nodes := container.nodes[n := container.nodes[n].(
        variableOccurrences := container.nodes[n].variableOccurrences + occurrences)];
    }

    method JumpTo(target: NodeId)
      requires currentNode.Some? && currentNode.value < |container.nodes| && target < |container.nodes|
      modifies this, container
      ensures currentNode.Some? && State() == old(State()).JumpTo(target)
    {
      AllocAfterConnect(container.nodes, currentNode.value, [target]);
      Connect(currentNode.value, target);
      var place := NewLabel();
      currentNode := Some(place);
    }

    method AppendControlFlow(s: Ast)
      requires Ready() && JumpsInLoops(s, breakJump.Some?)
      modifies this, container
      ensures Ready() && State() == Visit(s, old(State()))
      decreases s, 3
    {
      hide Frame, BuilderState.JumpTo, BuilderState.Append, IfSteps, WhileSteps, DoWhileSteps, ForSteps;
      ghost var r := Visit(s, State());
      match s {
        case Skip =>
        case Seq(first, second) =>
          AppendControlFlow(first);
          AppendControlFlow(second);
        case Identifier(v, w) => Record([VariableOccurrence(v, if w then Assignment else Access)]);
        case VariableDeclaration(_, _, _, _) => VisitDeclaration(s);
        case VariableDeclarationStatement(_, _, _) => VisitDeclarationStatement(s);
        case If(_, _, _) => VisitIfNode(s);
        case While(_, _) => VisitWhileNode(s);
        case DoWhile(_, _) => VisitDoWhileNode(s);
        case For(_, _, _, _) => VisitForNode(s);
        case Break => JumpTo(breakJump.value);
        case Continue => JumpTo(continueJump.value);
        case Revert => JumpTo(revertNode);
        case Return(_, _) => VisitReturnNode(s);
        case RevertCall(_) => VisitRevertCallNode(s);
        case RequireCall(_) => VisitRequireNode(s);
        case InternalCall(_, _) => VisitInternalCallNode(s);
      }
    }

    method VisitDeclaration(s: Ast)
      requires s.VariableDeclaration? && Ready() && JumpsInLoops(s, breakJump.Some?)
      modifies this, container
      ensures Ready() && State() == VisitVariableDeclaration(s, old(State()))
      decreases s, 1
    {
      RecordDeclaration(s.variable, s.initializer.Some?, s.externallyAssigned);
      hide Visit, Frame, BuilderState.Append, DeclarationOccurrences;
      ghost var os := DeclarationOccurrences(s.variable, s.initializer.Some? || s.externallyAssigned);
      VisitedSelf(old(State()));
      AppendVisited(old(State()), old(State()), os);
      AppendControlFlow(s.typeName);
      if s.initializer.Some? {
        AppendControlFlow(s.initializer.value);
      }
    }

    method RecordDeclaration(variable: Variable, hasValue: bool, externallyAssigned: bool)
      requires currentNode.Some? && currentNode.value < |container.nodes|
      modifies container
      ensures State() == old(State()).Append(DeclarationOccurrences(variable, hasValue || externallyAssigned))
    {
      var declared, written := VariableOccurrence(variable, Declaration), VariableOccurrence(variable, Assignment);
      AppendTwice(State(), [declared], [written]);
      assert [declared] + [] == [declared];
      Record([declared]);
      if hasValue {
        Record([written]);
      } else if externallyAssigned {
        Record([written]);
      }
    }

    /** Records an assignment to each variable, one after the other. */
    method RecordAssignments(variables: seq<Variable>)
      requires currentNode.Some? && currentNode.value < |container.nodes|
      modifies container
      ensures State() == old(State()).Append(Assignments(variables))
    {
      ghost var b := State();
      AppendNone(b);
      assert Assignments(variables[..0]) == [];
      for i := 0 to |variables|
        invariant State() == b.Append(Assignments(variables[..i]))
      {
        assert Assignments(variables[..i + 1])
            == Assignments(variables[..i]) + [VariableOccurrence(variables[i], Assignment)];
        AppendTwice(b, Assignments(variables[..i]), [VariableOccurrence(variables[i], Assignment)]);
        Record([VariableOccurrence(variables[i], Assignment)]);
      }
      assert variables[..|variables|] == variables;
    }

    method VisitDeclarationStatement(s: Ast)
      requires s.VariableDeclarationStatement? && Ready() && JumpsInLoops(s, breakJump.Some?)
      modifies this, container
      ensures Ready() && State() == VisitVariableDeclarationStatement(s, old(State()))
      decreases s, 1
    {
      hide Visit, Frame, BuilderState.Append;
      AppendControlFlow(s.declarations);
      if s.initialValue.Some? {
        AppendControlFlow(s.initialValue.value);
        VisitedSelf(State());
        AppendVisited(State(), State(), Assignments(s.variables));
        RecordAssignments(s.variables);
      }
    }

    method VisitIfNode(s: Ast)
      requires s.If? && Ready() && JumpsInLoops(s, breakJump.Some?)
      modifies this, container
      ensures Ready() && State() == VisitIf(s, old(State())).result
      decreases s, 1
    {
      hide Visit, VisitIf, Frame, BuilderState.Leave, BuilderState.Split, BuilderState.Merge;
      ghost var b := State();
      ghost var r := VisitIf(s, b);
      IfVisits(s, b, r);
      AppendControlFlow(s.condition);
      SplitVisited(r.condition);
      var nodes := SplitFlow2();
      var trueEnd := CreateFlow(nodes[0], s.whenTrue);
      StaysSame(r.condition.Split(), r.trueEnd, nodes[1]);
      if s.whenFalse.Some? {
        var falseEnd := CreateFlow(nodes[1], s.whenFalse.value);
        StaysSame(r.trueEnd.At(nodes[1]), r.falseEnd, trueEnd);
        MergeEnds(trueEnd, falseEnd, r.falseEnd);
      } else {
        MergeInto(trueEnd, nodes[1], r.trueEnd);
      }
    }

    method MergeEnds(a: NodeId, c: NodeId, ghost b: BuilderState)
      requires a < |container.nodes| && c < |container.nodes|
      requires b == BuilderState(container.nodes, c, returnNode, revertNode, breakJump, continueJump)
      modifies this, container
      ensures currentNode.Some? && State() == b.Merge(a)
    {
      MergedTwo(container.nodes + [EMPTY_NODE], a, c, |container.nodes|);
      MergeFlow([a, c], None);
    }

    method MergeInto(a: NodeId, c: NodeId, ghost b: BuilderState)
      requires a < |container.nodes| && c < |container.nodes| && a != c
      requires b == BuilderState(container.nodes, a, returnNode, revertNode, breakJump, continueJump)
      modifies this, container
      ensures currentNode.Some? && State() == b.Leave([c], c)
    {
      MergedOne(container.nodes, a, c);
      assert container.nodes + [] == container.nodes;
      MergeFlow([a, c], Some(c));
    }

    method VisitReturnNode(s: Ast)
      requires s.Return? && Ready() && JumpsInLoops(s, breakJump.Some?)
      modifies this, container
      ensures Ready() && State() == VisitReturn(s, old(State()))
      decreases s, 1
    {
      hide Visit, Frame, BuilderState.Append, BuilderState.JumpTo;
      ghost var r := VisitReturn(s, State());
      if s.expression.Some? {
        AppendControlFlow(s.expression.value);
        VisitedSelf(State());
        AppendVisited(State(), State(), Assignments(s.parameters));
        RecordAssignments(s.parameters);
      }
      JumpTo(returnNode);
    }

    method VisitRevertCallNode(s: Ast)
      requires s.RevertCall? && Ready() && JumpsInLoops(s, breakJump.Some?)
      modifies this, container
      ensures Ready() && State() == VisitRevertCall(s, old(State()))
      decreases s, 1
    {
      hide Visit, Frame, BuilderState.JumpTo;
      ghost var r := VisitRevertCall(s, State());
      AppendControlFlow(s.callee);
      JumpTo(revertNode);
    }

    /** Arcs to `target` and to a new node, which becomes the current one. */
    method BranchTo(target: NodeId)
      requires currentNode.Some? && currentNode.value < |container.nodes| && target < |container.nodes|
      modifies this, container
      ensures currentNode.Some?
      ensures var n := |old(container.nodes)|; State() == old(State()).Alloc(1).Leave([target, n], n)
    {
      ghost var b := State();
      assert b.Alloc(1).nodes == b.nodes + [EMPTY_NODE];
      AllocAfterConnect(b.nodes, b.current, [target]);
      Connect(currentNode.value, target);
      var nextNode := NewLabel();
      ConnectMore(b.Alloc(1).nodes, b.current, [target], [nextNode]);
      assert [target] + [nextNode] == [target, nextNode];
      Connect(currentNode.value, nextNode);
      currentNode := Some(nextNode);
    }

    method VisitRequireNode(s: Ast)
      requires s.RequireCall? && Ready() && JumpsInLoops(s, breakJump.Some?)
      modifies this, container
      ensures Ready() && State() == VisitRequireCall(s, old(State()))
      decreases s, 1
    {
      hide Visit, Frame, BuilderState.Leave;
      ghost var r := VisitRequireCall(s, State());
      AppendControlFlow(s.callee);
      BranchTo(revertNode);
    }

    method VisitInternalCallNode(s: Ast)
      requires s.InternalCall? && Ready() && JumpsInLoops(s, breakJump.Some?)
      modifies this, container
      ensures Ready() && State() == VisitInternalCall(s, old(State()))
      decreases s, 1
    {
      hide Visit, Frame;
      AppendControlFlow(s.callee);
      ghost var b1 := State();
      var n := currentNode.value;
      container.nodes := container.nodes[n := container.nodes[n].(functionDefinition := s.definition)];
      var nextNode := CreateLabelHere();
      assert State() == b1.CallOut(s.definition);
    }

    /** A loop body has its own break and continue targets; the outer ones are put back afterwards. */
    method VisitInScope(body: Ast, breakTo: NodeId, continueTo: NodeId)
      requires currentNode.Some? && State().WithJumps(Some(breakTo), Some(continueTo)).Ready()
               && JumpsInLoops(body, true)
      modifies this, container
      ensures currentNode.Some?
      ensures var inner := old(State()).WithJumps(Some(breakTo), Some(continueTo));
              State() == Visit(body, inner).WithJumps(old(breakJump), old(continueJump))
      decreases body, 4
    {
      var origBreakJump, origContinueJump := breakJump, continueJump;
      breakJump, continueJump := Some(breakTo), Some(continueTo);
      AppendControlFlow(body);
      breakJump, continueJump := origBreakJump, origContinueJump;
    }

    method VisitWhileNode(s: Ast)
      requires s.While? && Ready() && JumpsInLoops(s, breakJump.Some?)
      modifies this, container
      ensures Ready() && State() == VisitWhile(s, old(State())).result
      decreases s, 1
    {
      hide Visit, VisitWhile, Frame, BuilderState.Leave, BuilderState.Split, BuilderState.EnterLabel;
      ghost var b := State();
      ghost var r := VisitWhile(s, b);
      WhileVisits(s, b, r);
      EnterLabelVisited(b);
      var whileCondition := CreateLabelHere();
      AppendControlFlow(s.condition);
      SplitVisited(r.condition);
      var nodes := SplitFlow2();
      var afterWhile := nodes[1];
      currentNode := Some(nodes[0]);
      VisitInScope(s.body, afterWhile, whileCondition);
      LoopBack(whileCondition, afterWhile);
    }

    method VisitDoWhileNode(s: Ast)
      requires s.DoWhile? && Ready() && JumpsInLoops(s, breakJump.Some?)
      modifies this, container
      ensures Ready() && State() == VisitDoWhile(s, old(State())).result
      decreases s, 1
    {
      hide Visit, VisitDoWhile, Frame, BuilderState.Leave, BuilderState.EnterLabel;
      ghost var b := State();
      ghost var r := VisitDoWhile(s, b);
      DoWhileVisits(s, b, r);
      var afterWhile := NewLabel();
      AllocVisited(b, 1);
      EnterLabelVisited(b.Alloc(1));
      var whileBody := CreateLabelHere();
      AllocVisited(r.head, 1);
      var condition := NewLabel();
      VisitInScope(s.body, afterWhile, condition);
      PlaceAndConnectLabel(condition);
      AppendControlFlow(s.condition);
      LoopBackAndPlace(whileBody, afterWhile);
    }

    method VisitForNode(s: Ast)
      requires s.For? && Ready() && JumpsInLoops(s, breakJump.Some?)
      modifies this, container
      ensures Ready() && State() == VisitFor(s, old(State())).result
      decreases s, 2
    {
      hide Visit, VisitForLoop, Frame;
      ghost var r := VisitFor(s, State());
      AppendControlFlow(s.initialization);
      VisitForRest(s);
    }

    /** The part of a for loop that follows its initialization. */
    method VisitForRest(s: Ast)
      requires s.For? && Ready() && JumpsInLoops(s, breakJump.Some?)
      modifies this, container
      ensures Ready() && State() == VisitForLoop(s, old(State())).result
      decreases s, 1
    {
      hide Visit, VisitForLoop, Frame, BuilderState.Leave, BuilderState.Split, BuilderState.EnterLabel;
      ghost var b := State();
      ghost var r := VisitForLoop(s, b);
      ForVisits(s, b, r);
      EnterLabelVisited(b);
      var condition := CreateLabelHere();
      AppendControlFlow(s.condition);
      assert State() == r.condition;
      SplitAfterLabelVisited(r.condition);
      var postPart := NewLabel();
      var nodes := SplitFlow2();
      var afterFor := nodes[1];
      currentNode := Some(nodes[0]);
      VisitInScope(s.body, afterFor, postPart);
      assert State() == r.bodyEnd.WithJumps(b.breakJump, b.continueJump);
      PlaceAndConnectLabel(postPart);
      assert State() == r.postStart;
      AppendControlFlow(s.loopExpression);
      assert State() == r.postEnd;
      LoopBack(condition, afterFor);
    }

    /** Declares the return parameters and makes the return node read them. */
    method VisitReturnParameterNodes(ps: seq<ReturnParameter>)
      requires currentNode.Some? && Building(State(), []) && ReturnsWellFormed(ps)
      modifies this, container
      ensures currentNode.Some? && Building(State(), ps) && State() == VisitReturnParameters(ps, old(State()))
    {
      hide Visit, Frame, Visited, SameFlow;
      ghost var b := State();
      for i := 0 to |ps|
        invariant currentNode.Some? && Building(State(), ps[..i])
        invariant State() == VisitReturnParameters(ps[..i], b)
      {
        assert ps[..i + 1][..i] == ps[..i];
        ghost var r := VisitReturnParameters(ps[..i + 1], b);
        VisitKeepsBuilding(State(), Visit(ps[i].declaration, State()), ps[..i]);
        AppendControlFlow(ps[i].declaration);
        var node := container.nodes[returnNode];
        container.nodes := container.nodes[returnNode := node.(variableOccurrences :=
          node.variableOccurrences + [VariableOccurrence(ps[i].variable, Kind.Return)])];
      }
      assert ps[..|ps|] == ps;
    }

    method VisitFunctionDefinition(f: FunctionDefinition, ghost nodes: Graph)
      requires WellFormed(f) && currentNode.Some? && State() == StartOfFunction(nodes)
      modifies this, container
      ensures container.nodes == VisitFunction(f, nodes).result.nodes && currentNode == None
    {
      hide Visit, VisitReturnParameters, Frame;
      ghost var r := VisitFunction(f, nodes);
      AppendControlFlow(f.parameters);
      VisitReturnParameterNodes(f.returnParameters);
      AppendControlFlow(f.body);
      Connect(currentNode.value, returnNode);
      currentNode := None;
    }
  }

  /**
   * Builds the flow of a function. Its paths from entry to exit and to revert
   * have exactly the traces of the executions that return and that revert, and
   * no node built before is affected.
   */
  method CreateFunctionFlow(container: NodeContainer, f: FunctionDefinition) returns (flow: FunctionFlow)
    requires WellFormed(f)
    modifies container
    ensures flow == FlowOf(old(container.nodes))
    ensures container.nodes == VisitFunction(f, old(container.nodes)).result.nodes
    ensures forall t :: HasPath(container.nodes, flow.entry, flow.exit, t) <==> CanReturn(f, t)
    ensures forall t :: HasPath(container.nodes, flow.entry, flow.revert, t) <==> CanRevert(f, t)
    ensures forall n :: 0 <= n < |old(container.nodes)| ==> SameFlow(container.nodes[n], old(container.nodes)[n])
  {
    ghost var nodes := container.nodes;
    var entry := container.NewNode();
    var exit := container.NewNode();
    var revert := container.NewNode();
    var transactionReturn := container.NewNode();
    flow := FunctionFlow(entry, exit, revert, transactionReturn);
    assert container.nodes == nodes + seq(4, _ => EMPTY_NODE);
    var builder := new Builder(container, flow);
    builder.VisitFunctionDefinition(f, nodes);
    hide VisitFunction, CanReturn, CanRevert, HasPath;
    FunctionKeepsNodes(f, nodes);
    forall t {
      BuildingPreservesReturns(f, nodes, container.nodes, t);
    }
    forall t {
      BuildingPreservesReverts(f, nodes, container.nodes, t);
    }
  }
}
