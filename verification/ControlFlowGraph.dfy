/**
 * The control flow graph shared by the builder, the revert pruner and the
 * analyzer. Node pointers are indices into the container that owns the nodes.
 */
module ControlFlowGraph {
  import opened Util

  type NodeId = nat
  type Variable = nat  // AST id of a variable declaration
  type FunctionId = nat  // AST id of a function definition

  datatype Kind = Declaration | Access | Return | Assignment

  datatype VariableOccurrence = VariableOccurrence(declaration: Variable, kind: Kind)

  /** Half-open range of source offsets; -1 stands for an unset offset. */
  datatype SourceLocation = SourceLocation(start: int, end: int, sourceName: Option<string>) {
    predicate IsValid() {
      sourceName.Some? || start != -1 || end != -1
    }
  }

  const NO_LOCATION := SourceLocation(-1, -1, None)

  datatype CFGNode = CFGNode(
    entries: seq<NodeId>,
    exits: seq<NodeId>,
    functionDefinition: Option<FunctionId>,
    variableOccurrences: seq<VariableOccurrence>,
    location: SourceLocation)

  const EMPTY_NODE := CFGNode([], [], None, [], NO_LOCATION)

  datatype FunctionFlow = FunctionFlow(entry: NodeId, exit: NodeId, revert: NodeId, transactionReturn: NodeId)

  type Graph = seq<CFGNode>

  /** What an execution passing through a node does, in order. */
  datatype Event = Occurs(occurrence: VariableOccurrence) | Calls(callee: FunctionId)

  type Trace = seq<Event>

  function OccurrenceEvents(occurrences: seq<VariableOccurrence>): Trace {
    seq(|occurrences|, i requires 0 <= i < |occurrences| => Occurs(occurrences[i]))
  }

  function CallEvents(callee: Option<FunctionId>): Trace {
    if callee.Some? then [Calls(callee.value)] else []
  }

  /** A node's variable occurrences, followed by the call that ends it, if there is one. */
  function Events(node: CFGNode): Trace {
    OccurrenceEvents(node.variableOccurrences) + CallEvents(node.functionDefinition)
  }

  /** A path is a nonempty list of nodes, each an exit of the one before it. */
  ghost predicate IsPath(g: Graph, path: seq<NodeId>, from: NodeId, to: NodeId) {
    && |path| > 0
    && path[0] == from
    && path[|path| - 1] == to
    && (forall i :: 0 <= i < |path| ==> path[i] < |g|)
    && (forall i :: 0 <= i < |path| - 1 ==> path[i + 1] in g[path[i]].exits)
  }

  /** The events of the nodes of a path, in order. */
  ghost function PathTrace(g: Graph, path: seq<NodeId>): Trace
    requires forall i :: 0 <= i < |path| ==> path[i] < |g|
  {
    if path == [] then [] else Events(g[path[0]]) + PathTrace(g, path[1..])
  }

  ghost predicate Reaches(g: Graph, from: NodeId, to: NodeId) {
    exists path :: IsPath(g, path, from, to)
  }

  /** Owner of all nodes. */
  class NodeContainer {
    var nodes: Graph

    constructor ()
      ensures nodes == []
    {
      nodes := [];
    }

    method NewNode() returns (node: NodeId)
      modifies this
      ensures nodes == old(nodes) + [EMPTY_NODE] && node == |old(nodes)|
    {
      node := |nodes|;
      nodes := nodes + [EMPTY_NODE];
    }
  }
}
