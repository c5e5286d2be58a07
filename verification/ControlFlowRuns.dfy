/**
 * Runs through a graph at the granularity of single events, and their
 * correspondence with node paths.
 */
module ControlFlowRuns {
  import opened ControlFlowGraph

  /** A place in a node: just before its event number `index`. */
  datatype Position = Position(node: NodeId, index: nat)

  function Start(node: NodeId): Position {
    Position(node, 0)
  }

  ghost predicate StepsOn(g: Graph, p: Position, k: nat, t: Trace, to: Position)
    requires p.node < |g|
    decreases k, 0
  {
    k > 0 && p.index == |Events(g[p.node])| && exists m :: m in g[p.node].exits && Run(g, Start(m), k - 1, t, to)
  }

  /** A run of `k` steps from `p` to `to`, emitting `t`. */
  ghost predicate Run(g: Graph, p: Position, k: nat, t: Trace, to: Position)
    decreases k, 1
  {
    p.node < |g| &&
    if k == 0 then
      p == to && t == []
    else
      || StepsOn(g, p, k, t, to)
      || (p.index < |Events(g[p.node])| && t != [] && t[0] == Events(g[p.node])[p.index]
          && Run(g, Position(p.node, p.index + 1), k - 1, t[1..], to))
  }

  /** A position from which no step is possible. */
  predicate Terminal(g: Graph, p: Position) {
    p.node < |g| && p.index == |Events(g[p.node])| && g[p.node].exits == []
  }

  lemma {:induction false} RunConcat(g: Graph, p: Position, k: nat, t: Trace, q: Position, l: nat, u: Trace,
                                     r: Position)
    requires Run(g, p, k, t, q) && Run(g, q, l, u, r)
    ensures Run(g, p, k + l, t + u, r)
    decreases k
  {
    hide Events;
    if k == 0 {
      assert t + u == u;
    } else if StepsOn(g, p, k, t, q) {
      var m :| m in g[p.node].exits && Run(g, Start(m), k - 1, t, q);
      RunConcat(g, Start(m), k - 1, t, q, l, u, r);
      assert StepsOn(g, p, k + l, t + u, r);
    } else {
      RunConcat(g, Position(p.node, p.index + 1), k - 1, t[1..], q, l, u, r);
      assert (t + u)[1..] == t[1..] + u;
    }
  }

  /** The events from a position up to a later index of the same node. */
  lemma {:induction false} RunInNode(g: Graph, p: Position, index: nat)
    requires p.node < |g| && p.index <= index <= |Events(g[p.node])|
    ensures Run(g, p, index - p.index, Events(g[p.node])[p.index..index], Position(p.node, index))
    decreases index - p.index
  {
    var events := Events(g[p.node]);
    if p.index < index {
      RunInNode(g, Position(p.node, p.index + 1), index);
      assert events[p.index..index][1..] == events[p.index + 1..index];
    }
  }

  lemma PassOne(g: Graph, p: Position, k: nat, t: Trace, to: Position)
    requires Run(g, p, k, t, to) && Terminal(g, to) && p.index < |Events(g[p.node])|
    ensures k > 0 && t != [] && t[0] == Events(g[p.node])[p.index]
    ensures Run(g, Position(p.node, p.index + 1), k - 1, t[1..], to)
  {
    hide Events;
  }

  /** A run that has to end somewhere else can only continue with the events of its node. */
  lemma {:induction false} PassEvents(g: Graph, p: Position, k: nat, t: Trace, to: Position, index: nat)
    requires Run(g, p, k, t, to) && Terminal(g, to)
    requires p.index <= index <= |Events(g[p.node])|
    ensures index - p.index <= k && index - p.index <= |t|
    ensures t[..index - p.index] == Events(g[p.node])[p.index..index]
    ensures Run(g, Position(p.node, index), k - (index - p.index), t[index - p.index..], to)
    decreases index - p.index
  {
    hide Run, Events;
    if p.index < index {
      PassOne(g, p, k, t, to);
      PassEvents(g, Position(p.node, p.index + 1), k - 1, t[1..], to, index);
      var n := index - p.index;
      assert t[..n] == [t[0]] + t[1..][..n - 1];
      assert t[1..][n - 1..] == t[n..];
    }
  }

  /** At the end of a node with arcs, a run that has to end somewhere else takes one of them. */
  lemma PassArc(g: Graph, p: Position, k: nat, t: Trace, to: Position) returns (m: NodeId)
    requires Run(g, p, k, t, to) && Terminal(g, to)
    requires p.index == |Events(g[p.node])| && g[p.node].exits != []
    ensures k > 0 && m in g[p.node].exits && Run(g, Start(m), k - 1, t, to)
  {
    assert StepsOn(g, p, k, t, to);
    m :| m in g[p.node].exits && Run(g, Start(m), k - 1, t, to);
  }

  lemma TakeArc(g: Graph, p: Position, m: NodeId)
    requires p.node < |g| && p.index == |Events(g[p.node])| && m in g[p.node].exits && m < |g|
    ensures Run(g, p, 1, [], Start(m))
  {
    assert Run(g, Start(m), 0, [], Start(m));
    assert StepsOn(g, p, 1, [], Start(m));
  }

  /** Every run from the start of a node to the end of another one follows a path, with the path's trace. */
  lemma {:induction false} RunToPath(g: Graph, p: Position, k: nat, t: Trace, to: Position) returns (path: seq<NodeId>)
    requires Run(g, p, k, t, to) && to.node < |g| && to.index == |Events(g[to.node])|
    requires p.index <= |Events(g[p.node])|
    ensures IsPath(g, path, p.node, to.node)
    ensures Events(g[p.node])[..p.index] + t == PathTrace(g, path)
    decreases k
  {
    hide Events;
    var events := Events(g[p.node]);
    if k == 0 {
      path := [p.node];
      assert path[1..] == [];
      assert events[..p.index] + t == events;
      assert PathTrace(g, path) == events + [];
    } else if StepsOn(g, p, k, t, to) {
      var m :| m in g[p.node].exits && Run(g, Start(m), k - 1, t, to);
      var rest := RunToPath(g, Start(m), k - 1, t, to);
      hide Run;
      path := [p.node] + rest;
      assert Events(g[m])[..0] + t == t;
      assert events[..p.index] == events;
      LongerPath(g, p.node, rest, m, to.node);
    } else {
      path := RunToPath(g, Position(p.node, p.index + 1), k - 1, t[1..], to);
      assert events[..p.index] + t == events[..p.index + 1] + t[1..];
    }
  }

  lemma LongerPath(g: Graph, n: NodeId, rest: seq<NodeId>, m: NodeId, to: NodeId)
    requires IsPath(g, rest, m, to) && n < |g| && m in g[n].exits
    ensures IsPath(g, [n] + rest, n, to) && PathTrace(g, [n] + rest) == Events(g[n]) + PathTrace(g, rest)
  {
    var path := [n] + rest;
    assert path[1..] == rest;
    forall i | 0 <= i < |path| - 1 ensures path[i + 1] in g[path[i]].exits {
      if i > 0 {
        assert path[i] == rest[i - 1] && path[i + 1] == rest[i - 1 + 1];
      }
    }
  }

  lemma PathTail(g: Graph, path: seq<NodeId>, from: NodeId, to: NodeId)
    requires IsPath(g, path, from, to) && |path| > 1
    ensures IsPath(g, path[1..], path[1], to) && path[1] in g[from].exits
  {
    assert path[0 + 1] in g[path[0]].exits;
    forall i | 0 <= i < |path[1..]| - 1 ensures path[1..][i + 1] in g[path[1..][i]].exits {
      assert path[(i + 1) + 1] in g[path[i + 1]].exits;
    }
  }

  lemma RunThroughNode(g: Graph, n: NodeId)
    requires n < |g|
    ensures Run(g, Start(n), |Events(g[n])|, Events(g[n]), Position(n, |Events(g[n])|))
  {
    RunInNode(g, Start(n), |Events(g[n])|);
    assert Events(g[n])[0..|Events(g[n])|] == Events(g[n]);
  }

  lemma {:induction false} PathToRun(g: Graph, path: seq<NodeId>, from: NodeId, to: NodeId) returns (k: nat)
    requires IsPath(g, path, from, to)
    ensures Run(g, Start(from), k, PathTrace(g, path), Position(to, |Events(g[to])|))
    decreases |path|
  {
    var events := Events(g[from]);
    var final := Position(to, |Events(g[to])|);
    RunThroughNode(g, from);
    if |path| == 1 {
      assert path[1..] == [];
      assert events + [] == events;
      k := |events|;
    } else {
      PathTail(g, path, from, to);
      var rest := PathTrace(g, path[1..]);
      var l := PathToRun(g, path[1..], path[1], to);
      TakeArc(g, Position(from, |events|), path[1]);
      RunConcat(g, Position(from, |events|), 1, [], Start(path[1]), l, rest, final);
      assert [] + rest == rest;
      RunConcat(g, Start(from), |events|, events, Position(from, |events|), 1 + l, rest, final);
      k := |events| + 1 + l;
    }
  }

  ghost predicate HasRun(g: Graph, from: Position, t: Trace, to: Position) {
    exists k: nat :: Run(g, from, k, t, to)
  }

  /** Runs compose; `i` is where the first one ends in the trace. */
  lemma HasRunConcat(g: Graph, p: Position, t: Trace, i: nat, q: Position, r: Position)
    requires i <= |t| && HasRun(g, p, t[..i], q) && HasRun(g, q, t[i..], r)
    ensures HasRun(g, p, t, r)
  {
    var k: nat :| Run(g, p, k, t[..i], q);
    var l: nat :| Run(g, q, l, t[i..], r);
    RunConcat(g, p, k, t[..i], q, l, t[i..], r);
    assert t[..i] + t[i..] == t;
  }

  lemma HasRunThen(g: Graph, p: Position, t: Trace, q: Position, r: Position)
    requires HasRun(g, p, t, q) && HasRun(g, q, [], r)
    ensures HasRun(g, p, t, r)
  {
    assert t[..|t|] == t && t[|t|..] == [];
    HasRunConcat(g, p, t, |t|, q, r);
  }

  lemma HasRunAfter(g: Graph, p: Position, t: Trace, q: Position, r: Position)
    requires HasRun(g, p, [], q) && HasRun(g, q, t, r)
    ensures HasRun(g, p, t, r)
  {
    assert t[..0] == [] && t[0..] == t;
    HasRunConcat(g, p, t, 0, q, r);
  }

  ghost predicate HasPath(g: Graph, from: NodeId, to: NodeId, t: Trace) {
    exists path :: IsPath(g, path, from, to) && PathTrace(g, path) == t
  }

  /** Traces of runs between the outermost positions of two nodes are exactly the traces of paths. */
  lemma RunsArePaths(g: Graph, from: NodeId, to: NodeId, t: Trace)
    requires from < |g| && to < |g|
    ensures HasRun(g, Start(from), t, Position(to, |Events(g[to])|)) <==> HasPath(g, from, to, t)
  {
    var final := Position(to, |Events(g[to])|);
    if HasRun(g, Start(from), t, final) {
      var k: nat :| Run(g, Start(from), k, t, final);
      var path := RunToPath(g, Start(from), k, t, final);
      assert Events(g[from])[..0] + t == t;
    }
    if HasPath(g, from, to, t) {
      var path :| IsPath(g, path, from, to) && PathTrace(g, path) == t;
      var k := PathToRun(g, path, from, to);
    }
  }
}
