/** Generic graph algorithms: breadth-first search and cycle detection. */
module Algorithms {
  import opened Util

  /** Each vertex of `walk` is a successor of the one before it. */
  ghost predicate IsWalk<V(!new)>(next: V -> seq<V>, walk: seq<V>) {
    forall i :: 0 <= i < |walk| - 1 ==> walk[i + 1] in next(walk[i])
  }

  ghost predicate WalkTo<V(!new)>(next: V -> seq<V>, walk: seq<V>, from: V, to: V) {
    |walk| > 0 && walk[0] == from && walk[|walk| - 1] == to && IsWalk(next, walk)
  }

  ghost predicate Leads<V(!new)>(next: V -> seq<V>, from: V, to: V) {
    exists walk :: WalkTo(next, walk, from, to)
  }

  ghost predicate ReachableFrom<V(!new)>(roots: seq<V>, next: V -> seq<V>, v: V) {
    exists r :: r in roots && Leads(next, r, v)
  }

  lemma LeadsToItself<V(!new)>(next: V -> seq<V>, v: V)
    ensures Leads(next, v, v)
  {
    assert WalkTo(next, [v], v, v);
  }

  lemma LeadsStep<V(!new)>(next: V -> seq<V>, u: V, v: V, w: V)
    requires Leads(next, u, v) && w in next(v)
    ensures Leads(next, u, w)
  {
    var walk :| WalkTo(next, walk, u, v);
    var longer := walk + [w];
    forall i | 0 <= i < |longer| - 1 ensures longer[i + 1] in next(longer[i]) {
      if i < |walk| - 1 {
        assert walk[i + 1] in next(walk[i]);
      }
    }
    assert WalkTo(next, longer, u, w);
  }

  lemma LeadsFirst<V(!new)>(next: V -> seq<V>, u: V, v: V, w: V)
    requires v in next(u) && Leads(next, v, w)
    ensures Leads(next, u, w)
  {
    var walk :| WalkTo(next, walk, v, w);
    var longer := [u] + walk;
    forall i | 0 <= i < |longer| - 1 ensures longer[i + 1] in next(longer[i]) {
      if i > 0 {
        assert walk[i - 1 + 1] in next(walk[i - 1]);
      }
    }
    assert WalkTo(next, longer, u, w);
  }

  /** A set that contains the start of a walk and is closed along it contains its end. */
  lemma {:induction false} WalkStaysIn<V(!new)>(next: V -> seq<V>, walk: seq<V>, s: set<V>)
    requires walk != [] && IsWalk(next, walk) && walk[0] in s
    requires forall v, w :: v in s && w in next(v) ==> w in s
    ensures walk[|walk| - 1] in s
    decreases |walk|
  {
    if |walk| > 1 {
      var k := |walk| - 1;
      forall i | 0 <= i < k - 1 ensures walk[..k][i + 1] in next(walk[..k][i]) {
        assert walk[i + 1] in next(walk[i]);
      }
      WalkStaysIn(next, walk[..k], s);
      assert walk[k - 1 + 1] in next(walk[k - 1]);
    }
  }

  /**
   * What a search keeps: everything in sight is reachable, and nothing that
   * was seen from a visited vertex has been forgotten.
   */
  ghost predicate Explored<V(!new)>(roots: seq<V>, next: V -> seq<V>, visited: set<V>, queue: seq<V>) {
    && (forall r :: r in roots ==> r in visited || r in queue)
    && (forall v, w :: v in visited && w in next(v) ==> w in visited || w in queue)
    && (forall v :: v in visited || v in queue ==> ReachableFrom(roots, next, v))
  }

  lemma ExploredStart<V(!new)>(roots: seq<V>, next: V -> seq<V>)
    ensures Explored(roots, next, {}, roots)
  {
    forall r | r in roots ensures ReachableFrom(roots, next, r) {
      LeadsToItself(next, r);
    }
  }

  lemma ExploredSkip<V(!new)>(roots: seq<V>, next: V -> seq<V>, visited: set<V>, queue: seq<V>)
    requires Explored(roots, next, visited, queue) && queue != [] && queue[0] in visited
    ensures Explored(roots, next, visited, queue[1..])
  {
    assert forall v :: v in queue ==> v == queue[0] || v in queue[1..];
  }

  lemma ExploredVisit<V(!new)>(roots: seq<V>, next: V -> seq<V>, visited: set<V>, queue: seq<V>)
    requires Explored(roots, next, visited, queue) && queue != []
    ensures Explored(roots, next, visited + {queue[0]}, queue[1..] + next(queue[0]))
  {
    var v := queue[0];
    assert forall u :: u in queue ==> u == v || u in queue[1..];
    assert v in queue && ReachableFrom(roots, next, v);
    var r :| r in roots && Leads(next, r, v);
    forall w | w in next(v) ensures ReachableFrom(roots, next, w) {
      LeadsStep(next, r, v, w);
    }
  }

  lemma ExploredAll<V(!new)>(roots: seq<V>, next: V -> seq<V>, visited: set<V>)
    requires Explored(roots, next, visited, [])
    ensures forall v :: v in visited <==> ReachableFrom(roots, next, v)
  {
    forall v | ReachableFrom(roots, next, v) ensures v in visited {
      var r :| r in roots && Leads(next, r, v);
      var walk :| WalkTo(next, walk, r, v);
      WalkStaysIn(next, walk, visited);
    }
  }

  function UpTo(n: nat): (s: set<nat>)
    ensures forall i: nat :: i in s <==> i < n
  {
    if n == 0 then {} else UpTo(n - 1) + {n - 1}
  }

  /** A search visits each vertex once, in the order in which vertices were first seen. */
  class BreadthFirstSearch<V(==, !new)> {
    var verticesToTraverse: seq<V>
    var visited: set<V>

    constructor (roots: seq<V>)
      ensures verticesToTraverse == roots && visited == {}
    {
      verticesToTraverse, visited := roots, {};
    }

    /** `universe` bounds the vertices the search can meet. */
    method Run(next: V -> seq<V>, ghost universe: set<V>)
      requires visited == {}
      requires forall v :: v in verticesToTraverse ==> v in universe
      requires forall v, w :: v in universe && w in next(v) ==> w in universe
      modifies this
      ensures verticesToTraverse == []
      ensures forall v :: v in visited <==> ReachableFrom(old(verticesToTraverse), next, v)
      ensures visited <= universe
    {
      hide Explored, ReachableFrom;
      ghost var roots := verticesToTraverse;
      ExploredStart(roots, next);
      while verticesToTraverse != []
        invariant visited <= universe && forall v :: v in verticesToTraverse ==> v in universe
        invariant Explored(roots, next, visited, verticesToTraverse)
        decreases universe - visited, |verticesToTraverse|
      {
        var v := verticesToTraverse[0];
        assert forall u :: u in verticesToTraverse[1..] ==> u in verticesToTraverse;
        if v in visited {
          ExploredSkip(roots, next, visited, verticesToTraverse);
          verticesToTraverse := verticesToTraverse[1..];
        } else {
          ExploredVisit(roots, next, visited, verticesToTraverse);
          verticesToTraverse := verticesToTraverse[1..] + next(v);
          visited := visited + {v};
        }
      }
      ExploredAll(roots, next, visited);
    }
  }

  // ---------------------------------------------------------------- cycles

  ghost predicate OnCycle<V(!new)>(next: V -> seq<V>, v: V) {
    exists w :: w in next(v) && Leads(next, w, v)
  }

  ghost predicate CycleReachable<V(!new)>(next: V -> seq<V>, v: V) {
    exists u :: Leads(next, v, u) && OnCycle(next, u)
  }

  ghost predicate Distinct<V(!new)>(s: seq<V>) {
    forall i, j :: 0 <= i < j < |s| ==> s[i] != s[j]
  }

  /** At least `length` different vertices lie on a walk from `v`. */
  ghost predicate LongWalk<V(!new)>(next: V -> seq<V>, v: V, length: nat) {
    exists walk :: |walk| >= length && walk != [] && walk[0] == v && IsWalk(next, walk) && Distinct(walk)
  }

  lemma {:induction false} WalkLeads<V(!new)>(next: V -> seq<V>, walk: seq<V>, i: nat, j: nat)
    requires IsWalk(next, walk) && i <= j < |walk|
    ensures Leads(next, walk[i], walk[j])
  {
    var part := walk[i..j + 1];
    forall k | 0 <= k < |part| - 1 ensures part[k + 1] in next(part[k]) {
      assert walk[i + k + 1] in next(walk[i + k]);
    }
    assert WalkTo(next, part, walk[i], walk[j]);
  }

  /** A cycle is reachable exactly if one is reachable from some successor. */
  lemma CycleStep<V(!new)>(next: V -> seq<V>, v: V)
    ensures CycleReachable(next, v) <==> exists w :: w in next(v) && CycleReachable(next, w)
  {
    if CycleReachable(next, v) {
      var u :| Leads(next, v, u) && OnCycle(next, u);
      var walk :| WalkTo(next, walk, v, u);
      if |walk| > 1 {
        assert walk[0 + 1] in next(walk[0]);
        WalkLeads(next, walk, 1, |walk| - 1);
        assert CycleReachable(next, walk[1]);
      } else {
        var w :| w in next(v) && Leads(next, w, v);
        assert CycleReachable(next, w);
      }
    }
    if w :| w in next(v) && CycleReachable(next, w) {
      var u :| Leads(next, w, u) && OnCycle(next, u);
      LeadsFirst(next, v, w, u);
    }
  }

  /** Meeting a vertex of the walk that led here closes a cycle. */
  lemma MeetingCloses<V(!new)>(next: V -> seq<V>, stack: seq<V>, v: V)
    requires stack != [] && IsWalk(next, stack) && v in stack && v in next(stack[|stack| - 1])
    ensures CycleReachable(next, v)
  {
    var i :| 0 <= i < |stack| && stack[i] == v;
    WalkLeads(next, stack, i, |stack| - 1);
    var last := stack[|stack| - 1];
    LeadsStep(next, v, last, v);
    LeadsToItself(next, v);
    assert OnCycle(next, last);
  }

  /**
   * Detector for cycles. The visitor it is given calls Run on all successors
   * of a vertex and stops at a hit; it may raise a fatal error when the search
   * gets too deep.
   */
  class CycleDetector<V(==, !new)> {
    const next: V -> seq<V>
    const depthLimit: Option<nat>
    var processing: set<V>
    var processed: set<V>
    var depth: nat
    var firstCycleVertex: Option<V>
    var aborted: bool

    constructor (next: V -> seq<V>, depthLimit: Option<nat>)
      ensures this.next == next && this.depthLimit == depthLimit
      ensures Valid([]) && firstCycleVertex.None?
    {
      this.next, this.depthLimit := next, depthLimit;
      processing, processed, depth, firstCycleVertex, aborted := {}, {}, 0, None, false;
    }

    /** `stack` lists the vertices being processed, outermost first. */
    ghost predicate Valid(stack: seq<V>)
      reads this
    {
      && !aborted && depth == |stack|
      && Distinct(stack) && IsWalk(next, stack)
      && (forall v :: v in processing <==> v in stack)
      && (firstCycleVertex.None? ==> forall v :: v in processed ==> !CycleReachable(next, v))
    }

    method Run(v: V, ghost stack: seq<V>, ghost universe: set<V>) returns (hit: Option<V>)
      requires Valid(stack) && v in universe && forall u, w :: u in universe && w in next(u) ==> w in universe
      requires stack != [] ==> v in next(stack[|stack| - 1])
      modifies this
      ensures !aborted ==> Valid(stack) && hit == firstCycleVertex
      ensures !aborted && old(firstCycleVertex).Some? ==> hit == old(firstCycleVertex)
      ensures !aborted && old(firstCycleVertex).None? ==> (hit.Some? <==> CycleReachable(next, v))
      ensures !aborted && old(firstCycleVertex).None? && hit.Some? && |stack| == 0 ==>
                hit.value in next(v) && CycleReachable(next, hit.value)
      ensures !aborted && old(firstCycleVertex).None? && hit.Some? && |stack| == 1 ==> hit.value == v
      ensures aborted ==> depthLimit.Some? && LongWalk(next, (stack + [v])[0], depthLimit.value)
      decreases universe - processing, 0
    {
      if firstCycleVertex.Some? {
        return firstCycleVertex;
      }
      if v in processed {
        return None;
      } else if v in processing {
        MeetingCloses(next, stack, v);
        CycleStep(next, v);
        firstCycleVertex := Some(v);
        return firstCycleVertex;
      }
      PushedWalk(next, stack, v);
      processing := processing + {v};
      depth := depth + 1;
      Visit(v, stack, universe);
      if aborted {
        return None;
      }
      depth := depth - 1;
      if firstCycleVertex.Some? && depth == 1 {
        firstCycleVertex := Some(v);
      }
      processing := processing - {v};
      processed := processed + {v};
      assert forall u :: u in stack + [v] <==> u in stack || u == v;
      assert forall i :: 0 <= i < |stack| ==> (stack + [v])[i] == stack[i];
      return firstCycleVertex;
    }

    method Visit(v: V, ghost stack: seq<V>, ghost universe: set<V>)
      requires Valid(stack + [v]) && firstCycleVertex.None?
      requires v in universe && forall u, w :: u in universe && w in next(u) ==> w in universe
      modifies this
      ensures !aborted ==> Valid(stack + [v]) && (firstCycleVertex.Some? <==> CycleReachable(next, v))
      ensures !aborted && firstCycleVertex.Some? && |stack| == 0 ==>
                firstCycleVertex.value in next(v) && CycleReachable(next, firstCycleVertex.value)
      ensures aborted ==> depthLimit.Some? && LongWalk(next, (stack + [v])[0], depthLimit.value)
      decreases universe - processing, 1
    {
      CycleStep(next, v);
      if depthLimit.Some? && depth >= depthLimit.value {
        aborted := true;
        return;
      }
      for i := 0 to |next(v)|
        invariant Valid(stack + [v]) && firstCycleVertex.None? && processing == old(processing)
        invariant forall k :: 0 <= k < i ==> !CycleReachable(next, next(v)[k])
      {
        var w := next(v)[i];
        var hit := Run(w, stack + [v], universe);
        if aborted || hit.Some? {
          return;
        }
      }
    }
  }

  lemma PushedWalk<V(!new)>(next: V -> seq<V>, stack: seq<V>, v: V)
    requires IsWalk(next, stack) && Distinct(stack) && v !in stack && (stack != [] ==> v in next(stack[|stack| - 1]))
    ensures IsWalk(next, stack + [v]) && Distinct(stack + [v])
    ensures forall u :: u in stack + [v] <==> u in stack || u == v
  {
    var s := stack + [v];
    forall i | 0 <= i < |s| - 1 ensures s[i + 1] in next(s[i]) {
      if i < |stack| - 1 {
        assert stack[i + 1] in next(stack[i]);
      }
    }
  }
}
