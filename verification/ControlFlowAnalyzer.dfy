/**
 * The control flow analyzer: the variables that may be unassigned at each
 * node, and the source ranges no execution can reach.
 */
module ControlFlowAnalyzer {
  import opened Util
  import opened ControlFlowGraph
  import opened Algorithms
  import opened SourceLocations

  /** `v` is declared, and not assigned after that declaration. */
  ghost predicate LeftUnassigned(os: seq<VariableOccurrence>, v: Variable) {
    exists i :: 0 <= i < |os| && os[i] == VariableOccurrence(v, Declaration) && NotAssigned(os[i + 1..], v)
  }

  ghost predicate NotAssigned(os: seq<VariableOccurrence>, v: Variable) {
    forall i :: 0 <= i < |os| ==> os[i] != VariableOccurrence(v, Assignment)
  }

  /** The occurrences an execution along `path` meets before it enters the last node. */
  function OccurrencesBefore(g: Graph, path: seq<NodeId>): seq<VariableOccurrence>
    decreases |path|
  {
    if |path| <= 1 then [] else
      var k := |path| - 2;
      OccurrencesBefore(g, path[..k + 1]) + if path[k] < |g| then g[path[k]].variableOccurrences else []
  }

  /** Some execution enters `n` with `v` declared but not assigned: the meet over all paths. */
  ghost predicate MayBeUnassigned(g: Graph, entry: NodeId, n: NodeId, v: Variable) {
    exists path :: IsPath(g, path, entry, n) && LeftUnassigned(OccurrencesBefore(g, path), v)
  }

  lemma NotAssignedAppend(os: seq<VariableOccurrence>, us: seq<VariableOccurrence>, v: Variable)
    ensures NotAssigned(os + us, v) <==> NotAssigned(os, v) && NotAssigned(us, v)
  {
    var all := os + us;
    assert forall j :: 0 <= j < |os| ==> all[j] == os[j];
    assert forall j :: 0 <= j < |us| ==> all[|os| + j] == us[j];
  }

  lemma LeftUnassignedAppend(os: seq<VariableOccurrence>, us: seq<VariableOccurrence>, v: Variable)
    ensures LeftUnassigned(os + us, v) <==> LeftUnassigned(us, v) || (LeftUnassigned(os, v) && NotAssigned(us, v))
  {
    hide NotAssigned;
    var all := os + us;
    if LeftUnassigned(all, v) {
      var i :| 0 <= i < |all| && all[i] == VariableOccurrence(v, Declaration) && NotAssigned(all[i + 1..], v);
      if i < |os| {
        assert all[i + 1..] == os[i + 1..] + us;
        NotAssignedAppend(os[i + 1..], us, v);
      } else {
        assert all[i + 1..] == us[i - |os| + 1..] && us[i - |os|] == all[i];
      }
    }
    if LeftUnassigned(us, v) {
      var i :| 0 <= i < |us| && us[i] == VariableOccurrence(v, Declaration) && NotAssigned(us[i + 1..], v);
      assert all[|os| + i] == us[i] && all[|os| + i + 1..] == us[i + 1..];
    }
    if LeftUnassigned(os, v) && NotAssigned(us, v) {
      var i :| 0 <= i < |os| && os[i] == VariableOccurrence(v, Declaration) && NotAssigned(os[i + 1..], v);
      assert all[i] == os[i] && all[i + 1..] == os[i + 1..] + us;
      NotAssignedAppend(os[i + 1..], us, v);
    }
  }

  datatype NodeInfo = NodeInfo(
    unassignedVariablesAtEntry: set<Variable>,
    unassignedVariablesAtExit: set<Variable>,
    uninitializedVariableAccesses: set<VariableOccurrence>)

  const EMPTY_INFO := NodeInfo({}, {}, {})

  type NodeInfos = map<NodeId, NodeInfo>

  /** The variables unassigned after `os`, when those in `s` are unassigned before. */
  function Transfer(s: set<Variable>, os: seq<VariableOccurrence>): set<Variable> {
    if os == [] then s else
      var k := |os| - 1;
      var t := Transfer(s, os[..k]);
      match os[k].kind
      case Assignment => t - {os[k].declaration}
      case Declaration => t + {os[k].declaration}
      case Access => t
      case Return => t
  }

  lemma {:induction false} TransferMeaning(s: set<Variable>, os: seq<VariableOccurrence>, v: Variable)
    ensures v in Transfer(s, os) <==> LeftUnassigned(os, v) || (v in s && NotAssigned(os, v))
    decreases |os|
  {
    if os != [] {
      var k := |os| - 1;
      TransferMeaning(s, os[..k], v);
      LeftUnassignedAppend(os[..k], [os[k]], v);
      assert os[..k] + [os[k]] == os;
      assert NotAssigned(os, v) <==> NotAssigned(os[..k], v) && NotAssigned([os[k]], v) by {
        assert forall i :: 0 <= i < k ==> os[..k][i] == os[i];
        assert [os[k]][0] == os[k];
      }
      assert LeftUnassigned([os[k]], v) <==> os[k] == VariableOccurrence(v, Declaration) by {
        if os[k] == VariableOccurrence(v, Declaration) {
          assert [os[k]][0] == os[k] && NotAssigned([os[k]][1..], v);
        }
      }
      assert NotAssigned([os[k]], v) <==> os[k] != VariableOccurrence(v, Assignment);
    }
  }

  /** A path and one more arc. */
  lemma PathStep(g: Graph, path: seq<NodeId>, from: NodeId, n: NodeId, m: NodeId)
    requires IsPath(g, path, from, n) && m in g[n].exits && m < |g|
    ensures IsPath(g, path + [m], from, m)
    ensures OccurrencesBefore(g, path + [m]) == OccurrencesBefore(g, path) + g[n].variableOccurrences
  {
    var longer := path + [m];
    assert longer[..|path|] == path;
    forall i | 0 <= i < |longer| - 1 ensures longer[i + 1] in g[longer[i]].exits {
      if i < |path| - 1 {
        assert path[i + 1] in g[path[i]].exits;
      }
    }
  }

  lemma ReachesStep(g: Graph, entry: NodeId, n: NodeId, m: NodeId)
    requires ArcsInRange(g) && n < |g| && m in g[n].exits && Reaches(g, entry, n)
    ensures m < |g| && Reaches(g, entry, m)
  {
    var path :| IsPath(g, path, entry, n);
    PathStep(g, path, entry, n, m);
  }

  lemma UnassignedFlows(g: Graph, entry: NodeId, n: NodeId, m: NodeId, s: set<Variable>)
    requires n < |g| && m in g[n].exits && m < |g| && Reaches(g, entry, n)
    requires forall v :: v in s ==> MayBeUnassigned(g, entry, n, v)
    ensures forall v :: v in Transfer(s, g[n].variableOccurrences) ==> MayBeUnassigned(g, entry, m, v)
    ensures Reaches(g, entry, m)
  {
    var path :| IsPath(g, path, entry, n);
    PathStep(g, path, entry, n, m);
    var os := g[n].variableOccurrences;
    forall v | v in Transfer(s, os) ensures MayBeUnassigned(g, entry, m, v) {
      TransferMeaning(s, os, v);
      if LeftUnassigned(os, v) {
        LeftUnassignedAppend(OccurrencesBefore(g, path), os, v);
      } else {
        var longer :| IsPath(g, longer, entry, n) && LeftUnassigned(OccurrencesBefore(g, longer), v);
        PathStep(g, longer, entry, n, m);
        LeftUnassignedAppend(OccurrencesBefore(g, longer), os, v);
      }
    }
  }

  /** The variables that occur in a graph. */
  ghost function Variables(g: Graph): (vs: set<Variable>)
    ensures forall n, i :: 0 <= n < |g| && 0 <= i < |g[n].variableOccurrences| ==>
              g[n].variableOccurrences[i].declaration in vs
  {
    if g == [] then {} else
      var k := |g| - 1;
      var os := g[k].variableOccurrences;
      Variables(g[..k]) + set i | 0 <= i < |os| :: os[i].declaration
  }

  lemma {:induction false} TransferBounded(s: set<Variable>, os: seq<VariableOccurrence>, vs: set<Variable>)
    requires s <= vs && forall i :: 0 <= i < |os| ==> os[i].declaration in vs
    ensures Transfer(s, os) <= vs
    decreases |os|
  {
    if os != [] {
      TransferBounded(s, os[..|os| - 1], vs);
    }
  }

  ghost predicate ArcsInRange(g: Graph) {
    forall n: NodeId, m :: n < |g| && m in g[n].exits ==> m < |g|
  }

  /** Everything recorded is the effect of some path. */
  ghost predicate Justified(g: Graph, entry: NodeId, infos: NodeInfos) {
    forall n :: n in infos ==> JustifiedAt(g, entry, n, infos[n])
  }

  ghost predicate JustifiedAt(g: Graph, entry: NodeId, n: NodeId, info: NodeInfo) {
    && n < |g| && Reaches(g, entry, n)
    && info.uninitializedVariableAccesses == {}
    && info.unassignedVariablesAtEntry <= Variables(g)
    && (forall v :: v in info.unassignedVariablesAtEntry ==> MayBeUnassigned(g, entry, n, v))
  }

  /** What leaves node `n` has reached its first `count` exits. */
  ghost predicate Propagated(g: Graph, infos: NodeInfos, n: NodeId, count: nat)
    requires n < |g| && n in infos && count <= |g[n].exits|
  {
    forall i :: 0 <= i < count ==>
      && g[n].exits[i] in infos
      && Transfer(infos[n].unassignedVariablesAtEntry,
                  g[n].variableOccurrences) <= infos[g[n].exits[i]].unassignedVariablesAtEntry
  }

  ghost predicate Stable(g: Graph, entry: NodeId, infos: NodeInfos, todo: set<NodeId>) {
    && (entry in infos || entry in todo)
    && (forall n :: n in todo ==> n < |g| && (n in infos || n == entry))
    && (forall n :: n in infos && n !in todo ==> n < |g| && Propagated(g, infos, n, |g[n].exits|))
  }

  /** What is stable has followed every path. */
  lemma {:induction false} StableIsComplete(g: Graph, entry: NodeId, infos: NodeInfos, path: seq<NodeId>, n: NodeId)
    requires ArcsInRange(g) && Stable(g, entry, infos, {}) && IsPath(g, path, entry, n)
    ensures n in infos
    ensures forall v :: LeftUnassigned(OccurrencesBefore(g, path), v) ==> v in infos[n].unassignedVariablesAtEntry
    decreases |path|
  {
    if |path| > 1 {
      var k := |path| - 1;
      var front, m := path[..k], path[k - 1];
      assert path[k - 1 + 1] in g[path[k - 1]].exits;
      forall i | 0 <= i < |front| - 1 ensures front[i + 1] in g[front[i]].exits {
        assert path[i + 1] in g[path[i]].exits;
      }
      StableIsComplete(g, entry, infos, front, m);
      assert Propagated(g, infos, m, |g[m].exits|);
      var j :| 0 <= j < |g[m].exits| && g[m].exits[j] == n;
      forall v | LeftUnassigned(OccurrencesBefore(g, path), v) ensures v in infos[n].unassignedVariablesAtEntry {
        LeftUnassignedAppend(OccurrencesBefore(g, front), g[m].variableOccurrences, v);
        TransferMeaning(infos[m].unassignedVariablesAtEntry, g[m].variableOccurrences, v);
      }
    }
  }

  /** For every node, and for reachable nodes only, the entry set is the meet over all paths. */
  ghost predicate IsMeetOverAllPaths(g: Graph, entry: NodeId, infos: NodeInfos) {
    && (forall n: NodeId :: n in infos <==> n < |g| && Reaches(g, entry, n))
    && (forall n, v :: n in infos ==> (v in infos[n].unassignedVariablesAtEntry <==> MayBeUnassigned(g, entry, n, v)))
  }

  lemma AnalysisDone(g: Graph, entry: NodeId, infos: NodeInfos)
    requires ArcsInRange(g) && Justified(g, entry, infos) && Stable(g, entry, infos, {})
    ensures IsMeetOverAllPaths(g, entry, infos)
  {
    forall n: NodeId | n < |g| && Reaches(g, entry, n) ensures n in infos {
      var path :| IsPath(g, path, entry, n);
      StableIsComplete(g, entry, infos, path, n);
    }
    forall n, v | n in infos && MayBeUnassigned(g, entry, n, v) ensures v in infos[n].unassignedVariablesAtEntry {
      var path :| IsPath(g, path, entry, n) && LeftUnassigned(OccurrencesBefore(g, path), v);
      StableIsComplete(g, entry, infos, path, n);
    }
  }

  /** Adds what is unassigned when `from` is left to the entry of `to`. */
  function Propagate(infos: NodeInfos, from: NodeId, to: NodeId): NodeInfos
    requires from in infos
  {
    var known := if to in infos then infos[to] else EMPTY_INFO;
    infos[to := known.(
      unassignedVariablesAtEntry := known.unassignedVariablesAtEntry + infos[from].unassignedVariablesAtExit,
      uninitializedVariableAccesses := known.uninitializedVariableAccesses + infos[from].uninitializedVariableAccesses)]
  }

  /** Facts known so far, as pairs of a node and a variable unassigned at its entry. */
  ghost function Facts(infos: NodeInfos): set<(NodeId, Variable)> {
    set n, v | n in infos && v in infos[n].unassignedVariablesAtEntry :: (n, v)
  }

  ghost function AllFacts(g: Graph): set<(NodeId, Variable)> {
    set n, v | n in UpTo(|g|) && v in Variables(g) :: (n, v)
  }

  lemma FactsBounded(g: Graph, entry: NodeId, infos: NodeInfos)
    requires Justified(g, entry, infos)
    ensures infos.Keys <= UpTo(|g|) && Facts(infos) <= AllFacts(g)
  {
  }

  /** Nothing was forgotten, and nothing is queued again unless something was learnt. */
  ghost predicate Learnt(infos: NodeInfos, todo: set<NodeId>, later: NodeInfos, laterTodo: set<NodeId>) {
    && infos.Keys <= later.Keys && Facts(infos) <= Facts(later)
    && (infos.Keys < later.Keys || Facts(infos) < Facts(later) || laterTodo == todo)
  }

  lemma LearntTransitive(a: NodeInfos, todo: set<NodeId>, b: NodeInfos, todo2: set<NodeId>, c: NodeInfos,
                         todo3: set<NodeId>)
    requires Learnt(a, todo, b, todo2) && Learnt(b, todo2, c, todo3)
    ensures Learnt(a, todo, c, todo3)
  {
  }

  method CheckUninitializedAccess(g: Graph, entry: NodeId, exit: NodeId)
      returns (infos: NodeInfos, accesses: set<VariableOccurrence>)
    requires ArcsInRange(g) && entry < |g|
    ensures IsMeetOverAllPaths(g, entry, infos)
    ensures accesses == {}  // so no variable is ever reported
  {
    infos := map[];
    var todo := {entry};
    assert IsPath(g, [entry], entry, entry);
    while todo != {}
      invariant Justified(g, entry, infos) && Stable(g, entry, infos, todo)
      decreases UpTo(|g|) - infos.Keys, AllFacts(g) - Facts(infos), todo
    {
      hide Justified, Stable, Facts, AllFacts;
      var n :| n in todo;  // the code takes the one with the smallest address
      ghost var before, todoBefore := infos, todo;
      todo := todo - {n};
      assert todo + {n} == todoBefore;
      infos, todo := Traverse(g, entry, infos, todo, n);
      FactsBounded(g, entry, before);
      FactsBounded(g, entry, infos);
    }
    AnalysisDone(g, entry, infos);
    accesses := (if exit in infos then infos[exit] else EMPTY_INFO).uninitializedVariableAccesses;
  }

  /** The effect of the occurrences of a node, one after the other. */
  method WalkThrough(s: set<Variable>, os: seq<VariableOccurrence>) returns (unassigned: set<Variable>)
    ensures unassigned == Transfer(s, os)
    ensures forall v :: v in unassigned <==> LeftUnassigned(os, v) || (v in s && NotAssigned(os, v))
  {
    unassigned := s;
    for i := 0 to |os|
      invariant unassigned == Transfer(s, os[..i])
    {
      assert os[..i + 1][..i] == os[..i];
      match os[i].kind
      case Assignment => unassigned := unassigned - {os[i].declaration};
      case Declaration => unassigned := unassigned + {os[i].declaration};
      case Access =>
      case Return =>
    }
    assert os[..|os|] == os;
    forall v ensures v in unassigned <==> LeftUnassigned(os, v) || (v in s && NotAssigned(os, v)) {
      TransferMeaning(s, os, v);
    }
  }

  /** In the middle of a traversal: `n` has been walked through, its first `count` exits have been informed. */
  ghost predicate Traversing(g: Graph, entry: NodeId, infos: NodeInfos, todo: set<NodeId>, n: NodeId, count: nat) {
    && Justified(g, entry, infos) && Stable(g, entry, infos, todo + {n})
    && n in infos && n < |g| && count <= |g[n].exits|
    && infos[n].unassignedVariablesAtExit <= Variables(g)
    && (forall m :: m in g[n].exits ==> forall v :: v in infos[n].unassignedVariablesAtExit ==>
         MayBeUnassigned(g, entry, m, v))
    && (n !in todo ==>
         infos[n].unassignedVariablesAtExit == Transfer(infos[n].unassignedVariablesAtEntry, g[n].variableOccurrences))
    && (n !in todo ==> Propagated(g, infos, n, count))
  }

  /** `later` results from informing exit `m` of `n`; it is queued if it has learnt something. */
  ghost predicate Informed(infos: NodeInfos, todo: set<NodeId>, n: NodeId, m: NodeId, later: NodeInfos,
                           laterTodo: set<NodeId>) {
    && n in infos && later == Propagate(infos, n, m)
    && laterTodo == if m !in infos || later[m].unassignedVariablesAtEntry != infos[m].unassignedVariablesAtEntry
                    then todo + {m} else todo
  }

  lemma InformedJustified(g: Graph, entry: NodeId, infos: NodeInfos, todo: set<NodeId>, n: NodeId, m: NodeId,
                          later: NodeInfos, laterTodo: set<NodeId>)
    requires ArcsInRange(g) && Justified(g, entry, infos) && Informed(infos, todo, n, m, later, laterTodo)
    requires n < |g| && m in g[n].exits && infos[n].unassignedVariablesAtExit <= Variables(g)
    requires forall v :: v in infos[n].unassignedVariablesAtExit ==> MayBeUnassigned(g, entry, m, v)
    ensures Justified(g, entry, later)
  {
    hide Reaches, MayBeUnassigned, Variables;
    ReachesStep(g, entry, n, m);
    assert JustifiedAt(g, entry, n, infos[n]);
    assert m in infos ==> JustifiedAt(g, entry, m, infos[m]);
    assert JustifiedAt(g, entry, m, later[m]);
  }

  lemma InformedStable(g: Graph, entry: NodeId, infos: NodeInfos, todo: set<NodeId>, n: NodeId, m: NodeId,
                       later: NodeInfos, laterTodo: set<NodeId>)
    requires Stable(g, entry, infos, todo + {n}) && Informed(infos, todo, n, m, later, laterTodo) && m < |g|
    ensures Stable(g, entry, later, laterTodo + {n})
  {
    forall k | k in later && k !in laterTodo + {n} ensures k < |g| && Propagated(g, later, k, |g[k].exits|) {
      assert k in infos && k !in todo + {n};
      assert Propagated(g, infos, k, |g[k].exits|);
      assert later[k].unassignedVariablesAtEntry == infos[k].unassignedVariablesAtEntry;
    }
  }

  lemma InformedLearnt(infos: NodeInfos, todo: set<NodeId>, n: NodeId, m: NodeId, later: NodeInfos,
                       laterTodo: set<NodeId>)
    requires Informed(infos, todo, n, m, later, laterTodo)
    ensures Learnt(infos, todo, later, laterTodo)
  {
    assert infos.Keys <= later.Keys;
    if m !in infos {
      assert m in later.Keys;
    } else if later[m].unassignedVariablesAtEntry != infos[m].unassignedVariablesAtEntry {
      var v :| v in later[m].unassignedVariablesAtEntry && v !in infos[m].unassignedVariablesAtEntry;
      assert (m, v) in Facts(later) && (m, v) !in Facts(infos);
    }
  }

  /** Informing one exit keeps everything else that is stable. */
  lemma PropagateOne(g: Graph, entry: NodeId, infos: NodeInfos, todo: set<NodeId>, n: NodeId, count: nat,
                     later: NodeInfos, laterTodo: set<NodeId>)
    requires ArcsInRange(g) && Traversing(g, entry, infos, todo, n, count) && count < |g[n].exits|
    requires Informed(infos, todo, n, g[n].exits[count], later, laterTodo)
    ensures Traversing(g, entry, later, laterTodo, n, count + 1) && Learnt(infos, todo, later, laterTodo)
  {
    hide Stable, Justified, Learnt, MayBeUnassigned;
    var m := g[n].exits[count];
    assert m in g[n].exits;
    InformedJustified(g, entry, infos, todo, n, m, later, laterTodo);
    InformedStable(g, entry, infos, todo, n, m, later, laterTodo);
    InformedLearnt(infos, todo, n, m, later, laterTodo);
  }

  /** Walks through one node and propagates the result to its exits. */
  method Traverse(g: Graph, ghost entry: NodeId, infosBefore: NodeInfos, todoBefore: set<NodeId>, n: NodeId)
    returns (infos: NodeInfos, todo: set<NodeId>)
    requires ArcsInRange(g) && entry < |g| && n !in todoBefore
    requires Justified(g, entry, infosBefore) && Stable(g, entry, infosBefore, todoBefore + {n})
    ensures Justified(g, entry, infos) && Stable(g, entry, infos, todo)
    ensures Learnt(infosBefore, todoBefore, infos, todo)
  {
    var info := if n in infosBefore then infosBefore[n] else EMPTY_INFO;
    var unassigned := WalkThrough(info.unassignedVariablesAtEntry, g[n].variableOccurrences);
    infos, todo := infosBefore[n := info.(unassignedVariablesAtExit := unassigned)], todoBefore;
    StartTraversal(g, entry, infosBefore, todoBefore, n, infos);
    for i := 0 to |g[n].exits|
      invariant Traversing(g, entry, infos, todo, n, i) && Learnt(infosBefore, todoBefore, infos, todo)
    {
      var m := g[n].exits[i];
      ghost var before, todoNow := infos, todo;
      NodeIsKnown(g, entry, infos, todo, n, i);
      hide Traversing, Learnt, Stable, Justified;
      var existed := m in infos;
      var size := if existed then |infos[m].unassignedVariablesAtEntry| else 0;
      infos := Propagate(infos, n, m);
      if existed {
        GrowsOnlyIfChanged(before, n, m);
      }
      if |infos[m].unassignedVariablesAtEntry| > size || !existed {
        todo := todo + {m};
      }
      PropagateOne(g, entry, before, todoNow, n, i, infos, todo);
      LearntTransitive(infosBefore, todoBefore, before, todoNow, infos, todo);
    }
    TraversalDone(g, entry, infos, todo, n);
  }

  lemma NodeIsKnown(g: Graph, entry: NodeId, infos: NodeInfos, todo: set<NodeId>, n: NodeId, i: nat)
    requires Traversing(g, entry, infos, todo, n, i)
    ensures n in infos
  {
  }

  lemma TraversalDone(g: Graph, entry: NodeId, infos: NodeInfos, todo: set<NodeId>, n: NodeId)
    requires n < |g| && Traversing(g, entry, infos, todo, n, |g[n].exits|)
    ensures Justified(g, entry, infos) && Stable(g, entry, infos, todo)
  {
  }

  lemma GrowsOnlyIfChanged(infos: NodeInfos, n: NodeId, m: NodeId)
    requires n in infos && m in infos
    ensures var later := Propagate(infos, n, m)[m].unassignedVariablesAtEntry;
            |later| > |infos[m].unassignedVariablesAtEntry| <==> later != infos[m].unassignedVariablesAtEntry
  {
    var was, now := infos[m].unassignedVariablesAtEntry, Propagate(infos, n, m)[m].unassignedVariablesAtEntry;
    assert now == was + (now - was);
  }

  lemma StartTraversal(g: Graph, entry: NodeId, infos: NodeInfos, todo: set<NodeId>, n: NodeId, later: NodeInfos)
    requires ArcsInRange(g) && entry < |g| && n !in todo
    requires Justified(g, entry, infos) && Stable(g, entry, infos, todo + {n})
    requires var info := if n in infos then infos[n] else EMPTY_INFO;
             later == infos[n := info.(unassignedVariablesAtExit := Transfer(info.unassignedVariablesAtEntry,
                                                                             g[n].variableOccurrences))]
    ensures Traversing(g, entry, later, todo, n, 0) && Learnt(infos, todo, later, todo)
  {
    var info := if n in infos then infos[n] else EMPTY_INFO;
    assert IsPath(g, [entry], entry, entry);
    assert Reaches(g, entry, n);
    TransferBounded(info.unassignedVariablesAtEntry, g[n].variableOccurrences, Variables(g));
    forall m | m in g[n].exits
      ensures forall v :: v in later[n].unassignedVariablesAtExit ==> MayBeUnassigned(g, entry, m, v)
    {
      UnassignedFlows(g, entry, n, m, info.unassignedVariablesAtEntry);
    }
  }

  // ------------------------------------------------------------ unreachable code

  function Exits(g: Graph): NodeId -> seq<NodeId> {
    (n: NodeId) => if n < |g| then g[n].exits else []
  }

  function Entries(g: Graph): NodeId -> seq<NodeId> {
    (n: NodeId) => if n < |g| then g[n].entries else []
  }

  ghost predicate InRange(g: Graph, flow: FunctionFlow) {
    && flow.entry < |g| && flow.exit < |g| && flow.revert < |g| && flow.transactionReturn < |g|
    && (forall n: NodeId, m :: n < |g| && m in g[n].exits ==> m < |g|)
    && (forall n: NodeId, m :: n < |g| && m in g[n].entries ==> m < |g|)
  }

  ghost predicate IsPathBack(g: Graph, path: seq<NodeId>, from: NodeId, to: NodeId) {
    && |path| > 0
    && path[0] == from
    && path[|path| - 1] == to
    && (forall i :: 0 <= i < |path| ==> path[i] < |g|)
    && (forall i :: 0 <= i < |path| - 1 ==> path[i + 1] in g[path[i]].entries)
  }

  ghost predicate LeadsBack(g: Graph, from: NodeId, to: NodeId) {
    exists path :: IsPathBack(g, path, from, to)
  }

  /** On a path backwards from where the function ends, but on none forwards from where it starts. */
  ghost predicate UnreachableNode(g: Graph, flow: FunctionFlow, n: NodeId) {
    && n < |g| && g[n].location != SourceLocation(-1, -1, None)
    && (LeadsBack(g, flow.exit, n) || LeadsBack(g, flow.revert, n) || LeadsBack(g, flow.transactionReturn, n))
    && !Reaches(g, flow.entry, n)
  }

  lemma ForwardIsReaches(g: Graph, flow: FunctionFlow, n: NodeId)
    requires InRange(g, flow)
    ensures ReachableFrom([flow.entry], Exits(g), n) <==> Reaches(g, flow.entry, n)
  {
    if Reaches(g, flow.entry, n) {
      var path :| IsPath(g, path, flow.entry, n);
      assert WalkTo(Exits(g), path, flow.entry, n);
      assert flow.entry in [flow.entry];
    }
    if ReachableFrom([flow.entry], Exits(g), n) {
      var walk :| WalkTo(Exits(g), walk, flow.entry, n);
      forall i | 0 <= i < |walk|
        ensures walk[i] < |g|
      {
        if i > 0 {
          assert walk[i - 1 + 1] in Exits(g)(walk[i - 1]);
        }
      }
      assert IsPath(g, walk, flow.entry, n);
    }
  }

  lemma BackwardIsLeadsBack(g: Graph, flow: FunctionFlow, from: NodeId, n: NodeId)
    requires InRange(g, flow) && from < |g|
    ensures Leads(Entries(g), from, n) <==> LeadsBack(g, from, n)
  {
    if LeadsBack(g, from, n) {
      var path :| IsPathBack(g, path, from, n);
      assert WalkTo(Entries(g), path, from, n);
    }
    if Leads(Entries(g), from, n) {
      var walk :| WalkTo(Entries(g), walk, from, n);
      forall i | 0 <= i < |walk|
        ensures walk[i] < |g|
      {
        if i > 0 {
          assert walk[i - 1 + 1] in Entries(g)(walk[i - 1]);
        }
      }
      assert IsPathBack(g, walk, from, n);
    }
  }

  ghost predicate IsUnreachableSet(g: Graph, flow: FunctionFlow, s: seq<SourceLocation>) {
    && Sorted(s)
    && (forall l :: l in s <==> exists n: NodeId :: UnreachableNode(g, flow, n) && g[n].location == l)
  }

  ghost predicate UnreachableCode(g: Graph, flow: FunctionFlow, source: Option<string>, offset: int) {
    exists n: NodeId :: UnreachableNode(g, flow, n) && g[n].location.sourceName == source
                && g[n].location.start <= offset < g[n].location.end
  }

  ghost predicate ReportsUnreachableCode(g: Graph, flow: FunctionFlow, reported: seq<SourceLocation>) {
    forall source, offset :: Covers(reported, source, offset) <==> UnreachableCode(g, flow, source, offset)
  }

  lemma CoverIsCode(g: Graph, flow: FunctionFlow, s: seq<SourceLocation>, source: Option<string>, offset: int)
    requires IsUnreachableSet(g, flow, s)
    ensures Covers(s, source, offset) <==> UnreachableCode(g, flow, source, offset)
  {
    hide Sorted, LeadsBack, Reaches;
    if Covers(s, source, offset) {
      var i :| 0 <= i < |s| && s[i].sourceName == source && s[i].start <= offset < s[i].end;
      assert s[i] in s;
      var n: NodeId :| UnreachableNode(g, flow, n) && g[n].location == s[i];
    }
    if UnreachableCode(g, flow, source, offset) {
      var n: NodeId :| UnreachableNode(g, flow, n) && g[n].location.sourceName == source
                && g[n].location.start <= offset < g[n].location.end;
      assert g[n].location in s;
    }
  }

  lemma SortedIsOrdered(s: seq<SourceLocation>)
    requires Sorted(s) && forall i :: 0 <= i < |s| ==> s[i].start <= s[i].end
    ensures Ordered(s)
  {
    hide SourceLess;
  }

  /**
   * When no source is bridged, the merged ranges are exactly the unreachable
   * code, in order and with gaps between them.
   */
  lemma ReportsAreExact(g: Graph, flow: FunctionFlow, s: seq<SourceLocation>)
    requires IsUnreachableSet(g, flow, s) && forall i :: 0 <= i < |s| ==> s[i].start <= s[i].end
    requires !Bridged(s)
    ensures Separated(Merge(s)) && ReportsUnreachableCode(g, flow, Merge(s))
  {
    hide Less, Covers, UnreachableCode;
    SortedIsOrdered(s);
    MergeExact(s);
    forall source, offset ensures Covers(Merge(s), source, offset) <==> UnreachableCode(g, flow, source, offset) {
      CoverIsCode(g, flow, s, source, offset);
    }
  }

  /** That is the exact condition. */
  lemma ReportsAreExactUnlessBridged(g: Graph, flow: FunctionFlow, s: seq<SourceLocation>)
    requires IsUnreachableSet(g, flow, s) && forall i :: 0 <= i < |s| ==> s[i].start <= s[i].end
    ensures ReportsUnreachableCode(g, flow, Merge(s)) <==> !Bridged(s)
  {
    hide Less, Covers, UnreachableCode;
    SortedIsOrdered(s);
    if Bridged(s) {
      var source, offset := MergeLoses(s);
      CoverIsCode(g, flow, s, source, offset);
    } else {
      ReportsAreExact(g, flow, s);
    }
  }

  lemma OneSourceIsNotBridged(s: seq<SourceLocation>, source: Option<string>)
    requires forall i :: 0 <= i < |s| ==> s[i].sourceName == source
    ensures !Bridged(s)
  {
  }

  /** A range of one file can hide a range of another. */
  lemma TwoSourcesCanBeBridged(a: SourceLocation, b: SourceLocation)
    requires a == SourceLocation(10, 20, Some("A")) && b == SourceLocation(15, 30, Some("B"))
    ensures Sorted([a, b]) && Bridged([a, b]) && Merge([a, b]) == [SourceLocation(10, 30, Some("A"))]
  {
    assert BridgedAt([a, b], 0, 1);
    assert [a, b][1..] == [b] && [b][1..] == [];
    assert Absorb(Extended(a, b), []) == [Extended(a, b)] + Merge([]);
    assert StringLess("A", "B");
  }

  /** The ranges that have not been warned about. */
  function NotWarnedFor(s: seq<SourceLocation>, warned: set<SourceLocation>): seq<SourceLocation> {
    if s == [] then []
    else if s[0] in warned then NotWarnedFor(s[1..], warned)
    else [s[0]] + NotWarnedFor(s[1..], warned + {s[0]})
  }

  /** Each new range is warned about once, the others never. */
  lemma {:induction false} NotWarnedForMeaning(s: seq<SourceLocation>, warned: set<SourceLocation>)
    ensures var r := NotWarnedFor(s, warned);
            && (forall l :: l in r <==> l in s && l !in warned)
            && (forall i, j :: 0 <= i < j < |r| ==> r[i] != r[j])
  {
    if s != [] {
      assert s == [s[0]] + s[1..];
      if s[0] in warned {
        NotWarnedForMeaning(s[1..], warned);
      } else {
        NotWarnedForMeaning(s[1..], warned + {s[0]});
        var r := NotWarnedFor(s[1..], warned + {s[0]});
        assert forall j :: 0 <= j < |r| ==> r[j] in r;
      }
    }
  }

  function Locations(s: seq<SourceLocation>): set<SourceLocation> {
    set l | l in s
  }

  ghost predicate NoDuplicates(s: seq<SourceLocation>) {
    forall i, j :: 0 <= i < j < |s| ==> s[i] != s[j]
  }

  lemma WarningsMean(before: seq<SourceLocation>, s: seq<SourceLocation>)
    requires NoDuplicates(before)
    ensures NoDuplicates(before + NotWarnedFor(s, Locations(before)))
    ensures Locations(before + NotWarnedFor(s, Locations(before))) == Locations(before) + Locations(s)
  {
    NotWarnedForMeaning(s, Locations(before));
    var r := NotWarnedFor(s, Locations(before));
    assert forall i :: 0 <= i < |r| ==> r[i] in r;
    assert forall i :: 0 <= i < |before| ==> before[i] in Locations(before);
  }

  /** One of the merged ranges of unreachable code of the flow. */
  ghost predicate IsReported(g: Graph, flow: FunctionFlow, l: SourceLocation) {
    exists s :: IsUnreachableSet(g, flow, s) && l in Merge(s)
  }

  lemma ReportedIsMerged(g: Graph, flow: FunctionFlow, s: seq<SourceLocation>, l: SourceLocation)
    requires IsUnreachableSet(g, flow, s)
    ensures IsReported(g, flow, l) <==> l in Merge(s)
  {
    hide UnreachableNode, Merge;
    if IsReported(g, flow, l) {
      var other :| IsUnreachableSet(g, flow, other) && l in Merge(other);
      SortedIsUnique(s, other);
    }
  }

  class Analyzer {
    var unreachableLocationsAlreadyWarnedFor: set<SourceLocation>
    var warnings: seq<SourceLocation>

    /** What has been warned about, once each. */
    ghost predicate WarnedOnce()
      reads this
    {
      unreachableLocationsAlreadyWarnedFor == Locations(warnings) && NoDuplicates(warnings)
    }

    constructor ()
      ensures unreachableLocationsAlreadyWarnedFor == {} && warnings == []
    {
      unreachableLocationsAlreadyWarnedFor, warnings := {}, [];
    }

    method CheckUnreachable(g: Graph, flow: FunctionFlow) returns (unreachable: seq<SourceLocation>)
      requires InRange(g, flow)
      modifies this
      ensures IsUnreachableSet(g, flow, unreachable)
      ensures warnings == old(warnings) + NotWarnedFor(Merge(unreachable), old(unreachableLocationsAlreadyWarnedFor))
      ensures unreachableLocationsAlreadyWarnedFor
           == old(unreachableLocationsAlreadyWarnedFor) + Locations(Merge(unreachable))
    {
      unreachable := CollectUnreachable(g, flow);
      var merged := MergeRanges(unreachable);
      Warn(merged);
    }

    method Warn(merged: seq<SourceLocation>)
      modifies this
      ensures warnings == old(warnings) + NotWarnedFor(merged, old(unreachableLocationsAlreadyWarnedFor))
      ensures unreachableLocationsAlreadyWarnedFor == old(unreachableLocationsAlreadyWarnedFor) + Locations(merged)
    {
      for i := 0 to |merged|
        invariant warnings + NotWarnedFor(merged[i..], unreachableLocationsAlreadyWarnedFor)
               == old(warnings) + NotWarnedFor(merged, old(unreachableLocationsAlreadyWarnedFor))
        invariant unreachableLocationsAlreadyWarnedFor
               == old(unreachableLocationsAlreadyWarnedFor) + Locations(merged[..i])
      {
        assert merged[i..][1..] == merged[i + 1..] && merged[i..][0] == merged[i];
        assert merged[..i + 1] == merged[..i] + [merged[i]];
        if merged[i] !in unreachableLocationsAlreadyWarnedFor {
          unreachableLocationsAlreadyWarnedFor := unreachableLocationsAlreadyWarnedFor + {merged[i]};
          warnings := warnings + [merged[i]];
        }
      }
      assert merged[..|merged|] == merged;
    }
  }

  /** The valid locations among `nodes` outside `reachable`. */
  ghost predicate LocationsOf(g: Graph, nodes: set<NodeId>, reachable: set<NodeId>, s: seq<SourceLocation>) {
    forall l :: l in s <==>
      exists n: NodeId :: n in nodes && n < |g| && n !in reachable && g[n].location.IsValid() && g[n].location == l
  }

  method CollectUnreachable(g: Graph, flow: FunctionFlow) returns (unreachable: seq<SourceLocation>)
    requires InRange(g, flow)
    ensures IsUnreachableSet(g, flow, unreachable)
  {
    var forward := new BreadthFirstSearch([flow.entry]);
    forward.Run(Exits(g), UpTo(|g|));
    var backward := new BreadthFirstSearch([flow.exit, flow.revert, flow.transactionReturn]);
    backward.Run(Entries(g), UpTo(|g|));
    unreachable := CollectLocations(g, backward.visited, forward.visited);
    LocationsAreUnreachable(g, flow, backward.visited, forward.visited, unreachable);
  }

  lemma EndsLeadBack(g: Graph, flow: FunctionFlow, n: NodeId)
    requires InRange(g, flow)
    ensures ReachableFrom([flow.exit, flow.revert, flow.transactionReturn], Entries(g), n) <==>
              LeadsBack(g, flow.exit, n) || LeadsBack(g, flow.revert, n) || LeadsBack(g, flow.transactionReturn, n)
  {
    BackwardIsLeadsBack(g, flow, flow.exit, n);
    BackwardIsLeadsBack(g, flow, flow.revert, n);
    BackwardIsLeadsBack(g, flow, flow.transactionReturn, n);
    hide Leads, LeadsBack;
    assert forall r :: r in [flow.exit, flow.revert, flow.transactionReturn] <==>
                         r == flow.exit || r == flow.revert || r == flow.transactionReturn;
  }

  lemma LocationsAreUnreachable(g: Graph, flow: FunctionFlow, nodes: set<NodeId>, reachable: set<NodeId>,
                                s: seq<SourceLocation>)
    requires InRange(g, flow) && Sorted(s) && LocationsOf(g, nodes, reachable, s)
    requires forall n: NodeId :: n in nodes <==>
               ReachableFrom([flow.exit, flow.revert, flow.transactionReturn], Entries(g), n)
    requires forall n: NodeId :: n in reachable <==> ReachableFrom([flow.entry], Exits(g), n)
    ensures IsUnreachableSet(g, flow, s)
  {
    hide Reaches, LeadsBack, Leads, Sorted, InRange;
    forall n: NodeId
      ensures UnreachableNode(g, flow, n) <==> n in nodes && n < |g| && n !in reachable && g[n].location.IsValid()
    {
      ForwardIsReaches(g, flow, n);
      EndsLeadBack(g, flow, n);
    }
    forall l ensures l in s <==> exists n: NodeId :: UnreachableNode(g, flow, n) && g[n].location == l {
      if l in s {
        var n: NodeId :| n in nodes && n < |g| && n !in reachable && g[n].location.IsValid() && g[n].location == l;
        assert UnreachableNode(g, flow, n);
      }
    }
  }

  method CollectLocations(g: Graph, nodes: set<NodeId>, reachable: set<NodeId>)
      returns (unreachable: seq<SourceLocation>)
    ensures Sorted(unreachable) && LocationsOf(g, nodes, reachable, unreachable)
  {
    unreachable := [];
    var todo := nodes;
    while todo != {}
      invariant todo <= nodes && Sorted(unreachable) && LocationsOf(g, nodes - todo, reachable, unreachable)
    {
      hide Sorted;
      var n :| n in todo;
      todo := todo - {n};
      if n < |g| && n !in reachable && g[n].location.IsValid() {
        InsertMeaning(unreachable, g[n].location);
        unreachable := Insert(unreachable, g[n].location);
      }
    }
  }
}
