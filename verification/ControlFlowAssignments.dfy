/**
 * What executions say about assignments: parameters are assigned where they
 * are declared, so they are never reported; a return parameter that is never
 * assigned always is.
 */
module ControlFlowAssignments {
  import opened Util
  import opened ControlFlowGraph
  import opened ControlFlowSemantics
  import opened ControlFlowBehaviours
  import opened ControlFlowPipeline
  import Analyzer = ControlFlowAnalyzer
  import Pruner = ControlFlowRevertPruner

  /**
   * An execution of a declaration declares the variable first, and assigns it
   * next if it has a value or is assigned from outside.
   */
  lemma DeclarationsComeFirst(v: Variable, x: bool, typeName: Ast, value: Option<Ast>, t: Trace, o: Outcome)
    requires Executions(VariableDeclaration(v, x, typeName, value))(t, o)
    ensures |t| >= 1 && t[0] == Occurs(VariableOccurrence(v, Declaration))
    ensures x || value.Some? ==> |t| >= 2 && t[1] == Occurs(VariableOccurrence(v, Assignment))
    ensures var rest := if x || value.Some? then t[2..] else t[1..];
            Then(Executions(typeName), if value.Some? then Executions(value.value) else Emit([]))(rest, o)
  {
    var events := [Occurs(VariableOccurrence(v, Declaration))]
                  + if value.Some? || x then [Occurs(VariableOccurrence(v, Assignment))] else [];
    var tail := Then(Executions(typeName), if value.Some? then Executions(value.value) else Emit([]));
    hide Executions, Then;
    assert Executions(VariableDeclaration(v, x, typeName, value))
        == Then(Emit(events), tail) by { DeclarationUnfolds(v, x, typeName, value); }
    var stopped, i := ThenElim(Emit(events), tail, t, o);
    assert t[..i] == events;
    assert t[0] == events[0];
    assert |events| == 2 ==> t[1] == events[1];
  }

  lemma DeclarationUnfolds(v: Variable, x: bool, typeName: Ast, value: Option<Ast>)
    ensures Executions(VariableDeclaration(v, x, typeName, value))
         == Then(Emit([Occurs(VariableOccurrence(v, Declaration))]
                      + if value.Some? || x then [Occurs(VariableOccurrence(v, Assignment))] else []),
                 Then(Executions(typeName), if value.Some? then Executions(value.value) else Emit([])))
  {
  }

  // ------------------------------------------------- properties of all executions

  /** All traces of `b` have property `p`. */
  ghost predicate All(b: Behaviour, p: Trace -> bool) {
    forall t, o :: b(t, o) ==> p(t)
  }

  /** A property that traces have together if each has it. */
  ghost predicate Closed(p: Trace -> bool) {
    p([]) && forall t, u :: p(t) && p(u) ==> p(t + u)
  }

  lemma ThenAll(a: Behaviour, c: Behaviour, p: Trace -> bool)
    requires Closed(p) && All(a, p) && All(c, p)
    ensures All(Then(a, c), p)
  {
    forall t, o | Then(a, c)(t, o) ensures p(t) {
      var stopped, i := ThenElim(a, c, t, o);
      assert t == t[..i] + t[i..];
    }
  }

  lemma BodyThenAll(body: Behaviour, next: Behaviour, p: Trace -> bool)
    requires Closed(p) && All(body, p) && All(next, p)
    ensures All(BodyThen(body, next), p)
  {
    forall t, o | BodyThen(body, next)(t, o) ensures p(t) {
      var ended, i := BodyThenElim(body, next, t, o);
      assert t == t[..i] + t[i..];
      assert i == |t| ==> t[..i] == t;
    }
  }

  lemma {:induction false} IterateAll(n: nat, c: Behaviour, body: Behaviour, post: Behaviour, p: Trace -> bool)
    requires Closed(p) && All(c, p) && All(body, p) && All(post, p)
    ensures All(Iterate(n, c, body, post), p)
  {
    hide Then, BodyThen, Closed;
    var again := if n == 0 then Nothing else Iterate(n - 1, c, body, post);
    if n > 0 {
      IterateAll(n - 1, c, body, post, p);
    }
    ThenAll(post, again, p);
    BodyThenAll(body, Then(post, again), p);
    EmptyIsFine(p);
    ThenAll(c, Choice(Emit([]), BodyThen(body, Then(post, again))), p);
  }

  lemma {:induction false} IterateDoAll(n: nat, body: Behaviour, c: Behaviour, p: Trace -> bool)
    requires Closed(p) && All(c, p) && All(body, p)
    ensures All(IterateDo(n, body, c), p)
  {
    hide Then, BodyThen, Closed;
    var again := if n == 0 then Nothing else IterateDo(n - 1, body, c);
    if n > 0 {
      IterateDoAll(n - 1, body, c, p);
    }
    EmptyIsFine(p);
    ThenAll(c, Choice(Emit([]), again), p);
    BodyThenAll(body, Then(c, Choice(Emit([]), again)), p);
  }

  lemma EmptyIsFine(p: Trace -> bool)
    requires Closed(p)
    ensures p([])
  {
  }

  lemma LoopAll(c: Behaviour, body: Behaviour, post: Behaviour, p: Trace -> bool)
    requires Closed(p) && All(c, p) && All(body, p) && All(post, p)
    ensures All(Loop(c, body, post), p)
  {
    hide Iterate, Closed;
    forall t, o | Loop(c, body, post)(t, o) ensures p(t) {
      var n := LoopElim(c, body, post, t, o);
      IterateAll(n, c, body, post, p);
    }
  }

  lemma LoopDoAll(body: Behaviour, c: Behaviour, p: Trace -> bool)
    requires Closed(p) && All(c, p) && All(body, p)
    ensures All(LoopDo(body, c), p)
  {
    hide IterateDo, Closed;
    forall t, o | LoopDo(body, c)(t, o) ensures p(t) {
      var n := LoopDoElim(body, c, t, o);
      IterateDoAll(n, body, c, p);
    }
  }

  /** Everything `s` does by itself, without its children, has property `p`. */
  predicate Steps(s: Ast, p: Trace -> bool) {
    match s
    case Seq(a, c) => Steps(a, p) && Steps(c, p)
    case Identifier(v, w) => p([Occurs(VariableOccurrence(v, if w then Assignment else Access))])
    case VariableDeclaration(v, x, t, i) =>
      && p([Occurs(VariableOccurrence(v, Declaration))]
           + if i.Some? || x then [Occurs(VariableOccurrence(v, Assignment))] else [])
      && Steps(t, p) && (i.Some? ==> Steps(i.value, p))
    case VariableDeclarationStatement(d, vs, i) =>
      Steps(d, p) && (i.Some? ==> Steps(i.value, p) && p(AssignAll(vs)))
    case If(c, t, f) => Steps(c, p) && Steps(t, p) && (f.Some? ==> Steps(f.value, p))
    case While(c, body) => Steps(c, p) && Steps(body, p)
    case DoWhile(body, c) => Steps(body, p) && Steps(c, p)
    case For(i, c, post, body) => Steps(i, p) && Steps(c, p) && Steps(post, p) && Steps(body, p)
    case Return(e, ps) => e.Some? ==> Steps(e.value, p) && p(AssignAll(ps))
    case RevertCall(c) => Steps(c, p)
    case RequireCall(c) => Steps(c, p)
    case InternalCall(c, f) => Steps(c, p) && p(if f.Some? then [Calls(f.value)] else [])
    case _ => true
  }

  /** A closed property of the steps of `s` is a property of all its executions. */
  lemma {:induction false} ExecutionsAll(s: Ast, p: Trace -> bool)
    requires Closed(p) && Steps(s, p)
    ensures All(Executions(s), p)
  {
    hide Then, Loop, LoopDo, Closed;
    EmptyIsFine(p);
    match s
    case Seq(a, c) =>
      ExecutionsAll(a, p);
      ExecutionsAll(c, p);
      ThenAll(Executions(a), Executions(c), p);
    case VariableDeclaration(_, _, _, _) => DeclarationAll(s, p);
    case VariableDeclarationStatement(d, vs, i) =>
      ExecutionsAll(d, p);
      if i.Some? {
        ExecutionsAll(i.value, p);
        ThenAll(Executions(i.value), Emit(AssignAll(vs)), p);
      }
      ThenAll(Executions(d), if i.Some? then Then(Executions(i.value), Emit(AssignAll(vs))) else Emit([]), p);
    case If(c, t, f) =>
      ExecutionsAll(c, p);
      ExecutionsAll(t, p);
      if f.Some? {
        ExecutionsAll(f.value, p);
      }
      ThenAll(Executions(c), Choice(Executions(t), if f.Some? then Executions(f.value) else Emit([])), p);
    case While(c, body) =>
      ExecutionsAll(c, p);
      ExecutionsAll(body, p);
      LoopAll(Executions(c), Executions(body), Emit([]), p);
    case DoWhile(body, c) =>
      ExecutionsAll(body, p);
      ExecutionsAll(c, p);
      LoopDoAll(Executions(body), Executions(c), p);
    case For(i, c, post, body) =>
      ExecutionsAll(i, p);
      ExecutionsAll(c, p);
      ExecutionsAll(post, p);
      ExecutionsAll(body, p);
      LoopAll(Executions(c), Executions(body), Executions(post), p);
      ThenAll(Executions(i), Loop(Executions(c), Executions(body), Executions(post)), p);
    case Return(e, ps) =>
      if e.Some? {
        ExecutionsAll(e.value, p);
        ThenAll(Executions(e.value), Emit(AssignAll(ps)), p);
        ThenAll(Then(Executions(e.value), Emit(AssignAll(ps))), Jump(Returned), p);
      }
    case RevertCall(c) =>
      ExecutionsAll(c, p);
      ThenAll(Executions(c), Jump(Reverted), p);
    case RequireCall(c) =>
      ExecutionsAll(c, p);
      ThenAll(Executions(c), Choice(Jump(Reverted), Emit([])), p);
    case InternalCall(c, f) =>
      ExecutionsAll(c, p);
      ThenAll(Executions(c), Emit(if f.Some? then [Calls(f.value)] else []), p);
    case _ =>
  }

  lemma {:induction false} DeclarationAll(s: Ast, p: Trace -> bool)
    requires s.VariableDeclaration? && Closed(p) && Steps(s, p)
    ensures All(Executions(s), p)
    decreases s, 0
  {
    EmptyIsFine(p);
    var value := if s.initializer.Some? then Executions(s.initializer.value) else Emit([]);
    var events := [Occurs(VariableOccurrence(s.variable, Declaration))]
                  + if s.initializer.Some? || s.externallyAssigned
                      then [Occurs(VariableOccurrence(s.variable, Assignment))] else [];
    ExecutionsAll(s.typeName, p);
    if s.initializer.Some? {
      ExecutionsAll(s.initializer.value, p);
    }
    DeclarationUnfolds(s.variable, s.externallyAssigned, s.typeName, s.initializer);
    hide Executions, Then, Closed;
    ThenAll(Executions(s.typeName), value, p);
    ThenAll(Emit(events), Then(Executions(s.typeName), value), p);
  }

  predicate StepsOf(f: FunctionDefinition, p: Trace -> bool) {
    && Steps(f.parameters, p) && Steps(f.body, p)
    && (forall i :: 0 <= i < |f.returnParameters| ==> Steps(f.returnParameters[i].declaration, p))
  }

  lemma {:induction false} ReturnsAll(ps: seq<ReturnParameter>, p: Trace -> bool)
    requires Closed(p) && forall i :: 0 <= i < |ps| ==> Steps(ps[i].declaration, p)
    ensures All(DeclareReturns(ps), p)
    decreases |ps|
  {
    hide Executions, Then, Closed, Steps;
    EmptyIsFine(p);
    if ps != [] {
      var k := |ps| - 1;
      ReturnsAll(ps[..k], p);
      ExecutionsAll(ps[k].declaration, p);
      ThenAll(DeclareReturns(ps[..k]), Executions(ps[k].declaration), p);
    }
  }

  lemma BodyAll(f: FunctionDefinition, p: Trace -> bool)
    requires Closed(p) && StepsOf(f, p)
    ensures All(BodyExecutions(f), p)
  {
    hide Executions, Then, Closed, DeclareReturns;
    ExecutionsAll(f.parameters, p);
    ReturnsAll(f.returnParameters, p);
    ExecutionsAll(f.body, p);
    ThenAll(Executions(f.parameters), DeclareReturns(f.returnParameters), p);
    ThenAll(Then(Executions(f.parameters), DeclareReturns(f.returnParameters)), Executions(f.body), p);
  }

  /** What holds of the steps of a function, and of reading its return parameters, holds of all traces that return. */
  lemma ReturningAll(f: FunctionDefinition, p: Trace -> bool, t: Trace)
    requires Closed(p) && StepsOf(f, p) && p(ReadAll(f.returnParameters)) && CanReturn(f, t)
    ensures p(t)
  {
    hide BodyExecutions, StepsOf, Steps;
    BodyAll(f, p);
    var i :| 0 <= i <= |t| && t[i..] == ReadAll(f.returnParameters)
             && (BodyExecutions(f)(t[..i], Normal) || BodyExecutions(f)(t[..i], Returned));
    assert t == t[..i] + t[i..];
  }

  // -------------------------------------------------- variables that are assigned

  /** Wherever `v` is declared it is assigned next. */
  ghost predicate AssignedWhereDeclared(os: seq<VariableOccurrence>, v: Variable) {
    forall i :: 0 <= i < |os| && os[i] == VariableOccurrence(v, Declaration) ==>
      i + 1 < |os| && os[i + 1] == VariableOccurrence(v, Assignment)
  }

  /** Every declaration of `v` in `s` has a value or is assigned from outside. */
  predicate DeclaresAssigned(s: Ast, v: Variable) {
    match s
    case Seq(a, c) => DeclaresAssigned(a, v) && DeclaresAssigned(c, v)
    case VariableDeclaration(w, x, t, i) =>
      (w == v ==> x || i.Some?) && DeclaresAssigned(t, v) && (i.Some? ==> DeclaresAssigned(i.value, v))
    case VariableDeclarationStatement(d, _, i) => DeclaresAssigned(d, v) && (i.Some? ==> DeclaresAssigned(i.value, v))
    case If(c, t, f) => DeclaresAssigned(c, v) && DeclaresAssigned(t, v) && (f.Some? ==> DeclaresAssigned(f.value, v))
    case While(c, body) => DeclaresAssigned(c, v) && DeclaresAssigned(body, v)
    case DoWhile(body, c) => DeclaresAssigned(body, v) && DeclaresAssigned(c, v)
    case For(i, c, post, body) =>
      DeclaresAssigned(i, v) && DeclaresAssigned(c, v) && DeclaresAssigned(post, v) && DeclaresAssigned(body, v)
    case Return(e, _) => e.Some? ==> DeclaresAssigned(e.value, v)
    case RevertCall(c) => DeclaresAssigned(c, v)
    case RequireCall(c) => DeclaresAssigned(c, v)
    case InternalCall(c, _) => DeclaresAssigned(c, v)
    case _ => true
  }

  ghost function AssignedAtOnce(v: Variable): Trace -> bool {
    (t: Trace) => AssignedWhereDeclared(OccurrencesOf(t), v)
  }

  lemma AssignedAtOnceIsClosed(v: Variable)
    ensures Closed(AssignedAtOnce(v))
  {
    var p := AssignedAtOnce(v);
    forall t, u | p(t) && p(u) ensures p(t + u) {
      OccurrencesOfBoth(t, u);
      var os, us := OccurrencesOf(t), OccurrencesOf(u);
      forall i | 0 <= i < |os + us| && (os + us)[i] == VariableOccurrence(v, Declaration)
        ensures i + 1 < |os + us| && (os + us)[i + 1] == VariableOccurrence(v, Assignment)
      {
        if i >= |os| {
          assert us[i - |os|] == VariableOccurrence(v, Declaration);
        } else {
          assert os[i] == VariableOccurrence(v, Declaration);
        }
      }
    }
  }

  lemma OccurrencesOfFew(a: Event, c: Event)
    ensures OccurrencesOf([a]) == if a.Occurs? then [a.occurrence] else []
    ensures OccurrencesOf([a, c]) == (if a.Occurs? then [a.occurrence] else []) + if c.Occurs? then [c.occurrence]
            else []
  {
    assert [a][1..] == [] && [a, c][1..] == [c] && [c][1..] == [];
    assert OccurrencesOf([c]) == (if c.Occurs? then [c.occurrence] else []) + OccurrencesOf([]);
  }

  lemma OccurrencesOfAssignments(vs: seq<Variable>)
    ensures var os := OccurrencesOf(AssignAll(vs));
            |os| == |vs| && forall i :: 0 <= i < |os| ==> os[i] == VariableOccurrence(vs[i], Assignment)
  {
    var os := seq(|vs|, i requires 0 <= i < |vs| => VariableOccurrence(vs[i], Assignment));
    assert AssignAll(vs) == OccurrenceEvents(os);
    OccurrencesOfEvents(os);
  }

  lemma OccurrencesOfReads(ps: seq<ReturnParameter>)
    ensures var os := OccurrencesOf(ReadAll(ps));
            |os| == |ps| && forall i :: 0 <= i < |os| ==> os[i] == VariableOccurrence(ps[i].variable, Kind.Return)
  {
    var os := seq(|ps|, i requires 0 <= i < |ps| => VariableOccurrence(ps[i].variable, Kind.Return));
    assert ReadAll(ps) == OccurrenceEvents(os);
    OccurrencesOfEvents(os);
  }

  /** The occurrences of the single steps. */
  lemma OccurrencesOfStep(w: Variable, x: bool, callee: Option<FunctionId>)
    ensures OccurrencesOf([Occurs(VariableOccurrence(w, if x then Assignment else Access))])
         == [VariableOccurrence(w, if x then Assignment else Access)]
    ensures OccurrencesOf([Occurs(VariableOccurrence(w, Declaration))]
                          + if x then [Occurs(VariableOccurrence(w, Assignment))] else [])
         == [VariableOccurrence(w, Declaration)] + if x then [VariableOccurrence(w, Assignment)] else []
    ensures OccurrencesOf(if callee.Some? then [Calls(callee.value)] else []) == []
  {
    var first, next := Occurs(VariableOccurrence(w, Declaration)), Occurs(VariableOccurrence(w, Assignment));
    OccurrencesOfFew(first, next);
    assert [first] + [next] == [first, next] && [first] + [] == [first];
    OccurrencesOfFew(Occurs(VariableOccurrence(w, if x then Assignment else Access)), next);
    OccurrencesOfFew(Calls(if callee.Some? then callee.value else 0), next);
  }

  lemma StepAssigns(v: Variable, w: Variable, x: bool, vs: seq<Variable>, callee: Option<FunctionId>)
    ensures AssignedAtOnce(v)([Occurs(VariableOccurrence(w, if x then Assignment else Access))])
    ensures (w == v ==> x) ==>
              AssignedAtOnce(v)([Occurs(VariableOccurrence(w, Declaration))]
                                + if x then [Occurs(VariableOccurrence(w, Assignment))] else [])
    ensures AssignedAtOnce(v)(AssignAll(vs))
    ensures AssignedAtOnce(v)(if callee.Some? then [Calls(callee.value)] else [])
  {
    OccurrencesOfStep(w, x, callee);
    OccurrencesOfAssignments(vs);
    hide OccurrencesOf;
  }

  lemma StepDoesNotAssign(v: Variable, w: Variable, x: bool, vs: seq<Variable>, callee: Option<FunctionId>)
    ensures (w == v ==> !x) ==> NotAssigning(v)([Occurs(VariableOccurrence(w, if x then Assignment else Access))])
    ensures (w == v ==> !x) ==>
              NotAssigning(v)([Occurs(VariableOccurrence(w, Declaration))]
                              + if x then [Occurs(VariableOccurrence(w, Assignment))] else [])
    ensures v !in vs ==> NotAssigning(v)(AssignAll(vs))
    ensures NotAssigning(v)(if callee.Some? then [Calls(callee.value)] else [])
  {
    OccurrencesOfStep(w, x, callee);
    OccurrencesOfAssignments(vs);
    hide OccurrencesOf;
  }

  lemma {:induction false} StepsAssign(s: Ast, v: Variable)
    requires DeclaresAssigned(s, v)
    ensures Steps(s, AssignedAtOnce(v))
  {
    hide AssignedAtOnce;
    match s
    case Seq(a, c) =>
      StepsAssign(a, v);
      StepsAssign(c, v);
    case Identifier(w, x) => StepAssigns(v, w, x, [], None);
    case VariableDeclaration(w, x, t, i) =>
      StepAssigns(v, w, i.Some? || x, [], None);
      StepsAssign(t, v);
      if i.Some? {
        StepsAssign(i.value, v);
      }
    case VariableDeclarationStatement(d, vs, i) =>
      StepAssigns(v, 0, false, vs, None);
      StepsAssign(d, v);
      if i.Some? {
        StepsAssign(i.value, v);
      }
    case If(c, t, f) =>
      StepsAssign(c, v);
      StepsAssign(t, v);
      if f.Some? {
        StepsAssign(f.value, v);
      }
    case While(c, body) =>
      StepsAssign(c, v);
      StepsAssign(body, v);
    case DoWhile(body, c) =>
      StepsAssign(body, v);
      StepsAssign(c, v);
    case For(i, c, post, body) =>
      StepsAssign(i, v);
      StepsAssign(c, v);
      StepsAssign(post, v);
      StepsAssign(body, v);
    case Return(e, ps) =>
      StepAssigns(v, 0, false, ps, None);
      if e.Some? {
        StepsAssign(e.value, v);
      }
    case RevertCall(c) => StepsAssign(c, v);
    case RequireCall(c) => StepsAssign(c, v);
    case InternalCall(c, f) =>
      StepAssigns(v, 0, false, [], f);
      StepsAssign(c, v);
    case _ =>
  }

  /**
   * A variable all of whose declarations are assigned at once, as those of
   * parameters are, is never found unassigned.
   */
  lemma AssignedIsNotFound(d: Pruner.Declarations, item: Item, f: FunctionDefinition, s: set<Item>, v: Variable)
    requires DeclaresAssigned(f.parameters, v) && DeclaresAssigned(f.body, v)
    requires forall i :: 0 <= i < |f.returnParameters| ==> DeclaresAssigned(f.returnParameters[i].declaration, v)
    ensures !MayReturnUnassigned(d, item, f, s, v)
  {
    var p := AssignedAtOnce(v);
    AssignedAtOnceIsClosed(v);
    StepsAssign(f.parameters, v);
    StepsAssign(f.body, v);
    forall i | 0 <= i < |f.returnParameters| ensures Steps(f.returnParameters[i].declaration, p) {
      StepsAssign(f.returnParameters[i].declaration, v);
    }
    OccurrencesOfReads(f.returnParameters);
    assert p(ReadAll(f.returnParameters));
    hide Closed, CanReturn, CallsOnly, Steps, OccurrencesOf;
    forall t | CanReturn(f, t) ensures !LeavesUnassigned(t, v) {
      ReturningAll(f, p, t);
      AssignedIsNotLeft(OccurrencesOf(t), v);
    }
  }

  lemma AssignedIsNotLeft(os: seq<VariableOccurrence>, v: Variable)
    requires AssignedWhereDeclared(os, v)
    ensures !Analyzer.LeftUnassigned(os, v)
  {
    forall i | 0 <= i < |os| && os[i] == VariableOccurrence(v, Declaration)
      ensures !Analyzer.NotAssigned(os[i + 1..], v)
    {
      assert os[i + 1..][0] == os[i + 1];
    }
  }

  lemma DeclaredIsLeft(os: seq<VariableOccurrence>, v: Variable)
    requires VariableOccurrence(v, Declaration) in os && Analyzer.NotAssigned(os, v)
    ensures Analyzer.LeftUnassigned(os, v)
  {
    var i :| 0 <= i < |os| && os[i] == VariableOccurrence(v, Declaration);
    var rest := os[i + 1..];
    assert forall j :: 0 <= j < |rest| ==> rest[j] == os[i + 1 + j];
  }

  // ---------------------------------------------- variables that are never assigned

  /** Nothing in `s` assigns `v`. */
  predicate NeverAssigns(s: Ast, v: Variable) {
    match s
    case Seq(a, c) => NeverAssigns(a, v) && NeverAssigns(c, v)
    case Identifier(w, x) => !(w == v && x)
    case VariableDeclaration(w, x, t, i) =>
      (w == v ==> !x && i.None?) && NeverAssigns(t, v) && (i.Some? ==> NeverAssigns(i.value, v))
    case VariableDeclarationStatement(d, vs, i) =>
      NeverAssigns(d, v) && (i.Some? ==> v !in vs && NeverAssigns(i.value, v))
    case If(c, t, f) => NeverAssigns(c, v) && NeverAssigns(t, v) && (f.Some? ==> NeverAssigns(f.value, v))
    case While(c, body) => NeverAssigns(c, v) && NeverAssigns(body, v)
    case DoWhile(body, c) => NeverAssigns(body, v) && NeverAssigns(c, v)
    case For(i, c, post, body) =>
      NeverAssigns(i, v) && NeverAssigns(c, v) && NeverAssigns(post, v) && NeverAssigns(body, v)
    case Return(e, ps) => e.Some? ==> v !in ps && NeverAssigns(e.value, v)
    case RevertCall(c) => NeverAssigns(c, v)
    case RequireCall(c) => NeverAssigns(c, v)
    case InternalCall(c, _) => NeverAssigns(c, v)
    case _ => true
  }

  ghost function NotAssigning(v: Variable): Trace -> bool {
    (t: Trace) => Analyzer.NotAssigned(OccurrencesOf(t), v)
  }

  lemma NotAssigningIsClosed(v: Variable)
    ensures Closed(NotAssigning(v))
  {
    var p := NotAssigning(v);
    forall t, u | p(t) && p(u) ensures p(t + u) {
      OccurrencesOfBoth(t, u);
      Analyzer.NotAssignedAppend(OccurrencesOf(t), OccurrencesOf(u), v);
    }
  }

  lemma {:induction false} StepsDontAssign(s: Ast, v: Variable)
    requires NeverAssigns(s, v)
    ensures Steps(s, NotAssigning(v))
  {
    hide NotAssigning;
    match s
    case Seq(a, c) =>
      StepsDontAssign(a, v);
      StepsDontAssign(c, v);
    case Identifier(w, x) => StepDoesNotAssign(v, w, x, [], None);
    case VariableDeclaration(w, x, t, i) =>
      StepDoesNotAssign(v, w, i.Some? || x, [], None);
      StepsDontAssign(t, v);
      if i.Some? {
        StepsDontAssign(i.value, v);
      }
    case VariableDeclarationStatement(d, vs, i) =>
      StepDoesNotAssign(v, 0, false, vs, None);
      StepsDontAssign(d, v);
      if i.Some? {
        StepsDontAssign(i.value, v);
      }
    case If(c, t, f) =>
      StepsDontAssign(c, v);
      StepsDontAssign(t, v);
      if f.Some? {
        StepsDontAssign(f.value, v);
      }
    case While(c, body) =>
      StepsDontAssign(c, v);
      StepsDontAssign(body, v);
    case DoWhile(body, c) =>
      StepsDontAssign(body, v);
      StepsDontAssign(c, v);
    case For(i, c, post, body) =>
      StepsDontAssign(i, v);
      StepsDontAssign(c, v);
      StepsDontAssign(post, v);
      StepsDontAssign(body, v);
    case Return(e, ps) =>
      StepDoesNotAssign(v, 0, false, ps, None);
      if e.Some? {
        StepsDontAssign(e.value, v);
      }
    case RevertCall(c) => StepsDontAssign(c, v);
    case RequireCall(c) => StepsDontAssign(c, v);
    case InternalCall(c, f) =>
      StepDoesNotAssign(v, 0, false, [], f);
      StepsDontAssign(c, v);
    case _ =>
  }

  /** Declarations and names only, as in parameter lists. */
  predicate Simple(s: Ast) {
    match s
    case Skip => true
    case Identifier(_, _) => true
    case Seq(a, c) => Simple(a) && Simple(c)
    case VariableDeclaration(_, _, t, i) => i.None? && Simple(t)
    case _ => false
  }

  lemma {:induction false} SimpleEnds(s: Ast, t: Trace, o: Outcome)
    requires Simple(s) && Executions(s)(t, o)
    ensures o == Normal
  {
    hide Then;
    match s
    case Seq(a, c) =>
      var stopped, i := ThenElim(Executions(a), Executions(c), t, o);
      if stopped {
        SimpleEnds(a, t, o);
      } else {
        SimpleEnds(c, t[i..], o);
      }
    case VariableDeclaration(v, x, ty, i) =>
      DeclarationsComeFirst(v, x, ty, i, t, o);
      var rest := if x then t[2..] else t[1..];
      var stopped, j := ThenElim(Executions(ty), Emit([]), rest, o);
      if stopped {
        SimpleEnds(ty, rest, o);
      }
    case _ =>
  }

  /** Once the return parameters are declared, each of them has been. */
  lemma {:induction false} ReturnsAreDeclared(ps: seq<ReturnParameter>, k: nat, t: Trace, o: Outcome)
    requires k < |ps| && DeclareReturns(ps)(t, o)
    requires forall i :: 0 <= i < |ps| ==> Simple(ps[i].declaration)
    requires ps[k].declaration.VariableDeclaration?
    ensures o == Normal && VariableOccurrence(ps[k].declaration.variable, Declaration) in OccurrencesOf(t)
    decreases |ps|
  {
    hide Executions, Then;
    var n := |ps| - 1;
    var front, last := DeclareReturns(ps[..n]), Executions(ps[n].declaration);
    var stopped, i := ThenElim(front, last, t, o);
    assert t == t[..i] + t[i..];
    OccurrencesOfBoth(t[..i], t[i..]);
    if stopped {
      ReturnsEnd(ps[..n], t, o);
    } else {
      SimpleEnds(ps[n].declaration, t[i..], o);
      if k < n {
        ReturnsAreDeclared(ps[..n], k, t[..i], Normal);
      } else {
        var s := ps[n].declaration;
        DeclarationsComeFirst(s.variable, s.externallyAssigned, s.typeName, s.initializer, t[i..], o);
      }
    }
  }

  lemma {:induction false} ReturnsEnd(ps: seq<ReturnParameter>, t: Trace, o: Outcome)
    requires DeclareReturns(ps)(t, o) && forall i :: 0 <= i < |ps| ==> Simple(ps[i].declaration)
    ensures o == Normal
    decreases |ps|
  {
    hide Executions, Then;
    if ps != [] {
      var n := |ps| - 1;
      var stopped, i := ThenElim(DeclareReturns(ps[..n]), Executions(ps[n].declaration), t, o);
      if stopped {
        ReturnsEnd(ps[..n], t, o);
      } else {
        SimpleEnds(ps[n].declaration, t[i..], o);
      }
    }
  }

  /** A return parameter that is never assigned is found, if the function can return at all. */
  lemma UnassignedReturnIsFound(d: Pruner.Declarations, item: Item, f: FunctionDefinition, s: set<Item>, k: nat)
    requires k < |f.returnParameters| && f.returnParameters[k].declaration.VariableDeclaration?
    requires Simple(f.parameters)
    requires forall i :: 0 <= i < |f.returnParameters| ==> Simple(f.returnParameters[i].declaration)
    requires var v := f.returnParameters[k].declaration.variable;
             && NeverAssigns(f.parameters, v) && NeverAssigns(f.body, v)
             && forall i :: 0 <= i < |f.returnParameters| ==> NeverAssigns(f.returnParameters[i].declaration, v)
    requires ReturnsWith(d, item, f, s)
    ensures MayReturnUnassigned(d, item, f, s, f.returnParameters[k].declaration.variable)
  {
    var v, p := f.returnParameters[k].declaration.variable, NotAssigning(f.returnParameters[k].declaration.variable);
    NotAssigningIsClosed(v);
    StepsDontAssign(f.parameters, v);
    StepsDontAssign(f.body, v);
    forall i | 0 <= i < |f.returnParameters| ensures Steps(f.returnParameters[i].declaration, p) {
      StepsDontAssign(f.returnParameters[i].declaration, v);
    }
    OccurrencesOfReads(f.returnParameters);
    assert p(ReadAll(f.returnParameters));
    hide Closed, CallsOnly, Steps, Simple, NeverAssigns, CanReturn, OccurrencesOf;
    var t :| CanReturn(f, t) && CallsOnly(d, item, t, s);
    ReturningAll(f, p, t);
    ReturnIsDeclared(f, k, t);
    DeclaredIsLeft(OccurrencesOf(t), v);
  }

  lemma OccursInPart(t: Trace, i: nat, x: VariableOccurrence)
    requires i <= |t| && (x in OccurrencesOf(t[..i]) || x in OccurrencesOf(t[i..]))
    ensures x in OccurrencesOf(t)
  {
    assert t == t[..i] + t[i..];
    OccurrencesOfBoth(t[..i], t[i..]);
    hide OccurrencesOf;
  }

  lemma DeclaredBeforeBody(f: FunctionDefinition, k: nat, t: Trace, o: Outcome)
    requires k < |f.returnParameters| && f.returnParameters[k].declaration.VariableDeclaration?
    requires Then(Executions(f.parameters), DeclareReturns(f.returnParameters))(t, o) && Simple(f.parameters)
    requires forall i :: 0 <= i < |f.returnParameters| ==> Simple(f.returnParameters[i].declaration)
    ensures o == Normal
    ensures VariableOccurrence(f.returnParameters[k].declaration.variable, Declaration) in OccurrencesOf(t)
  {
    hide Executions, Then, DeclareReturns, Simple, OccurrencesOf;
    var early, j := ThenElim(Executions(f.parameters), DeclareReturns(f.returnParameters), t, o);
    if early {
      SimpleEnds(f.parameters, t, o);
    } else {
      ReturnsAreDeclared(f.returnParameters, k, t[j..], o);
      OccursInPart(t, j, VariableOccurrence(f.returnParameters[k].declaration.variable, Declaration));
    }
  }

  lemma ReturnIsDeclared(f: FunctionDefinition, k: nat, t: Trace)
    requires k < |f.returnParameters| && f.returnParameters[k].declaration.VariableDeclaration? && CanReturn(f, t)
    requires Simple(f.parameters)
    requires forall i :: 0 <= i < |f.returnParameters| ==> Simple(f.returnParameters[i].declaration)
    ensures VariableOccurrence(f.returnParameters[k].declaration.variable, Declaration) in OccurrencesOf(t)
  {
    hide Executions, Then, DeclareReturns, Simple, OccurrencesOf;
    var n :| 0 <= n <= |t| && t[n..] == ReadAll(f.returnParameters)
             && (BodyExecutions(f)(t[..n], Normal) || BodyExecutions(f)(t[..n], Returned));
    var o := if BodyExecutions(f)(t[..n], Normal) then Normal else Returned;
    var before := Then(Executions(f.parameters), DeclareReturns(f.returnParameters));
    var stopped, i := ThenElim(before, Executions(f.body), t[..n], o);
    hide CanReturn, BodyExecutions;
    var declared := VariableOccurrence(f.returnParameters[k].declaration.variable, Declaration);
    if stopped {
      DeclaredBeforeBody(f, k, t[..n], o);
    } else {
      DeclaredBeforeBody(f, k, t[..n][..i], Normal);
      OccursInPart(t[..n], i, declared);
    }
    OccursInPart(t, n, declared);
  }
}
