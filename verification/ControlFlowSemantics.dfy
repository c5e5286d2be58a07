/**
 * The statements and expressions the control flow builder visits, and what a
 * nondeterministic execution of them can do. Conditions are not interpreted:
 * an execution may take either side of every branch.
 */
module ControlFlowSemantics {
  import opened Util
  import opened ControlFlowGraph

  datatype Ast =
    | Skip  // a node without children, or an absent optional child
    | Seq(first: Ast, second: Ast)  // a node whose children are only walked in order
    | Identifier(variable: Variable, writtenTo: bool)
    | VariableDeclaration(variable: Variable, externallyAssigned: bool, typeName: Ast, initializer: Option<Ast>)
    | VariableDeclarationStatement(declarations: Ast, variables: seq<Variable>, initialValue: Option<Ast>)
    // also `?:`, and `&&` and `||` as branches without else
    | If(condition: Ast, whenTrue: Ast, whenFalse: Option<Ast>)
    | While(condition: Ast, body: Ast)
    | DoWhile(body: Ast, condition: Ast)
    // also for-each, whose loopExpression is Skip
    | For(initialization: Ast, condition: Ast, loopExpression: Ast, body: Ast)
    | Break
    | Continue
    | Revert  // `throw` and `revert` statements
    | Return(expression: Option<Ast>, parameters: seq<Variable>)
    | RevertCall(callee: Ast)  // the called expression followed by the arguments
    | RequireCall(callee: Ast)  // `require` and `assert`
    | InternalCall(callee: Ast, definition: Option<FunctionId>)  // also user-defined operators

  datatype ReturnParameter = ReturnParameter(variable: Variable, declaration: Ast)

  datatype FunctionDefinition = FunctionDefinition(
    parameters: Ast,
    returnParameters: seq<ReturnParameter>,
    body: Ast)

  /** `break` and `continue` occur only inside the body of a loop. */
  predicate JumpsInLoops(s: Ast, inLoop: bool) {
    match s
    case Break => inLoop
    case Continue => inLoop
    case Seq(a, c) => JumpsInLoops(a, inLoop) && JumpsInLoops(c, inLoop)
    case VariableDeclaration(_, _, t, i) => JumpsInLoops(t, inLoop) && (i.Some? ==> JumpsInLoops(i.value, inLoop))
    case VariableDeclarationStatement(d, _, i) => JumpsInLoops(d, inLoop) && (i.Some? ==> JumpsInLoops(i.value, inLoop))
    case If(c, t, f) => JumpsInLoops(c, inLoop) && JumpsInLoops(t, inLoop)
        && (f.Some? ==> JumpsInLoops(f.value, inLoop))
    case While(c, body) => JumpsInLoops(c, inLoop) && JumpsInLoops(body, true)
    case DoWhile(body, c) => JumpsInLoops(c, inLoop) && JumpsInLoops(body, true)
    case For(i, c, p, body) =>
      JumpsInLoops(i, inLoop) && JumpsInLoops(c, inLoop) && JumpsInLoops(p, inLoop) && JumpsInLoops(body, true)
    case Return(e, _) => e.Some? ==> JumpsInLoops(e.value, inLoop)
    case RevertCall(c) => JumpsInLoops(c, inLoop)
    case RequireCall(c) => JumpsInLoops(c, inLoop)
    case InternalCall(c, _) => JumpsInLoops(c, inLoop)
    case _ => true
  }

  /** The functions called in `s`. */
  function Callees(s: Ast): set<FunctionId> {
    match s
    case Seq(a, c) => Callees(a) + Callees(c)
    case VariableDeclaration(_, _, t, i) => Callees(t) + if i.Some? then Callees(i.value) else {}
    case VariableDeclarationStatement(d, _, i) => Callees(d) + if i.Some? then Callees(i.value) else {}
    case If(c, t, f) => Callees(c) + Callees(t) + if f.Some? then Callees(f.value) else {}
    case While(c, body) => Callees(c) + Callees(body)
    case DoWhile(body, c) => Callees(body) + Callees(c)
    case For(i, c, p, body) => Callees(i) + Callees(c) + Callees(p) + Callees(body)
    case Return(e, _) => if e.Some? then Callees(e.value) else {}
    case RevertCall(c) => Callees(c)
    case RequireCall(c) => Callees(c)
    case InternalCall(c, f) => Callees(c) + if f.Some? then {f.value} else {}
    case _ => {}
  }

  function CalleesOfReturns(ps: seq<ReturnParameter>): set<FunctionId> {
    if ps == [] then {} else CalleesOfReturns(ps[..|ps| - 1]) + Callees(ps[|ps| - 1].declaration)
  }

  function CalleesOf(f: FunctionDefinition): set<FunctionId> {
    Callees(f.parameters) + CalleesOfReturns(f.returnParameters) + Callees(f.body)
  }

  /** How an execution of a node ends. */
  datatype Outcome = Normal | Broke | Continued | Returned | Reverted

  /** The executions of a node: which traces can end in which outcome. */
  type Behaviour = (Trace, Outcome) -> bool

  ghost function Emit(events: Trace): Behaviour {
    (t: Trace, o: Outcome) => t == events && o == Normal
  }

  ghost function Jump(outcome: Outcome): Behaviour {
    (t: Trace, o: Outcome) => t == [] && o == outcome
  }

  ghost function Choice(a: Behaviour, c: Behaviour): Behaviour {
    (t: Trace, o: Outcome) => a(t, o) || c(t, o)
  }

  ghost predicate SplitsNormally(a: Behaviour, c: Behaviour, t: Trace, o: Outcome) {
    exists i :: 0 <= i <= |t| && a(t[..i], Normal) && c(t[i..], o)
  }

  /** `a`, then `c` if `a` ended normally. */
  ghost function Then(a: Behaviour, c: Behaviour): Behaviour {
    (t: Trace, o: Outcome) => (o != Normal && a(t, o)) || SplitsNormally(a, c, t, o)
  }

  ghost predicate SplitsInLoop(body: Behaviour, next: Behaviour, t: Trace, o: Outcome) {
    exists i :: 0 <= i <= |t| && (body(t[..i], Normal) || body(t[..i], Continued)) && next(t[i..], o)
  }

  /** A loop body, followed by `next` unless the body leaves the loop. */
  ghost function BodyThen(body: Behaviour, next: Behaviour): Behaviour {
    (t: Trace, o: Outcome) =>
      || (o == Normal && body(t, Broke))
      || ((o == Returned || o == Reverted) && body(t, o))
      || SplitsInLoop(body, next, t, o)
  }

  ghost const Nothing: Behaviour := (t: Trace, o: Outcome) => false

  /** A loop that tests first, entering its body at most `n + 1` times. */
  ghost function Iterate(n: nat, condition: Behaviour, body: Behaviour, post: Behaviour): Behaviour {
    var again := if n == 0 then Nothing else Iterate(n - 1, condition, body, post);
    Then(condition, Choice(Emit([]), BodyThen(body, Then(post, again))))
  }

  /** A loop that tests last, entering its body at most `n + 1` times. */
  ghost function IterateDo(n: nat, body: Behaviour, condition: Behaviour): Behaviour {
    var again := if n == 0 then Nothing else IterateDo(n - 1, body, condition);
    BodyThen(body, Then(condition, Choice(Emit([]), again)))
  }

  ghost predicate Iterates(condition: Behaviour, body: Behaviour, post: Behaviour, t: Trace, o: Outcome) {
    exists n: nat :: Iterate(n, condition, body, post)(t, o)
  }

  ghost predicate IteratesDo(body: Behaviour, condition: Behaviour, t: Trace, o: Outcome) {
    exists n: nat :: IterateDo(n, body, condition)(t, o)
  }

  ghost function Loop(condition: Behaviour, body: Behaviour, post: Behaviour): Behaviour {
    (t: Trace, o: Outcome) => Iterates(condition, body, post, t, o)
  }

  ghost function LoopDo(body: Behaviour, condition: Behaviour): Behaviour {
    (t: Trace, o: Outcome) => IteratesDo(body, condition, t, o)
  }

  /** All variables are assigned, in order. */
  function AssignAll(variables: seq<Variable>): Trace {
    seq(|variables|, i requires 0 <= i < |variables| => Occurs(VariableOccurrence(variables[i], Assignment)))
  }

  ghost function Executions(s: Ast): Behaviour {
    match s
    case Skip => Emit([])
    case Seq(a, c) => Then(Executions(a), Executions(c))
    case Identifier(v, w) => Emit([Occurs(VariableOccurrence(v, if w then Assignment else Access))])
    case VariableDeclaration(v, x, t, i) =>
      Then(Emit([Occurs(VariableOccurrence(v, Declaration))]
                + if i.Some? || x then [Occurs(VariableOccurrence(v, Assignment))] else []),
           Then(Executions(t), if i.Some? then Executions(i.value) else Emit([])))
    case VariableDeclarationStatement(d, vs, i) =>
      Then(Executions(d),
           if i.Some? then Then(Executions(i.value), Emit(AssignAll(vs))) else Emit([]))
    case If(c, t, f) => Then(Executions(c), Choice(Executions(t), if f.Some? then Executions(f.value) else Emit([])))
    case While(c, body) => Loop(Executions(c), Executions(body), Emit([]))
    case DoWhile(body, c) => LoopDo(Executions(body), Executions(c))
    case For(i, c, p, body) => Then(Executions(i), Loop(Executions(c), Executions(body), Executions(p)))
    case Break => Jump(Broke)
    case Continue => Jump(Continued)
    case Revert => Jump(Reverted)
    case Return(e, ps) =>
      if e.Some? then
        Then(Then(Executions(e.value), Emit(AssignAll(ps))), Jump(Returned))
      else
        Jump(Returned)
    case RevertCall(c) => Then(Executions(c), Jump(Reverted))
    case RequireCall(c) => Then(Executions(c), Choice(Jump(Reverted), Emit([])))
    case InternalCall(c, f) => Then(Executions(c), Emit(if f.Some? then [Calls(f.value)] else []))
  }

  /** Declares the return parameters in order. */
  ghost function DeclareReturns(ps: seq<ReturnParameter>): Behaviour {
    if ps == [] then Emit([]) else Then(DeclareReturns(ps[..|ps| - 1]), Executions(ps[|ps| - 1].declaration))
  }

  /** All return parameters are read, in order. */
  function ReadAll(ps: seq<ReturnParameter>): Trace {
    seq(|ps|, i requires 0 <= i < |ps| => Occurs(VariableOccurrence(ps[i].variable, Kind.Return)))
  }

  /** Everything a call of the function does before it leaves the body. */
  ghost function BodyExecutions(f: FunctionDefinition): Behaviour {
    Then(Then(Executions(f.parameters), DeclareReturns(f.returnParameters)), Executions(f.body))
  }

  /** The call can return with trace `t`: the body runs to its end or returns, and the return parameters are read. */
  ghost predicate CanReturn(f: FunctionDefinition, t: Trace) {
    exists i ::
      && 0 <= i <= |t|
      && t[i..] == ReadAll(f.returnParameters)
      && (BodyExecutions(f)(t[..i], Normal) || BodyExecutions(f)(t[..i], Returned))
  }

  ghost predicate CanRevert(f: FunctionDefinition, t: Trace) {
    BodyExecutions(f)(t, Reverted)
  }
}
