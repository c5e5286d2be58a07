/**
 * The constant evaluator: it remembers the value of every expression and
 * constant it has evaluated, and gives up at a recursion depth of 32.
 */
module ConstantEvaluator {
  import opened Util
  import opened Rationals
  import opened ConstantArithmetic

  type ExpressionId = nat
  type VariableId = nat

  type Width = w: nat | w >= 1 witness 1

  datatype Type = RationalNumber(value: Rational) | Integer(bits: Width, signed: bool) | OtherType(name: string)

  datatype TypedRational = TypedRational(type_: Type, value: Rational)

  /** Expressions are nodes: two with the same shape differ in their identity. */
  datatype Expression =
    | Literal(id: ExpressionId, literalType: Option<Type>)
    | Identifier(id: ExpressionId, constant: Option<VariableId>)
    | UnaryOperation(id: ExpressionId, op: Token, sub: Expression)
    | BinaryOperation(id: ExpressionId, op: Token, left: Expression, right: Expression)
    | TupleExpression(id: ExpressionId, isInlineArray: bool, components: seq<Expression>)
    | OtherExpression(id: ExpressionId, children: seq<Expression>)

  datatype Variable = Variable(value: Option<Expression>, type_: Option<Type>)

  /** The program, and the operator typing rules of its types. */
  datatype Program = Program(
    variables: map<VariableId, Variable>,
    nodes: map<ExpressionId, Expression>,
    unaryOperatorResult: (Token, Type) -> Option<Type>,
    binaryOperatorResult: (Token, Type, Type) -> Option<Type>)

  datatype Fatal = CyclicConstant | ArithmeticError | IncompatibleTypes

  datatype Outcome = Value(value: Option<TypedRational>) | Failure(fatal: Fatal)

  // ------------------------------------------------------------- conversions

  function MinValue(t: Type): int
    requires t.Integer?
  {
    var half: int := Power2(t.bits - 1);
    if t.signed then -half else 0
  }

  function MaxValue(t: Type): int
    requires t.Integer?
  {
    if t.signed then Power2(t.bits - 1) - 1 else Power2(t.bits) - 1
  }

  function ConvertType(value: Rational, t: Type): Option<TypedRational> {
    match t
    case RationalNumber(_) => Some(TypedRational(RationalNumber(value), value))
    case Integer(_, _) =>
      if Numerator(value) > MaxValue(t) * Denominator(value) || Numerator(value) < MinValue(t) * Denominator(value) then
        None
      else Some(TypedRational(t, FromInt(Quot(Numerator(value), Denominator(value)))))
    case OtherType(_) => None
  }

  function ConvertOption(value: Option<TypedRational>, t: Type): Option<TypedRational> {
    if value.Some? then ConvertType(value.value.value, t) else None
  }

  function ConstantToTypedValue(t: Type): Option<TypedRational> {
    if t.RationalNumber? then Some(TypedRational(t, t.value)) else None
  }

  /** A value of an integer type is a whole number in its range. */
  predicate InRange(v: TypedRational) {
    v.type_.Integer? ==> Denominator(v.value) == 1 && MinValue(v.type_) <= Numerator(v.value) <= MaxValue(v.type_)
  }

  lemma ConversionsInRange(value: Rational, t: Type)
    requires ConvertType(value, t).Some?
    ensures InRange(ConvertType(value, t).value)
  {
    if t.Integer? {
      QuotientInRange(Numerator(value), Denominator(value), MinValue(t), MaxValue(t));
    }
  }

  lemma QuotientInRange(n: int, d: nat, min: int, max: int)
    requires d > 0 && min * d <= n <= max * d && min <= 0 <= max
    ensures min <= Quot(n, d) <= max
  {
    if n >= 0 {
      QuotientBelow(n, d, max);
    } else {
      assert -(min * d) == -min * d;
      QuotientBelow(-n, d, -min);
    }
  }

  lemma QuotientBelow(n: nat, d: nat, max: nat)
    requires d > 0 && n <= max * d
    ensures n / d <= max
  {
    var q := n / d;
    assert n == q * d + n % d;
    if q > max {
      Multiply(max + 1, q, d, d);
      Distribute(max, 1, d);
    }
  }

  /** The numbers of an integer type, in two's complement if it is signed. */
  predicate IsInteger(k: int, t: Type)
    requires t.Integer?
  {
    var half: int := Power2(t.bits - 1);
    if t.signed then -half <= k < half else 0 <= k < Power2(t.bits)
  }

  /** A whole number in the range of an integer type, and no other, converts to itself. */
  lemma WholeNumberConverts(k: int, bits: Width, signed: bool)
    ensures var t := Integer(bits, signed);
            ConvertType(FromInt(k), t) == if IsInteger(k, t) then Some(TypedRational(t, FromInt(k))) else None
  {
    hide Power2;
    QuotByOne(k);
  }

  lemma QuotByOne(k: int)
    ensures Quot(k, 1) == k
  {
  }

  /** A fraction converts to an integer type by dropping its fractional part, to a rational type unchanged. */
  lemma FractionConverts(value: Rational, t: Type)
    ensures t.RationalNumber? ==> ConvertType(value, t) == Some(TypedRational(RationalNumber(value), value))
    ensures t.Integer? && ConvertType(value, t).Some? ==>
              var n, d, q := Numerator(value), Denominator(value), ConvertType(value, t).value.value;
              && ConvertType(value, t).value.type_ == t && Denominator(q) == 1
              && Abs(Numerator(q)) * d <= Abs(n) < (Abs(Numerator(q)) + 1) * d
              && (Numerator(q) > 0 ==> n > 0) && (Numerator(q) < 0 ==> n < 0)
    ensures t.Integer? ==>
              var half: int := Power2(t.bits - 1);
              var least, greatest := if t.signed then -half else 0, if t.signed then half - 1 else Power2(t.bits) - 1;
              ConvertType(value, t).Some? <==>
                least * Denominator(value) <= Numerator(value) <= greatest * Denominator(value)
    ensures t.OtherType? ==> ConvertType(value, t) == None
  {
    if t.Integer? {
      QuotTruncates(Numerator(value), Denominator(value));
    }
  }

  lemma QuotTruncates(n: int, d: nat)
    requires d > 0
    ensures var q := Quot(n, d);
            && Abs(q) * d <= Abs(n) < (Abs(q) + 1) * d && (q > 0 ==> n > 0) && (q < 0 ==> n < 0)
  {
    var a: int := Abs(n) / d;
    QuotientBounds(Abs(n), d);
    assert Quot(n, d) == if n >= 0 then a else -a;
    if n == 0 {
      SmallMultiple(a, d);
    }
  }

  lemma QuotientBounds(n: nat, d: nat)
    requires d > 0
    ensures n / d * d <= n < (n / d + 1) * d
  {
    var a := n / d;
    assert n == a * d + n % d;
    Distribute(a, -1, d);
  }

  // -------------------------------------------------- evaluation without memory

  function UnaryResult(p: Program, op: Token, sub: Option<TypedRational>): Outcome {
    if sub.None? then Value(None) else
      var resultType := p.unaryOperatorResult(op, sub.value.type_);
      if resultType.None? then Value(None) else
        var value := ConvertType(sub.value.value, resultType.value);
        if value.None? then Value(None) else
          var result := EvaluateUnaryOperator(op, value.value.value);
          if result.None? then Value(None) else
            var converted := ConvertType(result.value, resultType.value);
            if converted.None? then Failure(ArithmeticError) else Value(converted)
  }

  function BinaryResult(p: Program, op: Token, left: Option<TypedRational>, right: Option<TypedRational>): Outcome {
    if left.None? || right.None? || op.Comparison? then Value(None) else
      var resultType := p.binaryOperatorResult(op, left.value.type_, right.value.type_);
      if resultType.None? then Failure(IncompatibleTypes) else
        var l, r := ConvertType(left.value.value, resultType.value), ConvertType(right.value.value, resultType.value);
        if l.None? || r.None? then Value(None) else
          var result := EvaluateBinaryOperator(op, l.value.value, r.value.value);
          if result.None? then Value(None) else
            var converted := ConvertType(result.value, resultType.value);
            if converted.None? then Failure(ArithmeticError) else Value(converted)
  }

  function Size(e: Expression): nat
  {
    match e
    case Literal(_, _) => 1
    case Identifier(_, _) => 1
    case UnaryOperation(_, _, sub) => 1 + Size(sub)
    case BinaryOperation(_, _, left, right) => 1 + Size(left) + Size(right)
    case TupleExpression(_, _, components) => 1 + SizeOfAll(components)
    case OtherExpression(_, children) => 1 + SizeOfAll(children)
  }

  function SizeOfAll(es: seq<Expression>): nat {
    if es == [] then 0 else 1 + Size(es[0]) + SizeOfAll(es[1..])
  }

  /** `fuel` is the number of constants that may still be entered. */
  function Eval(p: Program, e: Expression, fuel: nat): Outcome
    decreases fuel, Size(e), 1
  {
    match e
    case Literal(_, literalType) => Value(if literalType.Some? then ConstantToTypedValue(literalType.value) else None)
    case Identifier(_, constant) => if constant.Some? then EvalVariable(p, constant.value, fuel) else Value(None)
    case UnaryOperation(_, op, sub) =>
      var s := Eval(p, sub, fuel);
      if s.Failure? then s else UnaryResult(p, op, s.value)
    case BinaryOperation(_, op, left, right) =>
      var l := Eval(p, left, fuel);
      if l.Failure? then l else
        var r := Eval(p, right, fuel);
        if r.Failure? then r else BinaryResult(p, op, l.value, r.value)
    case TupleExpression(_, isInlineArray, components) =>
      var all := EvalAll(p, components, fuel);
      if all.Failure? || isInlineArray || |components| != 1 then all else Eval(p, components[0], fuel)
    case OtherExpression(_, children) => EvalAll(p, children, fuel)
  }

  /** Evaluates expressions whose values are not used. */
  function EvalAll(p: Program, es: seq<Expression>, fuel: nat): (o: Outcome)
    ensures o == Value(None) || o.Failure?
    decreases fuel, SizeOfAll(es), 0
  {
    if es == [] then Value(None) else
      var first := Eval(p, es[0], fuel);
      if first.Failure? then first else EvalAll(p, es[1..], fuel)
  }

  function EvalVariable(p: Program, v: VariableId, fuel: nat): Outcome
    decreases fuel, 0, 0
  {
    if v !in p.variables || p.variables[v].value.None? || p.variables[v].type_.None? then Value(None)
    else if fuel == 0 then Failure(CyclicConstant)
    else
      var value := Eval(p, p.variables[v].value.value, fuel - 1);
      if value.Failure? then value else Value(ConvertOption(value.value, p.variables[v].type_.value))
  }

  /** With more fuel, what had a value keeps it. */
  lemma {:induction false} MoreFuel(p: Program, e: Expression, fuel: nat, more: nat)
    requires fuel <= more && Eval(p, e, fuel).Value?
    ensures Eval(p, e, more) == Eval(p, e, fuel)
    decreases fuel, Size(e), 1
  {
    hide UnaryResult, BinaryResult;
    match e
    case Literal(_, _) =>
    case Identifier(_, constant) =>
      if constant.Some? {
        MoreFuelVariable(p, constant.value, fuel, more);
      }
    case UnaryOperation(_, _, sub) => MoreFuel(p, sub, fuel, more);
    case BinaryOperation(_, _, left, right) =>
      MoreFuel(p, left, fuel, more);
      MoreFuel(p, right, fuel, more);
    case TupleExpression(_, isInlineArray, components) =>
      MoreFuelAll(p, components, fuel, more);
      if !isInlineArray && |components| == 1 {
        MoreFuel(p, components[0], fuel, more);
      }
    case OtherExpression(_, children) => MoreFuelAll(p, children, fuel, more);
  }

  lemma {:induction false} MoreFuelAll(p: Program, es: seq<Expression>, fuel: nat, more: nat)
    requires fuel <= more && EvalAll(p, es, fuel).Value?
    ensures EvalAll(p, es, more) == EvalAll(p, es, fuel)
    decreases fuel, SizeOfAll(es), 0
  {
    hide Eval;
    if es != [] {
      MoreFuel(p, es[0], fuel, more);
      MoreFuelAll(p, es[1..], fuel, more);
    }
  }

  lemma {:induction false} MoreFuelVariable(p: Program, v: VariableId, fuel: nat, more: nat)
    requires fuel <= more && EvalVariable(p, v, fuel).Value?
    ensures EvalVariable(p, v, more) == EvalVariable(p, v, fuel)
    decreases fuel, 0, 0
  {
    hide Eval;
    if fuel > 0 && v in p.variables && p.variables[v].value.Some? {
      if Eval(p, p.variables[v].value.value, fuel - 1).Value? {
        MoreFuel(p, p.variables[v].value.value, fuel - 1, more - 1);
      }
    }
  }

  /** With more fuel, an error that is not for lack of fuel stays the same. */
  lemma {:induction false} FailureStays(p: Program, e: Expression, fuel: nat, more: nat)
    requires fuel <= more && Eval(p, e, fuel).Failure? && Eval(p, e, fuel) != Failure(CyclicConstant)
    ensures Eval(p, e, more) == Eval(p, e, fuel)
    decreases fuel, Size(e), 1
  {
    hide UnaryResult, BinaryResult;
    match e
    case Literal(_, _) =>
    case Identifier(_, constant) => FailureStaysVariable(p, constant.value, fuel, more);
    case UnaryOperation(_, _, sub) => OutcomeStays(p, sub, fuel, more);
    case BinaryOperation(_, _, left, right) =>
      OutcomeStays(p, left, fuel, more);
      if Eval(p, left, fuel).Value? {
        OutcomeStays(p, right, fuel, more);
      }
    case TupleExpression(_, _, components) => FailureStaysAll(p, components, fuel, more);
    case OtherExpression(_, children) => FailureStaysAll(p, children, fuel, more);
  }

  /** Only the lack of fuel can be helped by more. */
  lemma {:induction false} OutcomeStays(p: Program, e: Expression, fuel: nat, more: nat)
    requires fuel <= more && Eval(p, e, fuel) != Failure(CyclicConstant)
    ensures Eval(p, e, more) == Eval(p, e, fuel)
    decreases fuel, Size(e), 2
  {
    if Eval(p, e, fuel).Value? {
      MoreFuel(p, e, fuel, more);
    } else {
      FailureStays(p, e, fuel, more);
    }
  }

  lemma {:induction false} FailureStaysAll(p: Program, es: seq<Expression>, fuel: nat, more: nat)
    requires fuel <= more && EvalAll(p, es, fuel).Failure? && EvalAll(p, es, fuel) != Failure(CyclicConstant)
    ensures EvalAll(p, es, more) == EvalAll(p, es, fuel)
    decreases fuel, SizeOfAll(es), 0
  {
    hide Eval;
    OutcomeStays(p, es[0], fuel, more);
    if Eval(p, es[0], fuel).Value? {
      FailureStaysAll(p, es[1..], fuel, more);
    }
  }

  lemma {:induction false} FailureStaysVariable(p: Program, v: VariableId, fuel: nat, more: nat)
    requires fuel <= more && EvalVariable(p, v, fuel).Failure? && EvalVariable(p, v, fuel) != Failure(CyclicConstant)
    ensures EvalVariable(p, v, more) == EvalVariable(p, v, fuel)
    decreases fuel, 0, 0
  {
    hide Eval;
    FailureStays(p, p.variables[v].value.value, fuel - 1, more - 1);
  }

  /** Evaluation without memory and with enough fuel gives `v`. */
  ghost predicate Means(p: Program, e: Expression, v: Option<TypedRational>) {
    exists fuel :: Eval(p, e, fuel) == Value(v)
  }

  ghost predicate VariableMeans(p: Program, variable: VariableId, v: Option<TypedRational>) {
    exists fuel :: EvalVariable(p, variable, fuel) == Value(v)
  }

  /** Expressions have at most one value, and lack it only for want of fuel. */
  lemma MeaningIsUnique(p: Program, e: Expression, v: Option<TypedRational>, fuel: nat)
    requires Means(p, e, v)
    ensures Eval(p, e, fuel) == Value(v) || Eval(p, e, fuel) == Failure(CyclicConstant)
    ensures forall w :: Means(p, e, w) ==> w == v
  {
    hide Eval;
    var enough :| Eval(p, e, enough) == Value(v);
    forall other: nat
      ensures Eval(p, e, other) == Value(v) || Eval(p, e, other) == Failure(CyclicConstant)
    {
      if other > enough {
        MoreFuel(p, e, enough, other);
      } else if Eval(p, e, other) != Failure(CyclicConstant) {
        OutcomeStays(p, e, other, enough);
      }
    }
  }

  // -------------------------------------------------------------- the program

  /** The node table knows `e` and everything below it by their identities. */
  ghost predicate Registered(p: Program, e: Expression)
    decreases e
  {
    && e.id in p.nodes && p.nodes[e.id] == e
    && (match e
        case Literal(_, _) => true
        case Identifier(_, _) => true
        case UnaryOperation(_, _, sub) => Registered(p, sub)
        case BinaryOperation(_, _, left, right) => Registered(p, left) && Registered(p, right)
        case TupleExpression(_, _, components) => forall i :: 0 <= i < |components| ==> Registered(p, components[i])
        case OtherExpression(_, children) => forall i :: 0 <= i < |children| ==> Registered(p, children[i]))
  }

  ghost predicate WellFormed(p: Program) {
    forall v :: v in p.variables && p.variables[v].value.Some? ==> Registered(p, p.variables[v].value.value)
  }

  // ----------------------------------------------------- evaluation with memory

  const MAX_DEPTH: nat := 32

  /** What has been evaluated so far. */
  datatype Memory = Memory(
    values: map<ExpressionId, Option<TypedRational>>,
    variables: map<VariableId, Option<TypedRational>>)
  {
    predicate Within(later: Memory) {
      values.Keys <= later.values.Keys && variables.Keys <= later.variables.Keys
    }

    function Store(id: ExpressionId, value: Option<TypedRational>): Memory {
      this.(values := values[id := value])
    }

    function StoreVariable(v: VariableId, value: Option<TypedRational>): Memory {
      this.(variables := variables[v := value])
    }
  }

  const NO_MEMORY := Memory(map[], map[])

  /** The memory after an evaluation, or the fatal error that ended it. */
  datatype Remembering = Done(memory: Memory) | Stopped(fatal: Fatal)

  /** Only an operation that has a value is remembered. */
  function Record(id: ExpressionId, m: Memory, o: Outcome): Remembering {
    if o.Failure? then Stopped(o.fatal)
    else if o.value.None? then Done(m)
    else Done(m.Store(id, o.value))
  }

  /** Evaluates an expression that is not remembered. */
  function Remember(p: Program, e: Expression, depth: nat, m: Memory): (r: Remembering)
    requires depth <= MAX_DEPTH
    ensures r.Done? ==> m.Within(r.memory) && e.id in r.memory.values
    decreases MAX_DEPTH - depth, Size(e), 3
  {
    if e.id in m.values then Done(m) else
      var r := RememberVisit(p, e, depth, m);
      if r.Stopped? || e.id in r.memory.values then r else Done(r.memory.Store(e.id, None))
  }

  /** Visits the operands of an expression, then the expression itself, remembered or not. */
  function RememberVisit(p: Program, e: Expression, depth: nat, m: Memory): (r: Remembering)
    requires depth <= MAX_DEPTH
    ensures r.Done? ==> m.Within(r.memory)
    decreases MAX_DEPTH - depth, Size(e), 2
  {
    var operands := match e
      case Literal(_, _) => Done(m)
      case Identifier(_, _) => Done(m)
      case UnaryOperation(_, _, sub) => RememberVisit(p, sub, depth, m)
      case BinaryOperation(_, _, left, right) =>
        var l := RememberVisit(p, left, depth, m);
        if l.Stopped? then l else RememberVisit(p, right, depth, l.memory)
      case TupleExpression(_, _, components) => RememberAll(p, components, depth, m)
      case OtherExpression(_, children) => RememberAll(p, children, depth, m);
    if operands.Stopped? then operands else RememberEnd(p, e, depth, operands.memory)
  }

  /** The end of a visit: the operands are evaluated, which as a rule finds them in memory. */
  function RememberEnd(p: Program, e: Expression, depth: nat, m: Memory): (r: Remembering)
    requires depth <= MAX_DEPTH
    ensures r.Done? ==> m.Within(r.memory)
    decreases MAX_DEPTH - depth, Size(e), 1
  {
    match e
    case Literal(id, literalType) =>
      Done(if literalType.Some? then m.Store(id, ConstantToTypedValue(literalType.value)) else m)
    case Identifier(id, constant) =>
      if constant.None? then Done(m) else
        var r := RememberVariable(p, constant.value, depth, m);
        if r.Stopped? then r else Done(r.memory.Store(id, r.memory.variables[constant.value]))
    case UnaryOperation(id, op, sub) =>
      var r := Remember(p, sub, depth, m);
      if r.Stopped? then r else Record(id, r.memory, UnaryResult(p, op, r.memory.values[sub.id]))
    case BinaryOperation(id, op, left, right) =>
      var l := Remember(p, left, depth, m);
      if l.Stopped? then l else
        var r := Remember(p, right, depth, l.memory);
        if r.Stopped? then r
        else Record(id, r.memory, BinaryResult(p, op, l.memory.values[left.id], r.memory.values[right.id]))
    case TupleExpression(id, isInlineArray, components) =>
      if isInlineArray || |components| != 1 then Done(m) else
        SizeOfOne(components, 0);
        var r := Remember(p, components[0], depth, m);
        if r.Stopped? then r else Done(r.memory.Store(id, r.memory.values[components[0].id]))
    case OtherExpression(_, _) => Done(m)
  }

  function RememberAll(p: Program, es: seq<Expression>, depth: nat, m: Memory): (r: Remembering)
    requires depth <= MAX_DEPTH
    ensures r.Done? ==> m.Within(r.memory)
    decreases MAX_DEPTH - depth, SizeOfAll(es), 0
  {
    if es == [] then Done(m) else
      var first := RememberVisit(p, es[0], depth, m);
      if first.Stopped? then first else RememberAll(p, es[1..], depth, first.memory)
  }

  function RememberVariable(p: Program, v: VariableId, depth: nat, m: Memory): (r: Remembering)
    requires depth <= MAX_DEPTH
    ensures r.Done? ==> m.Within(r.memory) && v in r.memory.variables
    decreases MAX_DEPTH - depth, 0, 0
  {
    if v in m.variables then Done(m)
    else if v !in p.variables || p.variables[v].value.None? || p.variables[v].type_.None? then
      Done(m.StoreVariable(v, None))
    else if depth == MAX_DEPTH then Stopped(CyclicConstant)
    else
      var initial := p.variables[v].value.value;
      var r := Remember(p, initial, depth + 1, m);
      if r.Stopped? then r
      else Done(r.memory.StoreVariable(v, ConvertOption(r.memory.values[initial.id], p.variables[v].type_.value)))
  }

  /** Everything remembered is what evaluation without memory gives. */
  ghost predicate MemoryIsRight(p: Program, m: Memory) {
    && (forall id :: id in m.values ==>
          id in p.nodes && Means(p, p.nodes[id], m.values[id]) && OptionInRange(m.values[id]))
    && (forall v :: v in m.variables ==> VariableMeans(p, v, m.variables[v]) && OptionInRange(m.variables[v]))
  }

  predicate OptionInRange(v: Option<TypedRational>) {
    v.Some? ==> InRange(v.value)
  }

  /** Evaluation without memory fails in the same way, or runs out of depth. */
  predicate FailsAs(o: Outcome, fatal: Fatal) {
    o == Failure(fatal) || o == Failure(CyclicConstant)
  }

  // What the value of an expression is made of.

  lemma LiteralMeans(p: Program, e: Expression)
    requires e.Literal?
    ensures Means(p, e, if e.literalType.Some? then ConstantToTypedValue(e.literalType.value) else None)
  {
    assert Eval(p, e, 0) == Value(if e.literalType.Some? then ConstantToTypedValue(e.literalType.value) else None);
  }

  lemma IdentifierMeans(p: Program, e: Expression, v: Option<TypedRational>)
    requires e.Identifier?
    requires if e.constant.Some? then VariableMeans(p, e.constant.value, v) else v == None
    ensures Means(p, e, v)
  {
    hide EvalVariable;
    if e.constant.Some? {
      var fuel: nat :| EvalVariable(p, e.constant.value, fuel) == Value(v);
      assert Eval(p, e, fuel) == Value(v);
    } else {
      assert Eval(p, e, 0) == Value(v);
    }
  }

  lemma UnaryMeans(p: Program, e: Expression, sub: Option<TypedRational>, fuel: nat)
    requires e.UnaryOperation? && Means(p, e.sub, sub)
    ensures UnaryResult(p, e.op, sub).Value? ==> Means(p, e, UnaryResult(p, e.op, sub).value)
    ensures UnaryResult(p, e.op, sub).Failure? ==> FailsAs(Eval(p, e, fuel), UnaryResult(p, e.op, sub).fatal)
  {
    hide UnaryResult;
    MeaningIsUnique(p, e.sub, sub, fuel);
    var f: nat :| Eval(p, e.sub, f) == Value(sub);
    assert Eval(p, e, f) == UnaryResult(p, e.op, sub);
  }

  lemma EvalBinary(p: Program, e: Expression, fuel: nat)
    requires e.BinaryOperation?
    ensures Eval(p, e, fuel) == (if Eval(p, e.left, fuel).Failure? then Eval(p, e.left, fuel)
                                 else if Eval(p, e.right, fuel).Failure? then Eval(p, e.right, fuel)
                                 else BinaryResult(p, e.op, Eval(p, e.left, fuel).value, Eval(p, e.right, fuel).value))
  {
    hide BinaryResult;
  }

  lemma BinaryMeans(p: Program, e: Expression, left: Option<TypedRational>, right: Option<TypedRational>, fuel: nat)
    requires e.BinaryOperation? && Means(p, e.left, left) && Means(p, e.right, right)
    ensures BinaryResult(p, e.op, left, right).Value? ==> Means(p, e, BinaryResult(p, e.op, left, right).value)
    ensures BinaryResult(p, e.op, left, right).Failure? ==>
              FailsAs(Eval(p, e, fuel), BinaryResult(p, e.op, left, right).fatal)
  {
    hide BinaryResult, Eval;
    EvalBinary(p, e, fuel);
    MeaningIsUnique(p, e.left, left, fuel);
    MeaningIsUnique(p, e.right, right, fuel);
    var f: nat :| Eval(p, e.left, f) == Value(left);
    var g: nat :| Eval(p, e.right, g) == Value(right);
    MoreFuel(p, e.left, f, f + g);
    MoreFuel(p, e.right, g, f + g);
    EvalBinary(p, e, f + g);
  }

  /** All of `es` have a value. */
  ghost predicate AllMean(p: Program, es: seq<Expression>) {
    forall i :: 0 <= i < |es| ==> HasValue(p, es[i])
  }

  ghost predicate HasValue(p: Program, e: Expression) {
    exists v :: Means(p, e, v)
  }

  lemma {:induction false} AllEvaluate(p: Program, es: seq<Expression>) returns (fuel: nat)
    requires AllMean(p, es)
    ensures EvalAll(p, es, fuel) == Value(None)
  {
    hide Eval;
    if es == [] {
      fuel := 0;
    } else {
      assert HasValue(p, es[0]);
      var v :| Means(p, es[0], v);
      var f: nat :| Eval(p, es[0], f) == Value(v);
      var g := AllEvaluate(p, es[1..]);
      fuel := f + g;
      MoreFuel(p, es[0], f, fuel);
      MoreFuelAll(p, es[1..], g, fuel);
    }
  }

  lemma OtherMeans(p: Program, e: Expression)
    requires e.OtherExpression? && AllMean(p, e.children)
    ensures Means(p, e, None)
  {
    var fuel := AllEvaluate(p, e.children);
    assert Eval(p, e, fuel) == Value(None);
  }

  lemma TupleMeans(p: Program, e: Expression, v: Option<TypedRational>)
    requires e.TupleExpression? && AllMean(p, e.components)
    requires if !e.isInlineArray && |e.components| == 1 then Means(p, e.components[0], v) else v == None
    ensures Means(p, e, v)
  {
    var fuel := AllEvaluate(p, e.components);
    if !e.isInlineArray && |e.components| == 1 {
      var f: nat :| Eval(p, e.components[0], f) == Value(v);
      MoreFuel(p, e.components[0], f, fuel + f);
      MoreFuelAll(p, e.components, fuel, fuel + f);
      assert Eval(p, e, fuel + f) == Value(v);
    } else {
      assert Eval(p, e, fuel) == Value(v);
    }
  }

  lemma VariableHasMeaning(p: Program, v: VariableId, value: Option<TypedRational>)
    requires v in p.variables && p.variables[v].value.Some? && p.variables[v].type_.Some?
    requires Means(p, p.variables[v].value.value, value)
    ensures VariableMeans(p, v, ConvertOption(value, p.variables[v].type_.value))
  {
    hide Eval;
    var f: nat :| Eval(p, p.variables[v].value.value, f) == Value(value);
    assert EvalVariable(p, v, f + 1) == Value(ConvertOption(value, p.variables[v].type_.value));
  }

  /**
   * What a binary operation has for value when its result type is rational: the
   * operator's result on the values of the operands, in their order.
   */
  lemma OperationMeans(p: Program, e: Expression, left: TypedRational, right: TypedRational, t: Type, value: Rational)
    requires e.BinaryOperation? && !e.op.Comparison? && Means(p, e.left, Some(left)) && Means(p, e.right, Some(right))
    requires p.binaryOperatorResult(e.op, left.type_, right.type_) == Some(t) && t.RationalNumber?
    requires EvaluateBinaryOperator(e.op, left.value, right.value) == Some(value)
    ensures Means(p, e, Some(TypedRational(RationalNumber(value), value)))
  {
    hide Means, EvaluateBinaryOperator;
    BinaryMeans(p, e, Some(left), Some(right), 0);
  }

  /** And a unary one. */
  lemma UnaryOperationMeans(p: Program, e: Expression, sub: TypedRational, t: Type, value: Rational)
    requires e.UnaryOperation? && Means(p, e.sub, Some(sub))
    requires p.unaryOperatorResult(e.op, sub.type_) == Some(t) && t.RationalNumber?
    requires EvaluateUnaryOperator(e.op, sub.value) == Some(value)
    ensures Means(p, e, Some(TypedRational(RationalNumber(value), value)))
  {
    hide Means, EvaluateUnaryOperator;
    UnaryMeans(p, e, Some(sub), 0);
  }

  /** The same for an integer result type: whole operands in range, and a result in range or an arithmetic error. */
  lemma IntegerOperationMeans(p: Program, e: Expression, left: TypedRational, right: TypedRational, t: Type,
                              x: int, y: int, z: int, fuel: nat)
    requires e.BinaryOperation? && !e.op.Comparison? && Means(p, e.left, Some(left)) && Means(p, e.right, Some(right))
    requires p.binaryOperatorResult(e.op, left.type_, right.type_) == Some(t) && t.Integer?
    requires left.value == FromInt(x) && right.value == FromInt(y) && IsInteger(x, t) && IsInteger(y, t)
    requires EvaluateBinaryOperator(e.op, FromInt(x), FromInt(y)) == Some(FromInt(z))
    ensures IsInteger(z, t) ==> Means(p, e, Some(TypedRational(t, FromInt(z))))
    ensures !IsInteger(z, t) ==> FailsAs(Eval(p, e, fuel), ArithmeticError)
  {
    WholeNumberConverts(x, t.bits, t.signed);
    WholeNumberConverts(y, t.bits, t.signed);
    WholeNumberConverts(z, t.bits, t.signed);
    hide Means, EvaluateBinaryOperator, ConvertType, Eval;
    BinaryMeans(p, e, Some(left), Some(right), fuel);
  }

  /** For example a difference: the value of the right operand is taken from that of the left one. */
  lemma DifferenceMeans(p: Program, e: Expression, left: TypedRational, right: TypedRational, t: Type)
      returns (value: Rational)
    requires e.BinaryOperation? && e.op == Token.Sub && Means(p, e.left, Some(left)) && Means(p, e.right, Some(right))
    requires p.binaryOperatorResult(e.op, left.type_, right.type_) == Some(t) && t.RationalNumber?
    ensures Means(p, e, Some(TypedRational(RationalNumber(value), value)))
    ensures var n, d, m, c := Numerator(left.value), Denominator(left.value), Numerator(right.value),
              Denominator(right.value);
            d * c != 0 && Equals(value, n * c - m * d, d * c)
  {
    hide Means, EvaluateBinaryOperator;
    SumsAndProductsAreExact(left.value, right.value);
    value := EvaluateBinaryOperator(Token.Sub, left.value, right.value).value;
    OperationMeans(p, e, left, right, t, value);
  }

  /**
   * A constant of integer type has the value of its expression if that is in
   * range, and none if it is another whole number.
   */
  lemma IntegerConstantMeans(p: Program, e: Expression, v: VariableId, t: Type, from: Type, k: int)
    requires e.Identifier? && e.constant == Some(v) && v in p.variables && t.Integer?
    requires p.variables[v].type_ == Some(t) && p.variables[v].value.Some?
    requires Means(p, p.variables[v].value.value, Some(TypedRational(from, FromInt(k))))
    ensures Means(p, e, if IsInteger(k, t) then Some(TypedRational(t, FromInt(k))) else None)
  {
    WholeNumberConverts(k, t.bits, t.signed);
    hide ConvertType, IsInteger;
    var value, number := p.variables[v].value.value, TypedRational(from, FromInt(k));
    var fuel: nat :| Eval(p, value, fuel) == Value(Some(number));
    hide Eval;
    assert EvalVariable(p, v, fuel + 1) == Value(ConvertType(FromInt(k), t));
    IdentifierMeans(p, e, ConvertType(FromInt(k), t));
  }

  // What is remembered is right, and so are the errors.

  /** The memory is right after a visit, which stores the value of `e` if it has one. */
  ghost predicate VisitedRight(p: Program, e: Expression, depth: nat, r: Remembering)
    requires depth <= MAX_DEPTH
  {
    if r.Done? then MemoryIsRight(p, r.memory) && (e.id !in r.memory.values ==> Means(p, e, None))
    else FailsAs(Eval(p, e, MAX_DEPTH - depth), r.fatal)
  }

  lemma {:induction false} RememberIsRight(p: Program, e: Expression, depth: nat, m: Memory)
    requires depth <= MAX_DEPTH && WellFormed(p) && Registered(p, e) && MemoryIsRight(p, m)
    ensures var r := Remember(p, e, depth, m);
            if r.Done? then
              MemoryIsRight(p, r.memory) && Means(p, e, r.memory.values[e.id]) && OptionInRange(r.memory.values[e.id])
            else
              FailsAs(Eval(p, e, MAX_DEPTH - depth), r.fatal)
    decreases MAX_DEPTH - depth, Size(e), 3
  {
    hide Means, VariableMeans, Eval, OptionInRange, FailsAs, RememberVisit, WellFormed;
    if e.id !in m.values {
      VisitIsRight(p, e, depth, m);
      NoneInRange();
    }
  }

  lemma NoneInRange()
    ensures OptionInRange(None)
  {
  }

  lemma {:induction false} VisitIsRight(p: Program, e: Expression, depth: nat, m: Memory)
    requires depth <= MAX_DEPTH && WellFormed(p) && Registered(p, e) && MemoryIsRight(p, m)
    ensures VisitedRight(p, e, depth, RememberVisit(p, e, depth, m))
    decreases MAX_DEPTH - depth, Size(e), 2
  {
    hide Means, VariableMeans, OptionInRange, RememberEnd, WellFormed, MemoryIsRight, UnaryResult, BinaryResult;
    match e
    case Literal(_, _) => EndIsRight(p, e, depth, m);
    case Identifier(_, _) => EndIsRight(p, e, depth, m);
    case UnaryOperation(_, _, sub) =>
      VisitIsRight(p, sub, depth, m);
      var r := RememberVisit(p, sub, depth, m);
      if r.Done? {
        EndIsRight(p, e, depth, r.memory);
      }
    case BinaryOperation(_, _, left, right) =>
      VisitIsRight(p, left, depth, m);
      var l := RememberVisit(p, left, depth, m);
      if l.Done? {
        VisitedHasValue(p, left, depth, l);
        VisitIsRight(p, right, depth, l.memory);
        var r := RememberVisit(p, right, depth, l.memory);
        if r.Done? {
          EndIsRight(p, e, depth, r.memory);
        }
      }
    case TupleExpression(_, _, components) =>
      AllAreRight(p, components, depth, m);
      var r := RememberAll(p, components, depth, m);
      if r.Done? {
        EndIsRight(p, e, depth, r.memory);
      }
    case OtherExpression(_, children) =>
      AllAreRight(p, children, depth, m);
      var r := RememberAll(p, children, depth, m);
      if r.Done? {
        EndIsRight(p, e, depth, r.memory);
      }
  }

  /** What has been visited has a value, so evaluation without memory can only run out of depth. */
  lemma VisitedHasValue(p: Program, e: Expression, depth: nat, r: Remembering)
    requires depth <= MAX_DEPTH && Registered(p, e) && r.Done? && VisitedRight(p, e, depth, r)
    ensures HasValue(p, e)
    ensures Eval(p, e, MAX_DEPTH - depth).Value? || Eval(p, e, MAX_DEPTH - depth) == Failure(CyclicConstant)
  {
    hide Means, VariableMeans, Eval;
    assert p.nodes[e.id] == e;
    var v := if e.id in r.memory.values then r.memory.values[e.id] else None;
    assert Means(p, e, v);
    MeaningIsUnique(p, e, v, MAX_DEPTH - depth);
  }

  lemma StoreIsRight(p: Program, e: Expression, m: Memory, v: Option<TypedRational>)
    requires MemoryIsRight(p, m) && Registered(p, e) && Means(p, e, v) && OptionInRange(v)
    ensures MemoryIsRight(p, m.Store(e.id, v))
  {
    hide Means, VariableMeans, OptionInRange;
    assert p.nodes[e.id] == e;
  }

  lemma RecordIsRight(p: Program, e: Expression, depth: nat, m: Memory, o: Outcome)
    requires depth <= MAX_DEPTH && MemoryIsRight(p, m) && Registered(p, e)
    requires if o.Value? then Means(p, e, o.value) && OptionInRange(o.value)
             else FailsAs(Eval(p, e, MAX_DEPTH - depth), o.fatal)
    ensures VisitedRight(p, e, depth, Record(e.id, m, o))
  {
    hide Means, OptionInRange, FailsAs, Eval, MemoryIsRight;
    if o.Value? && o.value.Some? {
      StoreIsRight(p, e, m, o.value);
    }
  }

  lemma {:induction false} EndIsRight(p: Program, e: Expression, depth: nat, m: Memory)
    requires depth <= MAX_DEPTH && WellFormed(p) && Registered(p, e) && MemoryIsRight(p, m)
    requires e.TupleExpression? ==> AllMean(p, e.components)
    requires e.OtherExpression? ==> AllMean(p, e.children)
    ensures VisitedRight(p, e, depth, RememberEnd(p, e, depth, m))
    decreases MAX_DEPTH - depth, Size(e), 1
  {
    hide Means, VariableMeans, Eval, OptionInRange, WellFormed, MemoryIsRight;
    match e
    case Literal(_, literalType) =>
      LiteralMeans(p, e);
      if literalType.Some? {
        LiteralInRange(e);
        StoreIsRight(p, e, m, ConstantToTypedValue(literalType.value));
      }
    case Identifier(_, _) => EndIdentifierIsRight(p, e, depth, m);
    case UnaryOperation(_, _, _) => EndUnaryIsRight(p, e, depth, m);
    case BinaryOperation(_, _, _, _) => EndBinaryIsRight(p, e, depth, m);
    case TupleExpression(_, _, _) => EndTupleIsRight(p, e, depth, m);
    case OtherExpression(_, _) => OtherMeans(p, e);
  }

  lemma {:induction false} EndIdentifierIsRight(p: Program, e: Expression, depth: nat, m: Memory)
    requires depth <= MAX_DEPTH && WellFormed(p) && Registered(p, e) && MemoryIsRight(p, m) && e.Identifier?
    ensures VisitedRight(p, e, depth, RememberEnd(p, e, depth, m))
    decreases MAX_DEPTH - depth, Size(e), 0
  {
    hide Means, VariableMeans, OptionInRange, WellFormed, MemoryIsRight, EvalVariable, RememberVariable;
    if e.constant.Some? {
      VariableIsRight(p, e.constant.value, depth, m);
      var r := RememberVariable(p, e.constant.value, depth, m);
      if r.Done? {
        IdentifierMeans(p, e, r.memory.variables[e.constant.value]);
        StoreIsRight(p, e, r.memory, r.memory.variables[e.constant.value]);
      }
    } else {
      IdentifierMeans(p, e, None);
    }
  }

  lemma {:induction false} EndUnaryIsRight(p: Program, e: Expression, depth: nat, m: Memory)
    requires depth <= MAX_DEPTH && WellFormed(p) && Registered(p, e) && MemoryIsRight(p, m) && e.UnaryOperation?
    ensures VisitedRight(p, e, depth, RememberEnd(p, e, depth, m))
    decreases MAX_DEPTH - depth, Size(e), 0
  {
    hide Means, VariableMeans, OptionInRange, WellFormed, MemoryIsRight, UnaryResult, Remember, Record;
    RememberIsRight(p, e.sub, depth, m);
    var r := Remember(p, e.sub, depth, m);
    if r.Done? {
      var v := r.memory.values[e.sub.id];
      UnaryMeans(p, e, v, MAX_DEPTH - depth);
      UnaryInRange(p, e.op, v);
      RecordIsRight(p, e, depth, r.memory, UnaryResult(p, e.op, v));
    }
  }

  lemma {:induction false} EndBinaryIsRight(p: Program, e: Expression, depth: nat, m: Memory)
    requires depth <= MAX_DEPTH && WellFormed(p) && Registered(p, e) && MemoryIsRight(p, m) && e.BinaryOperation?
    ensures VisitedRight(p, e, depth, RememberEnd(p, e, depth, m))
    decreases MAX_DEPTH - depth, Size(e), 0
  {
    hide Means, VariableMeans, OptionInRange, WellFormed, MemoryIsRight, BinaryResult, Remember, Record, Eval;
    EvalBinary(p, e, MAX_DEPTH - depth);
    RememberIsRight(p, e.left, depth, m);
    var l := Remember(p, e.left, depth, m);
    if l.Done? {
      MeaningIsUnique(p, e.left, l.memory.values[e.left.id], MAX_DEPTH - depth);
      RememberIsRight(p, e.right, depth, l.memory);
      var r := Remember(p, e.right, depth, l.memory);
      if r.Done? {
        var left, right := l.memory.values[e.left.id], r.memory.values[e.right.id];
        BinaryMeans(p, e, left, right, MAX_DEPTH - depth);
        BinaryInRange(p, e.op, left, right);
        RecordIsRight(p, e, depth, r.memory, BinaryResult(p, e.op, left, right));
      }
    }
  }

  lemma {:induction false} EndTupleIsRight(p: Program, e: Expression, depth: nat, m: Memory)
    requires depth <= MAX_DEPTH && WellFormed(p) && Registered(p, e) && MemoryIsRight(p, m)
    requires e.TupleExpression? && AllMean(p, e.components)
    ensures VisitedRight(p, e, depth, RememberEnd(p, e, depth, m))
    decreases MAX_DEPTH - depth, Size(e), 0
  {
    hide Means, VariableMeans, OptionInRange, WellFormed, MemoryIsRight, Remember;
    if !e.isInlineArray && |e.components| == 1 {
      SizeOfOne(e.components, 0);
      RememberIsRight(p, e.components[0], depth, m);
      var r := Remember(p, e.components[0], depth, m);
      if r.Done? {
        TupleMeans(p, e, r.memory.values[e.components[0].id]);
        StoreIsRight(p, e, r.memory, r.memory.values[e.components[0].id]);
      } else {
        TupleFailsAs(p, e, MAX_DEPTH - depth, r.fatal);
      }
    } else {
      TupleMeans(p, e, None);
    }
  }

  lemma TupleFailsAs(p: Program, e: Expression, fuel: nat, fatal: Fatal)
    requires e.TupleExpression? && |e.components| == 1 && FailsAs(Eval(p, e.components[0], fuel), fatal)
    ensures FailsAs(Eval(p, e, fuel), fatal)
  {
    assert EvalAll(p, e.components, fuel) == Eval(p, e.components[0], fuel);
  }

  lemma {:induction false} AllAreRight(p: Program, es: seq<Expression>, depth: nat, m: Memory)
    requires depth <= MAX_DEPTH && WellFormed(p) && MemoryIsRight(p, m)
    requires forall i :: 0 <= i < |es| ==> Registered(p, es[i])
    ensures var r := RememberAll(p, es, depth, m);
            if r.Done? then MemoryIsRight(p, r.memory) && AllMean(p, es)
            else FailsAs(EvalAll(p, es, MAX_DEPTH - depth), r.fatal)
    decreases MAX_DEPTH - depth, SizeOfAll(es), 0
  {
    hide HasValue, MemoryIsRight, Eval, WellFormed, RememberVisit, Registered;
    if es != [] {
      VisitIsRight(p, es[0], depth, m);
      var first := RememberVisit(p, es[0], depth, m);
      if first.Done? {
        VisitedHasValue(p, es[0], depth, first);
        AllAreRight(p, es[1..], depth, first.memory);
        assert es == [es[0]] + es[1..];
      }
    }
  }

  lemma {:induction false} VariableIsRight(p: Program, v: VariableId, depth: nat, m: Memory)
    requires depth <= MAX_DEPTH && WellFormed(p) && MemoryIsRight(p, m)
    ensures var r := RememberVariable(p, v, depth, m);
            if r.Done? then
              MemoryIsRight(p, r.memory) && VariableMeans(p, v, r.memory.variables[v])
                  && OptionInRange(r.memory.variables[v])
            else
              FailsAs(EvalVariable(p, v, MAX_DEPTH - depth), r.fatal)
    decreases MAX_DEPTH - depth, 0, 0
  {
    hide Means, Eval, OptionInRange, Remember, Registered;
    NoneInRange();
    if v !in m.variables {
      if v !in p.variables || p.variables[v].value.None? || p.variables[v].type_.None? {
        assert EvalVariable(p, v, 0) == Value(None);
      } else if depth < MAX_DEPTH {
        var initial := p.variables[v].value.value;
        RememberIsRight(p, initial, depth + 1, m);
        var r := Remember(p, initial, depth + 1, m);
        if r.Done? {
          VariableHasMeaning(p, v, r.memory.values[initial.id]);
          ConversionOfOptionInRange(r.memory.values[initial.id], p.variables[v].type_.value);
        }
      }
    }
  }

  /**
   * Memory changes nothing but the depth at which evaluation gives up: wherever
   * evaluation without memory does not, the outcome is the same.
   */
  lemma SameOutcome(p: Program, e: Expression, depth: nat, m: Memory)
    requires depth <= MAX_DEPTH && WellFormed(p) && Registered(p, e) && MemoryIsRight(p, m)
    requires Eval(p, e, MAX_DEPTH - depth) != Failure(CyclicConstant)
    ensures var r := Remember(p, e, depth, m);
            Eval(p, e, MAX_DEPTH - depth) == if r.Done? then Value(r.memory.values[e.id]) else Failure(r.fatal)
  {
    hide Means, Eval, OptionInRange, WellFormed, MemoryIsRight, Remember;
    RememberIsRight(p, e, depth, m);
    var r := Remember(p, e, depth, m);
    if r.Done? {
      MeaningIsUnique(p, e, r.memory.values[e.id], MAX_DEPTH - depth);
    }
  }

  lemma SameOutcomeOfVariable(p: Program, v: VariableId, depth: nat, m: Memory)
    requires depth <= MAX_DEPTH && WellFormed(p) && MemoryIsRight(p, m)
    requires EvalVariable(p, v, MAX_DEPTH - depth) != Failure(CyclicConstant)
    ensures var r := RememberVariable(p, v, depth, m);
            EvalVariable(p, v, MAX_DEPTH - depth) == if r.Done? then Value(r.memory.variables[v]) else Failure(r.fatal)
  {
    hide EvalVariable, OptionInRange, WellFormed, MemoryIsRight, RememberVariable;
    VariableIsRight(p, v, depth, m);
    var r, fuel := RememberVariable(p, v, depth, m), MAX_DEPTH - depth;
    if r.Done? {
      var enough: nat :| EvalVariable(p, v, enough) == Value(r.memory.variables[v]);
      if enough <= fuel {
        MoreFuelVariable(p, v, enough, fuel);
      } else if EvalVariable(p, v, fuel).Value? {
        MoreFuelVariable(p, v, fuel, enough);
      } else {
        FailureStaysVariable(p, v, fuel, enough);
      }
    }
  }

  // Memory does change that depth, so that the order of operands can matter.

  const RATIONAL := RationalNumber(FromInt(0))
  const LAST: VariableId := 32

  /** The value of each constant is the next one; the last is a literal. */
  function ChainValue(v: VariableId): Expression {
    if v < LAST then Identifier(v, Some(v + 1)) else Literal(v, Some(RATIONAL))
  }

  function SumOf(a: VariableId, b: VariableId, id: ExpressionId): Expression {
    BinaryOperation(id, Add, Identifier(id + 1, Some(a)), Identifier(id + 2, Some(b)))
  }

  /** A chain of 33 constants, the sum of the third and the first one, and that of the first and the third. */
  function ChainProgram(): Program {
    var third, first := SumOf(2, 0, 40), SumOf(0, 2, 50);
    Program(
      map v: VariableId | v <= LAST :: Variable(Some(ChainValue(v)), Some(RATIONAL)),
      (map v: VariableId | v <= LAST :: ChainValue(v))
        + map[40 := third, 41 := third.left, 42 := third.right, 50 := first, 51 := first.left, 52 := first.right],
      (_, _) => Some(RATIONAL),
      (_, _, _) => Some(RATIONAL))
  }

  lemma VisitOfIdentifier(p: Program, e: Expression, depth: nat, m: Memory)
    requires depth <= MAX_DEPTH && e.Identifier? && e.constant.Some?
    ensures var r := RememberVariable(p, e.constant.value, depth, m);
            RememberVisit(p, e, depth, m)
              == if r.Stopped? then r else Done(r.memory.Store(e.id, r.memory.variables[e.constant.value]))
  {
    hide RememberVariable;
    assert RememberVisit(p, e, depth, m) == RememberEnd(p, e, depth, m);
  }

  lemma VariableInChain(v: VariableId)
    requires v <= LAST
    ensures var p := ChainProgram();
            v in p.variables && p.variables[v] == Variable(Some(ChainValue(v)), Some(RATIONAL))
  {
  }

  /** Entering a constant of the chain that is not remembered leads to the next one. */
  lemma ChainStep(k: VariableId, depth: nat, m: Memory)
    requires k < LAST && depth < MAX_DEPTH && k !in m.variables && k !in m.values
    ensures var p := ChainProgram();
            var r, next := RememberVariable(p, k, depth, m), RememberVariable(p, k + 1, depth + 1, m);
            if next.Done? then r.Done? else r == next
  {
    hide ChainProgram, RememberVisit;
    var p := ChainProgram();
    VariableInChain(k);
    VisitOfIdentifier(p, ChainValue(k), depth + 1, m);
    hide RememberVariable;
    var next := RememberVariable(p, k + 1, depth + 1, m);
    RememberVariableUnfolds(p, k, depth, m);
  }

  lemma RememberVariableUnfolds(p: Program, v: VariableId, depth: nat, m: Memory)
    requires depth < MAX_DEPTH && v !in m.variables
    requires v in p.variables && p.variables[v].value.Some? && p.variables[v].type_.Some?
    ensures var r := Remember(p, p.variables[v].value.value, depth + 1, m);
            if r.Done? then RememberVariable(p, v, depth, m).Done? else RememberVariable(p, v, depth, m) == r
  {
    hide Remember;
  }

  lemma ChainEnds(k: VariableId, depth: nat, m: Memory)
    requires k <= LAST && depth < MAX_DEPTH && (k == LAST || k in m.variables || k in m.values)
    ensures RememberVariable(ChainProgram(), k, depth, m).Done?
  {
    hide ChainProgram, RememberVisit;
    if k !in m.variables {
      VariableInChain(k);
      RememberVariableUnfolds(ChainProgram(), k, depth, m);
      if k !in m.values {
        VisitOfLiteral(ChainProgram(), ChainValue(k), depth + 1, m);
      }
    }
  }

  lemma VisitOfLiteral(p: Program, e: Expression, depth: nat, m: Memory)
    requires depth <= MAX_DEPTH && e.Literal?
    ensures RememberVisit(p, e, depth, m).Done?
  {
    assert RememberVisit(p, e, depth, m) == RememberEnd(p, e, depth, m);
  }

  /** From a constant on, the chain fits into the depth up to its end, or up to a constant that is remembered. */
  lemma {:induction false} ChainFits(k: VariableId, j: VariableId, depth: nat, m: Memory)
    requires k <= j <= LAST + 1 && (j == LAST + 1 || j in m.variables) && depth + (j - k) <= MAX_DEPTH
    requires k <= LAST
    ensures RememberVariable(ChainProgram(), k, depth, m).Done?
    decreases j - k
  {
    hide ChainProgram;
    if k == j || k in m.variables {
    } else if k == LAST || k in m.values {
      ChainEnds(k, depth, m);
    } else {
      hide RememberVariable;
      ChainStep(k, depth, m);
      ChainFits(k + 1, j, depth + 1, m);
    }
  }

  /** With nothing remembered, a chain that is too long does not. */
  lemma {:induction false} ChainTooLong(k: VariableId, depth: nat)
    requires k <= LAST && depth <= MAX_DEPTH && depth + (LAST + 1 - k) > MAX_DEPTH
    ensures RememberVariable(ChainProgram(), k, depth, NO_MEMORY) == Stopped(CyclicConstant)
    decreases MAX_DEPTH - depth
  {
    hide ChainProgram;
    if depth < MAX_DEPTH {
      hide RememberVariable;
      ChainStep(k, depth, NO_MEMORY);
      ChainTooLong(k + 1, depth + 1);
    } else {
      VariableInChain(k);
    }
  }

  lemma RememberBinary(p: Program, e: Expression, m: Memory)
    requires e.BinaryOperation? && e.id !in m.values
    ensures var l := RememberVisit(p, e.left, 0, m);
            && (l.Stopped? ==> Remember(p, e, 0, m) == l)
            && (l.Done? && RememberVisit(p, e.right, 0, l.memory).Done? ==>
                  var n := RememberVisit(p, e.right, 0, l.memory).memory;
                  && (RememberEnd(p, e, 0, n).Done? ==> Remember(p, e, 0, m).Done?))
  {
    hide RememberEnd;
  }

  lemma EndOfBinary(p: Program, e: Expression, m: Memory)
    requires e.BinaryOperation? && e.left.id in m.values && e.right.id in m.values
    requires BinaryResult(p, e.op, m.values[e.left.id], m.values[e.right.id]).Value?
    ensures RememberEnd(p, e, 0, m).Done?
  {
    hide BinaryResult;
  }

  /** The sum of the third constant and the first one is accepted, the same sum the other way round is not. */
  lemma OperandOrderMatters()
    ensures var p, third, first := ChainProgram(), SumOf(2, 0, 40), SumOf(0, 2, 50);
            && WellFormed(p) && Registered(p, third) && Registered(p, first)
            && Remember(p, third, 0, NO_MEMORY).Done?
            && Remember(p, first, 0, NO_MEMORY) == Stopped(CyclicConstant)
  {
    hide RememberVariable, BinaryResult, Remember, RememberVisit, RememberEnd;
    var third, first := SumOf(2, 0, 40), SumOf(0, 2, 50);
    ChainIsWellFormed();
    hide ChainProgram, Registered, WellFormed;
    var p := ChainProgram();
    RememberBinary(p, first, NO_MEMORY);
    VisitOfIdentifier(p, first.left, 0, NO_MEMORY);
    ChainTooLong(0, 0);
    RememberBinary(p, third, NO_MEMORY);
    VisitOfIdentifier(p, third.left, 0, NO_MEMORY);
    ChainFits(2, LAST + 1, 0, NO_MEMORY);
    var l := RememberVisit(p, third.left, 0, NO_MEMORY);
    VisitOfIdentifier(p, third.right, 0, l.memory);
    ChainFits(0, 2, 0, l.memory);
    var r := RememberVisit(p, third.right, 0, l.memory);
    RationalsNeverFail(p, r.memory.values[41], r.memory.values[42]);
    EndOfBinary(p, third, r.memory);
  }

  lemma ChainIsWellFormed()
    ensures var p := ChainProgram(); WellFormed(p) && Registered(p, SumOf(2, 0, 40)) && Registered(p, SumOf(0, 2, 50))
  {
    hide ChainProgram;
    forall v | v in ChainProgram().variables && ChainProgram().variables[v].value.Some?
      ensures Registered(ChainProgram(), ChainProgram().variables[v].value.value)
    {
      ChainNodes(v);
      VariableInChain(v);
    }
    SumNodes();
  }

  lemma SumNodes()
    ensures forall e :: e in [SumOf(2, 0, 40), SumOf(0, 2, 50)] ==>
              && e.id in ChainProgram().nodes && ChainProgram().nodes[e.id] == e
              && e.left.id in ChainProgram().nodes && ChainProgram().nodes[e.left.id] == e.left
              && e.right.id in ChainProgram().nodes && ChainProgram().nodes[e.right.id] == e.right
  {
  }

  lemma ChainNodes(v: VariableId)
    requires v in ChainProgram().variables
    ensures v <= LAST && v in ChainProgram().nodes && ChainProgram().nodes[v] == ChainValue(v)
  {
  }

  lemma RationalsNeverFail(p: Program, left: Option<TypedRational>, right: Option<TypedRational>)
    requires p == ChainProgram()
    ensures BinaryResult(p, Add, left, right).Value?
  {
    hide EvaluateBinaryOperator;
  }

  // ------------------------------------------------------------ the evaluator

  class Evaluator {
    const program: Program
    var depth: nat
    var values: map<ExpressionId, Option<TypedRational>>
    var variableValues: map<VariableId, Option<TypedRational>>

    constructor (program: Program)
      requires WellFormed(program)
      ensures this.program == program && Valid() && depth == 0 && State() == NO_MEMORY
    {
      this.program := program;
      depth, values, variableValues := 0, map[], map[];
    }

    function State(): Memory
      reads this
    {
      Memory(values, variableValues)
    }

    ghost predicate Valid()
      reads this
    {
      depth <= MAX_DEPTH && WellFormed(program) && MemoryIsRight(program, State())
    }

    /** The evaluator has come to `r`; after a fatal error nothing is said about its fields. */
    ghost predicate Reached(r: Remembering, fatal: Option<Fatal>, depthBefore: nat)
      reads this
    {
      if r.Done? then fatal == None && State() == r.memory && depth == depthBefore else fatal == Some(r.fatal)
    }

    /**
     * The value that evaluation without memory gives. A fatal error is the one
     * evaluation without memory raises, unless that runs out of depth.
     */
    method Evaluate(e: Expression) returns (fatal: Option<Fatal>, value: Option<TypedRational>)
      requires depth <= MAX_DEPTH
      modifies this
      ensures Reached(Remember(program, e, old(depth), old(State())), fatal, old(depth))
      ensures fatal.None? ==> e.id in values && value == values[e.id]
      ensures old(Valid()) && Registered(program, e) && fatal.None? ==>
                Valid() && Means(program, e, value) && OptionInRange(value)
      ensures old(Valid()) && Registered(program, e) && fatal.Some? ==>
                FailsAs(Eval(program, e, MAX_DEPTH - old(depth)), fatal.value)
      ensures old(Valid()) && Registered(program, e)
              && Eval(program, e, MAX_DEPTH - old(depth)) != Failure(CyclicConstant) ==>
                Eval(program, e, MAX_DEPTH - old(depth)) == if fatal.Some? then Failure(fatal.value) else Value(value)
      decreases MAX_DEPTH - depth, Size(e), 3
    {
      hide Means, Eval, OptionInRange, RememberVisit, MemoryIsRight, FailsAs, WellFormed;
      if old(Valid()) && Registered(program, e) {
        RememberIsRight(program, e, depth, State());
        if Eval(program, e, MAX_DEPTH - depth) != Failure(CyclicConstant) {
          SameOutcome(program, e, depth, State());
        }
      }
      fatal, value := None, None;
      if e.id !in values {
        fatal := Accept(e);
        if fatal.Some? {
          return;
        }
        if e.id !in values {
          values := values[e.id := None];
        }
      }
      value := values[e.id];
    }

    method EvaluateVariable(v: VariableId) returns (fatal: Option<Fatal>, value: Option<TypedRational>)
      requires depth <= MAX_DEPTH
      modifies this
      ensures Reached(RememberVariable(program, v, old(depth), old(State())), fatal, old(depth))
      ensures fatal.None? ==> v in variableValues && value == variableValues[v]
      ensures old(Valid()) && fatal.None? ==> Valid() && VariableMeans(program, v, value) && OptionInRange(value)
      ensures old(Valid()) && fatal.Some? ==> FailsAs(EvalVariable(program, v, MAX_DEPTH - old(depth)), fatal.value)
      ensures old(Valid()) && EvalVariable(program, v, MAX_DEPTH - old(depth)) != Failure(CyclicConstant) ==>
                EvalVariable(program, v, MAX_DEPTH - old(depth))
                  == if fatal.Some? then Failure(fatal.value) else Value(value)
      decreases MAX_DEPTH - depth, 0, 0
    {
      hide Means, VariableMeans, EvalVariable, OptionInRange, Remember, MemoryIsRight, FailsAs, WellFormed;
      if old(Valid()) {
        VariableIsRight(program, v, depth, State());
        if EvalVariable(program, v, MAX_DEPTH - depth) != Failure(CyclicConstant) {
          SameOutcomeOfVariable(program, v, depth, State());
        }
      }
      fatal, value := None, None;
      if v !in variableValues {
        if v !in program.variables || program.variables[v].value.None? || program.variables[v].type_.None? {
          variableValues := variableValues[v := None];
        } else {
          depth := depth + 1;
          if depth > MAX_DEPTH {
            return Some(CyclicConstant), None;
          }
          fatal, value := Evaluate(program.variables[v].value.value);
          if fatal.Some? {
            return;
          }
          variableValues := variableValues[v := ConvertOption(value, program.variables[v].type_.value)];
          depth := depth - 1;
        }
      }
      value := variableValues[v];
    }

    /** Visits the operands of an expression, then the expression itself. */
    method Accept(e: Expression) returns (fatal: Option<Fatal>)
      requires depth <= MAX_DEPTH
      modifies this
      ensures Reached(RememberVisit(program, e, old(depth), old(State())), fatal, old(depth))
      decreases MAX_DEPTH - depth, Size(e), 2
    {
      hide RememberEnd, RememberAll;
      fatal := None;
      match e
      case Literal(_, _) => EndVisitLiteral(e);
      case Identifier(_, _) => fatal := EndVisitIdentifier(e);
      case UnaryOperation(_, _, sub) =>
        fatal := Accept(sub);
        if fatal.None? {
          fatal := EndVisitUnary(e);
        }
      case BinaryOperation(_, _, left, right) =>
        fatal := Accept(left);
        if fatal.Some? {
          return;
        }
        fatal := Accept(right);
        if fatal.Some? {
          return;
        }
        fatal := EndVisitBinary(e);
      case TupleExpression(_, _, components) =>
        fatal := AcceptAll(components);
        if fatal.None? {
          fatal := EndVisitTuple(e);
        }
      case OtherExpression(_, children) =>
        fatal := AcceptAll(children);
        if fatal.None? {
          OtherEnds(program, e, depth, State());
        }
    }

    method AcceptAll(es: seq<Expression>) returns (fatal: Option<Fatal>)
      requires depth <= MAX_DEPTH
      modifies this
      ensures Reached(RememberAll(program, es, old(depth), old(State())), fatal, old(depth))
      decreases MAX_DEPTH - depth, SizeOfAll(es), 0
    {
      hide RememberVisit;
      fatal := None;
      for i := 0 to |es|
        invariant depth == old(depth) && fatal.None?
        invariant RememberAll(program, es, depth, old(State())) == RememberAll(program, es[i..], depth, State())
      {
        SizeOfOne(es, i);
        assert es[i..][0] == es[i] && es[i..][1..] == es[i + 1..];
        fatal := Accept(es[i]);
        if fatal.Some? {
          return;
        }
      }
    }

    method EndVisitLiteral(e: Expression)
      requires depth <= MAX_DEPTH && e.Literal?
      modifies this
      ensures Reached(RememberEnd(program, e, old(depth), old(State())), None, old(depth))
    {
      if e.literalType.Some? {
        values := values[e.id := ConstantToTypedValue(e.literalType.value)];
      }
    }

    method EndVisitIdentifier(e: Expression) returns (fatal: Option<Fatal>)
      requires depth <= MAX_DEPTH && e.Identifier?
      modifies this
      ensures Reached(RememberEnd(program, e, old(depth), old(State())), fatal, old(depth))
      decreases MAX_DEPTH - depth, Size(e), 1
    {
      hide RememberVariable, Means, MemoryIsRight, WellFormed, EvalVariable;
      fatal := None;
      if e.constant.Some? {
        var value;
        fatal, value := EvaluateVariable(e.constant.value);
        if fatal.None? {
          values := values[e.id := value];
        }
      }
    }

    method EndVisitUnary(e: Expression) returns (fatal: Option<Fatal>)
      requires depth <= MAX_DEPTH && e.UnaryOperation?
      modifies this
      ensures Reached(RememberEnd(program, e, old(depth), old(State())), fatal, old(depth))
      decreases MAX_DEPTH - depth, Size(e), 1
    {
      hide Remember, EvaluateUnaryOperator, ConvertType, Means, MemoryIsRight, WellFormed, Eval;
      var value;
      fatal, value := Evaluate(e.sub);
      if fatal.Some? || value.None? {
        return;
      }
      var resultType := program.unaryOperatorResult(e.op, value.value.type_);
      if resultType.None? {
        return;
      }
      value := ConvertOption(value, resultType.value);
      if value.None? {
        return;
      }
      var result := EvaluateUnaryOperator(e.op, value.value.value);
      if result.Some? {
        var convertedValue := ConvertType(result.value, resultType.value);
        if convertedValue.None? {
          return Some(ArithmeticError);
        }
        values := values[e.id := convertedValue];
      }
    }

    method EndVisitBinary(e: Expression) returns (fatal: Option<Fatal>)
      requires depth <= MAX_DEPTH && e.BinaryOperation?
      modifies this
      ensures Reached(RememberEnd(program, e, old(depth), old(State())), fatal, old(depth))
      decreases MAX_DEPTH - depth, Size(e), 1
    {
      hide Remember, EvaluateBinaryOperator, ConvertType, Means, MemoryIsRight, WellFormed, Eval;
      var left, right;
      fatal, left := Evaluate(e.left);
      if fatal.Some? {
        return;
      }
      fatal, right := Evaluate(e.right);
      if fatal.Some? || left.None? || right.None? || e.op.Comparison? {
        return;
      }
      var resultType := program.binaryOperatorResult(e.op, left.value.type_, right.value.type_);
      if resultType.None? {
        return Some(IncompatibleTypes);
      }
      left, right := ConvertOption(left, resultType.value), ConvertOption(right, resultType.value);
      if left.None? || right.None? {
        return;
      }
      var result := EvaluateBinaryOperator(e.op, left.value.value, right.value.value);
      if result.Some? {
        var convertedValue := ConvertType(result.value, resultType.value);
        if convertedValue.None? {
          return Some(ArithmeticError);
        }
        values := values[e.id := convertedValue];
      }
    }

    method EndVisitTuple(e: Expression) returns (fatal: Option<Fatal>)
      requires depth <= MAX_DEPTH && e.TupleExpression?
      modifies this
      ensures Reached(RememberEnd(program, e, old(depth), old(State())), fatal, old(depth))
      decreases MAX_DEPTH - depth, Size(e), 1
    {
      hide Remember, Means, MemoryIsRight, WellFormed, Eval;
      fatal := None;
      if !e.isInlineArray && |e.components| == 1 {
        var value;
        SizeOfOne(e.components, 0);
        fatal, value := Evaluate(e.components[0]);
        if fatal.None? {
          values := values[e.id := value];
        }
      }
    }
  }

  /** Evaluates an expression with an evaluator of its own. */
  method EvaluateExpression(p: Program, e: Expression) returns (fatal: Option<Fatal>, value: Option<TypedRational>)
    requires WellFormed(p) && Registered(p, e)
    ensures var r := Remember(p, e, 0, NO_MEMORY);
            if r.Done? then fatal == None && value == r.memory.values[e.id] else fatal == Some(r.fatal)
    ensures fatal.None? ==> Means(p, e, value) && OptionInRange(value)
    ensures var outcome := if fatal.Some? then Failure(fatal.value) else Value(value);
            Eval(p, e, MAX_DEPTH) == outcome || Eval(p, e, MAX_DEPTH) == Failure(CyclicConstant)
  {
    hide WellFormed, Registered, Means, Eval, Remember, OptionInRange;
    var evaluator := new Evaluator(p);
    fatal, value := evaluator.Evaluate(e);
  }

  lemma OtherEnds(p: Program, e: Expression, depth: nat, m: Memory)
    requires depth <= MAX_DEPTH && e.OtherExpression?
    ensures RememberEnd(p, e, depth, m) == Done(m)
  {
  }

  lemma LiteralInRange(e: Expression)
    requires e.Literal? && e.literalType.Some?
    ensures OptionInRange(ConstantToTypedValue(e.literalType.value))
  {
  }

  lemma ConversionOfOptionInRange(value: Option<TypedRational>, t: Type)
    ensures OptionInRange(ConvertOption(value, t))
  {
    if value.Some? && ConvertType(value.value.value, t).Some? {
      ConversionsInRange(value.value.value, t);
    }
  }

  lemma UnaryInRange(p: Program, op: Token, sub: Option<TypedRational>)
    ensures UnaryResult(p, op, sub).Value? ==> OptionInRange(UnaryResult(p, op, sub).value)
  {
    hide InRange, EvaluateUnaryOperator, ConvertType;
    if sub.Some? && p.unaryOperatorResult(op, sub.value.type_).Some? {
      var t := p.unaryOperatorResult(op, sub.value.type_).value;
      forall v | ConvertType(v, t).Some? ensures InRange(ConvertType(v, t).value) {
        ConversionsInRange(v, t);
      }
    }
  }

  lemma BinaryInRange(p: Program, op: Token, left: Option<TypedRational>, right: Option<TypedRational>)
    ensures BinaryResult(p, op, left, right).Value? ==> OptionInRange(BinaryResult(p, op, left, right).value)
  {
    hide InRange, EvaluateBinaryOperator, ConvertType;
    if left.Some? && right.Some? && p.binaryOperatorResult(op, left.value.type_, right.value.type_).Some? {
      var t := p.binaryOperatorResult(op, left.value.type_, right.value.type_).value;
      forall v | ConvertType(v, t).Some? ensures InRange(ConvertType(v, t).value) {
        ConversionsInRange(v, t);
      }
    }
  }

  lemma {:induction false} SizeOfOne(es: seq<Expression>, i: nat)
    requires i < |es|
    ensures Size(es[i]) < SizeOfAll(es)
  {
    hide Size;
    if i > 0 {
      SizeOfOne(es[1..], i - 1);
    }
  }
}
