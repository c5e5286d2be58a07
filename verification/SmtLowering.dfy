/**
 * Expressions for SMT solvers: the signed arithmetic of the virtual machine in
 * terms of SMT-LIB division, and the translation to S-expressions, in which
 * conversions between integers and bit vectors are expanded.
 */
module SmtLowering {
  import opened Util
  import opened Rationals

  // ------------------------------------------------------------------- syntax

  /** Numerals stand for their decimal text. */
  datatype Symbol = Num(value: nat) | Name(text: string)

  datatype Sort =
    | IntSort(isSigned: bool)
    | BoolSort
    | BitVectorSort(size: nat)
    | ArraySort(domain: Sort, range: Sort)
    | TupleSort(name: string, members: seq<string>)
    | SortSort(inner: Sort)

  datatype Expression = Expression(name: Symbol, arguments: seq<Expression>, sort: Sort)

  datatype SExpr = Atom(symbol: Symbol) | SList(items: seq<SExpr>)

  datatype Token = Open | Close | Sym(symbol: Symbol)

  function Word(text: string): SExpr { Atom(Name(text)) }
  function Numeral(n: nat): SExpr { Atom(Num(n)) }

  // ---------------------------------------------------------------- semantics

  datatype Value =
    | IntValue(number: int)
    | BoolValue(truth: bool)
    | BvValue(size: nat, bits: nat)
    | OtherValue(sort: Sort, id: nat)  // arrays, tuples and sorts

  /** The meaning of variables, and of all functions that are not listed below. */
  datatype Model = Model(variables: Symbol -> Option<Value>, functions: (SExpr, seq<Value>) -> Option<Value>)

  function AtomValue(m: Model, s: Symbol): Option<Value> {
    if s.Num? then Some(IntValue(s.value))
    else if s.text == "true" then Some(BoolValue(true))
    else if s.text == "false" then Some(BoolValue(false))
    else if s.text == "#b0" then Some(BvValue(1, 0))
    else m.variables(s)
  }

  /** Integer and bit vector operations, as the SMT-LIB theories define them. */
  function Apply(m: Model, head: SExpr, args: seq<Value>): Option<Value> {
    if head.Atom? && head.symbol.Name? then
      var f := head.symbol.text;
      if f == "=" && |args| == 2 then Some(BoolValue(args[0] == args[1]))
      else if |args| == 2 && args[0].IntValue? && args[1].IntValue? then
        var x, y := args[0].number, args[1].number;
        if f == ">=" then Some(BoolValue(x >= y))
        else if f == "+" then Some(IntValue(x + y))
        else if f == "-" then Some(IntValue(x - y))
        else if f == "*" then Some(IntValue(x * y))
        else if f == "div" && y != 0 then Some(IntValue(x / y))  // the remainder is never negative
        else if f == "mod" && y != 0 then Some(IntValue(x % y))
        else m.functions(head, args)
      else if f == "-" && |args| == 1 && args[0].IntValue? then Some(IntValue(-args[0].number))
      else if f == "bvneg" && |args| == 1 && args[0].BvValue? then
        Some(BvValue(args[0].size, (Power2(args[0].size) - args[0].bits) % Power2(args[0].size)))
      else if f == "bv2nat" && |args| == 1 && args[0].BvValue? then Some(IntValue(args[0].bits))
      else m.functions(head, args)
    else if IsInt2Bv(head) && |args| == 1 && args[0].IntValue? then
      var n := args[0].number;
      var k := head.items[2].symbol.value;
      if n < 0 then None else Some(BvValue(k, n % Power2(k)))  // not relied upon for negative numbers
    else if IsExtractOneBit(head) && |args| == 1 && args[0].BvValue? then
      var i := head.items[2].symbol.value;
      Some(BvValue(1, args[0].bits / Power2(i) % 2))
    else m.functions(head, args)
  }

  predicate IsInt2Bv(head: SExpr) {
    head.SList? && |head.items| == 3 && head.items[0] == Word("_") && head.items[1] == Word("int2bv")
    && head.items[2].Atom? && head.items[2].symbol.Num?
  }

  predicate IsExtractOneBit(head: SExpr) {
    head.SList? && |head.items| == 4 && head.items[0] == Word("_") && head.items[1] == Word("extract")
    && head.items[2] == head.items[3] && head.items[2].Atom? && head.items[2].symbol.Num?
  }

  /** The value of an S-expression. Only the chosen branch of an ite needs one. */
  function EvalS(m: Model, t: SExpr): Option<Value> {
    match t
    case Atom(s) => AtomValue(m, s)
    case SList(items) =>
      if items == [] then None
      else if items[0] == Word("ite") && |items| == 4 then
        var c := EvalS(m, items[1]);
        if c.None? || !c.value.BoolValue? then None
        else if c.value == BoolValue(true) then EvalS(m, items[2]) else EvalS(m, items[3])
      else
        var args := EvalAllS(m, items[1..]);
        if args.None? then None else Apply(m, items[0], args.value)
  }

  function EvalAllS(m: Model, ts: seq<SExpr>): Option<seq<Value>> {
    if ts == [] then Some([]) else
      var first, rest := EvalS(m, ts[0]), EvalAllS(m, ts[1..]);
      if first.None? || rest.None? then None else Some([first.value] + rest.value)
  }

  // -------------------------------------------------------------- expressions

  predicate Is(e: Expression, name: string) {
    e.name == Name(name) && e.arguments != []
  }

  /** What the assertions of the translation demand. */
  predicate WellFormed(e: Expression) {
    && (forall i :: 0 <= i < |e.arguments| ==> WellFormed(e.arguments[i]))
    && (Is(e, "ite") ==> |e.arguments| == 3)
    && (Is(e, "int2bv") ==> |e.arguments| == 2 && e.arguments[1].name.Num?)
    && (Is(e, "bv2int") ==> |e.arguments| == 1 && e.sort.IntSort?
                            && (e.sort.isSigned ==> e.arguments[0].sort.BitVectorSort? && e.arguments[0].sort.size > 0))
    && (Is(e, "const_array") ==>
         |e.arguments| == 2 && e.arguments[0].sort.SortSort? && e.arguments[0].sort.inner.ArraySort?
         && IsSortOfValues(e.arguments[0].sort.inner))
    && (Is(e, "tuple_get") ==> |e.arguments| == 2 && e.arguments[0].sort.TupleSort? && e.arguments[1].name.Num?
                               && e.arguments[1].name.value < |e.arguments[0].sort.members|)
    && (Is(e, "tuple_constructor") ==> e.sort.TupleSort?)
  }

  /** The sort of sorts has no text. */
  predicate IsSortOfValues(s: Sort) {
    match s
    case ArraySort(domain, range) => IsSortOfValues(domain) && IsSortOfValues(range)
    case SortSort(_) => false
    case _ => true
  }

  function SmtLibSort(s: Sort): SExpr
    requires IsSortOfValues(s)
  {
    match s
    case IntSort(_) => Word("Int")
    case BoolSort => Word("Bool")
    case BitVectorSort(size) => SList([Word("_"), Word("BitVec"), Numeral(size)])
    case ArraySort(domain, range) => SList([Word("Array"), SmtLibSort(domain), SmtLibSort(range)])
    case TupleSort(name, _) => Word("|" + name + "|")
  }

  function ConstArrayHead(e: Expression): SExpr
    requires WellFormed(e) && Is(e, "const_array")
  {
    SList([Word("as"), Word("const"), SmtLibSort(e.arguments[0].sort.inner)])
  }

  function TupleGetHead(e: Expression): SExpr
    requires WellFormed(e) && Is(e, "tuple_get")
  {
    Word("|" + e.arguments[0].sort.members[e.arguments[1].name.value] + "|")
  }

  function TwosComplement(size: nat, bits: nat): int {
    if size > 0 && bits >= Power2(size - 1) then bits - Power2(size) else bits
  }

  /** The number of the signed range that differs from `bits` by a multiple of 2 ** size. */
  lemma TwosComplementMeans(size: nat, bits: nat, k: int)
    requires size > 0 && bits < Power2(size)
    ensures var half: int := Power2(size - 1);
            k == TwosComplement(size, bits) <==> -half <= k < half && k % Power2(size) == bits
  {
    var whole, half: int := Power2(size), Power2(size - 1);
    assert whole == 2 * half;
    hide Power2;
    if k < 0 && -half <= k {
      DivisionUnique(k, whole, -1, k + whole);
    } else if 0 <= k < half {
      DivisionUnique(k, whole, 0, k);
    }
  }

  function Int2Bv(v: Option<Value>, size: nat): Option<Value> {
    if v.None? || !v.value.IntValue? then None else Some(BvValue(size, v.value.number % Power2(size)))
  }

  function Bv2Int(v: Option<Value>, isSigned: bool): Option<Value> {
    if v.None? || !v.value.BvValue? then None
    else Some(IntValue(if isSigned then TwosComplement(v.value.size, v.value.bits) else v.value.bits))
  }

  /** What an expression stands for. */
  function Eval(m: Model, e: Expression): Option<Value>
    requires WellFormed(e)
  {
    if e.arguments == [] then AtomValue(m, e.name)
    else if Is(e, "ite") then
      var c := Eval(m, e.arguments[0]);
      if c.None? || !c.value.BoolValue? then None
      else if c.value == BoolValue(true) then Eval(m, e.arguments[1]) else Eval(m, e.arguments[2])
    else if Is(e, "int2bv") then Int2Bv(Eval(m, e.arguments[0]), e.arguments[1].name.value)
    else if Is(e, "bv2int") then Bv2Int(Eval(m, e.arguments[0]), e.sort.isSigned)
    else if Is(e, "const_array") then
      var v := Eval(m, e.arguments[1]);
      if v.None? then None else Apply(m, ConstArrayHead(e), [v.value])
    else if Is(e, "tuple_get") then
      var v := Eval(m, e.arguments[0]);
      if v.None? then None else Apply(m, TupleGetHead(e), [v.value])
    else
      var args := EvalAll(m, e.arguments);
      if args.None? then None
      else Apply(m, if Is(e, "tuple_constructor") then Word("|" + e.sort.name + "|") else Atom(e.name), args.value)
  }

  function EvalAll(m: Model, es: seq<Expression>): Option<seq<Value>>
    requires forall i :: 0 <= i < |es| ==> WellFormed(es[i])
  {
    if es == [] then Some([]) else
      var first, rest := Eval(m, es[0]), EvalAll(m, es[1..]);
      if first.None? || rest.None? then None else Some([first.value] + rest.value)
  }

  /** Arguments of conversions are numbers or vectors, and vectors have the size their sort says. */
  predicate ConversionsTyped(m: Model, e: Expression)
    requires WellFormed(e)
  {
    && (forall i :: 0 <= i < |e.arguments| ==> ConversionsTyped(m, e.arguments[i]))
    && (Is(e, "int2bv") ==> var v := Eval(m, e.arguments[0]); v.Some? ==> v.value.IntValue?)
    && (Is(e, "bv2int") ==> var v := Eval(m, e.arguments[0]);
         v.Some? ==> v.value.BvValue? && v.value.bits < Power2(v.value.size)
                     && (e.sort.isSigned ==> v.value.size == e.arguments[0].sort.size))
  }

  // -------------------------------------------------------------- translation

  function Int2BvHead(size: nat): SExpr {
    SList([Word("_"), Word("int2bv"), Numeral(size)])
  }

  function Int2BvTree(arg: SExpr, size: nat): SExpr {
    SList([Word("ite"),
           SList([Word(">="), arg, Numeral(0)]),
           SList([Int2BvHead(size), arg]),
           SList([Word("bvneg"), SList([Int2BvHead(size), SList([Word("-"), arg])])])])
  }

  function ExtractHead(pos: nat): SExpr {
    SList([Word("_"), Word("extract"), Numeral(pos), Numeral(pos)])
  }

  function SignedBv2IntTree(arg: SExpr, pos: nat): SExpr {
    SList([Word("ite"),
           SList([Word("="), SList([ExtractHead(pos), arg]), Word("#b0")]),
           SList([Word("bv2nat"), arg]),
           SList([Word("-"), SList([Word("bv2nat"), SList([Word("bvneg"), arg])])])])
  }

  /** The S-expression for `e`, as a tree. */
  function Lower(e: Expression): SExpr
    requires WellFormed(e)
  {
    if e.arguments == [] then Atom(e.name)
    else if Is(e, "int2bv") then Int2BvTree(Lower(e.arguments[0]), e.arguments[1].name.value)
    else if Is(e, "bv2int") then
      var arg := Lower(e.arguments[0]);
      if e.sort.isSigned then SignedBv2IntTree(arg, e.arguments[0].sort.size - 1) else SList([Word("bv2nat"), arg])
    else if Is(e, "const_array") then SList([ConstArrayHead(e), Lower(e.arguments[1])])
    else if Is(e, "tuple_get") then SList([TupleGetHead(e), Lower(e.arguments[0])])
    else if Is(e, "tuple_constructor") then SList([Word("|" + e.sort.name + "|")] + LowerAll(e.arguments))
    else SList([Atom(e.name)] + LowerAll(e.arguments))
  }

  function LowerAll(es: seq<Expression>): (ts: seq<SExpr>)
    requires forall i :: 0 <= i < |es| ==> WellFormed(es[i])
    ensures |ts| == |es|
  {
    if es == [] then [] else [Lower(es[0])] + LowerAll(es[1..])
  }

  function Tokens(t: SExpr): seq<Token> {
    match t
    case Atom(s) => [Sym(s)]
    case SList(items) => [Open] + TokensOfAll(items) + [Close]
  }

  function TokensOfAll(ts: seq<SExpr>): seq<Token> {
    if ts == [] then [] else Tokens(ts[0]) + TokensOfAll(ts[1..])
  }

  function S(text: string): Token { Sym(Name(text)) }
  function N(n: nat): Token { Sym(Num(n)) }

  function Int2BvText(arg: seq<Token>, size: nat): seq<Token> {
    var int2bv := [Open, S("_"), S("int2bv"), N(size), Close];
    [S("ite")] +
    ([Open, S(">=")] + arg + [N(0), Close]) +
    ([Open] + int2bv + arg + [Close]) +
    ([Open, S("bvneg"), Open] + int2bv + [Open, S("-")] + arg + [Close, Close, Close])
  }

  function SignedBv2IntText(arg: seq<Token>, pos: nat): seq<Token> {
    [S("ite")] +
    ([Open, S("="), Open, Open, S("_"), S("extract"), N(pos), N(pos), Close] + arg + [Close, S("#b0"), Close]) +
    ([Open, S("bv2nat")] + arg + [Close]) +
    ([Open, S("-"), Open, S("bv2nat"), Open, S("bvneg")] + arg + [Close, Close, Close])
  }

  /** The text of the translation, put together from left to right. */
  function ToSExpr(e: Expression): seq<Token>
    requires WellFormed(e)
  {
    if e.arguments == [] then [Sym(e.name)]
    else
      var sexpr := [Open];
      if Is(e, "int2bv") then
        sexpr + Int2BvText(ToSExpr(e.arguments[0]), e.arguments[1].name.value) + [Close]
      else if Is(e, "bv2int") then
        var arg := ToSExpr(e.arguments[0]);
        if e.sort.isSigned then sexpr + SignedBv2IntText(arg, e.arguments[0].sort.size - 1) + [Close]
        else [Open, S("bv2nat")] + arg + [Close]
      else if Is(e, "const_array") then
        sexpr + [Open, S("as"), S("const")] + Tokens(SmtLibSort(e.arguments[0].sort.inner)) + [Close] +
        ToSExpr(e.arguments[1]) + [Close]
      else if Is(e, "tuple_get") then
        sexpr + Tokens(TupleGetHead(e)) + ToSExpr(e.arguments[0]) + [Close]
      else if Is(e, "tuple_constructor") then
        sexpr + [S("|" + e.sort.name + "|")] + AllToSExpr(e.arguments) + [Close]
      else
        sexpr + [Sym(e.name)] + AllToSExpr(e.arguments) + [Close]
  }

  function AllToSExpr(es: seq<Expression>): seq<Token>
    requires forall i :: 0 <= i < |es| ==> WellFormed(es[i])
  {
    if es == [] then [] else ToSExpr(es[0]) + AllToSExpr(es[1..])
  }

  // --------------------------------------------------- the text is that tree

  lemma TokensOfCons(a: SExpr, rest: seq<SExpr>)
    ensures TokensOfAll([a] + rest) == Tokens(a) + TokensOfAll(rest)
  {
    assert ([a] + rest)[0] == a && ([a] + rest)[1..] == rest;
  }

  lemma TokensOf2(a: SExpr, b: SExpr)
    ensures Tokens(SList([a, b])) == [Open] + Tokens(a) + Tokens(b) + [Close]
  {
    TokensOfCons(a, [b]);
    TokensOfCons(b, []);
    assert [a, b] == [a] + [b] && [b] == [b] + [];
    hide Tokens;
    ListTokens([a, b]);
  }

  lemma ListTokens(items: seq<SExpr>)
    ensures Tokens(SList(items)) == [Open] + TokensOfAll(items) + [Close]
  {
  }

  lemma TokensOf3(a: SExpr, b: SExpr, c: SExpr)
    ensures Tokens(SList([a, b, c])) == [Open] + Tokens(a) + Tokens(b) + Tokens(c) + [Close]
  {
    TokensOfCons(a, [b, c]);
    TokensOfCons(b, [c]);
    TokensOfCons(c, []);
    assert [a, b, c] == [a] + [b, c] && [b, c] == [b] + [c] && [c] == [c] + [];
    hide Tokens;
    ListTokens([a, b, c]);
  }

  lemma TokensOf4(a: SExpr, b: SExpr, c: SExpr, d: SExpr)
    ensures Tokens(SList([a, b, c, d])) == [Open] + Tokens(a) + Tokens(b) + Tokens(c) + Tokens(d) + [Close]
  {
    TokensOfCons(a, [b, c, d]);
    TokensOfCons(b, [c, d]);
    TokensOfCons(c, [d]);
    TokensOfCons(d, []);
    assert [a, b, c, d] == [a] + [b, c, d] && [b, c, d] == [b] + [c, d] && [c, d] == [c] + [d] && [d] == [d] + [];
    hide Tokens;
    ListTokens([a, b, c, d]);
  }

  lemma AtomTokens(s: Symbol)
    ensures Tokens(Atom(s)) == [Sym(s)]
  {
  }

  lemma Int2BvTextIsTree(arg: SExpr, size: nat)
    ensures Tokens(Int2BvTree(arg, size)) == [Open] + Int2BvText(Tokens(arg), size) + [Close]
  {
    var condition, positive := SList([Word(">="), arg, Numeral(0)]), SList([Int2BvHead(size), arg]);
    var minus := SList([Word("-"), arg]);
    var negative := SList([Word("bvneg"), SList([Int2BvHead(size), minus])]);
    hide Tokens;
    TokensOf3(Word("_"), Word("int2bv"), Numeral(size));
    AtomTokens(Name("_")); AtomTokens(Name("int2bv")); AtomTokens(Num(size));
    assert Tokens(Int2BvHead(size)) == [Open, S("_"), S("int2bv"), N(size), Close];
    TokensOf3(Word(">="), arg, Numeral(0));
    AtomTokens(Name(">=")); AtomTokens(Num(0));
    TokensOf2(Int2BvHead(size), arg);
    TokensOf2(Word("-"), arg);
    AtomTokens(Name("-"));
    TokensOf2(Int2BvHead(size), minus);
    TokensOf2(Word("bvneg"), SList([Int2BvHead(size), minus]));
    AtomTokens(Name("bvneg"));
    NestedText(Tokens(Int2BvHead(size)), Tokens(arg));
    TokensOf4(Word("ite"), condition, positive, negative);
    AtomTokens(Name("ite"));
  }

  lemma NestedText(head: seq<Token>, arg: seq<Token>)
    ensures [Open] + [S("bvneg")] + ([Open] + head + ([Open] + [S("-")] + arg + [Close]) + [Close]) + [Close]
         == [Open, S("bvneg"), Open] + head + [Open, S("-")] + arg + [Close, Close, Close]
  {
  }

  lemma SignedBv2IntTextIsTree(arg: SExpr, pos: nat)
    ensures Tokens(SignedBv2IntTree(arg, pos)) == [Open] + SignedBv2IntText(Tokens(arg), pos) + [Close]
  {
    var bit := SList([ExtractHead(pos), arg]);
    var condition, positive := SList([Word("="), bit, Word("#b0")]), SList([Word("bv2nat"), arg]);
    var neg := SList([Word("bvneg"), arg]);
    var back := SList([Word("bv2nat"), neg]);
    var negative := SList([Word("-"), back]);
    hide Tokens;
    TokensOf4(Word("_"), Word("extract"), Numeral(pos), Numeral(pos));
    AtomTokens(Name("_")); AtomTokens(Name("extract")); AtomTokens(Num(pos));
    assert Tokens(ExtractHead(pos)) == [Open, S("_"), S("extract"), N(pos), N(pos), Close];
    TokensOf2(ExtractHead(pos), arg);
    TokensOf3(Word("="), bit, Word("#b0"));
    AtomTokens(Name("=")); AtomTokens(Name("#b0"));
    ConditionText(Tokens(arg), pos);
    TokensOf2(Word("bv2nat"), arg);
    AtomTokens(Name("bv2nat"));
    TokensOf2(Word("bvneg"), arg);
    AtomTokens(Name("bvneg"));
    TokensOf2(Word("bv2nat"), neg);
    TokensOf2(Word("-"), back);
    AtomTokens(Name("-"));
    BackText(Tokens(arg));
    TokensOf4(Word("ite"), condition, positive, negative);
    AtomTokens(Name("ite"));
  }

  lemma ConditionText(arg: seq<Token>, pos: nat)
    ensures [Open] + [S("=")] +
            ([Open] + [Open, S("_"), S("extract"), N(pos), N(pos), Close] + arg + [Close]) + [S("#b0")] + [Close]
         == [Open, S("="), Open, Open, S("_"), S("extract"), N(pos), N(pos), Close] + arg + [Close, S("#b0"), Close]
  {
  }

  lemma BackText(arg: seq<Token>)
    ensures [Open] + [S("-")] + ([Open] + [S("bv2nat")] + ([Open] + [S("bvneg")] + arg + [Close]) + [Close]) + [Close]
         == [Open, S("-"), Open, S("bv2nat"), Open, S("bvneg")] + arg + [Close, Close, Close]
  {
  }

  lemma Int2BvUnfolds(e: Expression)
    requires WellFormed(e) && Is(e, "int2bv")
    ensures Lower(e) == Int2BvTree(Lower(e.arguments[0]), e.arguments[1].name.value)
    ensures ToSExpr(e) == [Open] + Int2BvText(ToSExpr(e.arguments[0]), e.arguments[1].name.value) + [Close]
  {
    hide Int2BvText, Int2BvTree;
  }

  lemma Bv2IntUnfolds(e: Expression)
    requires WellFormed(e) && Is(e, "bv2int")
    ensures var arg, text := Lower(e.arguments[0]), ToSExpr(e.arguments[0]);
            if e.sort.isSigned then
              var pos := e.arguments[0].sort.size - 1;
              Lower(e) == SignedBv2IntTree(arg, pos) && ToSExpr(e) == [Open] + SignedBv2IntText(text, pos) + [Close]
            else
              Lower(e) == SList([Word("bv2nat"), arg]) && ToSExpr(e) == [Open, S("bv2nat")] + text + [Close]
  {
    hide SignedBv2IntText, SignedBv2IntTree;
  }

  lemma ConversionTextIsTree(e: Expression)
    requires WellFormed(e) && (Is(e, "int2bv") || Is(e, "bv2int"))
    requires ToSExpr(e.arguments[0]) == Tokens(Lower(e.arguments[0]))
    ensures ToSExpr(e) == Tokens(Lower(e))
  {
    var arg := Lower(e.arguments[0]);
    hide Tokens, TokensOfAll, Lower, ToSExpr, Int2BvText, SignedBv2IntText, Int2BvTree, SignedBv2IntTree;
    if Is(e, "int2bv") {
      Int2BvUnfolds(e);
      Int2BvTextIsTree(arg, e.arguments[1].name.value);
    } else {
      Bv2IntUnfolds(e);
      if e.sort.isSigned {
        SignedBv2IntTextIsTree(arg, e.arguments[0].sort.size - 1);
      } else {
        TokensOf2(Word("bv2nat"), arg);
        AtomTokens(Name("bv2nat"));
        assert [Open] + [S("bv2nat")] == [Open, S("bv2nat")];
      }
    }
  }

  lemma ConstArrayTextIsTree(e: Expression)
    requires WellFormed(e) && Is(e, "const_array")
    requires ToSExpr(e.arguments[1]) == Tokens(Lower(e.arguments[1]))
    ensures ToSExpr(e) == Tokens(Lower(e))
  {
    hide Tokens, TokensOfAll, SmtLibSort;
    TokensOf2(ConstArrayHead(e), Lower(e.arguments[1]));
    TokensOf3(Word("as"), Word("const"), SmtLibSort(e.arguments[0].sort.inner));
    AtomTokens(Name("as")); AtomTokens(Name("const"));
  }

  lemma TupleGetTextIsTree(e: Expression)
    requires WellFormed(e) && Is(e, "tuple_get")
    requires ToSExpr(e.arguments[0]) == Tokens(Lower(e.arguments[0]))
    ensures ToSExpr(e) == Tokens(Lower(e))
  {
    hide Tokens, TokensOfAll, TupleGetHead;
    TokensOf2(TupleGetHead(e), Lower(e.arguments[0]));
  }

  predicate IsPlain(e: Expression) {
    e.arguments != [] && !Is(e, "int2bv") && !Is(e, "bv2int") && !Is(e, "const_array") && !Is(e, "tuple_get")
  }

  function PlainHead(e: Expression): SExpr
    requires WellFormed(e)
  {
    if Is(e, "tuple_constructor") then Word("|" + e.sort.name + "|") else Atom(e.name)
  }

  lemma PlainTree(e: Expression)
    requires WellFormed(e) && IsPlain(e)
    ensures Lower(e) == SList([PlainHead(e)] + LowerAll(e.arguments))
    ensures ToSExpr(e) == [Open] + [Sym(PlainHead(e).symbol)] + AllToSExpr(e.arguments) + [Close]
  {
    hide LowerAll, AllToSExpr;
  }

  lemma PlainTextIsTree(e: Expression)
    requires WellFormed(e) && IsPlain(e) && AllToSExpr(e.arguments) == TokensOfAll(LowerAll(e.arguments))
    ensures ToSExpr(e) == Tokens(Lower(e))
  {
    PlainTree(e);
    hide Tokens, TokensOfAll, LowerAll, AllToSExpr, Lower, ToSExpr;
    TokensOfCons(PlainHead(e), LowerAll(e.arguments));
    ListTokens([PlainHead(e)] + LowerAll(e.arguments));
    AtomTokens(PlainHead(e).symbol);
  }

  lemma LeafTextIsTree(e: Expression)
    requires WellFormed(e) && e.arguments == []
    ensures ToSExpr(e) == Tokens(Lower(e))
  {
  }

  /** The text is the text of the tree. */
  lemma {:induction false} TextIsTree(e: Expression)
    requires WellFormed(e)
    ensures ToSExpr(e) == Tokens(Lower(e))
  {
    hide Lower, ToSExpr, Tokens;
    if e.arguments == [] {
      LeafTextIsTree(e);
    } else if Is(e, "int2bv") || Is(e, "bv2int") {
      TextIsTree(e.arguments[0]);
      ConversionTextIsTree(e);
    } else if Is(e, "const_array") {
      TextIsTree(e.arguments[1]);
      ConstArrayTextIsTree(e);
    } else if Is(e, "tuple_get") {
      TextIsTree(e.arguments[0]);
      TupleGetTextIsTree(e);
    } else {
      AllTextsAreTrees(e.arguments);
      PlainTextIsTree(e);
    }
  }

  lemma {:induction false} AllTextsAreTrees(es: seq<Expression>)
    requires forall i :: 0 <= i < |es| ==> WellFormed(es[i])
    ensures AllToSExpr(es) == TokensOfAll(LowerAll(es))
  {
    hide ToSExpr, Lower, Tokens, WellFormed;
    if es != [] {
      TextIsTree(es[0]);
      AllTextsAreTrees(es[1..]);
      TokensOfCons(Lower(es[0]), LowerAll(es[1..]));
    }
  }

  // -------------------------------------------------------- reading it back

  /** The first S-expression of a text, and what follows it. */
  function Read(text: seq<Token>): Option<(SExpr, seq<Token>)>
    decreases |text|, 1
  {
    if text == [] then None
    else match text[0]
      case Sym(s) => Some((Atom(s), text[1..]))
      case Close => None
      case Open =>
        var items := ReadList(text[1..]);
        if items.None? then None else Some((SList(items.value.0), items.value.1))
  }

  function ReadList(text: seq<Token>): (r: Option<(seq<SExpr>, seq<Token>)>)
    ensures r.Some? ==> |r.value.1| < |text|
    decreases |text|, 2
  {
    if text == [] then None
    else if text[0] == Close then Some(([], text[1..]))
    else
      var first := Read(text);
      if first.None? || |first.value.1| >= |text| then None
      else
        var rest := ReadList(first.value.1);
        if rest.None? then None else Some(([first.value.0] + rest.value.0, rest.value.1))
  }

  /** The text of a tree is read back as that tree. */
  lemma {:induction false} TreeReadBack(t: SExpr, rest: seq<Token>)
    ensures Read(Tokens(t) + rest) == Some((t, rest))
  {
    match t
    case Atom(s) =>
      assert ([Sym(s)] + rest)[1..] == rest;
    case SList(items) =>
      var inner := TokensOfAll(items) + ([Close] + rest);
      assert Tokens(t) + rest == [Open] + inner;
      assert ([Open] + inner)[1..] == inner;
      ListReadBack(items, rest);
  }

  lemma {:induction false} ListReadBack(items: seq<SExpr>, rest: seq<Token>)
    ensures ReadList(TokensOfAll(items) + ([Close] + rest)) == Some((items, rest))
  {
    if items == [] {
      assert TokensOfAll(items) + ([Close] + rest) == [Close] + rest;
      assert ([Close] + rest)[1..] == rest;
    } else {
      hide Tokens, TokensOfAll, Read, ReadList;
      var first, others := items[0], items[1..];
      var end := [Close] + rest;
      assert items == [first] + others;
      TokensOfCons(first, others);
      JoinedTexts(Tokens(first), TokensOfAll(others), end);
      NotAClose(first);
      TreeReadBack(first, TokensOfAll(others) + end);
      ListReadBack(others, rest);
      ReadListStep(TokensOfAll(items) + end, first, TokensOfAll(others) + end, others, rest);
    }
  }

  lemma JoinedTexts(a: seq<Token>, b: seq<Token>, c: seq<Token>)
    ensures (a + b) + c == a + (b + c)
    ensures |a| > 0 ==> |b + c| < |(a + b) + c| && ((a + b) + c)[0] == a[0]
  {
  }

  lemma ReadListStep(text: seq<Token>, first: SExpr, after: seq<Token>, others: seq<SExpr>, rest: seq<Token>)
    requires text != [] && text[0] != Close && |after| < |text|
    requires Read(text) == Some((first, after)) && ReadList(after) == Some((others, rest))
    ensures ReadList(text) == Some(([first] + others, rest))
  {
    hide Read;
  }

  lemma NotAClose(t: SExpr)
    ensures |Tokens(t)| > 0 && Tokens(t)[0] != Close
  {
  }

  // ------------------------------------------------------ meaning is preserved

  lemma EvalLast(m: Model, a: SExpr)
    ensures EvalAllS(m, [a]) == if EvalS(m, a).None? then None else Some([EvalS(m, a).value])
  {
    hide EvalS;
    assert [a][1..] == [];
    assert EvalAllS(m, []) == Some([]);
    if EvalS(m, a).Some? {
      assert [EvalS(m, a).value] + [] == [EvalS(m, a).value];
    }
  }

  lemma EvalOne(m: Model, head: SExpr, a: SExpr)
    requires head != Word("ite")
    ensures EvalS(m, SList([head, a])) == if EvalS(m, a).None? then None else Apply(m, head, [EvalS(m, a).value])
  {
    hide Apply;
    assert [head, a][1..] == [a];
    EvalLast(m, a);
  }

  lemma EvalTwo(m: Model, head: SExpr, a: SExpr, b: SExpr)
    requires head != Word("ite")
    ensures EvalS(m, SList([head, a, b]))
         == if EvalS(m, a).None? || EvalS(m, b).None? then None
             else Apply(m, head, [EvalS(m, a).value, EvalS(m, b).value])
  {
    hide Apply;
    assert [head, a, b][1..] == [a, b] && [a, b][1..] == [b];
    EvalLast(m, b);
    if EvalS(m, a).Some? && EvalS(m, b).Some? {
      assert [EvalS(m, a).value] + [EvalS(m, b).value] == [EvalS(m, a).value, EvalS(m, b).value];
    }
  }

  lemma EvalIte(m: Model, c: SExpr, a: SExpr, b: SExpr, truth: bool)
    requires EvalS(m, c) == Some(BoolValue(truth))
    ensures EvalS(m, SList([Word("ite"), c, a, b])) == if truth then EvalS(m, a) else EvalS(m, b)
  {
    hide Apply;
  }

  lemma EvalIteUndefined(m: Model, c: SExpr, a: SExpr, b: SExpr)
    requires EvalS(m, c) == None
    ensures EvalS(m, SList([Word("ite"), c, a, b])) == None
  {
    hide Apply;
  }

  lemma NegatedModulo(n: int, p: nat)
    requires p > 0
    ensures (p - (-n) % p) % p == n % p
  {
    var q, r := (-n) / p, (-n) % p;
    assert -n == q * p + r;
    NegatedQuotient(n, p, q, r, q * p);
    if r == 0 {
      DivisionUnique(p, p, 1, 0);
    } else {
      DivisionUnique(p - r, p, 0, p - r);
    }
  }

  lemma NegatedQuotient(n: int, p: nat, q: int, r: nat, product: int)
    requires r < p && product == q * p && -n == product + r
    ensures n % p == if r == 0 then 0 else p - r
  {
    assert -q * p == -product;
    if r == 0 {
      DivisionUnique(n, p, -q, 0);
    } else {
      Distribute(-q, 1, p);
      DivisionUnique(n, p, -q - 1, p - r);
    }
  }

  /** int2bv is reduction modulo 2 ** size, for negative numbers too. */
  lemma Int2BvTreeMeans(m: Model, arg: SExpr, size: nat)
    requires EvalS(m, arg).Some? ==> EvalS(m, arg).value.IntValue?
    ensures EvalS(m, Int2BvTree(arg, size)) == Int2Bv(EvalS(m, arg), size)
  {
    hide EvalS;
    var condition, positive := SList([Word(">="), arg, Numeral(0)]), SList([Int2BvHead(size), arg]);
    var minus := SList([Word("-"), arg]);
    var inner := SList([Int2BvHead(size), minus]);
    var negative := SList([Word("bvneg"), inner]);
    NumeralMeans(m, 0);
    EvalTwo(m, Word(">="), arg, Numeral(0));
    if EvalS(m, arg).None? {
      EvalIteUndefined(m, condition, positive, negative);
    } else {
      var n := EvalS(m, arg).value.number;
      EvalIte(m, condition, positive, negative, n >= 0);
      EvalOne(m, Int2BvHead(size), arg);
      EvalOne(m, Word("-"), arg);
      EvalOne(m, Int2BvHead(size), minus);
      EvalOne(m, Word("bvneg"), inner);
      NegatedModulo(n, Power2(size));
    }
  }

  lemma NumeralMeans(m: Model, n: nat)
    ensures EvalS(m, Numeral(n)) == Some(IntValue(n))
  {
  }

  lemma ZeroBitMeans(m: Model)
    ensures EvalS(m, Word("#b0")) == Some(BvValue(1, 0))
  {
  }

  lemma TopBit(bits: nat, pos: nat)
    requires bits < Power2(pos + 1)
    ensures bits / Power2(pos) % 2 == if bits >= Power2(pos) then 1 else 0
  {
    var p := Power2(pos);
    assert Power2(pos + 1) == 2 * p;
    if bits >= p {
      DivisionUnique(bits, p, 1, bits - p);
    } else {
      DivisionUnique(bits, p, 0, bits);
    }
  }

  lemma TopBitMeans(m: Model, arg: SExpr, size: nat, bits: nat)
    requires size > 0 && EvalS(m, arg) == Some(BvValue(size, bits)) && bits < Power2(size)
    ensures EvalS(m, SList([Word("="), SList([ExtractHead(size - 1), arg]), Word("#b0")]))
         == Some(BoolValue(bits < Power2(size - 1)))
  {
    hide EvalS, Power2;
    ZeroBitMeans(m);
    EvalOne(m, ExtractHead(size - 1), arg);
    EvalTwo(m, Word("="), SList([ExtractHead(size - 1), arg]), Word("#b0"));
    TopBit(bits, size - 1);
  }

  lemma NegatedBitsMean(m: Model, arg: SExpr, size: nat, bits: nat)
    requires EvalS(m, arg) == Some(BvValue(size, bits))
    ensures EvalS(m, SList([Word("-"), SList([Word("bv2nat"), SList([Word("bvneg"), arg])])]))
         == Some(IntValue(-((Power2(size) - bits) % Power2(size))))
  {
    hide EvalS, Power2;
    EvalOne(m, Word("bvneg"), arg);
    EvalOne(m, Word("bv2nat"), SList([Word("bvneg"), arg]));
    EvalOne(m, Word("-"), SList([Word("bv2nat"), SList([Word("bvneg"), arg])]));
  }

  /** The signed conversion is the two's complement value. */
  lemma SignedBv2IntTreeMeans(m: Model, arg: SExpr, size: nat)
    requires size > 0
    requires EvalS(m, arg).Some? ==>
               && EvalS(m, arg).value.BvValue? && EvalS(m, arg).value.size == size
               && EvalS(m, arg).value.bits < Power2(size)
    ensures EvalS(m, SignedBv2IntTree(arg, size - 1)) == Bv2Int(EvalS(m, arg), true)
  {
    hide EvalS, Power2;
    var bit := SList([ExtractHead(size - 1), arg]);
    var condition, positive := SList([Word("="), bit, Word("#b0")]), SList([Word("bv2nat"), arg]);
    var negative := SList([Word("-"), SList([Word("bv2nat"), SList([Word("bvneg"), arg])])]);
    if EvalS(m, arg).None? {
      EvalOne(m, ExtractHead(size - 1), arg);
      EvalTwo(m, Word("="), bit, Word("#b0"));
      EvalIteUndefined(m, condition, positive, negative);
    } else {
      var bits := EvalS(m, arg).value.bits;
      TopBitMeans(m, arg, size, bits);
      NegatedBitsMean(m, arg, size, bits);
      EvalIte(m, condition, positive, negative, bits < Power2(size - 1));
      EvalOne(m, Word("bv2nat"), arg);
      if bits >= Power2(size - 1) {
        DivisionUnique(Power2(size) - bits, Power2(size), 0, Power2(size) - bits);
      }
    }
  }

  lemma {:induction false} LoweringPreservesMeaningOfAll(m: Model, es: seq<Expression>)
    requires forall i :: 0 <= i < |es| ==> WellFormed(es[i]) && ConversionsTyped(m, es[i])
    ensures EvalAllS(m, LowerAll(es)) == EvalAll(m, es)
  {
    hide WellFormed, ConversionsTyped, EvalS, Eval, Lower;
    if es != [] {
      LoweringPreservesMeaning(m, es[0]);
      LoweringPreservesMeaningOfAll(m, es[1..]);
      assert LowerAll(es)[1..] == LowerAll(es[1..]);
    }
  }

  lemma PlainMeaning(m: Model, e: Expression)
    requires WellFormed(e) && IsPlain(e) && !Is(e, "ite")
             && EvalAllS(m, LowerAll(e.arguments)) == EvalAll(m, e.arguments)
    ensures EvalS(m, Lower(e)) == Eval(m, e)
  {
    PlainTree(e);
    hide Apply, LowerAll, EvalAll, EvalAllS, Lower;
    var items := [PlainHead(e)] + LowerAll(e.arguments);
    assert items[0] == PlainHead(e) && items[1..] == LowerAll(e.arguments);
    PlainHeadIsNoIte(e);
  }

  lemma PlainHeadIsNoIte(e: Expression)
    requires WellFormed(e) && e.arguments != [] && !Is(e, "ite")
    ensures PlainHead(e) != Word("ite")
  {
    if Is(e, "tuple_constructor") {
      assert ("|" + e.sort.name + "|")[0] == '|' && "ite"[0] == 'i';
    }
  }

  lemma IteMeaning(m: Model, e: Expression)
    requires WellFormed(e) && Is(e, "ite")
    requires forall i :: 0 <= i < 3 ==> EvalS(m, Lower(e.arguments[i])) == Eval(m, e.arguments[i])
    ensures EvalS(m, Lower(e)) == Eval(m, e)
  {
    PlainTree(e);
    var a := e.arguments;
    assert LowerAll(a) == [Lower(a[0]), Lower(a[1]), Lower(a[2])] by {
      assert a[1..][0] == a[1] && a[1..][1..] == a[2..] && a[2..][0] == a[2] && a[2..][1..] == [];
      assert LowerAll(a[2..]) == [Lower(a[2])];
      assert LowerAll(a[1..]) == [Lower(a[1])] + LowerAll(a[2..]);
    }
    hide Apply, LowerAll, Lower;
    assert [PlainHead(e)] + [Lower(a[0]), Lower(a[1]), Lower(a[2])]
        == [PlainHead(e), Lower(a[0]), Lower(a[1]), Lower(a[2])];
  }

  lemma ConversionMeaning(m: Model, e: Expression)
    requires WellFormed(e) && ConversionsTyped(m, e) && (Is(e, "int2bv") || Is(e, "bv2int"))
    requires EvalS(m, Lower(e.arguments[0])) == Eval(m, e.arguments[0])
    ensures EvalS(m, Lower(e)) == Eval(m, e)
  {
    var arg := Lower(e.arguments[0]);
    hide EvalS, Lower, Int2BvTree, SignedBv2IntTree;
    if Is(e, "int2bv") {
      Int2BvUnfolds(e);
      Int2BvTreeMeans(m, arg, e.arguments[1].name.value);
    } else {
      Bv2IntUnfolds(e);
      if e.sort.isSigned {
        SignedBv2IntTreeMeans(m, arg, e.arguments[0].sort.size);
      } else {
        EvalOne(m, Word("bv2nat"), arg);
      }
    }
  }

  lemma HeadedMeaning(m: Model, e: Expression)
    requires WellFormed(e) && (Is(e, "const_array") || Is(e, "tuple_get"))
    requires var arg := e.arguments[if Is(e, "const_array") then 1 else 0]; EvalS(m, Lower(arg)) == Eval(m, arg)
    ensures EvalS(m, Lower(e)) == Eval(m, e)
  {
    hide Apply, EvalS, SmtLibSort;
    if Is(e, "const_array") {
      EvalOne(m, ConstArrayHead(e), Lower(e.arguments[1]));
    } else {
      assert TupleGetHead(e).symbol.text[0] == '|' && "ite"[0] == 'i';
      EvalOne(m, TupleGetHead(e), Lower(e.arguments[0]));
    }
  }

  /** Every expression means what its S-expression means. */
  lemma {:induction false} LoweringPreservesMeaning(m: Model, e: Expression)
    requires WellFormed(e) && ConversionsTyped(m, e)
    ensures EvalS(m, Lower(e)) == Eval(m, e)
  {
    hide EvalS, Eval, Lower;
    if e.arguments == [] {
      LeafMeaning(m, e);
    } else if Is(e, "int2bv") || Is(e, "bv2int") {
      LoweringPreservesMeaning(m, e.arguments[0]);
      ConversionMeaning(m, e);
    } else if Is(e, "const_array") || Is(e, "tuple_get") {
      LoweringPreservesMeaning(m, e.arguments[if Is(e, "const_array") then 1 else 0]);
      HeadedMeaning(m, e);
    } else if Is(e, "ite") {
      LoweringPreservesMeaning(m, e.arguments[0]);
      LoweringPreservesMeaning(m, e.arguments[1]);
      LoweringPreservesMeaning(m, e.arguments[2]);
      IteMeaning(m, e);
    } else {
      LoweringPreservesMeaningOfAll(m, e.arguments);
      PlainMeaning(m, e);
    }
  }

  lemma LeafMeaning(m: Model, e: Expression)
    requires WellFormed(e) && e.arguments == []
    ensures EvalS(m, Lower(e)) == Eval(m, e)
  {
  }

  /** What a solver reads means what the expression means. */
  lemma TextPreservesMeaning(m: Model, e: Expression)
    requires WellFormed(e) && ConversionsTyped(m, e)
    ensures Read(ToSExpr(e)).Some? && Read(ToSExpr(e)).value.1 == []
    ensures EvalS(m, Read(ToSExpr(e)).value.0) == Eval(m, e)
  {
    hide Read, EvalS, Eval, Lower, ToSExpr, Tokens;
    TextIsTree(e);
    TreeReadBack(Lower(e), []);
    assert Tokens(Lower(e)) + [] == Tokens(Lower(e));
    LoweringPreservesMeaning(m, e);
  }

  // -------------------------------------------------------------------- sorts

  /** The sorts of variables, and of all functions that are not listed below. */
  datatype Signature = Signature(variables: Symbol -> Sort, functions: (SExpr, seq<Sort>) -> Sort)

  predicate HasSort(v: Value, s: Sort) {
    match s
    case IntSort(_) => v.IntValue?
    case BoolSort => v.BoolValue?
    case BitVectorSort(size) => v.BvValue? && v.size == size && v.bits < Power2(size)
    case _ => v.OtherValue? && v.sort == s
  }

  predicate HaveSorts(vs: seq<Value>, sorts: seq<Sort>) {
    |vs| == |sorts| && forall i :: 0 <= i < |vs| ==> HasSort(vs[i], sorts[i])
  }

  /** Signed and unsigned integers have the same values. */
  predicate Matches(s: Sort, t: Sort) {
    s == t || (s.IntSort? && t.IntSort?)
  }

  function AtomSort(sig: Signature, s: Symbol): Sort {
    if s.Num? then IntSort(false)
    else if s.text == "true" || s.text == "false" then BoolSort
    else if s.text == "#b0" then BitVectorSort(1)
    else sig.variables(s)
  }

  function ResultSort(sig: Signature, head: SExpr, sorts: seq<Sort>): Sort {
    if head.Atom? && head.symbol.Name? then
      var f := head.symbol.text;
      if f == "=" && |sorts| == 2 then BoolSort
      else if |sorts| == 2 && sorts[0].IntSort? && sorts[1].IntSort? then
        if f == ">=" then BoolSort
        else if f in ["+", "-", "*", "div", "mod"] then IntSort(true)
        else sig.functions(head, sorts)
      else if f == "-" && |sorts| == 1 && sorts[0].IntSort? then IntSort(true)
      else if f == "bvneg" && |sorts| == 1 && sorts[0].BitVectorSort? then sorts[0]
      else if f == "bv2nat" && |sorts| == 1 && sorts[0].BitVectorSort? then IntSort(false)
      else sig.functions(head, sorts)
    else if IsInt2Bv(head) && |sorts| == 1 && sorts[0].IntSort? then BitVectorSort(head.items[2].symbol.value)
    else if IsExtractOneBit(head) && |sorts| == 1 && sorts[0].BitVectorSort? then BitVectorSort(1)
    else sig.functions(head, sorts)
  }

  /** Variables have values of their sorts, and functions, division by zero included, results of theirs. */
  ghost predicate Respects(m: Model, sig: Signature) {
    && (forall s :: m.variables(s).Some? ==> HasSort(m.variables(s).value, sig.variables(s)))
    && (forall head, args, sorts :: HaveSorts(args, sorts) && m.functions(head, args).Some? ==>
          HasSort(m.functions(head, args).value, ResultSort(sig, head, sorts)))
  }

  function Sorts(es: seq<Expression>): seq<Sort> {
    seq(|es|, i requires 0 <= i < |es| => es[i].sort)
  }

  /** The sort of an expression is that of its value, as the expression constructors see to. */
  predicate WellSorted(sig: Signature, e: Expression)
    requires WellFormed(e)
  {
    && (forall i :: 0 <= i < |e.arguments| ==> WellSorted(sig, e.arguments[i]))
    && if e.arguments == [] then Matches(AtomSort(sig, e.name), e.sort)
       else if Is(e, "ite") then Matches(e.arguments[1].sort, e.sort) && Matches(e.arguments[2].sort, e.sort)
       else if Is(e, "int2bv") then e.arguments[0].sort.IntSort? && e.sort == BitVectorSort(e.arguments[1].name.value)
       else if Is(e, "bv2int") then e.arguments[0].sort.BitVectorSort?
       else if Is(e, "const_array") then Matches(ResultSort(sig, ConstArrayHead(e), [e.arguments[1].sort]), e.sort)
       else if Is(e, "tuple_get") then Matches(ResultSort(sig, TupleGetHead(e), [e.arguments[0].sort]), e.sort)
       else Matches(ResultSort(sig, PlainHead(e), Sorts(e.arguments)), e.sort)
  }

  /** Operations turn arguments of their sorts into results of theirs. */
  lemma ApplyHasSort(m: Model, sig: Signature, head: SExpr, args: seq<Value>, sorts: seq<Sort>)
    requires Respects(m, sig) && HaveSorts(args, sorts) && Apply(m, head, args).Some?
    ensures HasSort(Apply(m, head, args).value, ResultSort(sig, head, sorts))
  {
  }

  predicate ValueHasSort(m: Model, e: Expression)
    requires WellFormed(e)
  {
    Eval(m, e).Some? ==> HasSort(Eval(m, e).value, e.sort)
  }

  lemma {:induction false} AllHaveSorts(m: Model, es: seq<Expression>)
    requires forall i :: 0 <= i < |es| ==> WellFormed(es[i]) && ValueHasSort(m, es[i])
    ensures EvalAll(m, es).Some? ==> HaveSorts(EvalAll(m, es).value, Sorts(es))
  {
    hide Eval, HasSort, WellFormed;
    if es != [] {
      AllHaveSorts(m, es[1..]);
      assert forall i :: 0 < i < |es| ==> Sorts(es)[i] == Sorts(es[1..])[i - 1];
    }
  }

  lemma MatchingSorts(v: Value, s: Sort, t: Sort)
    requires HasSort(v, s) && Matches(s, t)
    ensures HasSort(v, t)
  {
  }

  /** The value of a leaf, or of an operation whose arguments have values of their sorts. */
  lemma OperationHasSort(m: Model, sig: Signature, e: Expression)
    requires WellFormed(e) && WellSorted(sig, e) && Respects(m, sig)
    requires forall i :: 0 <= i < |e.arguments| ==> ValueHasSort(m, e.arguments[i])
    ensures ValueHasSort(m, e)
  {
    if Eval(m, e).Some? {
      var v, a := Eval(m, e).value, e.arguments;
      hide Apply, ResultSort, HasSort, ConstArrayHead, TupleGetHead, Matches;
      if a == [] {
        AtomHasSort(m, sig, e.name);
        MatchingSorts(v, AtomSort(sig, e.name), e.sort);
      } else if Is(e, "ite") {
        MatchingSorts(v, if Eval(m, a[0]).value == BoolValue(true) then a[1].sort else a[2].sort, e.sort);
      } else if Is(e, "int2bv") || Is(e, "bv2int") {
        ConversionHasSort(m, sig, e);
      } else if Is(e, "const_array") {
        ApplyHasSort(m, sig, ConstArrayHead(e), [Eval(m, a[1]).value], [a[1].sort]);
        MatchingSorts(v, ResultSort(sig, ConstArrayHead(e), [a[1].sort]), e.sort);
      } else if Is(e, "tuple_get") {
        ApplyHasSort(m, sig, TupleGetHead(e), [Eval(m, a[0]).value], [a[0].sort]);
        MatchingSorts(v, ResultSort(sig, TupleGetHead(e), [a[0].sort]), e.sort);
      } else {
        AllHaveSorts(m, a);
        ApplyHasSort(m, sig, PlainHead(e), EvalAll(m, a).value, Sorts(a));
        MatchingSorts(v, ResultSort(sig, PlainHead(e), Sorts(a)), e.sort);
      }
    }
  }

  lemma AtomHasSort(m: Model, sig: Signature, s: Symbol)
    requires Respects(m, sig) && AtomValue(m, s).Some?
    ensures HasSort(AtomValue(m, s).value, AtomSort(sig, s))
  {
  }

  lemma ConversionHasSort(m: Model, sig: Signature, e: Expression)
    requires WellFormed(e) && WellSorted(sig, e) && (Is(e, "int2bv") || Is(e, "bv2int"))
    ensures ValueHasSort(m, e)
  {
    hide Apply;
  }

  /** In a model that respects sorts, well-sorted expressions have values of their sorts. */
  lemma {:induction false} ValuesHaveSorts(m: Model, sig: Signature, e: Expression)
    requires WellFormed(e) && WellSorted(sig, e) && Respects(m, sig)
    ensures ValueHasSort(m, e) && ConversionsTyped(m, e)
  {
    forall i | 0 <= i < |e.arguments|
      ensures ValueHasSort(m, e.arguments[i]) && ConversionsTyped(m, e.arguments[i])
    {
      ValuesHaveSorts(m, sig, e.arguments[i]);
    }
    hide Respects, Eval;
    OperationHasSort(m, sig, e);
  }

  /** So for well-sorted expressions what a solver reads means what the expression means. */
  lemma WellSortedTextPreservesMeaning(m: Model, sig: Signature, e: Expression)
    requires WellFormed(e) && WellSorted(sig, e) && Respects(m, sig)
    ensures Read(ToSExpr(e)).Some? && Read(ToSExpr(e)).value.1 == []
    ensures EvalS(m, Read(ToSExpr(e)).value.0) == Eval(m, e)
    ensures Eval(m, e).Some? ==> HasSort(Eval(m, e).value, e.sort)
  {
    hide Read, EvalS, Eval, ToSExpr, WellSorted, Respects;
    ValuesHaveSorts(m, sig, e);
    TextPreservesMeaning(m, e);
  }

  // Such models can read arrays of all sorts.

  function DefaultValue(s: Sort): Value {
    match s
    case IntSort(_) => IntValue(0)
    case BoolSort => BoolValue(false)
    case BitVectorSort(size) => BvValue(size, 0)
    case _ => OtherValue(s, 0)
  }

  /** Reading an array gives a value of its range, whatever that is. */
  function ArraySignature(variables: Symbol -> Sort): Signature {
    Signature(variables, (head: SExpr, sorts: seq<Sort>) =>
      if head == Word("select") && |sorts| == 2 && sorts[0].ArraySort? then sorts[0].range else BoolSort)
  }

  function ArrayModel(variables: Symbol -> Sort): Model {
    Model((s: Symbol) => Some(DefaultValue(variables(s))), (head: SExpr, args: seq<Value>) =>
      if head == Word("select") && |args| == 2 && args[0].OtherValue? && args[0].sort.ArraySort? then
        Some(DefaultValue(args[0].sort.range))
      else
        None)
  }

  lemma DefaultHasSort(s: Sort)
    ensures HasSort(DefaultValue(s), s)
  {
  }

  lemma ArrayModelRespects(variables: Symbol -> Sort)
    ensures Respects(ArrayModel(variables), ArraySignature(variables))
  {
    var m, sig := ArrayModel(variables), ArraySignature(variables);
    forall s | m.variables(s).Some? ensures HasSort(m.variables(s).value, sig.variables(s)) {
      DefaultHasSort(variables(s));
    }
    forall head, args, sorts: seq<Sort> | HaveSorts(args, sorts) && m.functions(head, args).Some?
      ensures HasSort(m.functions(head, args).value, ResultSort(sig, head, sorts))
    {
      assert HasSort(args[0], sorts[0]);
      DefaultHasSort(sorts[0].range);
    }
  }

  function Select(a: Expression, i: Expression): Expression
    requires a.sort.ArraySort?
  {
    Expression(Name("select"), [a, i], a.sort.range)
  }

  /** In one model that respects sorts, every read of an array of whatever sort has a value, and it is of that sort. */
  lemma ArraysCanBeRead(variables: Symbol -> Sort, a: Expression, i: Expression)
    requires WellFormed(a) && WellSorted(ArraySignature(variables), a) && Eval(ArrayModel(variables), a).Some?
    requires WellFormed(i) && WellSorted(ArraySignature(variables), i) && Eval(ArrayModel(variables), i).Some?
    requires a.sort.ArraySort? && Matches(i.sort, a.sort.domain)
    ensures Respects(ArrayModel(variables), ArraySignature(variables))
    ensures WellFormed(Select(a, i)) && WellSorted(ArraySignature(variables), Select(a, i))
    ensures var v := Eval(ArrayModel(variables), Select(a, i)); v.Some? && HasSort(v.value, a.sort.range)
  {
    ArrayModelRespects(variables);
    SelectIsWellSorted(variables, a, i);
    hide Respects, WellSorted, WellFormed, Eval;
    ValuesHaveSorts(ArrayModel(variables), ArraySignature(variables), a);
    SelectIsDefault(variables, a, i);
    DefaultHasSort(a.sort.range);
  }

  lemma SelectIsWellFormed(a: Expression, i: Expression)
    requires a.sort.ArraySort? && WellFormed(a) && WellFormed(i)
    ensures WellFormed(Select(a, i))
  {
    assert Select(a, i).arguments == [a, i];
  }

  lemma SelectIsWellSorted(variables: Symbol -> Sort, a: Expression, i: Expression)
    requires a.sort.ArraySort? && WellFormed(a) && WellSorted(ArraySignature(variables), a)
    requires WellFormed(i) && WellSorted(ArraySignature(variables), i)
    ensures WellFormed(Select(a, i)) && WellSorted(ArraySignature(variables), Select(a, i))
  {
    SelectIsWellFormed(a, i);
    SelectIsItsOwnName();
    var e := Select(a, i);
    assert Sorts(e.arguments) == [a.sort, i.sort];
    hide WellFormed;
  }

  lemma EvalAllOfTwo(m: Model, a: Expression, i: Expression)
    requires WellFormed(a) && WellFormed(i) && Eval(m, a).Some? && Eval(m, i).Some?
    ensures EvalAll(m, [a, i]) == Some([Eval(m, a).value, Eval(m, i).value])
  {
    hide Eval, WellFormed;
    var both, last: seq<Expression> := [a, i], [i];
    assert both[0] == a && both[1..] == last && last[0] == i && last[1..] == [];
    assert EvalAll(m, last) == Some([Eval(m, i).value] + []);
    assert EvalAll(m, both) == Some([Eval(m, a).value] + ([Eval(m, i).value] + []));
    assert [Eval(m, a).value] + ([Eval(m, i).value] + []) == [Eval(m, a).value, Eval(m, i).value];
  }

  lemma SelectIsDefault(variables: Symbol -> Sort, a: Expression, i: Expression)
    requires a.sort.ArraySort? && WellFormed(a) && WellFormed(i) && WellFormed(Select(a, i))
    requires var v := Eval(ArrayModel(variables), a); v.Some? && v.value.OtherValue? && v.value.sort == a.sort
    requires Eval(ArrayModel(variables), i).Some?
    ensures Eval(ArrayModel(variables), Select(a, i)) == Some(DefaultValue(a.sort.range))
  {
    var m, e := ArrayModel(variables), Select(a, i);
    EvalAllOfTwo(m, a, i);
    hide WellFormed, EvalAll, DefaultValue;
    SelectIsItsOwnName();
    assert Eval(m, e) == Apply(m, Word("select"), [Eval(m, a).value, Eval(m, i).value]);
  }

  lemma SelectIsItsOwnName()
    ensures "select" !in ["ite", "int2bv", "bv2int", "const_array", "tuple_get", "tuple_constructor", "bvneg", "bv2nat"]
    ensures "select" !in ["=", ">=", "+", "-", "*", "div", "mod"]
  {
    assert "select"[0] == 's' && "int2bv"[0] == 'i' && "bv2int"[0] == 'b' && "bv2nat"[0] == 'b';
  }

  // ------------------------------------------ signed arithmetic of the machine

  function Literal(n: nat): Expression { Expression(Num(n), [], IntSort(false)) }

  function Ite(c: Expression, a: Expression, b: Expression): Expression { Expression(Name("ite"), [c, a, b], a.sort) }
  function GreaterEqual(a: Expression, b: Expression): Expression { Expression(Name(">="), [a, b], BoolSort) }
  function Equal(a: Expression, b: Expression): Expression { Expression(Name("="), [a, b], BoolSort) }
  function Minus(a: Expression, b: Expression): Expression { Expression(Name("-"), [a, b], a.sort) }
  function Div(a: Expression, b: Expression): Expression { Expression(Name("div"), [a, b], a.sort) }
  function Mod(a: Expression, b: Expression): Expression { Expression(Name("mod"), [a, b], a.sort) }

  function SignedDivisionEVM(left: Expression, right: Expression): Expression {
    var zero := Literal(0);
    Ite(GreaterEqual(left, zero),
        Ite(GreaterEqual(right, zero), Div(left, right), Minus(zero, Div(left, Minus(zero, right)))),
        Ite(GreaterEqual(right, zero), Minus(zero, Div(Minus(zero, left), right)),
            Div(Minus(zero, left), Minus(zero, right))))
  }

  function AbsoluteValue(value: Expression): Expression {
    Ite(GreaterEqual(value, Literal(0)), value, Minus(Literal(0), value))
  }

  function SignedModuloEVM(left: Expression, right: Expression): Expression {
    var zero := Literal(0);
    Ite(GreaterEqual(left, zero),
        Mod(left, right),
        Ite(Equal(Mod(left, right), zero), zero, Minus(Mod(left, right), AbsoluteValue(right))))
  }

  /** `e` is well formed and stands for the number `n`. */
  predicate Denotes(m: Model, e: Expression, n: int) {
    WellFormed(e) && Eval(m, e) == Some(IntValue(n))
  }

  predicate Holds(m: Model, e: Expression, truth: bool) {
    WellFormed(e) && Eval(m, e) == Some(BoolValue(truth))
  }

  lemma ZeroDenotes(m: Model)
    ensures Denotes(m, Literal(0), 0)
  {
  }

  lemma BinaryEvaluates(m: Model, name: string, a: Expression, b: Expression, sort: Sort, x: int, y: int)
    requires Denotes(m, a, x) && Denotes(m, b, y) && name in {">=", "=", "-", "div", "mod"}
    ensures var e := Expression(Name(name), [a, b], sort);
            WellFormed(e) && Eval(m, e) == Apply(m, Word(name), [IntValue(x), IntValue(y)])
  {
    hide Apply;
    var e := Expression(Name(name), [a, b], sort);
    assert [a, b][1..] == [b] && [b][1..] == [];
    assert EvalAll(m, [b]) == Some([IntValue(y)]) by {
      assert EvalAll(m, []) == Some([]);
      assert [IntValue(y)] + [] == [IntValue(y)];
    }
    assert [IntValue(x)] + [IntValue(y)] == [IntValue(x), IntValue(y)];
  }

  lemma OperatorsMean(m: Model, a: Expression, b: Expression, x: int, y: int)
    requires Denotes(m, a, x) && Denotes(m, b, y)
    ensures Holds(m, GreaterEqual(a, b), x >= y) && Holds(m, Equal(a, b), x == y)
    ensures Denotes(m, Minus(a, b), x - y)
    ensures y != 0 ==> Denotes(m, Div(a, b), x / y) && Denotes(m, Mod(a, b), x % y)
  {
    BinaryEvaluates(m, ">=", a, b, BoolSort, x, y);
    BinaryEvaluates(m, "=", a, b, BoolSort, x, y);
    BinaryEvaluates(m, "-", a, b, a.sort, x, y);
    BinaryEvaluates(m, "div", a, b, a.sort, x, y);
    BinaryEvaluates(m, "mod", a, b, a.sort, x, y);
    hide Eval, WellFormed;
  }

  lemma IteMeans(m: Model, c: Expression, a: Expression, b: Expression, truth: bool, n: int)
    requires Holds(m, c, truth) && WellFormed(a) && WellFormed(b)
    requires Denotes(m, if truth then a else b, n)
    ensures Denotes(m, Ite(c, a, b), n)
  {
    hide Apply;
  }

  /** Division rounds towards zero: the remainder is smaller than the divisor and has the sign of the dividend. */
  predicate IsTruncatedDivision(x: int, y: int, q: int, r: int) {
    x == q * y + r && Abs(r) < Abs(y) && (x >= 0 ==> r >= 0) && (x <= 0 ==> r <= 0)
  }

  lemma QuotRemTruncate(x: int, y: int)
    requires y != 0
    ensures IsTruncatedDivision(x, y, Quot(x, y), Rem(x, y))
  {
    var q, r: int := Abs(x) / Abs(y), Abs(x) % Abs(y);
    assert Abs(x) == q * Abs(y) + r;
    NegateProduct(q, Abs(y));
    var s := Quot(x, y);
    assert s * y == if x >= 0 then q * Abs(y) else -(q * Abs(y)) by {
      NegateProduct(q, y);
    }
  }

  lemma NegateProduct(q: int, y: int)
    ensures -q * y == -(q * y) && q * -y == -(q * y) && -q * -y == q * y
  {
  }

  /** There is only one such quotient and remainder. */
  lemma TruncatedDivisionIsUnique(x: int, y: int, q: int, r: int, p: int, s: int)
    requires y != 0 && IsTruncatedDivision(x, y, q, r) && IsTruncatedDivision(x, y, p, s)
    ensures q == p && r == s
  {
    Distribute(q, p, y);
    NegateProduct(q - p, y);
    SmallMultiple(q - p, Abs(y));
  }

  lemma QuotByCases(x: int, y: int)
    requires y != 0
    ensures x >= 0 && y >= 0 ==> Quot(x, y) == x / y
    ensures x >= 0 && y < 0 ==> Quot(x, y) == 0 - x / (0 - y)
    ensures x < 0 && y >= 0 ==> Quot(x, y) == 0 - (0 - x) / y
    ensures x < 0 && y < 0 ==> Quot(x, y) == (0 - x) / (0 - y)
  {
  }

  lemma NextProduct(q: int, y: int)
    ensures (q + 1) * y == q * y + y && (q - 1) * y == q * y - y
  {
  }

  lemma TruncatedBy(x: int, y: int, q: int, r: int, product: int)
    requires product == q * y && x == product + r && Abs(r) < Abs(y) && (r != 0 ==> (r < 0 <==> x < 0))
    ensures IsTruncatedDivision(x, y, q, r)
  {
  }

  /** Rounding a Euclidean quotient towards zero. */
  lemma RoundedTowardsZero(x: int, y: int, q: int, m: int, product: int)
    requires y != 0 && product == q * y && x == product + m && 0 <= m < Abs(y)
    ensures x >= 0 || m == 0 ==> IsTruncatedDivision(x, y, q, m)
    ensures x < 0 && m != 0 ==> IsTruncatedDivision(x, y, if y > 0 then q + 1 else q - 1, m - Abs(y))
  {
    hide IsTruncatedDivision;
    if x >= 0 || m == 0 {
      TruncatedBy(x, y, q, m, product);
    } else {
      NextProduct(q, y);
      if y > 0 {
        TruncatedBy(x, y, q + 1, m - y, product + y);
      } else {
        TruncatedBy(x, y, q - 1, m + y, product - y);
      }
    }
  }

  /** From a remainder that is never negative to one with the sign of the dividend. */
  lemma RemFromEuclid(x: int, y: int, q: int, m: int)
    requires y != 0 && x == q * y + m && 0 <= m < Abs(y)
    ensures Rem(x, y) == if x >= 0 then m else if m == 0 then 0 else m - Abs(y)
  {
    QuotRemTruncate(x, y);
    RoundedTowardsZero(x, y, q, m, q * y);
    hide Quot, Rem, IsTruncatedDivision;
    if x >= 0 || m == 0 {
      TruncatedDivisionIsUnique(x, y, Quot(x, y), Rem(x, y), q, m);
    } else {
      TruncatedDivisionIsUnique(x, y, Quot(x, y), Rem(x, y), if y > 0 then q + 1 else q - 1, m - Abs(y));
    }
  }

  lemma RemByCases(x: int, y: int)
    requires y != 0
    ensures Rem(x, y) == if x >= 0 then x % y else if x % y == 0 then 0 else x % y - Abs(y)
  {
    assert x == x / y * y + x % y;
    hide Rem;
    RemFromEuclid(x, y, x / y, x % y);
  }

  /** The two inner branches of signed division. */
  lemma DivisionSides(m: Model, left: Expression, right: Expression, x: int, y: int)
    requires Denotes(m, left, x) && Denotes(m, right, y) && y != 0
    ensures var zero := Literal(0);
            var minusLeft, minusRight := Minus(zero, left), Minus(zero, right);
            && Denotes(m, Ite(GreaterEqual(right, zero), Div(left, right), Minus(zero, Div(left, minusRight))),
                       if y >= 0 then x / y else 0 - x / (0 - y))
            && Denotes(m, Ite(GreaterEqual(right, zero), Minus(zero, Div(minusLeft, right)),
                              Div(minusLeft, minusRight)),
                       if y >= 0 then 0 - (0 - x) / y else (0 - x) / (0 - y))
  {
    hide Denotes, Holds;
    var zero := Literal(0);
    ZeroDenotes(m);
    var minusLeft, minusRight := Minus(zero, left), Minus(zero, right);
    OperatorsMean(m, right, zero, y, 0);
    OperatorsMean(m, zero, left, 0, x);
    OperatorsMean(m, zero, right, 0, y);
    OperatorsMean(m, left, right, x, y);
    OperatorsMean(m, left, minusRight, x, 0 - y);
    OperatorsMean(m, minusLeft, right, 0 - x, y);
    OperatorsMean(m, minusLeft, minusRight, 0 - x, 0 - y);
    OperatorsMean(m, zero, Div(left, minusRight), 0, x / (0 - y));
    OperatorsMean(m, zero, Div(minusLeft, right), 0, (0 - x) / y);
    IteDenotes(m, GreaterEqual(right, zero), Div(left, right), Minus(zero, Div(left, minusRight)), y >= 0, x / y,
               0 - x / (0 - y));
    IteDenotes(m, GreaterEqual(right, zero), Minus(zero, Div(minusLeft, right)), Div(minusLeft, minusRight),
               y >= 0, 0 - (0 - x) / y, (0 - x) / (0 - y));
  }

  /** Division as the machine defines it, out of SMT-LIB division. */
  lemma SignedDivisionMeaning(m: Model, left: Expression, right: Expression, x: int, y: int)
    requires Denotes(m, left, x) && Denotes(m, right, y) && y != 0
    ensures Denotes(m, SignedDivisionEVM(left, right), Quot(x, y))
  {
    hide Denotes, Holds, Quot;
    var zero := Literal(0);
    ZeroDenotes(m);
    OperatorsMean(m, left, zero, x, 0);
    DivisionSides(m, left, right, x, y);
    QuotByCases(x, y);
    var minusLeft, minusRight := Minus(zero, left), Minus(zero, right);
    var positive := Ite(GreaterEqual(right, zero), Div(left, right), Minus(zero, Div(left, minusRight)));
    var negative := Ite(GreaterEqual(right, zero), Minus(zero, Div(minusLeft, right)), Div(minusLeft, minusRight));
    IteDenotes(m, GreaterEqual(left, zero), positive, negative, x >= 0,
               if y >= 0 then x / y else 0 - x / (0 - y), if y >= 0 then 0 - (0 - x) / y else (0 - x) / (0 - y));
  }

  lemma IteDenotes(m: Model, c: Expression, a: Expression, b: Expression, truth: bool, x: int, y: int)
    requires Holds(m, c, truth) && Denotes(m, a, x) && Denotes(m, b, y)
    ensures Denotes(m, Ite(c, a, b), if truth then x else y)
  {
    IteMeans(m, c, a, b, truth, if truth then x else y);
  }

  /** The remainder as the machine defines it, out of the SMT-LIB remainder. */
  lemma SignedModuloMeaning(m: Model, left: Expression, right: Expression, x: int, y: int)
    requires Denotes(m, left, x) && Denotes(m, right, y) && y != 0
    ensures Denotes(m, SignedModuloEVM(left, right), Rem(x, y))
  {
    hide Denotes, Holds, Rem;
    var zero := Literal(0);
    ZeroDenotes(m);
    OperatorsMean(m, left, zero, x, 0);
    OperatorsMean(m, right, zero, y, 0);
    OperatorsMean(m, zero, right, 0, y);
    OperatorsMean(m, left, right, x, y);
    var mod := Mod(left, right);
    OperatorsMean(m, mod, zero, x % y, 0);
    IteDenotes(m, GreaterEqual(right, zero), right, Minus(zero, right), y >= 0, y, 0 - y);
    assert Denotes(m, AbsoluteValue(right), Abs(y));
    OperatorsMean(m, mod, AbsoluteValue(right), x % y, Abs(y));
    var inner := Ite(Equal(mod, zero), zero, Minus(mod, AbsoluteValue(right)));
    IteDenotes(m, Equal(mod, zero), zero, Minus(mod, AbsoluteValue(right)), x % y == 0, 0, x % y - Abs(y));
    RemByCases(x, y);
    IteDenotes(m, GreaterEqual(left, zero), mod, inner, x >= 0, x % y, if x % y == 0 then 0 else x % y - Abs(y));
  }

  // ---------------------------------------------- tuples and the text of sorts

  /** In `m`, applying the accessor of a member to a constructed tuple gives that member. */
  ghost predicate AccessorsProject(m: Model, name: string, members: seq<string>) {
    forall vs: seq<Value>, i: nat :: i < |members| == |vs| ==>
      var tuple := m.functions(Word("|" + name + "|"), vs);
      tuple.Some? ==> m.functions(Word("|" + members[i] + "|"), [tuple.value]) == Some(vs[i])
  }

  function Tuple(name: string, members: seq<string>, es: seq<Expression>): Expression {
    Expression(Name("tuple_constructor"), es, TupleSort(name, members))
  }

  function Component(tuple: Expression, i: nat, sort: Sort): Expression {
    Expression(Name("tuple_get"), [tuple, Expression(Num(i), [], IntSort(false))], sort)
  }

  lemma QuotedIsNoOperation(m: Model, text: string, args: seq<Value>)
    ensures Apply(m, Word("|" + text + "|"), args) == m.functions(Word("|" + text + "|"), args)
  {
    var f := "|" + text + "|";
    assert f[0] == '|' && "="[0] == '=' && ">="[0] == '>' && "+"[0] == '+' && "-"[0] == '-' && "*"[0] == '*';
    assert "div"[0] == 'd' && "mod"[0] == 'm' && "bvneg"[0] == 'b' && "bv2nat"[0] == 'b';
  }

  lemma TupleIsWellFormed(name: string, members: seq<string>, es: seq<Expression>, i: nat, sort: Sort)
    requires |es| == |members| && i < |es| && forall j :: 0 <= j < |es| ==> WellFormed(es[j])
    ensures WellFormed(Tuple(name, members, es)) && WellFormed(Component(Tuple(name, members, es), i, sort))
  {
    var tuple := Tuple(name, members, es);
    assert Is(tuple, "tuple_constructor") && "tuple_constructor"[6] == 'c' && "tuple_get"[6] == 'g';
    assert "tuple_constructor"[0] == "tuple_get"[0] == 't' && "ite"[0] == "int2bv"[0] == 'i';
    assert "bv2int"[0] == 'b' && "const_array"[0] == 'c';
    assert WellFormed(tuple);
    assert WellFormed(Expression(Num(i), [], IntSort(false)));
  }

  lemma {:induction false} EvalAllAt(m: Model, es: seq<Expression>, i: nat)
    requires i < |es| && forall j :: 0 <= j < |es| ==> WellFormed(es[j])
    requires EvalAll(m, es).Some?
    ensures |EvalAll(m, es).value| == |es| && Eval(m, es[i]) == Some(EvalAll(m, es).value[i])
  {
    hide Eval, WellFormed;
    if i > 0 {
      EvalAllAt(m, es[1..], i - 1);
    } else if |es| > 1 {
      EvalAllAt(m, es[1..], 0);
    }
  }

  /** A component of a constructed tuple means the argument it was constructed from. */
  lemma ComponentOfTuple(m: Model, name: string, members: seq<string>, es: seq<Expression>, i: nat, sort: Sort)
    requires AccessorsProject(m, name, members)
    requires |es| == |members| && i < |es| && forall j :: 0 <= j < |es| ==> WellFormed(es[j])
    ensures WellFormed(Tuple(name, members, es)) && WellFormed(Component(Tuple(name, members, es), i, sort))
    ensures Eval(m, Tuple(name, members, es)).Some?
            ==> Eval(m, Component(Tuple(name, members, es), i, sort)) == Eval(m, es[i])
  {
    TupleIsWellFormed(name, members, es, i, sort);
    var tuple, component := Tuple(name, members, es), Component(Tuple(name, members, es), i, sort);
    if Eval(m, tuple).Some? {
      TupleMeans(m, name, members, es);
      var vs := EvalAll(m, es).value;
      EvalAllAt(m, es, i);
      QuotedIsNoOperation(m, name, vs);
      QuotedIsNoOperation(m, members[i], [Eval(m, tuple).value]);
      ComponentMeans(m, tuple, i, sort);
      hide Eval, EvalAll, Apply, WellFormed;
    }
  }

  lemma TupleMeans(m: Model, name: string, members: seq<string>, es: seq<Expression>)
    requires es != [] && WellFormed(Tuple(name, members, es))
    requires forall j :: 0 <= j < |es| ==> WellFormed(es[j])
    ensures var vs := EvalAll(m, es);
            Eval(m, Tuple(name, members, es)) == if vs.None? then None else Apply(m, Word("|" + name + "|"), vs.value)
  {
    var tuple := Tuple(name, members, es);
    assert Is(tuple, "tuple_constructor") && "tuple_constructor"[6] == 'c' && "tuple_get"[6] == 'g';
    assert "tuple_constructor"[0] == 't' && "ite"[0] == "int2bv"[0] == 'i';
    assert "bv2int"[0] == 'b' && "const_array"[0] == 'c';
    hide Apply, EvalAll, WellFormed;
  }

  lemma ComponentMeans(m: Model, tuple: Expression, i: nat, sort: Sort)
    requires WellFormed(tuple) && tuple.sort.TupleSort? && i < |tuple.sort.members|
    requires WellFormed(Component(tuple, i, sort)) && Eval(m, tuple).Some?
    ensures Eval(m, Component(tuple, i, sort))
         == Apply(m, Word("|" + tuple.sort.members[i] + "|"), [Eval(m, tuple).value])
  {
    assert "tuple_get"[0] == 't' && "ite"[0] == "int2bv"[0] == 'i' && "bv2int"[0] == 'b' && "const_array"[0] == 'c';
    var component := Component(tuple, i, sort);
    assert component.arguments[0] == tuple && component.arguments[1].name == Num(i);
    hide Apply, EvalAll, WellFormed;
  }

  /** An array of one value everywhere is that value under `as const` and a text of the sort of the array. */
  lemma ConstArrayMeans(m: Model, e: Expression)
    requires WellFormed(e) && Is(e, "const_array")
    ensures exists sort ::
              && SortOf(sort) == Some(Shown(e.arguments[0].sort.inner))
              && Eval(m, e) == var v := Eval(m, e.arguments[1]);
                               if v.None? then None
                               else m.functions(SList([Word("as"), Word("const"), sort]), [v.value])
  {
    var sort := SmtLibSort(e.arguments[0].sort.inner);
    SortReadBack(e.arguments[0].sort.inner);
    assert "as"[0] == 'a' && "_"[0] == '_';
    assert "const_array"[0] == 'c' && "ite"[0] == "int2bv"[0] == 'i' && "bv2int"[0] == 'b';
    hide SmtLibSort, SortOf, Shown, WellFormed, EvalAll;
    assert ConstArrayHead(e) == SList([Word("as"), Word("const"), sort]);
  }

  // Such accessors exist for all tuples of values.

  function MemberOf(members: seq<string>, vs: seq<Value>, head: SExpr): Option<Value>
    requires |members| == |vs|
  {
    if members == [] then None
    else if head == Word("|" + members[0] + "|") then Some(vs[0])
    else MemberOf(members[1..], vs[1..], head)
  }

  /** The tuple of the values `vs` is the only one that has a value here. */
  function TupleModel(name: string, members: seq<string>, vs: seq<Value>): Model
    requires |members| == |vs|
  {
    var tuple := OtherValue(TupleSort(name, members), 0);
    Model((s: Symbol) => None, (head: SExpr, args: seq<Value>) =>
      if head == Word("|" + name + "|") then (if args == vs then Some(tuple) else None)
      else if args == [tuple] then MemberOf(members, vs, head)
      else None)
  }

  lemma QuotedDiffer(a: string, b: string)
    requires a != b
    ensures Word("|" + a + "|") != Word("|" + b + "|")
  {
    var x, y := "|" + a + "|", "|" + b + "|";
    assert x[1..|x| - 1] == a && y[1..|y| - 1] == b;
  }

  lemma {:induction false} MemberIs(members: seq<string>, vs: seq<Value>, i: nat)
    requires i < |members| == |vs| && forall j, k :: 0 <= j < k < |members| ==> members[j] != members[k]
    ensures MemberOf(members, vs, Word("|" + members[i] + "|")) == Some(vs[i])
  {
    if i > 0 {
      QuotedDiffer(members[0], members[i]);
      MemberIs(members[1..], vs[1..], i - 1);
    }
  }

  lemma AccessorsCanProject(name: string, members: seq<string>, vs: seq<Value>)
    requires |vs| == |members| && name !in members
    requires forall j, k :: 0 <= j < k < |members| ==> members[j] != members[k]
    ensures AccessorsProject(TupleModel(name, members, vs), name, members)
    ensures TupleModel(name, members, vs).functions(Word("|" + name + "|"), vs).Some?
  {
    forall i: nat | i < |members|
      ensures MemberOf(members, vs, Word("|" + members[i] + "|")) == Some(vs[i])
              && Word("|" + members[i] + "|") != Word("|" + name + "|")
    {
      MemberIs(members, vs, i);
      QuotedDiffer(members[i], name);
    }
    hide MemberOf;
  }

  /** The sort an S-expression denotes in SMT-LIB. */
  function SortOf(t: SExpr): Option<Sort> {
    match t
    case Atom(Num(_)) => None
    case Atom(Name(text)) =>
      if text == "Int" then Some(IntSort(true))
      else if text == "Bool" then Some(BoolSort)
      else if |text| >= 2 && text[0] == '|' && text[|text| - 1] == '|' then Some(TupleSort(text[1..|text| - 1], []))
      else None
    case SList(items) =>
      if |items| != 3 then None
      else if items[0] == Word("_") && items[1] == Word("BitVec") && items[2].Atom? && items[2].symbol.Num? then
        Some(BitVectorSort(items[2].symbol.value))
      else if items[0] == Word("Array") then
        var domain, range := SortOf(items[1]), SortOf(items[2]);
        if domain.None? || range.None? then None else Some(ArraySort(domain.value, range.value))
      else None
  }

  /** The sort without what its text does not show: signs and the members of tuples. */
  function Shown(s: Sort): Sort {
    match s
    case IntSort(_) => IntSort(true)
    case ArraySort(domain, range) => ArraySort(Shown(domain), Shown(range))
    case TupleSort(name, _) => TupleSort(name, [])
    case _ => s
  }

  lemma {:induction false} SortReadBack(s: Sort)
    requires IsSortOfValues(s)
    ensures SortOf(SmtLibSort(s)) == Some(Shown(s))
  {
    match s
    case ArraySort(domain, range) =>
      SortReadBack(domain);
      SortReadBack(range);
      assert "Array"[0] == 'A' && "_"[0] == '_';
    case TupleSort(name, _) =>
      var text := "|" + name + "|";
      assert text[0] == '|' && "Int"[0] == 'I' && "Bool"[0] == 'B' && text[1..|text| - 1] == name;
    case IntSort(_) =>
    case BoolSort => assert "Bool"[0] == 'B' && "Int"[0] == 'I';
    case BitVectorSort(_) =>
  }
}
