// The Jacobian solver demo: numbered variables whose values live in one
// flat vector outside the variable objects, a printer and an evaluator for
// expressions over them, and a solver that stores an expression together
// with the simplified derivative by every variable.
module SolverDemo {
  import opened Wrappers
  import opened Ops
  import opened Tags
  import opened Nodes
  import opened Semantics
  import opened Terms
  import opened Decimal
  import opened Brackets
  import D = Differentiation
  import DP = DifferentiationProofs
  import S = Simplification
  import SP = SimplificationProofs

  /** Why a solver operation fails: an overload that does not exist for the
    * node (a compile error in the C++), a vector index out of range (`at`
    * throws), a number that has no double value in the model, or a
    * fixed-size vector or matrix index out of range. */
  datatype SolverError = NotCompiled | OutOfRange | NoValue | RangeError

  /** `DisambiguatedVariable`, the tag of every `Variable<Number>`. */
  const VariableTag: Tag := Named("DisambiguatedVariable")

  /** The type `Variable<Number>`. */
  function VariableKind(number: nat): LeafKind
  {
    Object("Variable<" + NatText(number) + ">", Some(VariableTag), false)
  }

  /** The object of type `Variable<Number>`.  Each variable type has one
    * global object in the demo; its identity is taken to be its number. */
  function Var(number: nat): Node
  {
    Leaf(VariableKind(number), number)
  }

  /** The text between the angle brackets of `Variable<...>`, when it is the
    * decimal text of a number. */
  function VariableNumber(k: LeafKind): Option<nat>
  {
    if k.Object? && k.disamb == Some(VariableTag) && !k.byRef
       && |k.typeName| >= 11 && k.typeName[..9] == "Variable<"
       && k.typeName[|k.typeName| - 1] == '>'
       && IsDigits(k.typeName[9..|k.typeName| - 1])
       && (|k.typeName| == 11 || k.typeName[9] != '0')
    then Some(DigitsValue(k.typeName[9..|k.typeName| - 1]))
    else None
  }

  /** A digit string without leading zeros is the text of its value. */
  lemma {:induction false} CanonicalDigits(s: string)
    requires |s| >= 1 && IsDigits(s) && (|s| == 1 || s[0] != '0')
    ensures NatText(DigitsValue(s)) == s
    ensures |s| > 1 ==> DigitsValue(s) >= 10
    decreases |s|
  {
    if |s| > 1 {
      var p := s[..|s| - 1];
      assert p[0] == s[0];
      assert IsDigits(p) by {
        forall i | 0 <= i < |p| ensures '0' <= p[i] <= '9' {
          assert p[i] == s[i];
        }
      }
      CanonicalDigits(p);
      if |p| == 1 {
        assert DigitsValue(p) == DigitsValue(p[..0]) * 10 + (p[0] as int - '0' as int);
      }
      var d := s[|s| - 1] as int - '0' as int;
      var v := DigitsValue(s);
      assert v == DigitsValue(p) * 10 + d;
      assert v / 10 == DigitsValue(p) && v % 10 == d;
      assert s == p + [Digit(d)];
    }
  }

  /** The number of a variable type is read back from its name. */
  lemma VariableNumberOf(number: nat)
    ensures VariableNumber(VariableKind(number)) == Some(number)
  {
    var t := "Variable<" + NatText(number) + ">";
    assert t[..9] == "Variable<" && t[9..|t| - 1] == NatText(number);
    NatTextValue(number);
  }

  /** Only the variable types have a number: a leaf kind with number
    * `Number` is `Variable<Number>`. */
  lemma VariableNumberKind(k: LeafKind, number: nat)
    requires VariableNumber(k) == Some(number)
    ensures k == VariableKind(number)
  {
    var t := k.typeName;
    var mid := t[9..|t| - 1];
    CanonicalDigits(mid);
    assert t == t[..9] + mid + [t[|t| - 1]];
  }

  /** Printing and reading a variable's number are inverse. */
  lemma VariableNumberIff(k: LeafKind, number: nat)
    ensures VariableNumber(k) == Some(number) <==> k == VariableKind(number)
  {
    VariableNumberOf(number);
    if VariableNumber(k) == Some(number) {
      VariableNumberKind(k, number);
    }
  }

  // ---------------------------------------------------------------------
  // `GetName`: the fully parenthesised text of an expression.

  /** `GetName(e)`: a variable prints as the name its `DECLARE_VARIABLE`
    * gave it, the zero, one and scalar of the variable tag as "0", "1" and
    * the text of the double; a unary node as "(" sym " " arg ")", a binary
    * node as "(" lhs " " sym " " rhs ")", and a rational power as
    * "(" arg ")^(" m "/" n ")".  Anything else has no overload. */
  function GetName(names: nat -> string, show: real -> string, e: Node): Result<string, SolverError>
  {
    match e
    case Leaf(k, _) =>
      if VariableNumber(k).Some? then Ok(names(VariableNumber(k).value)) else Err(NotCompiled)
    case Null(t) => if t == VariableTag then Ok("0") else Err(NotCompiled)
    case One(t) => if t == VariableTag then Ok("1") else Err(NotCompiled)
    case Scalar(v, t) => if t == VariableTag then Ok(show(v)) else Err(NotCompiled)
    case Un(op, a) =>
      var s :- GetName(names, show, a);
      Ok("(" + UnarySymbol(op) + " " + s + ")")
    case Bin(op, l, r) =>
      var x :- GetName(names, show, l);
      var y :- GetName(names, show, r);
      Ok("(" + x + (" " + BinarySymbol(op) + " ") + y + ")")
    case Pow(m, n, a) =>
      var s :- GetName(names, show, a);
      Ok("(" + s + ")" + "^" + ("(" + (IntText(m) + "/" + IntText(n)) + ")"))
  }

  /** The name of an `Expr` is that of its content. */
  function TermName(names: nat -> string, show: real -> string, t: Term): Result<string, SolverError>
  {
    GetName(names, show, if t.Plain? then t.node else t.content)
  }

  /** A text whose outermost brackets are a pair: it opens at its first
    * character, closes at its last, and is balanced in between. */
  predicate Enclosed(s: string)
  {
    |s| >= 2 && s[0] == '(' && s[|s| - 1] == ')' && Balanced(s[1..|s| - 1], '(', ')')
  }

  lemma SymbolsFree(u: UnaryOp, b: BinaryOp)
    ensures Free(UnarySymbol(u) + " ", '(', ')')
    ensures Free(" " + BinarySymbol(b) + " ", '(', ')')
  {
  }

  lemma IntTextFree(i: int)
    ensures Free(IntText(i), '(', ')')
  {
    var s := IntText(i);
    IntTextChars(i);
    forall k | 0 <= k < |s| ensures s[k] != '(' && s[k] != ')' {
      assert s[k] == '-' || '0' <= s[k] <= '9';
    }
  }

  lemma ParensFrame()
    ensures Frame("(", ")", '(', ')')
  {
    OneBracket("(", "", '(', "", '(', ')');
    OneBracket(")", "", ')', "", '(', ')');
  }

  /** A balanced text in brackets is balanced and enclosed. */
  lemma Bracketed(inner: string)
    requires Balanced(inner, '(', ')')
    ensures Balanced("(" + inner + ")", '(', ')') && Enclosed("(" + inner + ")")
  {
    ParensFrame();
    FrameBalanced("(", inner, ")", '(', ')');
    var s := "(" + inner + ")";
    assert s[1..|s| - 1] == inner;
  }

  lemma UnaryBracketed(sym: string, s: string)
    requires Free(sym + " ", '(', ')') && Balanced(s, '(', ')')
    ensures Balanced("(" + sym + " " + s + ")", '(', ')') && Enclosed("(" + sym + " " + s + ")")
  {
    NoBrackets(sym + " ", '(', ')');
    BalancedConcat(sym + " ", s, '(', ')');
    Bracketed(sym + " " + s);
    assert "(" + sym + " " + s + ")" == "(" + (sym + " " + s) + ")";
  }

  lemma BinaryBracketed(x: string, mid: string, y: string)
    requires Free(mid, '(', ')') && Balanced(x, '(', ')') && Balanced(y, '(', ')')
    ensures Balanced("(" + x + mid + y + ")", '(', ')') && Enclosed("(" + x + mid + y + ")")
  {
    NoBrackets(mid, '(', ')');
    BalancedConcat(x, mid, '(', ')');
    BalancedConcat(x + mid, y, '(', ')');
    Bracketed(x + mid + y);
    assert "(" + x + mid + y + ")" == "(" + (x + mid + y) + ")";
  }

  lemma PowerBracketed(s: string, m: int, n: int)
    requires Balanced(s, '(', ')')
    ensures Balanced("(" + s + ")" + "^" + ("(" + (IntText(m) + "/" + IntText(n)) + ")"), '(', ')')
  {
    var ex := IntText(m) + "/" + IntText(n);
    IntTextFree(m);
    IntTextFree(n);
    NoBrackets(IntText(m), '(', ')');
    NoBrackets("/", '(', ')');
    NoBrackets(IntText(n), '(', ')');
    NoBrackets("^", '(', ')');
    BalancedConcat(IntText(m), "/", '(', ')');
    BalancedConcat(IntText(m) + "/", IntText(n), '(', ')');
    Bracketed(s);
    Bracketed(ex);
    BalancedConcat("(" + s + ")", "^", '(', ')');
    BalancedConcat("(" + s + ")" + "^", "(" + ex + ")", '(', ')');
  }

  /** When no variable name and no number text contains a bracket, every
    * name is balanced, and the name of a unary or binary node is enclosed
    * in one pair of brackets: the printed text shows the tree's grouping. */
  lemma {:induction false} GetNameBracketed(names: nat -> string, show: real -> string, e: Node)
    requires forall k :: Free(names(k), '(', ')')
    requires forall v :: Free(show(v), '(', ')')
    requires GetName(names, show, e).Ok?
    ensures Balanced(GetName(names, show, e).value, '(', ')')
    ensures e.Un? || e.Bin? ==> Enclosed(GetName(names, show, e).value)
  {
    match e
    case Leaf(k, _) => NoBrackets(names(VariableNumber(k).value), '(', ')');
    case Null(_) => NoBrackets("0", '(', ')');
    case One(_) => NoBrackets("1", '(', ')');
    case Scalar(v, _) => NoBrackets(show(v), '(', ')');
    case Un(op, a) =>
      GetNameBracketed(names, show, a);
      SymbolsFree(op, Plus);
      UnaryBracketed(UnarySymbol(op), GetName(names, show, a).value);
    case Bin(op, l, r) =>
      GetNameBracketed(names, show, l);
      GetNameBracketed(names, show, r);
      SymbolsFree(UPlus, op);
      BinaryBracketed(GetName(names, show, l).value, " " + BinarySymbol(op) + " ", GetName(names, show, r).value);
    case Pow(m, n, a) =>
      GetNameBracketed(names, show, a);
      PowerBracketed(GetName(names, show, a).value, m, n);
  }

  // ---------------------------------------------------------------------
  // `GetValue`: the value of an expression at one sample of the variables.

  /** The value of `Variable<Number>` at sample `index`, read from the flat
    * vector at `index * NumberOfVars + Number - 1` with a checked access. */
  function GetVariable(values: seq<real>, index: nat, nv: nat, number: nat): (r: Result<real, SolverError>)
    ensures r.Ok? <==> 1 <= index * nv + number <= |values|
    ensures r.Ok? ==> r.value == values[index * nv + number - 1]
    ensures r.Err? ==> r == Err(OutOfRange)
  {
    var p := index * nv + number - 1;
    if 0 <= p < |values| then Ok(values[p]) else Err(OutOfRange)
  }

  /** `GetValue(e, V, index)`: leaves as `GetName` has them, each operation
    * by its double `Apply`; a power has an `Apply` only for denominator 1. */
  function GetValue(values: seq<real>, index: nat, nv: nat, e: Node): Result<real, SolverError>
  {
    match e
    case Leaf(k, _) =>
      if VariableNumber(k).Some? then GetVariable(values, index, nv, VariableNumber(k).value)
      else Err(NotCompiled)
    case Null(t) => if t == VariableTag then Ok(0.0) else Err(NotCompiled)
    case One(t) => if t == VariableTag then Ok(1.0) else Err(NotCompiled)
    case Scalar(v, t) => if t == VariableTag then Ok(v) else Err(NotCompiled)
    case Un(op, a) =>
      var x :- GetValue(values, index, nv, a);
      if ApplyUnary(op, x).Some? then Ok(ApplyUnary(op, x).value) else Err(NoValue)
    case Bin(op, l, r) =>
      var x :- GetValue(values, index, nv, l);
      var y :- GetValue(values, index, nv, r);
      if ApplyBinary(op, x, y).Some? then Ok(ApplyBinary(op, x, y).value) else Err(NoValue)
    case Pow(m, n, a) =>
      if n != 1 then Err(NotCompiled)
      else
        var x :- GetValue(values, index, nv, a);
        if Power(x, m).Some? then Ok(Power(x, m).value) else Err(NoValue)
  }

  /** The public `GetValue(V, index)` of a stored expression: that of its
    * content. */
  function TermValue(values: seq<real>, index: nat, nv: nat, t: Term): Result<real, SolverError>
  {
    GetValue(values, index, nv, if t.Plain? then t.node else t.content)
  }

  /** The point of sample `index`: each variable has the value stored for
    * it, every other leaf the value 0 (`GetValue` rejects them anyway). */
  function SampleEnv(values: seq<real>, index: nat, nv: nat): Env
  {
    (k: LeafKind, id: nat) =>
      if VariableNumber(k).Some? && GetVariable(values, index, nv, VariableNumber(k).value).Ok?
      then GetVariable(values, index, nv, VariableNumber(k).value).value
      else 0.0
  }

  /** `GetValue` computes the value of the tree at the sample's point, and it
    * fails for want of a value only where the tree has none there. */
  lemma {:induction false} GetValueIsEval(values: seq<real>, index: nat, nv: nat, e: Node)
    ensures GetValue(values, index, nv, e).Ok? ==>
              Eval(SampleEnv(values, index, nv), e) == Some(GetValue(values, index, nv, e).value)
    ensures GetValue(values, index, nv, e) == Err(NoValue) ==> Eval(SampleEnv(values, index, nv), e).None?
  {
    match e
    case Leaf(_, _) =>
    case Null(_) =>
    case One(_) =>
    case Scalar(_, _) =>
    case Un(_, a) => GetValueIsEval(values, index, nv, a);
    case Bin(_, l, r) =>
      GetValueIsEval(values, index, nv, l);
      GetValueIsEval(values, index, nv, r);
    case Pow(m, n, a) =>
      GetValueIsEval(values, index, nv, a);
      if n == 1 {
        assert NormDen(m, n) == 1 && NormNum(m, n) == m;
      }
  }

  /** The trees whose `GetValue` compiles: variables, and constants and
    * scalars with the variables' features, under unary and binary
    * operations and powers with denominator 1 (`RationalPower<m, 1>`, the
    * one `RationalPower` whose `Apply` compiles). */
  predicate ValueCompiles(e: Node)
  {
    match e
    case Leaf(k, _) => VariableNumber(k).Some?
    case Null(t) => t == VariableTag
    case One(t) => t == VariableTag
    case Scalar(_, t) => t == VariableTag
    case Un(_, a) => ValueCompiles(a)
    case Bin(_, l, r) => ValueCompiles(l) && ValueCompiles(r)
    case Pow(_, n, a) => n == 1 && ValueCompiles(a)
  }

  /** `GetValue` of a tree `ValueCompiles` accepts never fails to compile,
    * and that of any other tree fails. */
  lemma {:induction false} ValueCompilesMeaning(values: seq<real>, index: nat, nv: nat, e: Node)
    ensures ValueCompiles(e) ==> GetValue(values, index, nv, e) != Err(NotCompiled)
    ensures !ValueCompiles(e) ==> GetValue(values, index, nv, e).Err?
  {
    match e
    case Leaf(_, _) =>
    case Null(_) =>
    case One(_) =>
    case Scalar(_, _) =>
    case Un(_, a) => ValueCompilesMeaning(values, index, nv, a);
    case Bin(_, l, r) =>
      ValueCompilesMeaning(values, index, nv, l);
      ValueCompilesMeaning(values, index, nv, r);
    case Pow(_, _, a) => ValueCompilesMeaning(values, index, nv, a);
  }

  /** `RationalPow<3,2>(a)`, the third expression of the demo, has no
    * `GetValue` that compiles. */
  lemma DemoRationalPowNotCompiled(values: seq<real>, index: nat, nv: nat)
    ensures !ValueCompiles(Pow(3, 2, Var(1)))
    ensures GetValue(values, index, nv, Pow(3, 2, Var(1))) == Err(NotCompiled)
  {
  }

  // ---------------------------------------------------------------------
  // The values vector and `Resize`.

  /** One sample as `Resize` fills it: variable `j+1` has the value `j+1`. */
  function Sample(nv: nat): (r: seq<real>)
    ensures |r| == nv
  {
    seq(nv, j => j as real + 1.0)
  }

  /** `size` samples one after the other. */
  function Samples(nv: nat, size: nat): (r: seq<real>)
    ensures |r| == nv * size
  {
    if size == 0 then [] else Samples(nv, size - 1) + Sample(nv)
  }

  /** After `Resize`, entry `i * NumberOfVars + j` holds `j + 1`. */
  lemma {:induction false} SamplesAt(nv: nat, size: nat, i: nat, j: nat)
    requires i < size && j < nv
    ensures i * nv + j < nv * size && Samples(nv, size)[i * nv + j] == j as real + 1.0
  {
    if i < size - 1 {
      SamplesAt(nv, size - 1, i, j);
    } else {
      assert i * nv + j == nv * (size - 1) + j;
    }
  }

  /** After `Resize(size)`, variable `Number` reads the value `Number` at
    * every sample below `size` and is out of range at every later one. */
  lemma ResizedVariable(nv: nat, size: nat, index: nat, number: nat)
    requires 1 <= number <= nv
    ensures index < size ==> GetVariable(Samples(nv, size), index, nv, number) == Ok(number as real)
    ensures index >= size ==> GetVariable(Samples(nv, size), index, nv, number) == Err(OutOfRange)
  {
    if index < size {
      SamplesAt(nv, size, index, number - 1);
    } else {
      assert index * nv >= size * nv by { MulMonotone(size, index, nv); }
    }
  }

  lemma MulMonotone(a: nat, b: nat, c: nat)
    requires a <= b
    ensures a * c <= b * c
  {
  }

  /** `std::vector::resize(n)`: keeps the first `n` entries and pads with
    * zeros. */
  function Resized(v: seq<real>, n: nat): (r: seq<real>)
    ensures |r| == n
    ensures forall p :: 0 <= p < n ==> r[p] == if p < |v| then v[p] else 0.0
  {
    if n <= |v| then v[..n] else v + seq(n - |v|, _ => 0.0)
  }

  // ---------------------------------------------------------------------
  // Derivatives as `StoreDiff` computes them.

  /** `AccessibleBaseClass<NumberOfVars>`, the features every stored
    * expression is given. */
  function AccessorTag(nv: nat): Tag
  {
    Named("AccessibleBaseClass<" + NatText(nv) + ">")
  }

  /** `ChangeDisambiguation<Accessor>(Simplify(Diff(e, Variable<Col>)))`
    * with the corrected differentiation and simplification rules; `fuel`
    * bounds the template depth of `Simplify`. */
  function Derivative(nv: nat, e: Term, col: nat, fuel: nat): (r: Result<Term, SolverError>)
    ensures r.Ok? ==> r.value.Changed? && r.value.newTag == AccessorTag(nv)
  {
    match D.DiffTerm(e, Plain(Var(col)), D.DiffCorrected)
    case Err(_) => Err(NotCompiled)
    case Ok(d) =>
      match S.Simplify(d, S.Corrected, fuel)
      case Err(_) => Err(NotCompiled)
      case Ok(s) => Ok(Changed(s.content, AccessorTag(nv)))
  }

  /** The stored derivative of a well-formed expression by variable `Col`,
    * evaluated at a sample, is the partial derivative of the expression by
    * that variable at the sample's point. */
  lemma DerivativeIsSlope(values: seq<real>, index: nat, nv: nat, e: Term, col: nat, fuel: nat, s: real)
    requires e.Wrapped? && WellFormed(e.content)
    requires Derivative(nv, e, col, fuel).Ok?
    requires D.Slope(SampleEnv(values, index, nv), e.content, Plain(Var(col))) == Some(s)
    requires TermValue(values, index, nv, Derivative(nv, e, col, fuel).value).Ok?
    ensures TermValue(values, index, nv, Derivative(nv, e, col, fuel).value) == Ok(s)
  {
    var env := SampleEnv(values, index, nv);
    var wrt := Plain(Var(col));
    DP.DiffTermResult(e, wrt, D.DiffCorrected);
    var r := D.Diff(e.content, wrt, D.DiffCorrected).value;
    DP.DiffSound(env, e.content, wrt, D.DiffCorrected, r, s);
    DP.DiffPreserves(e.content, wrt, D.DiffCorrected, r);
    SP.SimplifySound(env, Wrapped(r), fuel);
    var t := S.Simplify(Wrapped(r), S.Corrected, fuel).value;
    GetValueIsEval(values, index, nv, t.content);
  }

  /** The Jacobian after `StoreDiff<Row, Col>` down to column 1: cells
    * `(Row, Col)`, `(Row, Col-1)`, ..., `(Row, 1)` are set in that order. */
  function StoredDiffs(jac: map<(nat, nat), Term>, nv: nat, row: nat, e: Term, fuel: nat, col: nat): map<(nat, nat), Term>
    requires forall c :: 1 <= c <= col ==> Derivative(nv, e, c, fuel).Ok?
    decreases col
  {
    if col == 0 then jac
    else StoredDiffs(jac[(row, col) := Derivative(nv, e, col, fuel).value], nv, row, e, fuel, col - 1)
  }

  /** Storing the derivatives fills exactly the row's cells `1..Col` with the
    * derivatives by their column's variable and keeps every other cell. */
  lemma {:induction false} StoredDiffsAt(jac: map<(nat, nat), Term>, nv: nat, row: nat, e: Term, fuel: nat, col: nat, key: (nat, nat))
    requires forall c :: 1 <= c <= col ==> Derivative(nv, e, c, fuel).Ok?
    ensures key.0 == row && 1 <= key.1 <= col ==>
              key in StoredDiffs(jac, nv, row, e, fuel, col)
              && StoredDiffs(jac, nv, row, e, fuel, col)[key] == Derivative(nv, e, key.1, fuel).value
    ensures !(key.0 == row && 1 <= key.1 <= col) ==>
              (key in StoredDiffs(jac, nv, row, e, fuel, col) <==> key in jac)
              && (key in jac ==> StoredDiffs(jac, nv, row, e, fuel, col)[key] == jac[key])
    decreases col
  {
    if col > 0 {
      StoredDiffsAt(jac[(row, col) := Derivative(nv, e, col, fuel).value], nv, row, e, fuel, col - 1, key);
    }
  }

  // ---------------------------------------------------------------------
  // The solver.

  class Solver {
    /** `NumberOfVars`. */
    const nv: nat
    /** `Values_`: sample after sample, `nv` values each. */
    var values: seq<real>
    /** `Expressions_`: the expression registered for each row. */
    var expressions: map<nat, Term>
    /** `Jacobian_`: the derivative registered for each (row, column). */
    var jacobian: map<(nat, nat), Term>

    constructor(numberOfVars: nat)
      ensures nv == numberOfVars && values == [] && expressions == map[] && jacobian == map[]
    {
      nv := numberOfVars;
      values := [];
      expressions := map[];
      jacobian := map[];
    }

    /** `Resize(size)`: makes room for `size` samples and fills each with the
      * values 1, 2, ..., `NumberOfVars`. */
    method Resize(size: nat)
      modifies this
      ensures values == Samples(nv, size)
      ensures expressions == old(expressions) && jacobian == old(jacobian)
    {
      values := Resized(values, nv * size);
      var i := 0;
      while i < size
        invariant 0 <= i <= size
        invariant |values| == nv * size
        invariant values[..i * nv] == Samples(nv, i)
        invariant expressions == old(expressions) && jacobian == old(jacobian)
      {
        MulMonotone(i + 1, size, nv);
        FillSample(i);
        assert values[..i * nv + nv] == values[..i * nv] + values[i * nv..i * nv + nv];
        i := i + 1;
      }
      assert values[..i * nv] == values;
    }

    /** The inner loop of `Resize`: entries `i*nv + j` for `j < nv`. */
    method FillSample(i: nat)
      requires i * nv + nv <= |values|
      modifies this
      ensures |values| == |old(values)|
      ensures values[..i * nv] == old(values)[..i * nv]
      ensures values[i * nv..i * nv + nv] == Sample(nv)
      ensures expressions == old(expressions) && jacobian == old(jacobian)
    {
      var j := 0;
      while j < nv
        invariant 0 <= j <= nv
        invariant |values| == |old(values)|
        invariant values[..i * nv] == old(values)[..i * nv]
        invariant forall p :: i * nv <= p < i * nv + j ==> values[p] == (p - i * nv) as real + 1.0
        invariant expressions == old(expressions) && jacobian == old(jacobian)
      {
        values := values[i * nv + j := j as real + 1.0];
        j := j + 1;
      }
      forall q | 0 <= q < nv
        ensures values[i * nv..i * nv + nv][q] == Sample(nv)[q]
      {
        assert values[i * nv..i * nv + nv][q] == values[i * nv + q];
      }
    }

    /** The C++ rejects `AddExpression(e)` unless `e` is an `Expr`, every
      * derivative of it compiles, and the `GetValue` of the stored copies of
      * `e` and of its derivatives compiles. */
    predicate Registrable(e: Term, fuel: nat)
    {
      e.Wrapped? && ValueCompiles(e.content)
      && forall c :: 1 <= c <= nv ==>
           Derivative(nv, e, c, fuel).Ok? && ValueCompiles(Derivative(nv, e, c, fuel).value.content)
    }

    /** `StoreDiff<Row, Col>::Apply(e, Jacobian_)`: stores the derivative by
      * variable `Col`, then recurses down to column 1. */
    method StoreDiff(row: nat, e: Term, fuel: nat, col: nat)
      requires col <= nv && Registrable(e, fuel)
      modifies this
      ensures jacobian == StoredDiffs(old(jacobian), nv, row, e, fuel, col)
      ensures values == old(values) && expressions == old(expressions)
      decreases col
    {
      if col > 0 {
        jacobian := jacobian[(row, col) := Derivative(nv, e, col, fuel).value];
        StoreDiff(row, e, fuel, col - 1);
      }
    }

    /** `AddExpression<Row>(e)`: an expression that is not registrable does
      * not compile and a row outside `1..NumberOfVars` is out of range;
      * otherwise the expression, with the accessor features, goes to row
      * `Row`, and the derivative by each variable to the row's cells. */
    method AddExpression(row: nat, e: Term, fuel: nat) returns (r: Result<(), SolverError>)
      modifies this
      ensures !Registrable(e, fuel) ==> r == Err(NotCompiled)
      ensures Registrable(e, fuel) && !(1 <= row <= nv) ==> r == Err(RangeError)
      ensures r.Err? ==> values == old(values) && expressions == old(expressions) && jacobian == old(jacobian)
      ensures r.Ok? ==>
                Registrable(e, fuel) && 1 <= row <= nv
                && expressions == old(expressions)[row := Changed(e.content, AccessorTag(nv))]
                && jacobian == StoredDiffs(old(jacobian), nv, row, e, fuel, nv)
                && values == old(values)
    {
      if !Registrable(e, fuel) {
        return Err(NotCompiled);
      }
      if !(1 <= row <= nv) {
        return Err(RangeError);
      }
      expressions := expressions[row := ChangeDisambiguation(AccessorTag(nv), e).value];
      StoreDiff(row, e, fuel, nv);
      return Ok(());
    }
  }
}
