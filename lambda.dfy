// The "poor man's lambda" demo: an expression over the placeholder `x`
// whose tag is `Comparison` is a predicate.  Called with a number it
// evaluates the tree with `x` bound to that number, and `copy_if` keeps the
// numbers for which it is true.  The numbers are 32-bit C++ `int`s:
// arithmetic results stay integers (a result outside the `int` range is
// undefined behaviour), comparisons and logical operators give `bool`, and
// `/` and `%` round toward zero.
module LambdaDemo {
  import opened Wrappers
  import opened Ops
  import opened Tags
  import opened Nodes
  import opened Terms

  /** `MyLambda::X`, the placeholder type, whose `Disambiguation` is
    * `Comparison`. */
  const Placeholder: LeafKind := Object("X", Some(Comparison), false)

  /** Why evaluating a predicate fails: no overload or an ill-formed
    * operation for the operand types, behaviour the C++ leaves undefined
    * (division by zero), or an operation on values this model does not
    * represent (user objects, bitwise operators and shifts). */
  datatype LambdaError = NotCompiled | Undefined | Unmodelled

  /** A value the evaluator computes: an `int` (the element type `T`) or a
    * `bool`. */
  datatype Value = IntV(i: int) | BoolV(b: bool)

  /** The range of a 32-bit `int`; signed arithmetic whose exact result lies
    * outside it is undefined. */
  const IntMin: int := -0x8000_0000
  const IntMax: int := 0x7FFF_FFFF

  predicate InIntRange(a: int)
  {
    IntMin <= a <= IntMax
  }

  /** An arithmetic result: the `int` when it is representable. */
  function IntResult(a: int): (r: Result<Value, LambdaError>)
    ensures r.Ok? <==> InIntRange(a)
    ensures r.Ok? ==> r.value == IntV(a)
    ensures r.Err? ==> r.error == Undefined
  {
    if InIntRange(a) then Ok(IntV(a)) else Err(Undefined)
  }

  /** The integral promotion of a value (`false` is 0 and `true` is 1). */
  function AsInt(v: Value): int
  {
    match v
    case IntV(i) => i
    case BoolV(b) => if b then 1 else 0
  }

  /** The boolean conversion of a value (every non-zero `int` is true). */
  function AsBool(v: Value): bool
  {
    match v
    case IntV(i) => i != 0
    case BoolV(b) => b
  }

  function Abs(a: int): nat
  {
    if a < 0 then -a else a
  }

  /** `a / b` on `int`: the quotient rounded toward zero. */
  function TruncDiv(a: int, b: int): int
    requires b != 0
  {
    if (a < 0) == (b < 0) then Abs(a) / Abs(b) else -(Abs(a) / Abs(b))
  }

  /** `a % b` on `int`: the remainder takes the sign of `a`. */
  function TruncRem(a: int, b: int): int
    requires b != 0
  {
    if a < 0 then -(Abs(a) % Abs(b)) else Abs(a) % Abs(b)
  }

  /** The C++ guarantees for integer division: `(a/b)*b + a%b == a`, the
    * remainder is smaller than the divisor in magnitude and has the sign of
    * the dividend, and the quotient is never larger in magnitude than the
    * exact one. */
  lemma TruncDivRem(a: int, b: int)
    requires b != 0
    ensures TruncDiv(a, b) * b + TruncRem(a, b) == a
    ensures Abs(TruncRem(a, b)) < Abs(b)
    ensures TruncRem(a, b) == 0 || (TruncRem(a, b) < 0 <==> a < 0)
    ensures Abs(TruncDiv(a, b)) * Abs(b) <= Abs(a)
  {
    DivMod(Abs(a), Abs(b));
    SignedDivision(a, b, Abs(a) / Abs(b), Abs(a) % Abs(b));
  }

  /** The division facts, from the quotient and remainder of the magnitudes. */
  lemma SignedDivision(a: int, b: int, q: int, r: int)
    requires b != 0 && q >= 0 && q * Abs(b) + r == Abs(a) && 0 <= r < Abs(b)
    ensures var t := if (a < 0) == (b < 0) then q else -q;
      t * b + (if a < 0 then -r else r) == a && Abs(t) * Abs(b) <= Abs(a)
  {
    if a < 0 && b < 0 {
      assert q * b == -(q * Abs(b));
    } else if a < 0 {
      assert (-q) * b == -(q * b);
    } else if b < 0 {
      assert (-q) * b == q * Abs(b);
    }
  }

  lemma DivMod(aa: nat, bb: nat)
    requires bb > 0
    ensures (aa / bb) * bb + aa % bb == aa && 0 <= aa % bb < bb && aa / bb >= 0
  {
  }

  /** The operations whose `ReturnType` is the element type `T`; every other
    * operation returns `bool`. */
  predicate ArithmeticUnary(op: UnaryOp)
  {
    op in {UPlus, UMinus, PreIncrement, PreDecrement, Complement}
  }

  predicate ArithmeticBinary(op: BinaryOp)
  {
    op in {Plus, Minus, Multiply, Divide, ModuloAliasRemainder}
  }

  /** `OP::Apply(arg, Hint<ReturnType<OP>>)`: `OP(arg)` converted to the
    * return type.  The increments are ill-formed on the constant argument,
    * so is dereferencing an `int`; the address of the argument converts to
    * `true`; a do-nothing matrix operation returns its argument.  Negating
    * the smallest `int` is undefined. */
  function ApplyUnaryOp(op: UnaryOp, x: Value): (r: Result<Value, LambdaError>)
    ensures r.Ok? ==> (r.value.IntV? <==> ArithmeticUnary(op))
    ensures op in {PreIncrement, PreDecrement, Dereference} <==> r == Err(NotCompiled)
    ensures r == Err(Undefined) <==> op == UMinus && !InIntRange(-AsInt(x))
  {
    match op
    case UPlus => Ok(IntV(AsInt(x)))
    case UMinus => IntResult(-AsInt(x))
    case Complement => Ok(IntV(-AsInt(x) - 1))
    case Not => Ok(BoolV(!AsBool(x)))
    case AddressOf => Ok(BoolV(true))
    case PreIncrement => Err(NotCompiled)
    case PreDecrement => Err(NotCompiled)
    case Dereference => Err(NotCompiled)
    case _ => Ok(BoolV(AsBool(x)))
  }

  /** `OP::Apply(lhs, rhs, Hint<ReturnType<OP>>)`: `lhs OP rhs` converted to
    * the return type, with `bool` operands promoted to `int`.  Division by
    * zero is undefined, and so is arithmetic whose exact result is not an
    * `int` (for `%`, when the quotient is not); `%=` is ill-formed on a
    * constant operand. */
  function ApplyBinaryOp(op: BinaryOp, x: Value, y: Value): (r: Result<Value, LambdaError>)
    ensures r.Ok? ==> (r.value.IntV? <==> ArithmeticBinary(op))
    ensures r.Ok? && ArithmeticBinary(op) ==> InIntRange(r.value.i)
    ensures op in {Divide, ModuloAliasRemainder} && AsInt(y) == 0 ==> r == Err(Undefined)
    ensures op == Divide && AsInt(y) != 0 ==> (r.Ok? <==> InIntRange(TruncDiv(AsInt(x), AsInt(y))))
    ensures op == ModuloAliasRemainder && AsInt(y) != 0 ==>
              (r.Ok? <==> InIntRange(TruncDiv(AsInt(x), AsInt(y))) && InIntRange(TruncRem(AsInt(x), AsInt(y))))
    ensures op == Plus ==> (r.Ok? <==> InIntRange(AsInt(x) + AsInt(y)))
    ensures op == Minus ==> (r.Ok? <==> InIntRange(AsInt(x) - AsInt(y)))
    ensures op == Multiply ==> (r.Ok? <==> InIntRange(AsInt(x) * AsInt(y)))
    ensures r == Err(Undefined) ==> ArithmeticBinary(op)
    ensures r == Err(NotCompiled) <==> op == ModuloAndAssign
  {
    var a, b := AsInt(x), AsInt(y);
    match op
    case Plus => IntResult(a + b)
    case Minus => IntResult(a - b)
    case Multiply => IntResult(a * b)
    case Divide => if b == 0 then Err(Undefined) else IntResult(TruncDiv(a, b))
    case ModuloAliasRemainder =>
      if b == 0 || !InIntRange(TruncDiv(a, b)) then Err(Undefined) else IntResult(TruncRem(a, b))
    case LessThan => Ok(BoolV(a < b))
    case LessThanOrEqual => Ok(BoolV(a <= b))
    case GreaterThan => Ok(BoolV(a > b))
    case GreaterThanOrEqual => Ok(BoolV(a >= b))
    case Equal => Ok(BoolV(a == b))
    case NotEqual => Ok(BoolV(a != b))
    case LogicalAnd => Ok(BoolV(AsBool(x) && AsBool(y)))
    case LogicalInclusiveOr => Ok(BoolV(AsBool(x) || AsBool(y)))
    case ModuloAndAssign => Err(NotCompiled)
    case _ => Err(Unmodelled)
  }

  /** `Evaluator<T>(d)(e)`: the placeholder gives the bound value `d`, a
    * literal reaches through as itself, and every operation applies to the
    * evaluated children.  The library's own atoms have no operators with an
    * `int`; a power `x^(m/1)` is `pow(x, m)`, a double converted to `bool`. */
  function Evaluate(d: int, e: Node): Result<Value, LambdaError>
  {
    match e
    case Leaf(k, _) =>
      if k == Placeholder then Ok(IntV(d))
      else if k.Literal? then Ok(IntV(k.value))
      else Err(Unmodelled)
    case Null(_) => Err(NotCompiled)
    case One(_) => Err(NotCompiled)
    case Scalar(_, _) => Err(NotCompiled)
    case Un(op, a) =>
      var x :- Evaluate(d, a);
      ApplyUnaryOp(op, x)
    case Bin(op, l, r) =>
      var x :- Evaluate(d, l);
      var y :- Evaluate(d, r);
      ApplyBinaryOp(op, x, y)
    case Pow(m, n, a) =>
      if n != 1 then Err(NotCompiled)
      else
        var x :- Evaluate(d, a);
        Ok(BoolV(AsInt(x) != 0 || m <= 0))
  }

  /** Every `int` literal of the tree is in the `int` range. */
  predicate LiteralsInRange(e: Node)
  {
    match e
    case Leaf(k, _) => k.Literal? ==> InIntRange(k.value)
    case Un(_, a) => LiteralsInRange(a)
    case Pow(_, _, a) => LiteralsInRange(a)
    case Bin(_, l, r) => LiteralsInRange(l) && LiteralsInRange(r)
    case _ => true
  }

  /** Evaluating `int`s gives an `int` or fails: no value the evaluator
    * returns lies outside the range. */
  lemma {:induction false} EvaluateStaysInRange(d: int, e: Node)
    requires InIntRange(d) && LiteralsInRange(e)
    ensures Evaluate(d, e).Ok? ==> InIntRange(AsInt(Evaluate(d, e).value))
  {
    match e
    case Leaf(_, _) =>
    case Null(_) =>
    case One(_) =>
    case Scalar(_, _) =>
    case Un(_, a) => EvaluateStaysInRange(d, a);
    case Pow(_, _, a) =>
    case Bin(_, l, r) =>
      EvaluateStaysInRange(d, l);
      EvaluateStaysInRange(d, r);
  }

  /** The `operator()` that `FeaturesOfExpression<Comparison, T>` gives an
    * `Expr`: the unwrapped tree evaluated with `x` bound to `d`, converted
    * to `bool`.  Only an `Expr` with the `Comparison` features has it, and
    * the evaluator's entry points are its unary and binary overloads (a
    * power is a unary node). */
  function Satisfies(p: Term, d: int): Result<bool, LambdaError>
  {
    if !IsExpr(p) || FeaturesTag(p) != Some(Comparison) then Err(NotCompiled)
    else
      match Unwrap(p)
      case Err(_) => Err(NotCompiled)
      case Ok(n) =>
        if !(n.Un? || n.Bin? || n.Pow?) then Err(NotCompiled)
        else
          var v :- Evaluate(d, n);
          Ok(AsBool(v))
  }

  // ---------------------------------------------------------------------
  // The Comparison tag.

  /** The tree mentions the placeholder. */
  predicate Mentions(e: Node)
  {
    match e
    case Leaf(k, _) => k == Placeholder
    case Un(_, a) => Mentions(a)
    case Pow(_, _, a) => Mentions(a)
    case Bin(_, l, r) => Mentions(l) || Mentions(r)
    case _ => false
  }

  /** A binary operation with an operand tagged `Comparison` compiles and is
    * tagged `Comparison`, whatever the other operand is. */
  lemma ComparisonAbsorbs(op: BinaryOp, lhs: Term, rhs: Term)
    requires Unwrap(lhs).Ok? && Unwrap(rhs).Ok?
    requires OperandTag(Unwrap(lhs).value) == Comparison || OperandTag(Unwrap(rhs).value) == Comparison
    ensures BinaryNode(op, lhs, rhs).Ok?
    ensures FeaturesTag(BinaryNode(op, lhs, rhs).value) == Some(Comparison)
  {
  }

  /** Every well-formed tree that mentions the placeholder has the tag
    * `Comparison`, so an `Expr` around it is a predicate. */
  lemma {:induction false} PlaceholderMakesPredicate(e: Node)
    requires WellFormed(e) && Mentions(e)
    ensures OwnTag(e) == Some(Comparison)
  {
    match e
    case Leaf(_, _) =>
    case Un(_, a) => PlaceholderMakesPredicate(a);
    case Pow(_, _, a) => PlaceholderMakesPredicate(a);
    case Bin(_, l, r) =>
      if Mentions(l) {
        PlaceholderMakesPredicate(l);
      } else {
        PlaceholderMakesPredicate(r);
      }
  }

  /** The value of a tree without the placeholder does not depend on the
    * bound value. */
  lemma {:induction false} ClosedTermsConstant(e: Node, d1: int, d2: int)
    requires !Mentions(e)
    ensures Evaluate(d1, e) == Evaluate(d2, e)
  {
    match e
    case Leaf(_, _) =>
    case Null(_) =>
    case One(_) =>
    case Scalar(_, _) =>
    case Un(_, a) => ClosedTermsConstant(a, d1, d2);
    case Pow(_, _, a) => ClosedTermsConstant(a, d1, d2);
    case Bin(_, l, r) =>
      ClosedTermsConstant(l, d1, d2);
      ClosedTermsConstant(r, d1, d2);
  }

  // ---------------------------------------------------------------------
  // The predicates of the demo.

  const XNode: Node := Leaf(Placeholder, 0)

  function IntNode(c: int): Node
  {
    Leaf(Literal("int", c), 0)
  }

  lemma EvaluateLeaves(d: int, c: int)
    ensures Evaluate(d, XNode) == Ok(IntV(d))
    ensures Evaluate(d, IntNode(c)) == Ok(IntV(c))
  {
  }

  /** The predicates of the demo mean what they say. */
  lemma DemoComparisons(d: int)
    ensures Satisfies(Wrapped(Bin(LessThan, XNode, IntNode(6))), d) == Ok(d < 6)
    ensures Satisfies(Wrapped(Bin(GreaterThan, XNode, IntNode(15))), d) == Ok(d > 15)
  {
    EvaluateLeaves(d, 6);
    EvaluateLeaves(d, 15);
  }

  lemma DemoConjunction(d: int)
    ensures Satisfies(Wrapped(Bin(LogicalAnd, Bin(GreaterThan, XNode, IntNode(5)),
                                              Bin(LessThan, XNode, IntNode(13)))), d)
            == Ok(5 < d < 13)
  {
    EvaluateLeaves(d, 5);
    EvaluateLeaves(d, 13);
    assert Evaluate(d, Bin(GreaterThan, XNode, IntNode(5))) == Ok(BoolV(d > 5));
    assert Evaluate(d, Bin(LessThan, XNode, IntNode(13))) == Ok(BoolV(d < 13));
  }

  lemma DemoEquation(d: int)
    ensures InIntRange(2 * d) && InIntRange(d + 5) ==>
              Satisfies(Wrapped(Bin(Equal, Bin(Multiply, IntNode(2), XNode),
                                           Bin(Plus, XNode, IntNode(5)))), d)
              == Ok(d == 5)
    ensures !InIntRange(2 * d) ==>
              Satisfies(Wrapped(Bin(Equal, Bin(Multiply, IntNode(2), XNode),
                                           Bin(Plus, XNode, IntNode(5)))), d)
              == Err(Undefined)
  {
    EvaluateLeaves(d, 2);
    EvaluateLeaves(d, 5);
    assert Evaluate(d, Bin(Multiply, IntNode(2), XNode)) == IntResult(2 * d);
    assert Evaluate(d, Bin(Plus, XNode, IntNode(5))) == IntResult(d + 5);
  }

  lemma DemoInequation(d: int)
    ensures InIntRange(d * d) ==>
              Satisfies(Wrapped(Bin(NotEqual, Bin(Multiply, IntNode(3), XNode),
                                              Bin(Multiply, XNode, XNode))), d)
              == Ok(d != 0 && d != 3)
    ensures !InIntRange(3 * d) ==>
              Satisfies(Wrapped(Bin(NotEqual, Bin(Multiply, IntNode(3), XNode),
                                              Bin(Multiply, XNode, XNode))), d)
              == Err(Undefined)
  {
    EvaluateLeaves(d, 3);
    assert Evaluate(d, Bin(Multiply, IntNode(3), XNode)) == IntResult(3 * d);
    assert Evaluate(d, Bin(Multiply, XNode, XNode)) == IntResult(d * d);
    if InIntRange(d * d) {
      SmallSquare(d);
      assert 3 * d - d * d == d * (3 - d);
      assert (3 * d != d * d) == (d != 0 && d != 3);
    }
  }

  /** A number whose square is an `int` is small enough that three times
    * it is one too. */
  lemma SmallSquare(d: int)
    requires InIntRange(d * d)
    ensures InIntRange(3 * d)
  {
    if d >= 4 {
      assert d * d >= 4 * d;
    } else if d <= -4 {
      assert d * d >= -4 * d;
    }
  }

  lemma DemoNegation(d: int)
    ensures Satisfies(Wrapped(Un(Not, Bin(LessThan, XNode, IntNode(18)))), d) == Ok(d >= 18)
  {
    EvaluateLeaves(d, 18);
    assert Evaluate(d, Bin(LessThan, XNode, IntNode(18))) == Ok(BoolV(d < 18));
  }

  // ---------------------------------------------------------------------
  // `copy_if`.

  /** What `copy_if` writes for a predicate: the selected elements of the
    * input in order, or the first element's failure. */
  function Selected(input: seq<int>, p: Term): Result<seq<int>, LambdaError>
  {
    if input == [] then Ok([])
    else
      var front :- Selected(input[..|input| - 1], p);
      var keep :- Satisfies(p, input[|input| - 1]);
      Ok(if keep then front + [input[|input| - 1]] else front)
  }

  /** `copy_if(begin, end, dest, p)`: walks the input once and writes each
    * element for which `p` holds; the result is what was written, whose end
    * `copy_if` returns. */
  method CopyIf(input: seq<int>, p: Term) returns (r: Result<seq<int>, LambdaError>)
    ensures r == Selected(input, p)
  {
    var dest: seq<int> := [];
    var i := 0;
    while i != |input|
      invariant 0 <= i <= |input|
      invariant Selected(input[..i], p) == Ok(dest)
    {
      assert input[..i + 1][..i] == input[..i];
      var keep := Satisfies(p, input[i]);
      if keep.Err? {
        SelectedFailure(input[..i + 1], input[i + 1..], p);
        assert input[..i + 1] + input[i + 1..] == input;
        return Err(keep.error);
      }
      if keep.value {
        dest := dest + [input[i]];
      }
      i := i + 1;
    }
    assert input[..i] == input;
    return Ok(dest);
  }

  /** A failure on a prefix is the failure of the whole walk. */
  lemma {:induction false} SelectedFailure(a: seq<int>, b: seq<int>, p: Term)
    requires Selected(a, p).Err?
    ensures Selected(a + b, p) == Selected(a, p)
    decreases |b|
  {
    if b != [] {
      var b' := b[..|b| - 1];
      assert (a + b)[..|a + b| - 1] == a + b';
      SelectedFailure(a, b', p);
    } else {
      assert a + b == a;
    }
  }

  /** Selecting from a sequence extended by one element. */
  lemma SelectedSnoc(s: seq<int>, x: int, p: Term)
    ensures Selected(s + [x], p) ==
              match Selected(s, p)
              case Err(e) => Err(e)
              case Ok(front) =>
                match Satisfies(p, x)
                case Err(e) => Err(e)
                case Ok(keep) => Ok(if keep then front + [x] else front)
  {
    assert (s + [x])[..|s + [x]| - 1] == s;
    assert (s + [x])[|s + [x]| - 1] == x;
  }

  /** Selecting from a concatenation selects from each part and concatenates
    * the results, so the order of the input is kept. */
  lemma {:induction false} SelectedConcat(a: seq<int>, b: seq<int>, p: Term)
    requires Selected(a, p).Ok? && Selected(b, p).Ok?
    ensures Selected(a + b, p) == Ok(Selected(a, p).value + Selected(b, p).value)
    decreases |b|
  {
    if b == [] {
      assert a + b == a;
      assert Selected(a, p).value + [] == Selected(a, p).value;
    } else {
      var b', last := b[..|b| - 1], b[|b| - 1];
      assert b == b' + [last];
      SelectedSnoc(b', last, p);
      SelectedConcat(a, b', p);
      SelectedConcatStep(a, b', last, p);
    }
  }

  /** The step of `SelectedConcat`: one more element at the end of the
    * second part. */
  lemma SelectedConcatStep(a: seq<int>, b: seq<int>, x: int, p: Term)
    requires Selected(a, p).Ok? && Selected(b, p).Ok? && Selected(b + [x], p).Ok?
    requires Selected(a + b, p) == Ok(Selected(a, p).value + Selected(b, p).value)
    ensures Selected(a + (b + [x]), p) == Ok(Selected(a, p).value + Selected(b + [x], p).value)
  {
    assert a + (b + [x]) == (a + b) + [x];
    SelectedSnoc(b, x, p);
    SelectedSnoc(a + b, x, p);
    var sa, sb := Selected(a, p).value, Selected(b, p).value;
    if Satisfies(p, x) == Ok(true) {
      AppendAssoc(sa, sb, [x]);
    }
  }

  lemma AppendAssoc(x: seq<int>, y: seq<int>, z: seq<int>)
    ensures x + y + z == x + (y + z)
  {
  }

  /** A single element is written exactly when the predicate holds for it. */
  lemma SelectedOne(d: int, p: Term)
    ensures Satisfies(p, d) == Ok(true) ==> Selected([d], p) == Ok([d])
    ensures Satisfies(p, d) == Ok(false) ==> Selected([d], p) == Ok([])
    ensures Satisfies(p, d).Err? ==> Selected([d], p) == Err(Satisfies(p, d).error)
  {
    assert [d][..0] == [];
    assert [] + [d] == [d];
  }

  /** `copy_if` writes exactly the elements for which the predicate holds:
    * each as often as the input holds it, and no other. */
  lemma {:induction false} SelectedElements(input: seq<int>, p: Term, x: int)
    requires Selected(input, p).Ok?
    ensures multiset(Selected(input, p).value)[x]
            == if Satisfies(p, x) == Ok(true) then multiset(input)[x] else 0
    ensures x in input ==> Satisfies(p, x).Ok?
  {
    if input != [] {
      var front, last := input[..|input| - 1], input[|input| - 1];
      assert input == front + [last];
      assert x in input ==> x in front || x == last;
      assert Satisfies(p, last).Ok?;
      SelectedElements(front, p, x);
      var sf := Selected(front, p).value;
      if Satisfies(p, last) == Ok(true) {
        assert Selected(input, p).value == sf + [last];
        assert multiset(sf + [last]) == multiset(sf) + multiset{last};
      } else {
        assert Selected(input, p).value == sf;
      }
      assert multiset(input) == multiset(front) + multiset{last};
    }
  }
}
