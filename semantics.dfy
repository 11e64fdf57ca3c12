// The value of an expression tree: each node applies its operation's
// default `Apply` (`lhs OP rhs`, `OP(arg)`) to the values of its children.
// This is the reference against which simplification and differentiation
// are proved.
module Semantics {
  import opened Wrappers
  import opened Ops
  import opened Tags
  import opened Nodes

  /** The values of the leaves: a leaf's value may depend on its kind and on
    * its identity. */
  type Env = (LeafKind, nat) -> real

  /** `OP::Apply(arg)` on a double; None where the C++ operator does not
    * apply to a double value (increment of a constant, `~`, `&`, `*`). */
  function ApplyUnary(op: UnaryOp, x: real): Option<real>
  {
    match op
    case UPlus => Some(x)
    case UMinus => Some(-x)
    case Not => Some(if x == 0.0 then 1.0 else 0.0)
    case TransposeOfMatrix => Some(x)
    case LumpedMatrix => Some(x)
    case RowSumOfMatrix => Some(x)
    case TransposeOfTinyMatrix => Some(x)
    case LumpedTinyMatrix => Some(x)
    case _ => None
  }

  function BoolValue(b: bool): real
  {
    if b then 1.0 else 0.0
  }

  /** `OP::Apply(lhs, rhs)` on doubles; comparisons and logical operators
    * give a bool, read back as 1 or 0; division by zero and the operators
    * that need integers have no value. */
  function ApplyBinary(op: BinaryOp, x: real, y: real): Option<real>
  {
    match op
    case Multiply => Some(x * y)
    case Divide => if y == 0.0 then None else Some(x / y)
    case Plus => Some(x + y)
    case Minus => Some(x - y)
    case LessThan => Some(BoolValue(x < y))
    case LessThanOrEqual => Some(BoolValue(x <= y))
    case GreaterThan => Some(BoolValue(x > y))
    case GreaterThanOrEqual => Some(BoolValue(x >= y))
    case Equal => Some(BoolValue(x == y))
    case NotEqual => Some(BoolValue(x != y))
    case LogicalAnd => Some(BoolValue(x != 0.0 && y != 0.0))
    case LogicalInclusiveOr => Some(BoolValue(x != 0.0 || y != 0.0))
    case _ => None
  }

  /** x to a natural power. */
  function IntPow(x: real, k: nat): real
  {
    if k == 0 then 1.0 else x * IntPow(x, k - 1)
  }

  /** x to an integer power; a negative power of 0 has no value. */
  function Power(x: real, m: int): Option<real>
  {
    if m >= 0 then Some(IntPow(x, m))
    else if x == 0.0 then None
    else
      IntPowNonZero(x, -m);
      Some(1.0 / IntPow(x, -m))
  }

  /** The exponent `m/n` with the sign moved to the numerator, as every
    * power rule does before it looks at `m` and `n`. */
  function NormNum(m: int, n: int): int
  {
    if n < 0 then -m else m
  }

  function NormDen(m: int, n: int): int
  {
    if n < 0 then -n else n
  }

  /** The value of `x^(m/n)`: defined for integral exponents only (a
    * denominator of 1 after normalisation); real roots are not modelled. */
  function ApplyPower(m: int, n: int, x: real): Option<real>
  {
    if n == 0 || NormDen(m, n) != 1 then None
    else Power(x, NormNum(m, n))
  }

  /** The intended `RationalPower<m, n>::Apply` is x^(m/n), which
    * `ApplyPower` gives for an integral exponent: it agrees with the one
    * specialisation whose `Apply` compiles, `RationalPower<m, 1>`
    * (`pow(x, m)`), also when the sign sits in the denominator, and gives
    * `Inverse` (exponent 1/-1) the reciprocal. */
  lemma IntendedRationalPower(m: int, x: real)
    ensures ApplyPower(m, 1, x) == Power(x, m)
    ensures ApplyPower(-m, -1, x) == Power(x, m)
    ensures x != 0.0 ==> ApplyPower(1, -1, x) == Some(1.0 / x)
  {
    assert IntPow(x, 1) == x * IntPow(x, 0);
  }

  /** The value of a tree, if every operation on the way has one. */
  function Eval(env: Env, e: Node): Option<real>
  {
    match e
    case Leaf(k, id) => if k.Literal? then Some(k.value as real) else Some(env(k, id))
    case Null(_) => Some(0.0)
    case One(_) => Some(1.0)
    case Scalar(v, _) => Some(v)
    case Un(op, a) =>
      if Eval(env, a).Some? then ApplyUnary(op, Eval(env, a).value) else None
    case Pow(m, n, a) =>
      if Eval(env, a).Some? then ApplyPower(m, n, Eval(env, a).value) else None
    case Bin(op, l, r) =>
      if Eval(env, l).Some? && Eval(env, r).Some?
      then ApplyBinary(op, Eval(env, l).value, Eval(env, r).value)
      else None
  }

  /** The value of a product, from the values of its factors. */
  lemma EvalProduct(env: Env, l: Node, r: Node, x: real, y: real, z: real)
    requires Eval(env, l) == Some(x) && Eval(env, r) == Some(y) && z == x * y
    ensures Eval(env, Bin(Multiply, l, r)) == Some(z)
  {
  }

  lemma EvalNeg(env: Env, l: Node, x: real)
    requires Eval(env, l) == Some(x)
    ensures Eval(env, Un(UMinus, l)) == Some(-x)
  {
  }

  /** Sign rules for products, on plain numbers. */
  lemma SignRules(x: real, y: real, p: real, q: real)
    requires p == -x && q == -y
    ensures p * q == x * y && x * q == -(x * y) && p * y == -(x * y)
  {
  }

  /** The values of products with negated factors. */
  lemma EvalNegTimesNeg(env: Env, l: Node, r: Node, x: real, y: real)
    requires Eval(env, l) == Some(x) && Eval(env, r) == Some(y)
    ensures Eval(env, Bin(Multiply, Un(UMinus, l), Un(UMinus, r))) == Some(x * y)
  {
    var p, q := -x, -y;
    EvalNeg(env, l, x);
    EvalNeg(env, r, y);
    SignRules(x, y, p, q);
    EvalProduct(env, Un(UMinus, l), Un(UMinus, r), p, q, x * y);
  }

  lemma EvalTimesNeg(env: Env, l: Node, r: Node, x: real, y: real)
    requires Eval(env, l) == Some(x) && Eval(env, r) == Some(y)
    ensures Eval(env, Bin(Multiply, l, Un(UMinus, r))) == Some(-(x * y))
  {
    var p, q := -x, -y;
    EvalNeg(env, r, y);
    SignRules(x, y, p, q);
    EvalProduct(env, l, Un(UMinus, r), x, q, -(x * y));
  }

  lemma EvalNegTimes(env: Env, l: Node, r: Node, x: real, y: real)
    requires Eval(env, l) == Some(x) && Eval(env, r) == Some(y)
    ensures Eval(env, Bin(Multiply, Un(UMinus, l), r)) == Some(-(x * y))
  {
    var p, q := -x, -y;
    EvalNeg(env, l, x);
    SignRules(x, y, p, q);
    EvalProduct(env, Un(UMinus, l), r, p, y, -(x * y));
  }

  /** The value of `r^-1`. */
  lemma EvalInverse(env: Env, r: Node, y: real)
    requires Eval(env, r) == Some(y) && y != 0.0
    ensures Eval(env, Pow(-1, 1, r)) == Some(1.0 / y)
  {
    assert IntPow(y, 1) == y;
  }

  lemma TimesInverse(x: real, y: real, q: real)
    requires y != 0.0 && q == 1.0 / y
    ensures x * q == x / y
  {
  }

  /** The value of a product with an inverted factor. */
  lemma EvalProductWithInverse(env: Env, l: Node, r: Node, x: real, y: real)
    requires Eval(env, l) == Some(x) && Eval(env, r) == Some(y) && y != 0.0
    ensures Eval(env, Bin(Multiply, l, Pow(-1, 1, r))) == Some(x / y)
  {
    var q := 1.0 / y;
    EvalInverse(env, r, y);
    TimesInverse(x, y, q);
    EvalProduct(env, l, Pow(-1, 1, r), x, q, x / y);
  }

  lemma DivideBySelf(x: real)
    requires x != 0.0
    ensures x / x == 1.0
  {
  }

  // ---------------------------------------------------------------------
  // Laws of integer powers.

  lemma {:induction false} IntPowNonZero(x: real, k: nat)
    requires x != 0.0
    ensures IntPow(x, k) != 0.0
  {
    if k > 0 {
      IntPowNonZero(x, k - 1);
      var p := IntPow(x, k - 1);
      NonZeroProduct(x, p);
    }
  }

  lemma NonZeroProduct(p: real, q: real)
    requires p != 0.0 && q != 0.0
    ensures p * q != 0.0
  {
  }

  lemma MulAssoc(p: real, q: real, r: real)
    ensures p * (q * r) == (p * q) * r
  {
  }

  lemma MulSwap(p: real, q: real, r: real, s: real)
    ensures (p * q) * (r * s) == (p * r) * (q * s)
  {
  }

  lemma {:induction false} IntPowAdd(x: real, a: nat, b: nat)
    ensures IntPow(x, a + b) == IntPow(x, a) * IntPow(x, b)
  {
    if a > 0 {
      IntPowAdd(x, a - 1, b);
      var p, q := IntPow(x, a - 1), IntPow(x, b);
      MulAssoc(x, p, q);
    }
  }

  lemma MulStep(a: nat, b: nat)
    requires b > 0
    ensures a * b == a + a * (b - 1)
  {
  }

  lemma {:induction false} IntPowMul(x: real, a: nat, b: nat)
    ensures IntPow(x, a * b) == IntPow(IntPow(x, a), b)
  {
    if b > 0 {
      var k := a * (b - 1);
      MulStep(a, b);
      IntPowMul(x, a, b - 1);
      IntPowAdd(x, a, k);
    }
  }

  lemma {:induction false} IntPowProduct(x: real, y: real, k: nat)
    ensures IntPow(x * y, k) == IntPow(x, k) * IntPow(y, k)
  {
    if k > 0 {
      IntPowProduct(x, y, k - 1);
      var p, q := IntPow(x, k - 1), IntPow(y, k - 1);
      MulSwap(x, y, p, q);
    }
  }

  lemma {:induction false} IntPowOfOne(k: nat)
    ensures IntPow(1.0, k) == 1.0
  {
    if k > 0 { IntPowOfOne(k - 1); }
  }

  lemma {:induction false} IntPowOfZero(k: nat)
    ensures IntPow(0.0, k) == (if k == 0 then 1.0 else 0.0)
  {
    if k > 0 { IntPowOfZero(k - 1); }
  }

  lemma InverseOfProduct(p: real, q: real)
    requires p != 0.0 && q != 0.0
    ensures p * q != 0.0 && 1.0 / (p * q) == (1.0 / p) * (1.0 / q)
  {
  }

  lemma {:induction false} IntPowOfInverse(z: real, k: nat)
    requires z != 0.0
    ensures IntPow(z, k) != 0.0 && IntPow(1.0 / z, k) == 1.0 / IntPow(z, k)
  {
    IntPowNonZero(z, k);
    if k > 0 {
      IntPowOfInverse(z, k - 1);
      var p := IntPow(z, k - 1);
      InverseOfProduct(z, p);
    }
  }

  /** The sign of a product, for exponents of known signs. */
  lemma ProductSign(a: int, b: int, k: nat)
    requires k == (if a >= 0 then a else -a) * (if b >= 0 then b else -b)
    ensures a * b == (if (a >= 0) == (b >= 0) then k else -(k as int))
  {
  }

  lemma InverseOfInverse(q: real)
    requires q != 0.0
    ensures 1.0 / q != 0.0 && 1.0 / (1.0 / q) == q
  {
  }

  /** A power with a positive exponent is not zero only if its base is not. */
  lemma NonZeroBase(x: real, a: nat)
    requires a > 0 && IntPow(x, a) != 0.0
    ensures x != 0.0
  {
    if x == 0.0 {
      IntPowOfZero(a);
    }
  }

  /** `(x^a)^b = x^(a*b)`, wherever the left-hand side has a value. */
  lemma PowerOfPower(x: real, a: int, b: int, u: real, w: real)
    requires Power(x, a) == Some(u) && Power(u, b) == Some(w)
    ensures Power(x, a * b) == Some(w)
  {
    if a >= 0 && b >= 0 {
      var k: nat := a * b;
      ProductSign(a, b, k);
      IntPowMul(x, a, b);
    } else if a >= 0 {
      var nb := -b;
      var k: nat := a * nb;
      ProductSign(a, b, k);
      PowerOfPowerNegOuter(x, a, nb, k, w);
    } else if b >= 0 {
      var na := -a;
      var k: nat := na * b;
      ProductSign(a, b, k);
      PowerOfPowerNegInner(x, na, b, k, w);
    } else {
      var na, nb := -a, -b;
      var k: nat := na * nb;
      ProductSign(a, b, k);
      PowerOfPowerNegBoth(x, na, nb, k, w);
    }
  }

  lemma PowerOfPowerNegOuter(x: real, a: nat, nb: int, k: nat, w: real)
    requires nb > 0 && k == a * nb && Power(IntPow(x, a), -nb) == Some(w)
    ensures Power(x, -(k as int)) == Some(w)
  {
    IntPowMul(x, a, nb);
    var z := IntPow(x, a);
    assert z != 0.0;
    IntPowNonZero(z, nb);
    assert w == 1.0 / IntPow(z, nb);
    if a == 0 {
      IntPowOfOne(nb);
    } else {
      NonZeroBase(x, a);
      IntPowNonZero(x, k);
    }
  }

  lemma PowerOfPowerNegInner(x: real, na: int, b: nat, k: nat, w: real)
    requires na > 0 && k == na * b && Power(x, -na).Some? && Power(Power(x, -na).value, b) == Some(w)
    ensures Power(x, -(k as int)) == Some(w)
  {
    IntPowMul(x, na, b);
    IntPowNonZero(x, na);
    IntPowOfInverse(IntPow(x, na), b);
    if b > 0 {
      IntPowNonZero(x, k);
    }
  }

  lemma PowerOfPowerNegBoth(x: real, na: int, nb: int, k: nat, w: real)
    requires na > 0 && nb > 0 && k == na * nb
    requires Power(x, -na).Some? && Power(Power(x, -na).value, -nb) == Some(w)
    ensures Power(x, k) == Some(w)
  {
    IntPowMul(x, na, nb);
    var z := IntPow(x, na);
    IntPowNonZero(x, na);
    IntPowOfInverse(z, nb);
    InverseOfInverse(IntPow(z, nb));
  }

  /** `(x*y)^m = x^m * y^m`, wherever the left-hand side has a value. */
  lemma PowerOfProduct(x: real, y: real, m: int, w: real)
    requires Power(x * y, m) == Some(w)
    ensures Power(x, m).Some? && Power(y, m).Some?
    ensures w == Power(x, m).value * Power(y, m).value
  {
    if m >= 0 {
      IntPowProduct(x, y, m);
    } else {
      var k := -m;
      IntPowProduct(x, y, k);
      assert x != 0.0 && y != 0.0;
      IntPowNonZero(x, k);
      IntPowNonZero(y, k);
      InverseOfProduct(IntPow(x, k), IntPow(y, k));
    }
  }

  /** The power of a product evaluates to the product of the powers. */
  lemma EvalPowerOfProduct(env: Env, m: int, n: int, l: Node, r: Node, x: real, y: real, w: real)
    requires Eval(env, l) == Some(x) && Eval(env, r) == Some(y)
    requires ApplyPower(m, n, x * y) == Some(w)
    ensures Eval(env, Bin(Multiply, Pow(m, n, l), Pow(m, n, r))) == Some(w)
  {
    PowerOfProduct(x, y, NormNum(m, n), w);
    var px, py := Power(x, NormNum(m, n)).value, Power(y, NormNum(m, n)).value;
    assert Eval(env, Pow(m, n, l)) == Some(px);
    assert Eval(env, Pow(m, n, r)) == Some(py);
    EvalProduct(env, Pow(m, n, l), Pow(m, n, r), px, py, w);
  }

  /** Normalising the sign of an exponent does not change its value. */
  lemma NormalisedPower(m: int, n: int, x: real)
    requires n != 0
    ensures NormDen(m, n) > 0
    ensures ApplyPower(NormNum(m, n), NormDen(m, n), x) == ApplyPower(m, n, x)
  {
  }
}
