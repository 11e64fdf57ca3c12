// What differentiation guarantees: the derivative tree is well formed and
// has the tag of the function, its value is the derivative by the rules of
// calculus, and with the corrected coefficients every tree with a
// derivative is differentiated.  The as-written coefficients reject the
// square root and the first power.
module DifferentiationProofs {
  import opened Wrappers
  import opened Ops
  import opened Tags
  import opened Nodes
  import opened Terms
  import opened Semantics
  import opened Differentiation
  import opened Counting

  // ---------------------------------------------------------------------
  // The coefficient.

  /** `-((-m)/n) == m/n`. */
  lemma NegatedQuotient(m: int, n: int)
    requires n > 0
    ensures -((-m) as real / n as real) == m as real / n as real
  {
    assert (-m) as real == -(m as real);
  }

  /** `(-n)/n == -1`. */
  lemma MinusOneQuotient(m: int, n: int)
    requires n > 0 && m == -n
    ensures -1.0 == m as real / n as real
  {
    assert m as real == -1.0 * n as real;
  }

  /** Whatever case builds it, the coefficient of `f^(m/n)` has the value
    * `m/n`. */
  lemma CoefficientValue(env: Env, m: int, n: int, tag: Tag, rules: DiffRules, c: Node)
    requires n > 0 && Coefficient(m, n, tag, rules) == Ok(c)
    ensures Eval(env, c) == Some(m as real / n as real)
  {
    if m == n {
      assert m as real / n as real == 1.0;
    } else if m == -n {
      MinusOneQuotient(m, n);
    } else if m == 1 {
      EvalInverse(env, Scalar(n as real, tag), n as real);
    } else if m < 0 {
      NegatedQuotient(m, n);
    }
  }

  /** The corrected coefficient always exists; the as-written one is missing
    * exactly for `m == n` and for `m == 1` (where `m != -n`), and agrees
    * with the corrected one wherever it exists. */
  lemma CoefficientRules(m: int, n: int, tag: Tag)
    requires n > 0
    ensures Coefficient(m, n, tag, DiffCorrected).Ok?
    ensures Coefficient(m, n, tag, DiffAsWritten).Err? <==> m == n || (m == 1 && m != -n)
    ensures Coefficient(m, n, tag, DiffAsWritten).Ok? ==>
              Coefficient(m, n, tag, DiffAsWritten) == Coefficient(m, n, tag, DiffCorrected)
  {
  }

  // ---------------------------------------------------------------------
  // Values.

  /** The shape of the power rule's result. */
  lemma PowerRuleShape(mm: int, nn: int, a: Node, da: Node, tag: Tag, rules: DiffRules, t: Node)
    requires PowerRule(mm, nn, a, da, tag, rules) == Ok(t)
    ensures NormDen(mm, nn) > 0 && Coefficient(NormNum(mm, nn), NormDen(mm, nn), tag, rules).Ok?
    ensures t == Bin(Multiply, Bin(Multiply, Coefficient(NormNum(mm, nn), NormDen(mm, nn), tag, rules).value,
                                   Pow(NormNum(mm, nn) - NormDen(mm, nn), NormDen(mm, nn), a)), da)
  {
  }

  /** The derivative of a power exists only for an integral exponent `k`,
    * and is then `(k * x^(k-1)) * dx`; the factors are returned by name. */
  lemma PowerSlopeShape(m: int, n: int, x: real, dx: real, s: real) returns (k: real, w: real, kw: real)
    requires PowerSlope(m, n, x, dx) == Some(s)
    ensures n != 0 && NormDen(m, n) == 1 && k == NormNum(m, n) as real
    ensures Power(x, NormNum(m, n) - 1) == Some(w) && kw == k * w && s == kw * dx
  {
    k, w := NormNum(m, n) as real, Power(x, NormNum(m, n) - 1).value;
    kw := k * w;
  }

  /** The value of `t == (c * q) * d`. */
  lemma EvalTriple(env: Env, t: Node, c: Node, q: Node, d: Node, k: real, w: real, s: real, kw: real, v: real)
    requires t == Bin(Multiply, Bin(Multiply, c, q), d) && kw == k * w && v == kw * s
    requires Eval(env, c) == Some(k) && Eval(env, q) == Some(w) && Eval(env, d) == Some(s)
    ensures Eval(env, t) == Some(v)
  {
    EvalProduct(env, c, q, k, w, kw);
    EvalProduct(env, Bin(Multiply, c, q), d, kw, s, v);
  }

  /** The value of `a^(k-1)`, the power in the power rule's result. */
  lemma EvalLoweredPower(env: Env, a: Node, k: int, x: real, w: real)
    requires Eval(env, a) == Some(x) && Power(x, k - 1) == Some(w)
    ensures Eval(env, Pow(k - 1, 1, a)) == Some(w)
  {
    assert ApplyPower(k - 1, 1, x) == Power(x, k - 1);
  }

  /** The power rule evaluates to `(k * a^(k-1)) * da` for the integral
    * exponent `k`, given the values `w` of `a^(k-1)` and `s` of `da`. */
  lemma PowerRuleSound(env: Env, mm: int, nn: int, a: Node, da: Node, tag: Tag, rules: DiffRules,
                       t: Node, k: real, w: real, s: real, kw: real, v: real)
    requires NormDen(mm, nn) == 1 && k == NormNum(mm, nn) as real
    requires Eval(env, Pow(NormNum(mm, nn) - 1, 1, a)) == Some(w) && Eval(env, da) == Some(s)
    requires PowerRule(mm, nn, a, da, tag, rules) == Ok(t)
    requires kw == k * w && v == kw * s
    ensures Eval(env, t) == Some(v)
  {
    PowerRuleShape(mm, nn, a, da, tag, rules, t);
    var c := Coefficient(NormNum(mm, nn), 1, tag, rules).value;
    CoefficientValue(env, NormNum(mm, nn), 1, tag, rules, c);
    EvalTriple(env, t, c, Pow(NormNum(mm, nn) - 1, 1, a), da, k, w, s, kw, v);
  }

  /** The quotient rule, from the product rule applied to `f * g^(-1)`. */
  lemma QuotientIdentity(x: real, y: real, dx: real, dy: real, i: real, i2: real)
    requires y != 0.0 && i == 1.0 / y && i2 == 1.0 / (y * y)
    ensures dx * i + x * ((-1.0 * i2) * dy) == (dx * y - x * dy) / (y * y)
  {
    assert y * y != 0.0;
    assert dx * i == (dx * y) / (y * y);
    assert x * ((-1.0 * i2) * dy) == -(x * dy) / (y * y);
  }

  /** The value `i2 == 1 / y^2` of `g^(-2)`, the power the derivative of
    * `g^(-1)` holds. */
  lemma EvalInverseSquare(env: Env, r: Node, y: real, i2: real)
    requires Eval(env, r) == Some(y) && y != 0.0 && i2 == 1.0 / (y * y)
    ensures Eval(env, Pow(-2, 1, r)) == Some(i2)
  {
    InverseSquare(y);
    assert ApplyPower(-2, 1, y) == Power(y, -2);
  }

  /** `y^(-2) == 1 / (y * y)`. */
  lemma InverseSquare(y: real)
    requires y != 0.0
    ensures Power(y, -2) == Some(1.0 / (y * y))
  {
    assert IntPow(y, 1) == y;
    assert IntPow(y, 2) == y * y;
    assert Power(y, -2) == Some(1.0 / IntPow(y, 2));
  }

  /** The product rule evaluates to `dx * y + x * dy`. */
  lemma ProductRuleValue(env: Env, l: Node, r: Node, dl: Node, dr: Node, x: real, dx: real, y: real, dy: real)
    requires Eval(env, l) == Some(x) && Eval(env, dl) == Some(dx)
    requires Eval(env, r) == Some(y) && Eval(env, dr) == Some(dy)
    ensures Eval(env, ProductRule(l, r, dl, dr)) == Some(dx * y + x * dy)
  {
    EvalProduct(env, dl, r, dx, y, dx * y);
    EvalProduct(env, l, dr, x, dy, x * dy);
  }

  /** The quotient rule is the product rule applied to `f * g^(-1)`, where
    * `g^(-1)` has the value `i` and, by the power rule, the derivative
    * `di == (-1 * i2) * g'` with `i2 == g^(-2)`. */
  lemma QuotientParts(x: real, dx: real, y: real, dy: real, s: real) returns (i: real, i2: real, di: real)
    requires BinarySlope(Divide, x, dx, y, dy) == Some(s)
    ensures y != 0.0 && i == 1.0 / y && i2 == 1.0 / (y * y)
    ensures di == (-1.0 * i2) * dy && s == dx * i + x * di
  {
    i, i2 := 1.0 / y, 1.0 / (y * y);
    di := (-1.0 * i2) * dy;
    QuotientIdentity(x, y, dx, dy, i, i2);
  }

  /** The derivative tree evaluates to the derivative by the rules of
    * calculus, wherever that exists. */
  lemma DiffSound(env: Env, e: Node, wrt: Term, rules: DiffRules, r: Node, s: real)
    requires Diff(e, wrt, rules) == Ok(r) && Slope(env, e, wrt) == Some(s)
    ensures Eval(env, r) == Some(s)
    decreases e, 1
  {
    match e
    case Un(_, _) => DiffSoundUnary(env, e, wrt, rules, r, s);
    case Pow(_, _, _) => DiffSoundPower(env, e, wrt, rules, r, s);
    case Bin(op, _, _) =>
      if op == Divide {
        DiffSoundQuotient(env, e, wrt, rules, r, s);
      } else {
        DiffSoundBinary(env, e, wrt, rules, r, s);
      }
    case _ =>
  }

  lemma DiffSoundUnary(env: Env, e: Node, wrt: Term, rules: DiffRules, r: Node, s: real)
    requires e.Un? && Diff(e, wrt, rules) == Ok(r) && Slope(env, e, wrt) == Some(s)
    ensures Eval(env, r) == Some(s)
    decreases e, 0
  {
    DiffSound(env, e.arg, wrt, rules, Diff(e.arg, wrt, rules).value, Slope(env, e.arg, wrt).value);
  }

  lemma DiffSoundPower(env: Env, e: Node, wrt: Term, rules: DiffRules, r: Node, s: real)
    requires e.Pow? && Diff(e, wrt, rules) == Ok(r) && Slope(env, e, wrt) == Some(s)
    ensures Eval(env, r) == Some(s)
    decreases e, 0
  {
    var a := e.arg;
    var da, x, dx := Diff(a, wrt, rules).value, Eval(env, a).value, Slope(env, a, wrt).value;
    DiffSound(env, a, wrt, rules, da, dx);
    var k, w, kw := PowerSlopeShape(e.m, e.n, x, dx, s);
    PowerStep(env, e.m, e.n, a, da, OperandTag(e), rules, r, x, dx, k, w, kw, s);
  }

  /** The power rule applied to `a` with value `x` and derivative `dx`
    * evaluates to `(k * x^(k-1)) * dx`. */
  lemma PowerStep(env: Env, m: int, n: int, a: Node, da: Node, tag: Tag, rules: DiffRules, r: Node,
                  x: real, dx: real, k: real, w: real, kw: real, s: real)
    requires Eval(env, a) == Some(x) && Eval(env, da) == Some(dx)
    requires PowerRule(m, n, a, da, tag, rules) == Ok(r)
    requires NormDen(m, n) == 1 && k == NormNum(m, n) as real && Power(x, NormNum(m, n) - 1) == Some(w)
    requires kw == k * w && s == kw * dx
    ensures Eval(env, r) == Some(s)
  {
    EvalLoweredPower(env, a, NormNum(m, n), x, w);
    PowerRuleSound(env, m, n, a, da, tag, rules, r, k, w, dx, kw, s);
  }

  lemma DiffSoundBinary(env: Env, e: Node, wrt: Term, rules: DiffRules, r: Node, s: real)
    requires e.Bin? && e.bop != Divide && Diff(e, wrt, rules) == Ok(r) && Slope(env, e, wrt) == Some(s)
    ensures Eval(env, r) == Some(s)
    decreases e, 0
  {
    var l, rh := e.lhs, e.rhs;
    var dl, dr := Diff(l, wrt, rules).value, Diff(rh, wrt, rules).value;
    var dx, dy := Slope(env, l, wrt).value, Slope(env, rh, wrt).value;
    DiffSound(env, l, wrt, rules, dl, dx);
    DiffSound(env, rh, wrt, rules, dr, dy);
    if e.bop == Multiply {
      ProductStep(env, l, rh, dl, dr, Eval(env, l).value, dx, Eval(env, rh).value, dy, s);
    }
  }

  /** The product rule applied to operands with values `x`, `y` and
    * derivatives `dx`, `dy` evaluates to the derivative of the product. */
  lemma ProductStep(env: Env, l: Node, r: Node, dl: Node, dr: Node, x: real, dx: real, y: real, dy: real, s: real)
    requires Eval(env, l) == Some(x) && Eval(env, dl) == Some(dx)
    requires Eval(env, r) == Some(y) && Eval(env, dr) == Some(dy)
    requires BinarySlope(Multiply, x, dx, y, dy) == Some(s)
    ensures Eval(env, ProductRule(l, r, dl, dr)) == Some(s)
  {
    ProductRuleValue(env, l, r, dl, dr, x, dx, y, dy);
  }

  lemma DiffSoundQuotient(env: Env, e: Node, wrt: Term, rules: DiffRules, r: Node, s: real)
    requires e.Bin? && e.bop == Divide && Diff(e, wrt, rules) == Ok(r) && Slope(env, e, wrt) == Some(s)
    ensures Eval(env, r) == Some(s)
    decreases e, 0
  {
    var l, rh := e.lhs, e.rhs;
    var dl, dr := Diff(l, wrt, rules).value, Diff(rh, wrt, rules).value;
    var dx, dy := Slope(env, l, wrt).value, Slope(env, rh, wrt).value;
    DiffSound(env, l, wrt, rules, dl, dx);
    DiffSound(env, rh, wrt, rules, dr, dy);
    QuotientStep(env, l, rh, dl, dr, OwnTag(rh).value, rules, Eval(env, l).value, dx, Eval(env, rh).value, dy, s);
  }

  /** The derivative of `f / g`, built from that of `g^(-1)`, evaluates to
    * the quotient rule. */
  lemma QuotientStep(env: Env, l: Node, r: Node, dl: Node, dr: Node, tag: Tag, rules: DiffRules,
                     x: real, dx: real, y: real, dy: real, s: real)
    requires Eval(env, l) == Some(x) && Eval(env, dl) == Some(dx)
    requires Eval(env, r) == Some(y) && Eval(env, dr) == Some(dy)
    requires BinarySlope(Divide, x, dx, y, dy) == Some(s) && PowerRule(-1, 1, r, dr, tag, rules).Ok?
    ensures Eval(env, ProductRule(l, Pow(-1, 1, r), dl, PowerRule(-1, 1, r, dr, tag, rules).value)) == Some(s)
  {
    var i, i2, di := QuotientParts(x, dx, y, dy, s);
    InverseRuleValue(env, r, dr, tag, rules, y, dy, i2, di);
    EvalInverse(env, r, y);
    ProductRuleValue(env, l, Pow(-1, 1, r), dl, PowerRule(-1, 1, r, dr, tag, rules).value, x, dx, i, di);
  }

  /** The derivative of `g^(-1)` by the power rule evaluates to
    * `(-1 * g^(-2)) * g'`. */
  lemma InverseRuleValue(env: Env, r: Node, dr: Node, tag: Tag, rules: DiffRules, y: real, dy: real, i2: real, di: real)
    requires Eval(env, r) == Some(y) && Eval(env, dr) == Some(dy)
    requires PowerRule(-1, 1, r, dr, tag, rules).Ok?
    requires y != 0.0 && i2 == 1.0 / (y * y) && di == (-1.0 * i2) * dy
    ensures Eval(env, PowerRule(-1, 1, r, dr, tag, rules).value) == Some(di)
  {
    EvalInverseSquare(env, r, y, i2);
    PowerRuleSound(env, -1, 1, r, dr, tag, rules, PowerRule(-1, 1, r, dr, tag, rules).value,
                   -1.0, i2, dy, -1.0 * i2, di);
  }

  // ---------------------------------------------------------------------
  // Tags.

  /** The coefficient is well formed and has the tag it was given. */
  lemma CoefficientTag(m: int, n: int, tag: Tag, rules: DiffRules, c: Node)
    requires n > 0 && Coefficient(m, n, tag, rules) == Ok(c)
    ensures WellFormed(c) && OwnTag(c) == Some(tag)
  {
  }

  /** Products of well-formed factors that share a tag keep it. */
  lemma TripleTag(c: Node, q: Node, d: Node, tag: Tag)
    requires WellFormed(c) && WellFormed(q) && WellFormed(d)
    requires OwnTag(c) == Some(tag) && OwnTag(q) == Some(tag) && OwnTag(d) == Some(tag)
    ensures WellFormed(Bin(Multiply, Bin(Multiply, c, q), d))
    ensures OwnTag(Bin(Multiply, Bin(Multiply, c, q), d)) == Some(tag)
  {
    assert OperandTag(c) == tag && OperandTag(q) == tag && OperandTag(d) == tag;
    SameTagKept(tag, Multiply);
    assert OperandTag(Bin(Multiply, c, q)) == tag;
  }

  /** The power rule keeps the tag of the power. */
  lemma PowerRuleTag(mm: int, nn: int, a: Node, da: Node, rules: DiffRules, t: Node)
    requires WellFormed(Pow(mm, nn, a)) && WellFormed(da) && OwnTag(da) == OwnTag(a)
    requires PowerRule(mm, nn, a, da, OwnTag(a).value, rules) == Ok(t)
    ensures WellFormed(t) && OwnTag(t) == OwnTag(a)
  {
    var c, q := PowerRuleFactors(mm, nn, a, da, OwnTag(a).value, rules, t);
    TripleTag(c, q, da, OwnTag(a).value);
  }

  /** The two factors in front of `da` in the power rule's result are well
    * formed and carry the tag of the power. */
  lemma PowerRuleFactors(mm: int, nn: int, a: Node, da: Node, tag: Tag, rules: DiffRules, t: Node)
    returns (c: Node, q: Node)
    requires WellFormed(Pow(mm, nn, a)) && OwnTag(a) == Some(tag)
    requires PowerRule(mm, nn, a, da, tag, rules) == Ok(t)
    ensures t == Bin(Multiply, Bin(Multiply, c, q), da)
    ensures WellFormed(c) && OwnTag(c) == Some(tag) && WellFormed(q) && OwnTag(q) == Some(tag)
  {
    PowerRuleShape(mm, nn, a, da, tag, rules, t);
    var m, n := NormNum(mm, nn), NormDen(mm, nn);
    c, q := Coefficient(m, n, tag, rules).value, Pow(m - n, n, a);
    CoefficientTag(m, n, tag, rules, c);
  }

  /** The product rule keeps the tag of the product. */
  lemma ProductRuleTag(l: Node, r: Node, dl: Node, dr: Node, tag: Tag)
    requires WellFormed(l) && WellFormed(r) && WellFormed(dl) && WellFormed(dr)
    requires OwnTag(dl) == Some(OperandTag(l)) && OwnTag(dr) == Some(OperandTag(r))
    requires BinResultTag(OperandTag(l), OperandTag(r), Multiply) == Some(tag)
    ensures WellFormed(ProductRule(l, r, dl, dr)) && OwnTag(ProductRule(l, r, dl, dr)) == Some(tag)
  {
    assert OperandTag(dl) == OperandTag(l) && OperandTag(dr) == OperandTag(r);
    assert OwnTag(Bin(Multiply, dl, r)) == Some(tag);
    assert OwnTag(Bin(Multiply, l, dr)) == Some(tag);
    SameTagKept(tag, Plus);
  }

  /** The derivative of a well-formed tree is well formed and carries the
    * tag the function contributes as an operand, so `Diff` keeps the tag. */
  lemma DiffPreserves(e: Node, wrt: Term, rules: DiffRules, r: Node)
    requires WellFormed(e) && Diff(e, wrt, rules) == Ok(r)
    ensures WellFormed(r) && OwnTag(r) == Some(OperandTag(e))
    decreases e, 1
  {
    match e
    case Un(op, a) =>
      DiffPreserves(a, wrt, rules, Diff(a, wrt, rules).value);
    case Pow(m, n, a) =>
      var da := Diff(a, wrt, rules).value;
      DiffPreserves(a, wrt, rules, da);
      assert OperandTag(e) == OwnTag(a).value;
      PowerRuleTag(m, n, a, da, rules, r);
    case Bin(op, l, rh) =>
      if op == Divide {
        DiffPreservesQuotient(e, wrt, rules, r);
      } else {
        DiffPreservesBinary(e, wrt, rules, r);
      }
    case _ =>
  }

  lemma DiffPreservesBinary(e: Node, wrt: Term, rules: DiffRules, r: Node)
    requires e.Bin? && e.bop != Divide && WellFormed(e) && Diff(e, wrt, rules) == Ok(r)
    ensures WellFormed(r) && OwnTag(r) == Some(OperandTag(e))
    decreases e, 0
  {
    var l, rh := e.lhs, e.rhs;
    var dl, dr := Diff(l, wrt, rules).value, Diff(rh, wrt, rules).value;
    DiffPreserves(l, wrt, rules, dl);
    DiffPreserves(rh, wrt, rules, dr);
    if e.bop == Multiply {
      ProductRuleTag(l, rh, dl, dr, OwnTag(e).value);
    }
  }

  lemma DiffPreservesQuotient(e: Node, wrt: Term, rules: DiffRules, r: Node)
    requires e.Bin? && e.bop == Divide && WellFormed(e) && Diff(e, wrt, rules) == Ok(r)
    ensures WellFormed(r) && OwnTag(r) == Some(OperandTag(e))
    decreases e, 0
  {
    var l, rh := e.lhs, e.rhs;
    var dl, dr := Diff(l, wrt, rules).value, Diff(rh, wrt, rules).value;
    DiffPreserves(l, wrt, rules, dl);
    DiffPreserves(rh, wrt, rules, dr);
    var dinv := PowerRule(-1, 1, rh, dr, OwnTag(rh).value, rules).value;
    PowerRuleTag(-1, 1, rh, dr, rules, dinv);
    ResultTagByOperator(OperandTag(l), OperandTag(rh), Divide);
    ProductRuleTag(l, Pow(-1, 1, rh), dl, dinv, OwnTag(e).value);
  }

  // ---------------------------------------------------------------------
  // Which trees are differentiated.

  /** With the corrected coefficients, every well-formed tree with a
    * derivative whose divisors have tags is differentiated. */
  lemma {:induction false} DiffTotal(env: Env, e: Node, wrt: Term)
    requires WellFormed(e) && DivisorsTagged(e) && Slope(env, e, wrt).Some?
    ensures Diff(e, wrt, DiffCorrected).Ok?
  {
    match e
    case Un(op, a) =>
      DiffTotal(env, a, wrt);
    case Pow(m, n, a) =>
      DiffTotal(env, a, wrt);
      CoefficientRules(NormNum(m, n), NormDen(m, n), OperandTag(e));
    case Bin(op, l, rh) =>
      DiffTotal(env, l, wrt);
      DiffTotal(env, rh, wrt);
      if op == Divide {
        DivisorNotNull(env, l, rh, wrt);
        CoefficientRules(-1, 1, OwnTag(rh).value);
      }
    case _ =>
  }

  /** A quotient with a derivative does not divide by a `Null`. */
  lemma DivisorNotNull(env: Env, l: Node, rh: Node, wrt: Term)
    requires Slope(env, Bin(Divide, l, rh), wrt).Some?
    ensures !rh.Null?
  {
  }

  /** The as-written rules differentiate fewer trees, never differently. */
  lemma {:induction false} DiffAsWrittenAgrees(e: Node, wrt: Term, r: Node)
    requires Diff(e, wrt, DiffAsWritten) == Ok(r)
    ensures Diff(e, wrt, DiffCorrected) == Ok(r)
  {
    match e
    case Un(op, a) =>
      DiffAsWrittenAgrees(a, wrt, Diff(a, wrt, DiffAsWritten).value);
    case Pow(m, n, a) =>
      DiffAsWrittenAgrees(a, wrt, Diff(a, wrt, DiffAsWritten).value);
      CoefficientRules(NormNum(m, n), NormDen(m, n), OperandTag(e));
    case Bin(op, l, rh) =>
      DiffAsWrittenAgrees(l, wrt, Diff(l, wrt, DiffAsWritten).value);
      DiffAsWrittenAgrees(rh, wrt, Diff(rh, wrt, DiffAsWritten).value);
      if op == Divide {
        CoefficientRules(-1, 1, OwnTag(rh).value);
      }
    case _ =>
  }

  /** `Diff(f, x)` succeeds exactly when the tags agree, `f` is not a
    * changer and its content is differentiated; the result is an `Expr`
    * around the derivative, with the tag of `f`. */
  lemma DiffTermResult(f: Term, wrt: Term, rules: DiffRules)
    requires !f.Changed? && WellFormed(Unwrap(f).value)
    ensures DiffTerm(f, wrt, rules).Ok? <==>
              TermDisambiguation(f) == TermDisambiguation(wrt) && Diff(Unwrap(f).value, wrt, rules).Ok?
    ensures DiffTerm(f, wrt, rules).Ok? ==>
              DiffTerm(f, wrt, rules).value == Wrapped(Diff(Unwrap(f).value, wrt, rules).value)
              && TermTag(DiffTerm(f, wrt, rules).value) == Some(TermDisambiguation(f))
  {
    var n := Unwrap(f).value;
    if Diff(n, wrt, rules).Ok? {
      DiffPreserves(n, wrt, rules, Diff(n, wrt, rules).value);
    }
  }

  // ---------------------------------------------------------------------
  // The coefficients that do not compile.

  /** `Sqrt(x)` is `x^(1/2)`, whose coefficient is the `m == 1` case. */
  lemma SquareRootRejected(x: Node)
    requires x.Leaf? && x.kind.Object? && x.kind.disamb.Some?
    ensures Diff(Pow(1, 2, x), Plain(x), DiffAsWritten) == Err(CoefficientRejected)
    ensures Diff(Pow(1, 2, x), Plain(x), DiffCorrected).Ok?
  {
    assert SameType(x, x);
  }

  /** `x^(2/2)` is the `m == n` case. */
  lemma EqualExponentsRejected(x: Node)
    requires x.Leaf? && x.kind.Object? && x.kind.disamb.Some?
    ensures Diff(Pow(2, 2, x), Plain(x), DiffAsWritten) == Err(CoefficientRejected)
    ensures Diff(Pow(2, 2, x), Plain(x), DiffCorrected).Ok?
  {
    assert SameType(x, x);
  }

  // ---------------------------------------------------------------------
  // The pre-differentiation short-cut.

  /** A tree in which the variable's type does not occur has slope 0
    * wherever it has one. */
  lemma {:induction false} SlopeWithoutVariable(env: Env, e: Node, x: Node)
    requires StaticCount(e, Plain(x)) == 0
    ensures Slope(env, e, Plain(x)).Some? ==> Slope(env, e, Plain(x)) == Some(0.0)
  {
    match e
    case Un(_, a) => SlopeWithoutVariable(env, a, x);
    case Pow(m, n, a) =>
      SlopeWithoutVariable(env, a, x);
      if Eval(env, a).Some? {
        ConstantSlopes(Multiply, m, n, Eval(env, a).value, 0.0);
      }
    case Bin(op, l, r) =>
      SlopeWithoutVariable(env, l, x);
      SlopeWithoutVariable(env, r, x);
      if Eval(env, l).Some? && Eval(env, r).Some? {
        ConstantSlopes(op, 0, 1, Eval(env, l).value, Eval(env, r).value);
      }
    case _ =>
  }

  /** Operands of slope 0 give a power or a binary operation slope 0. */
  lemma ConstantSlopes(op: BinaryOp, m: int, n: int, x: real, y: real)
    ensures PowerSlope(m, n, x, 0.0).Some? ==> PowerSlope(m, n, x, 0.0) == Some(0.0)
    ensures BinarySlope(op, x, 0.0, y, 0.0).Some? ==> BinarySlope(op, x, 0.0, y, 0.0) == Some(0.0)
  {
  }

  /** With the short-cut, a function without the variable's type has the
    * derivative Null; every other function is differentiated as before;
    * and the short-cut keeps every derivative `DiffTerm` finds and the
    * value of every derivative it gives. */
  lemma DiffTermShortcutMeaning(env: Env, f: Term, x: Node, rules: DiffRules)
    requires !f.Changed?
    ensures TermDisambiguation(f) == TermDisambiguation(Plain(x)) && StaticCountTerm(f, Plain(x)) == 0 ==>
              DiffTermShortcut(f, Plain(x), rules) == Ok(Wrapped(Null(TermDisambiguation(f))))
    ensures StaticCountTerm(f, Plain(x)) != 0 ==>
              DiffTermShortcut(f, Plain(x), rules) == DiffTerm(f, Plain(x), rules)
    ensures DiffTerm(f, Plain(x), rules).Ok? ==> DiffTermShortcut(f, Plain(x), rules).Ok?
    ensures DiffTermShortcut(f, Plain(x), rules).Ok? && Slope(env, Unwrap(f).value, Plain(x)).Some? ==>
              Eval(env, DiffTermShortcut(f, Plain(x), rules).value.content) == Slope(env, Unwrap(f).value, Plain(x))
  {
    var n := Unwrap(f).value;
    var d := DiffTermShortcut(f, Plain(x), rules);
    if d.Ok? && Slope(env, n, Plain(x)).Some? {
      if StaticCountTerm(f, Plain(x)) == 0 {
        assert StaticCount(n, Plain(x)) == 0;
        SlopeWithoutVariable(env, n, x);
      } else {
        DiffSound(env, n, Plain(x), rules, Diff(n, Plain(x), rules).value, Slope(env, n, Plain(x)).value);
      }
    }
  }

  /** Two variables of one tag, `x` and `y`. */
  const xyTag: Tag := Named("R")
  const xVar: Node := Leaf(Object("X", Some(xyTag), false), 0)
  const yVar: Node := Leaf(Object("Y", Some(xyTag), false), 1)

  /** As written `Diff(!y, x)` does not compile, although `!y` does not
    * contain `x`: the decision that would give Null is hard-coded to
    * "differentiate", and `!` has no rule.  With the short-cut it is Null.
    * The short-cut is taken for the whole function only, so `x + !y` does
    * not compile either way. */
  lemma NotOfOtherVariable(rules: DiffRules)
    ensures DiffTerm(Plain(Un(Not, yVar)), Plain(xVar), rules) == Err(NotImplemented)
    ensures DiffTermShortcut(Plain(Un(Not, yVar)), Plain(xVar), rules) == Ok(Wrapped(Null(xyTag)))
    ensures DiffTerm(Plain(Bin(Plus, xVar, Un(Not, yVar))), Plain(xVar), rules) == Err(NotImplemented)
    ensures DiffTermShortcut(Plain(Bin(Plus, xVar, Un(Not, yVar))), Plain(xVar), rules) == Err(NotImplemented)
  {
    assert !SameType(Un(Not, yVar), xVar) && !SameType(yVar, xVar);
    assert StaticCountTerm(Plain(Un(Not, yVar)), Plain(xVar)) == 0;
    assert StaticCountTerm(Plain(Bin(Plus, xVar, Un(Not, yVar))), Plain(xVar)) == 1;
  }
}
