// What simplification guarantees: it keeps trees well formed and keeps
// their tags (so the paranoia assert of `SimplEvoker` only fires on trees
// whose rules change tags), and with the corrected rules it keeps the value
// of every tree that has one.  The as-written rules are shown to change
// values on concrete trees.
module SimplificationProofs {
  import opened Wrappers
  import opened Ops
  import opened Tags
  import opened Nodes
  import opened Terms
  import opened Semantics
  import opened Simplification

  // ---------------------------------------------------------------------
  // Tags of rebuilt nodes.

  /** Nodes of the same type contribute the same operand tag. */
  lemma SameTypeOperandTag(a: Node, b: Node)
    requires SameType(a, b)
    ensures OperandTag(a) == OperandTag(b)
  {
    SameTypeSameTag(a, b);
  }

  /** A negated node contributes the tag of its argument. */
  lemma NegTag(a: Node)
    requires WellFormed(Un(UMinus, a))
    ensures OperandTag(Un(UMinus, a)) == OperandTag(a) && OwnTag(Un(UMinus, a)) == OwnTag(a)
  {
  }

  // ---------------------------------------------------------------------
  // Well-formedness and tags are preserved.

  lemma EvokePreserves(t: Node, rules: RuleSet, fuel: nat, r: Node)
    requires WellFormed(t) && Evoke(t, rules, fuel) == Ok(r)
    ensures OwnTag(t).Some?
    ensures WellFormed(r) && OwnTag(r) == OwnTag(t) && OperandTag(r) == OperandTag(t)
    decreases fuel, t, 3
  {
    var s1 := Impl(t, rules, fuel - 1).value;
    ImplPreserves(t, rules, fuel - 1, s1);
    if !SameType(t, s1) {
      EvokeAgainPreserves(t, s1, rules, fuel, r);
    }
  }

  lemma EvokeAgainPreserves(t: Node, s1: Node, rules: RuleSet, fuel: nat, r: Node)
    requires fuel > 0 && WellFormed(s1)
    requires EvokeAgain(t, s1, rules, fuel) == Ok(r)
    ensures WellFormed(r) && OwnTag(r) == OwnTag(t)
    decreases fuel, t, 2
  {
    match Impl(s1, rules, fuel - 1)
    case Ok(s2) =>
      ImplPreserves(s1, rules, fuel - 1, s2);
      if !SameType(s1, s2) {
        EvokeTailPreserves(t, s1, s2, rules, fuel, r);
      }
  }

  lemma EvokeTailPreserves(t: Node, s1: Node, s2: Node, rules: RuleSet, fuel: nat, r: Node)
    requires fuel > 0 && WellFormed(s1) && WellFormed(s2)
    requires Evoke(s2, rules, fuel - 1).Ok?
    requires KeepTag(t, Earliest(s1, s2, Evoke(s2, rules, fuel - 1).value)) == Ok(r)
    ensures WellFormed(r) && OwnTag(r) == OwnTag(t)
    decreases fuel, t, 1
  {
    EvokePreserves(s2, rules, fuel - 1, Evoke(s2, rules, fuel - 1).value);
  }

  lemma ImplPreserves(e: Node, rules: RuleSet, fuel: nat, r: Node)
    requires WellFormed(e) && Impl(e, rules, fuel) == Ok(r)
    ensures WellFormed(r)
    ensures OwnTag(e).None? ==> r == e
    decreases fuel, e, 3
  {
    match e
    case Leaf(_, _) =>
    case Null(_) =>
    case One(_) =>
    case Scalar(_, _) =>
    case Un(_, _) => ImplUnPreserves(e, rules, fuel, r);
    case Pow(_, _, _) => ImplPowPreserves(e, rules, fuel, r);
    case Bin(op, lhs, rhs) =>
      if lhs.Scalar? && rhs.Scalar? && lhs.tag == rhs.tag && IsConvenienceOp(op) {
      } else if op == Multiply {
        ImplMultiplyPreserves(e, rules, fuel, r);
      } else if op == Divide {
        ImplDividePreserves(e, rules, fuel, r);
      } else if op == Plus {
        ImplPlusPreserves(e, rules, fuel, r);
      } else if op == Minus {
        ResultTagByOperator(OperandTag(lhs), OperandTag(rhs), Minus);
      }
  }

  lemma ImplUnPreserves(e: Node, rules: RuleSet, fuel: nat, r: Node)
    requires e.Un? && WellFormed(e) && ImplUn(e, rules, fuel) == Ok(r)
    ensures WellFormed(r)
    decreases fuel, e, 1
  {
    if !(e.op == UMinus && IsNeg(e.arg)) {
      EvokePreserves(e.arg, rules, fuel, Evoke(e.arg, rules, fuel).value);
    }
  }

  lemma ImplPowPreserves(e: Node, rules: RuleSet, fuel: nat, r: Node)
    requires e.Pow? && WellFormed(e) && ImplPow(e, rules, fuel) == Ok(r)
    ensures WellFormed(r)
    decreases fuel, e, 2
  {
    var a := e.arg;
    if a.Pow? {
      EvokePreserves(a.arg, rules, fuel, Evoke(a.arg, rules, fuel).value);
      assert a.n * e.n != 0;
    } else if a.Bin? && a.bop == Multiply {
      ImplPowProductPreserves(e, rules, fuel, r);
    } else {
      EvokePreserves(a, rules, fuel, Evoke(a, rules, fuel).value);
    }
  }

  /** `(x * y)^q = x^q * y^q`, on the written or the simplified factors. */
  lemma ImplPowProductPreserves(e: Node, rules: RuleSet, fuel: nat, r: Node)
    requires e.Pow? && WellFormed(e) && ImplPow(e, rules, fuel) == Ok(r)
    requires e.arg.Bin? && e.arg.bop == Multiply
    ensures WellFormed(r)
    decreases fuel, e, 0
  {
    var a := e.arg;
    var sx := Evoke(a.lhs, rules, fuel).value;
    var sy := Evoke(a.rhs, rules, fuel).value;
    EvokePreserves(a.lhs, rules, fuel, sx);
    EvokePreserves(a.rhs, rules, fuel, sy);
  }

  lemma ImplMultiplyPreserves(e: Node, rules: RuleSet, fuel: nat, r: Node)
    requires e.Bin? && WellFormed(e) && ImplMultiply(e, rules, fuel) == Ok(r)
    ensures WellFormed(r)
    decreases fuel, e, 2
  {
    if IsNeg(e.lhs) || IsNeg(e.rhs) {
      ImplMultiplyNegPreserves(e, rules, fuel, r);
    } else {
      ImplMultiplyPlainPreserves(e, rules, fuel, r);
    }
  }

  /** The sign rules: the minus signs are pulled out of the product. */
  lemma ImplMultiplyNegPreserves(e: Node, rules: RuleSet, fuel: nat, r: Node)
    requires e.Bin? && WellFormed(e) && ImplMultiply(e, rules, fuel) == Ok(r)
    requires IsNeg(e.lhs) || IsNeg(e.rhs)
    ensures WellFormed(r)
    decreases fuel, e, 1
  {
    var l, rh := e.lhs, e.rhs;
    if IsNeg(l) && IsNeg(rh) {
      var sa, sb := Evoke(l.arg, rules, fuel).value, Evoke(rh.arg, rules, fuel).value;
      EvokePreserves(l.arg, rules, fuel, sa);
      EvokePreserves(rh.arg, rules, fuel, sb);
      NegTag(l.arg);
      NegTag(rh.arg);
    } else if IsNeg(rh) {
      OneSignPreserves(e, l, rh.arg, rules, fuel, r);
    } else {
      OneSignPreserves(e, l.arg, rh, rules, fuel, r);
    }
  }

  /** `a * (-b)` and `(-a) * b` both become `-(a * b)`. */
  lemma OneSignPreserves(e: Node, a: Node, b: Node, rules: RuleSet, fuel: nat, r: Node)
    requires e.Bin? && WellFormed(e) && a < e && b < e && WellFormed(a) && WellFormed(b)
    requires OperandTag(a) == OperandTag(e.lhs) && OperandTag(b) == OperandTag(e.rhs)
    requires Evoke(a, rules, fuel).Ok? && Evoke(b, rules, fuel).Ok?
    requires r == Un(UMinus, Bin(Multiply, Evoke(a, rules, fuel).value, Evoke(b, rules, fuel).value))
    ensures WellFormed(r)
    decreases fuel, e, 0
  {
    EvokePreserves(a, rules, fuel, Evoke(a, rules, fuel).value);
    EvokePreserves(b, rules, fuel, Evoke(b, rules, fuel).value);
  }

  /** The generic rule: Null and One operands fold away. */
  lemma ImplMultiplyPlainPreserves(e: Node, rules: RuleSet, fuel: nat, r: Node)
    requires e.Bin? && WellFormed(e) && ImplMultiply(e, rules, fuel) == Ok(r)
    requires !IsNeg(e.lhs) && !IsNeg(e.rhs)
    ensures WellFormed(r)
    decreases fuel, e, 0
  {
    EvokePreserves(e.lhs, rules, fuel, Evoke(e.lhs, rules, fuel).value);
    EvokePreserves(e.rhs, rules, fuel, Evoke(e.rhs, rules, fuel).value);
  }

  lemma ImplDividePreserves(e: Node, rules: RuleSet, fuel: nat, r: Node)
    requires e.Bin? && WellFormed(e) && ImplDivide(e, rules, fuel) == Ok(r)
    ensures WellFormed(r)
    decreases fuel, e, 1
  {
    var l, rh := e.lhs, e.rhs;
    if !SameOperands(rules, l, rh) {
      EvokePreserves(l, rules, fuel, Evoke(l, rules, fuel).value);
      EvokePreserves(rh, rules, fuel, Evoke(rh, rules, fuel).value);
      ResultTagByOperator(OperandTag(l), OperandTag(rh), e.bop);
    }
  }

  lemma ImplPlusPreserves(e: Node, rules: RuleSet, fuel: nat, r: Node)
    requires e.Bin? && e.bop == Plus && WellFormed(e) && ImplPlus(e, rules, fuel) == Ok(r)
    ensures WellFormed(r)
    decreases fuel, e, 1
  {
    var l, rh := e.lhs, e.rhs;
    EvokePreserves(l, rules, fuel, Evoke(l, rules, fuel).value);
    if SameOperands(rules, l, rh) {
      SameTypeOperandTag(l, rh);
      SameTagKept(OperandTag(l), Plus);
      SameTagKept(OperandTag(l), Multiply);
    } else {
      EvokePreserves(rh, rules, fuel, Evoke(rh, rules, fuel).value);
    }
  }

  /** `Simplify` gives an `Expr` around a well-formed tree with the tag of
    * the argument, so the `SimplEvoker` assert never fires on a tree the
    * rules rebuild consistently. */
  lemma SimplifyPreserves(t: Term, rules: RuleSet, fuel: nat)
    requires !t.Changed? && WellFormed(Unwrap(t).value)
    requires Simplify(t, rules, fuel).Ok?
    ensures Simplify(t, rules, fuel).value.Wrapped?
    ensures WellFormed(Simplify(t, rules, fuel).value.content)
    ensures TermTag(t).Some?
    ensures TermTag(Simplify(t, rules, fuel).value) == TermTag(t)
  {
    var n := Unwrap(t).value;
    EvokePreserves(n, rules, fuel, Evoke(n, rules, fuel).value);
  }

  /** `x + 6` with an `int` literal: the literal operand has no
    * `Disambiguation`, so the sum is not simplified. */
  lemma SumWithIntLiteralRejected()
    ensures Simplify(Wrapped(Bin(Plus, Leaf(Object("X", Some(Named("R")), false), 1), Leaf(Literal("int", 6), 0))), RuleSet.AsWritten, 5) == Err(NoTag)
  {
  }

  // ---------------------------------------------------------------------
  // The corrected rules keep the value.

  lemma EvokeSound(env: Env, t: Node, fuel: nat, r: Node)
    requires WellFormed(t) && Evoke(t, Corrected, fuel) == Ok(r) && Eval(env, t).Some?
    ensures Eval(env, r) == Eval(env, t)
    decreases fuel, t, 3
  {
    var s1 := Impl(t, Corrected, fuel - 1).value;
    ImplSound(env, t, fuel - 1, s1);
    if !SameType(t, s1) {
      ImplPreserves(t, Corrected, fuel - 1, s1);
      EvokeAgainSound(env, t, s1, fuel, r);
    }
  }

  lemma EvokeAgainSound(env: Env, t: Node, s1: Node, fuel: nat, r: Node)
    requires fuel > 0 && WellFormed(s1) && Eval(env, s1).Some?
    requires EvokeAgain(t, s1, Corrected, fuel) == Ok(r)
    ensures Eval(env, r) == Eval(env, s1)
    decreases fuel, t, 2
  {
    var s2 := Impl(s1, Corrected, fuel - 1).value;
    ImplSound(env, s1, fuel - 1, s2);
    if !SameType(s1, s2) {
      ImplPreserves(s1, Corrected, fuel - 1, s2);
      var sn := Evoke(s2, Corrected, fuel - 1).value;
      EvokeSound(env, s2, fuel - 1, sn);
    }
  }

  lemma ImplSound(env: Env, e: Node, fuel: nat, r: Node)
    requires WellFormed(e) && Impl(e, Corrected, fuel) == Ok(r) && Eval(env, e).Some?
    ensures Eval(env, r) == Eval(env, e)
    decreases fuel, e, 2
  {
    match e
    case Leaf(_, _) =>
    case Null(_) =>
    case One(_) =>
    case Scalar(_, _) =>
    case Un(_, _) => ImplUnSound(env, e, fuel, r);
    case Pow(_, _, _) => ImplPowSound(env, e, fuel, r);
    case Bin(op, lhs, rhs) =>
      if lhs.Scalar? && rhs.Scalar? && lhs.tag == rhs.tag && IsConvenienceOp(op) {
        FoldScalarsSound(env, e);
      } else if op == Multiply {
        ImplMultiplySound(env, e, fuel, r);
      } else if op == Divide {
        ImplDivideSound(env, e, fuel, r);
      } else if op == Plus {
        ImplPlusSound(env, e, fuel, r);
      }
  }

  lemma ImplUnSound(env: Env, e: Node, fuel: nat, r: Node)
    requires e.Un? && WellFormed(e) && ImplUn(e, Corrected, fuel) == Ok(r) && Eval(env, e).Some?
    ensures Eval(env, r) == Eval(env, e)
    decreases fuel, e, 1
  {
    if !(e.op == UMinus && IsNeg(e.arg)) {
      EvokeSound(env, e.arg, fuel, Evoke(e.arg, Corrected, fuel).value);
    }
  }

  /** With denominators of magnitude 1, the exponent of a power of a power
    * is the product of the normalised exponents. */
  lemma ExponentProduct(m: int, n: int, o: int, p: int)
    requires (n == 1 || n == -1) && (p == 1 || p == -1)
    ensures n * p == 1 || n * p == -1
    ensures NormDen(m * o, n * p) == 1
    ensures NormNum(m * o, n * p) == NormNum(m, n) * NormNum(o, p)
  {
  }

  lemma ImplPowSound(env: Env, e: Node, fuel: nat, r: Node)
    requires e.Pow? && WellFormed(e) && ImplPow(e, Corrected, fuel) == Ok(r) && Eval(env, e).Some?
    ensures Eval(env, r) == Eval(env, e)
    decreases fuel, e, 1
  {
    var a := e.arg;
    if a.Pow? {
      PowOfPowSound(env, e, fuel, r);
    } else if a.Bin? && a.bop == Multiply {
      PowOfProductSound(env, e, fuel, r);
    } else {
      var sa := Evoke(a, Corrected, fuel).value;
      EvokeSound(env, a, fuel, sa);
      GenericPowSound(env, e.m, e.n, a, sa);
    }
  }

  lemma PowOfPowSound(env: Env, e: Node, fuel: nat, r: Node)
    requires e.Pow? && e.arg.Pow? && WellFormed(e) && ImplPow(e, Corrected, fuel) == Ok(r)
    requires Eval(env, e).Some?
    ensures Eval(env, r) == Eval(env, e)
    decreases fuel, e, 0
  {
    var a := e.arg;
    var sx := Evoke(a.arg, Corrected, fuel).value;
    EvokeSound(env, a.arg, fuel, sx);
    var vx := Eval(env, a.arg).value;
    var u := Eval(env, a).value;
    ExponentProduct(a.m, a.n, e.m, e.n);
    PowerOfPower(vx, NormNum(a.m, a.n), NormNum(e.m, e.n), u, Eval(env, e).value);
  }

  lemma PowOfProductSound(env: Env, e: Node, fuel: nat, r: Node)
    requires e.Pow? && e.arg.Bin? && e.arg.bop == Multiply && WellFormed(e)
    requires ImplPow(e, Corrected, fuel) == Ok(r) && Eval(env, e).Some?
    ensures Eval(env, r) == Eval(env, e)
    decreases fuel, e, 0
  {
    var a := e.arg;
    var sx := Evoke(a.lhs, Corrected, fuel).value;
    var sy := Evoke(a.rhs, Corrected, fuel).value;
    EvokeSound(env, a.lhs, fuel, sx);
    EvokeSound(env, a.rhs, fuel, sy);
    assert r == Bin(Multiply, Pow(e.m, e.n, sx), Pow(e.m, e.n, sy));
    PowerOfProductValue(env, e.m, e.n, a.lhs, a.rhs, sx, sy);
  }

  /** The generic power rule keeps the value of `a^(mm/nn)`, given that the
    * simplified argument has the value of the argument. */
  lemma GenericPowSound(env: Env, mm: int, nn: int, a: Node, sa: Node)
    requires GenericPow(mm, nn, a, sa).Ok? && Eval(env, a).Some? && Eval(env, sa) == Eval(env, a)
    requires ApplyPower(mm, nn, Eval(env, a).value).Some?
    ensures Eval(env, GenericPow(mm, nn, a, sa).value) == ApplyPower(mm, nn, Eval(env, a).value)
  {
    var x := Eval(env, a).value;
    var k := NormNum(mm, nn);
    var t := OwnTag(a).value;
    NormalisedPower(mm, nn, x);
    if k == 0 {
    } else if a == One(t) {
      if k >= 0 { IntPowOfOne(k); } else { IntPowOfOne(-k); }
    } else if a == Null(t) {
      if k > 0 { IntPowOfZero(k); }
    } else if k == NormDen(mm, nn) {
      assert IntPow(x, 1) == x;
    }
  }

  /** Folding two Scalars keeps the value. */
  lemma FoldScalarsSound(env: Env, e: Node)
    requires e.Bin? && e.lhs.Scalar? && e.rhs.Scalar? && e.lhs.tag == e.rhs.tag
    requires IsConvenienceOp(e.bop) && FoldScalars(e).Ok? && Eval(env, e).Some?
    ensures Eval(env, FoldScalars(e).value) == Eval(env, e)
  {
    var x, y := e.lhs.value, e.rhs.value;
    assert Eval(env, e) == ApplyBinary(e.bop, x, y);
    match e.bop
    case Plus =>
    case Minus =>
    case Multiply =>
    case Divide =>
  }

  // Values of the rebuilt products, given simplified operands with the
  // values of the original ones.

  lemma NegNegValue(env: Env, a: Node, b: Node, sa: Node, sb: Node)
    requires Eval(env, sa) == Eval(env, a) && Eval(env, sb) == Eval(env, b)
    requires Eval(env, Bin(Multiply, Un(UMinus, a), Un(UMinus, b))).Some?
    ensures Eval(env, Bin(Multiply, sa, sb)) == Eval(env, Bin(Multiply, Un(UMinus, a), Un(UMinus, b)))
  {
    var x, y := Eval(env, a).value, Eval(env, b).value;
    EvalProduct(env, sa, sb, x, y, x * y);
    EvalNegTimesNeg(env, a, b, x, y);
  }

  lemma NegRightValue(env: Env, a: Node, b: Node, sa: Node, sb: Node)
    requires Eval(env, sa) == Eval(env, a) && Eval(env, sb) == Eval(env, b)
    requires Eval(env, Bin(Multiply, a, Un(UMinus, b))).Some?
    ensures Eval(env, Un(UMinus, Bin(Multiply, sa, sb))) == Eval(env, Bin(Multiply, a, Un(UMinus, b)))
  {
    var x, y := Eval(env, a).value, Eval(env, b).value;
    EvalProduct(env, sa, sb, x, y, x * y);
    EvalTimesNeg(env, a, b, x, y);
  }

  lemma NegLeftValue(env: Env, a: Node, b: Node, sa: Node, sb: Node)
    requires Eval(env, sa) == Eval(env, a) && Eval(env, sb) == Eval(env, b)
    requires Eval(env, Bin(Multiply, Un(UMinus, a), b)).Some?
    ensures Eval(env, Un(UMinus, Bin(Multiply, sa, sb))) == Eval(env, Bin(Multiply, Un(UMinus, a), b))
  {
    var x, y := Eval(env, a).value, Eval(env, b).value;
    EvalProduct(env, sa, sb, x, y, x * y);
    EvalNegTimes(env, a, b, x, y);
  }

  lemma InverseProductValue(env: Env, a: Node, b: Node, sa: Node, sb: Node)
    requires Eval(env, sa) == Eval(env, a) && Eval(env, sb) == Eval(env, b)
    requires Eval(env, Bin(Divide, a, b)).Some?
    ensures Eval(env, Bin(Multiply, sa, Pow(-1, 1, sb))) == Eval(env, Bin(Divide, a, b))
  {
    var x, y := Eval(env, a).value, Eval(env, b).value;
    assert y != 0.0 && Eval(env, Bin(Divide, a, b)) == Some(x / y);
    EvalProductWithInverse(env, sa, sb, x, y);
  }

  lemma PowerOfProductValue(env: Env, m: int, n: int, a: Node, b: Node, sa: Node, sb: Node)
    requires Eval(env, sa) == Eval(env, a) && Eval(env, sb) == Eval(env, b)
    requires Eval(env, Pow(m, n, Bin(Multiply, a, b))).Some?
    ensures Eval(env, Bin(Multiply, Pow(m, n, sa), Pow(m, n, sb))) == Eval(env, Pow(m, n, Bin(Multiply, a, b)))
  {
    var x, y := Eval(env, a).value, Eval(env, b).value;
    EvalProduct(env, a, b, x, y, x * y);
    var w := Eval(env, Pow(m, n, Bin(Multiply, a, b))).value;
    assert ApplyPower(m, n, x * y) == Some(w);
    EvalPowerOfProduct(env, m, n, sa, sb, x, y, w);
  }

  lemma ImplMultiplySound(env: Env, e: Node, fuel: nat, r: Node)
    requires e.Bin? && e.bop == Multiply && WellFormed(e) && ImplMultiply(e, Corrected, fuel) == Ok(r)
    requires Eval(env, e).Some?
    ensures Eval(env, r) == Eval(env, e)
    decreases fuel, e, 1
  {
    var l, rh := e.lhs, e.rhs;
    if IsNeg(l) && IsNeg(rh) {
      var sa, sb := Evoke(l.arg, Corrected, fuel).value, Evoke(rh.arg, Corrected, fuel).value;
      EvokeSound(env, l.arg, fuel, sa);
      EvokeSound(env, rh.arg, fuel, sb);
      assert r == Bin(Multiply, sa, sb);
      NegNegValue(env, l.arg, rh.arg, sa, sb);
    } else if IsNeg(rh) {
      var sa, sb := Evoke(l, Corrected, fuel).value, Evoke(rh.arg, Corrected, fuel).value;
      EvokeSound(env, l, fuel, sa);
      EvokeSound(env, rh.arg, fuel, sb);
      assert r == Un(UMinus, Bin(Multiply, sa, sb));
      NegRightValue(env, l, rh.arg, sa, sb);
    } else if IsNeg(l) {
      var sa, sb := Evoke(l.arg, Corrected, fuel).value, Evoke(rh, Corrected, fuel).value;
      EvokeSound(env, l.arg, fuel, sa);
      EvokeSound(env, rh, fuel, sb);
      assert r == Un(UMinus, Bin(Multiply, sa, sb));
      NegLeftValue(env, l.arg, rh, sa, sb);
    } else {
      GenericProductSound(env, e, fuel, r);
    }
  }

  lemma GenericProductSound(env: Env, e: Node, fuel: nat, r: Node)
    requires e.Bin? && e.bop == Multiply && !IsNeg(e.lhs) && !IsNeg(e.rhs) && WellFormed(e)
    requires ImplMultiply(e, Corrected, fuel) == Ok(r) && Eval(env, e).Some?
    ensures Eval(env, r) == Eval(env, e)
    decreases fuel, e, 0
  {
    var l, rh := e.lhs, e.rhs;
    var sl, sr := Evoke(l, Corrected, fuel).value, Evoke(rh, Corrected, fuel).value;
    EvokeSound(env, l, fuel, sl);
    EvokeSound(env, rh, fuel, sr);
    var x, y := Eval(env, l).value, Eval(env, rh).value;
    var tl, tr := OwnTag(l).value, OwnTag(rh).value;
    if sl == Null(tl) || sr == Null(tr) {
      assert x == 0.0 || y == 0.0;
      assert x * y == 0.0;
    } else if sl == One(tl) {
      assert x * y == y;
    } else if sr == One(tr) {
      assert x * y == x;
    } else {
      EvalProduct(env, sl, sr, x, y, x * y);
    }
  }

  lemma ImplDivideSound(env: Env, e: Node, fuel: nat, r: Node)
    requires e.Bin? && e.bop == Divide && WellFormed(e) && ImplDivide(e, Corrected, fuel) == Ok(r)
    requires Eval(env, e).Some?
    ensures Eval(env, r) == Eval(env, e)
    decreases fuel, e, 1
  {
    var l, rh := e.lhs, e.rhs;
    if !SameOperands(Corrected, l, rh) {
      var sl, sr := Evoke(l, Corrected, fuel).value, Evoke(rh, Corrected, fuel).value;
      EvokeSound(env, l, fuel, sl);
      EvokeSound(env, rh, fuel, sr);
      assert r == Bin(Multiply, sl, Pow(-1, 1, sr));
      InverseProductValue(env, l, rh, sl, sr);
    } else {
      var x := Eval(env, l).value;
      assert x != 0.0 && Eval(env, e) == Some(x / x);
      DivideBySelf(x);
    }
  }

  lemma ImplPlusSound(env: Env, e: Node, fuel: nat, r: Node)
    requires e.Bin? && e.bop == Plus && WellFormed(e) && ImplPlus(e, Corrected, fuel) == Ok(r)
    requires Eval(env, e).Some?
    ensures Eval(env, r) == Eval(env, e)
    decreases fuel, e, 1
  {
    var l, rh := e.lhs, e.rhs;
    EvokeSound(env, l, fuel, Evoke(l, Corrected, fuel).value);
    if !SameOperands(Corrected, l, rh) {
      EvokeSound(env, rh, fuel, Evoke(rh, Corrected, fuel).value);
    }
  }

  /** `Simplify` with the corrected rules keeps the value of the tree. */
  lemma SimplifySound(env: Env, t: Term, fuel: nat)
    requires !t.Changed? && WellFormed(Unwrap(t).value) && Eval(env, Unwrap(t).value).Some?
    requires Simplify(t, Corrected, fuel).Ok?
    ensures Eval(env, Simplify(t, Corrected, fuel).value.content) == Eval(env, Unwrap(t).value)
  {
    var n := Unwrap(t).value;
    EvokeSound(env, n, fuel, Evoke(n, Corrected, fuel).value);
  }

  // ---------------------------------------------------------------------
  // Where the as-written rules change the value.

  /** A matrix-like leaf kind with its own tag. */
  const mTag: Tag := Named("M")
  const mKind: LeafKind := Object("M", Some(mTag), true)

  /** The value of a leaf is its identity plus one. */
  function IdEnv(): Env
  {
    (k: LeafKind, id: nat) => (id + 1) as real
  }

  /** `A + B` for two distinct leaves of one type becomes `2 * A`. */
  lemma SumOfSameTypeLeavesDoubled()
    ensures Impl(Bin(Plus, Leaf(mKind, 1), Leaf(mKind, 2)), AsWritten, 1)
            == Ok(Bin(Multiply, Scalar(2.0, mTag), Leaf(mKind, 1)))
    ensures Eval(IdEnv(), Bin(Plus, Leaf(mKind, 1), Leaf(mKind, 2))) == Some(5.0)
    ensures Eval(IdEnv(), Bin(Multiply, Scalar(2.0, mTag), Leaf(mKind, 1))) == Some(4.0)
  {
    assert Evoke(Leaf(mKind, 1), AsWritten, 1) == Ok(Leaf(mKind, 1));
  }

  /** `A / B` for two distinct leaves of one type becomes One. */
  lemma QuotientOfSameTypeLeavesIsOne()
    ensures Impl(Bin(Divide, Leaf(mKind, 1), Leaf(mKind, 2)), AsWritten, 1) == Ok(One(mTag))
    ensures Eval(IdEnv(), Bin(Divide, Leaf(mKind, 1), Leaf(mKind, 2))) == Some(2.0 / 3.0)
  {
  }

  /** `!0` becomes Null, although its value is 1. */
  lemma NotOfNullIsNull()
    ensures Impl(Un(Not, Null(mTag)), AsWritten, 1) == Ok(Null(mTag))
    ensures Eval(IdEnv(), Un(Not, Null(mTag))) == Some(1.0)
    ensures Impl(Un(Not, Null(mTag)), Corrected, 1) == Ok(Un(Not, Null(mTag)))
  {
    assert Evoke(Null(mTag), AsWritten, 1) == Ok(Null(mTag));
    assert Evoke(Null(mTag), Corrected, 1) == Ok(Null(mTag));
  }

  /** `((1 * A) * B)^2` is rejected, because `1 * A` simplifies to `A`, of
    * another type; the corrected rule gives `A^2 * B^2`. */
  lemma PowerOfSimplifiableProductRejected()
    ensures Impl(Pow(2, 1, Bin(Multiply, Bin(Multiply, One(mTag), Leaf(mKind, 1)), Leaf(mKind, 2))),
                 AsWritten, 2) == Err(NoConversion)
    ensures Impl(Pow(2, 1, Bin(Multiply, Bin(Multiply, One(mTag), Leaf(mKind, 1)), Leaf(mKind, 2))),
                 Corrected, 2)
            == Ok(Bin(Multiply, Pow(2, 1, Leaf(mKind, 1)), Pow(2, 1, Leaf(mKind, 2))))
  {
    PowerOfProductAsWritten();
    PowerOfProductCorrected();
  }

  lemma PowerOfProductAsWritten()
    ensures Impl(Pow(2, 1, Bin(Multiply, Bin(Multiply, One(mTag), Leaf(mKind, 1)), Leaf(mKind, 2))),
                 AsWritten, 2) == Err(NoConversion)
  {
    FactorsEvoke(AsWritten);
  }

  lemma PowerOfProductCorrected()
    ensures Impl(Pow(2, 1, Bin(Multiply, Bin(Multiply, One(mTag), Leaf(mKind, 1)), Leaf(mKind, 2))),
                 Corrected, 2)
            == Ok(Bin(Multiply, Pow(2, 1, Leaf(mKind, 1)), Pow(2, 1, Leaf(mKind, 2))))
  {
    FactorsEvoke(Corrected);
  }

  /** Under either rule set, `1 * A` simplifies to `A` and `B` stays `B`. */
  lemma FactorsEvoke(rules: RuleSet)
    ensures Evoke(Bin(Multiply, One(mTag), Leaf(mKind, 1)), rules, 2) == Ok(Leaf(mKind, 1))
    ensures Evoke(Leaf(mKind, 2), rules, 2) == Ok(Leaf(mKind, 2))
  {
    var p := Bin(Multiply, One(mTag), Leaf(mKind, 1));
    assert Evoke(One(mTag), rules, 1) == Ok(One(mTag));
    assert Evoke(Leaf(mKind, 1), rules, 1) == Ok(Leaf(mKind, 1));
    assert Impl(p, rules, 1) == Ok(Leaf(mKind, 1));
    assert Impl(Leaf(mKind, 1), rules, 1) == Ok(Leaf(mKind, 1));
  }
}
