// `m -= e` on the linear-algebra containers adds `Simplify(-e)`, simplified
// with the library's own rules.  Simplification only rebuilds nodes around
// the leaves it was given, so a tree whose operands are captured by
// reference stays so and can be handed to `+=`.
module LinalgSimplify {
  import opened Wrappers
  import opened Ops
  import opened Nodes
  import opened Terms
  import opened Simplification
  import opened LinalgExpr

  /** `Simplify(-e)` as `operator-=` builds it: the negation of `e` (which
    * needs a tag), simplified with the as-written rules.  Any failure is a
    * compile error. */
  function Negated(e: Node, fuel: nat): (r: Result<Node, LinalgError>)
    ensures r.Ok? ==> OwnTag(r.value).Some?
    ensures r.Ok? <==> OwnTag(e).Some? && Evoke(Un(UMinus, e), RuleSet.AsWritten, fuel).Ok?
  {
    match UnaryNode(UMinus, Wrapped(e))
    case Err(_) => Err(NotCompiled)
    case Ok(neg) =>
      match Simplify(neg, RuleSet.AsWritten, fuel)
      case Err(_) => Err(NotCompiled)
      case Ok(s) => Ok(s.content)
  }

  lemma EvokeByRef(t: Node, rules: RuleSet, fuel: nat, r: Node)
    requires CapturedByReference(t) && Evoke(t, rules, fuel) == Ok(r)
    ensures CapturedByReference(r)
    decreases fuel, t, 3
  {
    var s1 := Impl(t, rules, fuel - 1).value;
    ImplByRef(t, rules, fuel - 1, s1);
    if !SameType(t, s1) {
      EvokeAgainByRef(t, s1, rules, fuel, r);
    }
  }

  lemma EvokeAgainByRef(t: Node, s1: Node, rules: RuleSet, fuel: nat, r: Node)
    requires fuel > 0 && CapturedByReference(s1)
    requires EvokeAgain(t, s1, rules, fuel) == Ok(r)
    ensures CapturedByReference(r)
    decreases fuel, t, 2
  {
    match Impl(s1, rules, fuel - 1)
    case Ok(s2) =>
      ImplByRef(s1, rules, fuel - 1, s2);
      if !SameType(s1, s2) {
        EvokeByRef(s2, rules, fuel - 1, Evoke(s2, rules, fuel - 1).value);
      }
  }

  lemma ImplByRef(e: Node, rules: RuleSet, fuel: nat, r: Node)
    requires CapturedByReference(e) && Impl(e, rules, fuel) == Ok(r)
    ensures CapturedByReference(r)
    decreases fuel, e, 3
  {
    match e
    case Leaf(_, _) =>
    case Null(_) =>
    case One(_) =>
    case Scalar(_, _) =>
    case Un(_, _) => ImplUnByRef(e, rules, fuel, r);
    case Pow(_, _, _) => ImplPowByRef(e, rules, fuel, r);
    case Bin(op, l, rr) =>
      if l.Scalar? && rr.Scalar? && l.tag == rr.tag && IsConvenienceOp(op) {
      } else if op == Multiply {
        ImplMultiplyByRef(e, rules, fuel, r);
      } else if op == Divide {
        ImplDivideByRef(e, rules, fuel, r);
      } else if op == Plus {
        ImplPlusByRef(e, rules, fuel, r);
      }
  }

  lemma ImplUnByRef(e: Node, rules: RuleSet, fuel: nat, r: Node)
    requires e.Un? && CapturedByReference(e) && ImplUn(e, rules, fuel) == Ok(r)
    ensures CapturedByReference(r)
    decreases fuel, e, 2
  {
    if !(e.op == UMinus && IsNeg(e.arg)) {
      EvokeByRef(e.arg, rules, fuel, Evoke(e.arg, rules, fuel).value);
    }
  }

  lemma ImplPowByRef(e: Node, rules: RuleSet, fuel: nat, r: Node)
    requires e.Pow? && CapturedByReference(e) && ImplPow(e, rules, fuel) == Ok(r)
    ensures CapturedByReference(r)
    decreases fuel, e, 2
  {
    var a := e.arg;
    if a.Pow? {
      EvokeByRef(a.arg, rules, fuel, Evoke(a.arg, rules, fuel).value);
    } else if a.Bin? && a.bop == Multiply {
      EvokeByRef(a.lhs, rules, fuel, Evoke(a.lhs, rules, fuel).value);
      EvokeByRef(a.rhs, rules, fuel, Evoke(a.rhs, rules, fuel).value);
    } else {
      EvokeByRef(a, rules, fuel, Evoke(a, rules, fuel).value);
    }
  }

  lemma ImplMultiplyByRef(e: Node, rules: RuleSet, fuel: nat, r: Node)
    requires e.Bin? && CapturedByReference(e) && ImplMultiply(e, rules, fuel) == Ok(r)
    ensures CapturedByReference(r)
    decreases fuel, e, 2
  {
    var l, rr := e.lhs, e.rhs;
    var a := if IsNeg(l) then l.arg else l;
    var b := if IsNeg(rr) then rr.arg else rr;
    EvokeByRef(a, rules, fuel, Evoke(a, rules, fuel).value);
    EvokeByRef(b, rules, fuel, Evoke(b, rules, fuel).value);
  }

  lemma ImplDivideByRef(e: Node, rules: RuleSet, fuel: nat, r: Node)
    requires e.Bin? && CapturedByReference(e) && ImplDivide(e, rules, fuel) == Ok(r)
    ensures CapturedByReference(r)
    decreases fuel, e, 2
  {
    if OwnTag(e.rhs).Some? && e.rhs != Null(OwnTag(e.rhs).value) && !SameOperands(rules, e.lhs, e.rhs) {
      EvokeByRef(e.lhs, rules, fuel, Evoke(e.lhs, rules, fuel).value);
      EvokeByRef(e.rhs, rules, fuel, Evoke(e.rhs, rules, fuel).value);
    }
  }

  lemma ImplPlusByRef(e: Node, rules: RuleSet, fuel: nat, r: Node)
    requires e.Bin? && CapturedByReference(e) && ImplPlus(e, rules, fuel) == Ok(r)
    ensures CapturedByReference(r)
    decreases fuel, e, 2
  {
    EvokeByRef(e.lhs, rules, fuel, Evoke(e.lhs, rules, fuel).value);
    if !SameOperands(rules, e.lhs, e.rhs) {
      EvokeByRef(e.rhs, rules, fuel, Evoke(e.rhs, rules, fuel).value);
    }
  }

  /** Negating and simplifying keeps the operands captured by reference, so
    * `-=` can always hand the simplified tree to `+=`. */
  lemma NegatedByRef(e: Node, fuel: nat)
    requires CapturedByReference(e) && Negated(e, fuel).Ok?
    ensures CapturedByReference(Negated(e, fuel).value)
  {
    EvokeByRef(Un(UMinus, e), RuleSet.AsWritten, fuel, Negated(e, fuel).value);
  }
}
