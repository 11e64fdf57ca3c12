// Algebraic simplification (`Simplify`, `SimplEvoker`, `SimplImpl`).  The
// C++ chooses a rule by the most specific partial specialisation matching
// the node's type; the order of the tests in `Impl` and its helpers follows
// that choice.  Template depth becomes `fuel`: running out of it is the
// compiler giving up on an endless instantiation.
module Simplification {
  import opened Wrappers
  import opened Ops
  import opened Tags
  import opened Nodes
  import opened Terms

  /** `AsWritten` follows the source; `Corrected` changes the four rules whose
    * result can have a different value from their argument (see `Impl`). */
  datatype RuleSet = AsWritten | Corrected

  /** Why simplifying a tree does not compile. */
  datatype SimplError =
    | OutOfFuel             // endless template recursion
    | TagChanged            // the paranoia assert of `SimplEvoker`
    | NoTag                 // a `Disambiguation` typedef the rule needs is missing
    | ZeroDenominator       // `RationalPower<m, 0>`
    | DivisionByZero        // a divisor of type `IsNull<D>`
    | ZeroPowerZero         // `RationalPower<0, n>` of `IsNull<D>`
    | NoConversion          // an unsimplified operand where a simplified type is declared
    | ScalarDivisionByZero  // folding `Scalar / Scalar` with a zero divisor
    | NotUnwrappable        // the argument is a `DisambiguationChanger`

  /** The unary operations that map 0 to 0, for which replacing a Null
    * argument by a Null result keeps the value. */
  predicate ZeroPreserving(op: UnaryOp)
  {
    op == UPlus || op == UMinus || IsDoNothing(op)
  }

  predicate IsNeg(e: Node)
  {
    e.Un? && e.op == UMinus
  }

  /** The rules that compare the two operands of `x + x` and `a / a`: as
    * written they compare the types, corrected they compare the values. */
  predicate SameOperands(rules: RuleSet, a: Node, b: Node)
  {
    if rules == AsWritten then SameType(a, b) else a == b
  }

  /** `SimplEvoker<T>`: simplify once; stop when the type does not change;
    * otherwise simplify once more (`EvokeAgain`).  The result must keep the
    * tag of `t`. */
  function Evoke(t: Node, rules: RuleSet, fuel: nat): (r: Result<Node, SimplError>)
    ensures r.Ok? ==> OwnTag(t).Some? && OwnTag(r.value) == OwnTag(t)
    decreases fuel, t, 3
  {
    if fuel == 0 then Err(OutOfFuel)
    else
      var s1 :- Impl(t, rules, fuel - 1);
      if SameType(t, s1) then KeepTag(t, t) else EvokeAgain(t, s1, rules, fuel)
  }

  /** The second step of `SimplEvoker<T>`, after `t` became `s1`: stop when
    * the type stays that of `s1`, otherwise recurse on the result. */
  function EvokeAgain(t: Node, s1: Node, rules: RuleSet, fuel: nat): (r: Result<Node, SimplError>)
    requires fuel > 0
    ensures r.Ok? ==> OwnTag(t).Some? && OwnTag(r.value) == OwnTag(t)
    decreases fuel, t, 2
  {
    match Impl(s1, rules, fuel - 1)
    case Err(err) => Err(err)
    case Ok(s2) =>
      if SameType(s1, s2) then KeepTag(t, s1)
      else
        match Evoke(s2, rules, fuel - 1)
        case Err(err) => Err(err)
        case Ok(sn) => KeepTag(t, Earliest(s1, s2, sn))
  }

  /** Among the results of two steps and of the recursion, the earliest one
    * whose type reappears in `sn`. */
  function Earliest(s1: Node, s2: Node, sn: Node): (r: Node)
    ensures r == s1 || r == s2 || r == sn
    ensures SameType(r, sn)
  {
    if SameType(s1, sn) then s1
    else if SameType(s2, sn) then s2
    else sn
  }

  /** The paranoia assert of `SimplEvoker`: `t` has a tag (the assert names
    * `T::Disambiguation`, so an operand without one does not compile) and
    * the result keeps it. */
  function KeepTag(t: Node, r: Node): (res: Result<Node, SimplError>)
    ensures res.Ok? <==> OwnTag(t).Some? && OwnTag(r) == OwnTag(t)
    ensures OwnTag(t).None? ==> res == Err(NoTag)
    ensures res.Ok? ==> res.value == r
  {
    if OwnTag(t).None? then Err(NoTag)
    else if OwnTag(r) != OwnTag(t) then Err(TagChanged)
    else Ok(r)
  }

  /** `SimplImpl<T>::Apply`: one rewriting step. */
  function Impl(e: Node, rules: RuleSet, fuel: nat): Result<Node, SimplError>
    decreases fuel, e, 2
  {
    match e
    case Leaf(_, _) => Ok(e)
    case Null(_) => Ok(e)
    case One(_) => Ok(e)
    case Scalar(_, _) => Ok(e)
    case Un(_, _) => ImplUn(e, rules, fuel)
    case Pow(_, _, _) => ImplPow(e, rules, fuel)
    case Bin(op, l, r) =>
      if l.Scalar? && r.Scalar? && l.tag == r.tag && IsConvenienceOp(op) then FoldScalars(e)
      else if op == Multiply then ImplMultiply(e, rules, fuel)
      else if op == Divide then ImplDivide(e, rules, fuel)
      else if op == Plus then ImplPlus(e, rules, fuel)
      else if op == Minus then ImplMinus(e)
      else Ok(e)
  }

  /** `Scalar<D> OP Scalar<D>` for `+ - * /` becomes the Scalar of the result. */
  function FoldScalars(e: Node): (r: Result<Node, SimplError>)
    requires e.Bin? && e.lhs.Scalar? && e.rhs.Scalar? && e.lhs.tag == e.rhs.tag
    requires IsConvenienceOp(e.bop)
  {
    var x, y, t := e.lhs.value, e.rhs.value, e.lhs.tag;
    match e.bop
    case Plus => Ok(Scalar(x + y, t))
    case Minus => Ok(Scalar(x - y, t))
    case Multiply => Ok(Scalar(x * y, t))
    case Divide => if y == 0.0 then Err(ScalarDivisionByZero) else Ok(Scalar(x / y, t))
  }

  /** `-(-x) = x`; otherwise the generic unary rule: the operation on the
    * simplified argument, or the Null of the node's tag when the simplified
    * argument is the Null of the argument's tag.  As written the Null
    * shortcut is taken for every operation (also `!0`, which is 1); the
    * corrected rule takes it only for operations that map 0 to 0. */
  function ImplUn(e: Node, rules: RuleSet, fuel: nat): Result<Node, SimplError>
    requires e.Un?
    decreases fuel, e, 1
  {
    if e.op == UMinus && IsNeg(e.arg) then Ok(e.arg.arg)
    else
      var sa :- Evoke(e.arg, rules, fuel);
      if OwnTag(e.arg).None? || OwnTag(e).None? then Err(NoTag)
      else if sa == Null(OwnTag(e.arg).value) && (rules == AsWritten || ZeroPreserving(e.op))
      then Ok(Null(OwnTag(e).value))
      else Ok(Un(e.op, sa))
  }

  /** The power rules: `(x^(m/n))^(o/p) = x^((m*o)/(n*p))`, `(x*y)^a =
    * x^a * y^a`, and the generic rule.  As written the product rule builds
    * the powers from the unsimplified operands, which only compiles when
    * simplifying does not change their types; the corrected rule uses the
    * simplified operands, as its declared result type does. */
  function ImplPow(e: Node, rules: RuleSet, fuel: nat): Result<Node, SimplError>
    requires e.Pow?
    decreases fuel, e, 1
  {
    var a := e.arg;
    if a.Pow? then
      var sx :- Evoke(a.arg, rules, fuel);
      Ok(Pow(a.m * e.m, a.n * e.n, sx))
    else if a.Bin? && a.bop == Multiply then
      var sx :- Evoke(a.lhs, rules, fuel);
      var sy :- Evoke(a.rhs, rules, fuel);
      if OwnTag(sx).None? || OwnTag(sy).None? then Err(NoTag)
      else if rules == AsWritten then
        if !SameType(sx, a.lhs) || !SameType(sy, a.rhs) then Err(NoConversion)
        else Ok(Bin(Multiply, Pow(e.m, e.n, a.lhs), Pow(e.m, e.n, a.rhs)))
      else Ok(Bin(Multiply, Pow(e.m, e.n, sx), Pow(e.m, e.n, sy)))
    else
      var sa :- Evoke(a, rules, fuel);
      GenericPow(e.m, e.n, a, sa)
  }

  /** The generic power rule, given the simplified argument `sa`: the
    * exponent is normalised to a positive denominator; then a zero exponent
    * or an argument One gives One, an argument Null gives Null (`0^0` is
    * rejected), an exponent 1 gives the simplified argument, and anything
    * else is the normalised power of the simplified argument. */
  function GenericPow(mm: int, nn: int, a: Node, sa: Node): (r: Result<Node, SimplError>)
  {
    var m, n := if nn < 0 then -mm else mm, if nn < 0 then -nn else nn;
    if nn == 0 then Err(SimplError.ZeroDenominator)
    else if OwnTag(a).None? then Err(NoTag)
    else
      var t := OwnTag(a).value;
      if a == Null(t) && mm == 0 then Err(ZeroPowerZero)
      else if m == 0 || a == One(t) then Ok(One(t))
      else if a == Null(t) then Ok(Null(t))
      else if m == n then Ok(sa)
      else Ok(Pow(m, n, sa))
  }

  /** The product rules: `(-a)*(-b) = a*b`, `a*(-b) = -(a*b)`, `(-a)*b =
    * -(a*b)`, and the generic rule, which drops factors One and gives Null
    * when a simplified factor is Null. */
  function ImplMultiply(e: Node, rules: RuleSet, fuel: nat): Result<Node, SimplError>
    requires e.Bin?
    decreases fuel, e, 1
  {
    var l, r := e.lhs, e.rhs;
    if IsNeg(l) && IsNeg(r) then
      var sa :- Evoke(l.arg, rules, fuel);
      var sb :- Evoke(r.arg, rules, fuel);
      Ok(Bin(Multiply, sa, sb))
    else if IsNeg(r) then
      var sa :- Evoke(l, rules, fuel);
      var sb :- Evoke(r.arg, rules, fuel);
      Ok(Un(UMinus, Bin(Multiply, sa, sb)))
    else if IsNeg(l) then
      var sa :- Evoke(l.arg, rules, fuel);
      var sb :- Evoke(r, rules, fuel);
      Ok(Un(UMinus, Bin(Multiply, sa, sb)))
    else
      var sl :- Evoke(l, rules, fuel);
      var sr :- Evoke(r, rules, fuel);
      if OwnTag(l).None? || OwnTag(r).None? || OwnTag(e).None? then Err(NoTag)
      else
        var tl, tr, t := OwnTag(l).value, OwnTag(r).value, OwnTag(e).value;
        if sl == Null(tl) || sr == Null(tr) then Ok(Null(t))
        else if sl == One(tl) then (if sr == One(tr) then Ok(One(t)) else Ok(sr))
        else if sr == One(tr) then Ok(sl)
        else Ok(Bin(Multiply, sl, sr))
  }

  /** `a/a = 1` (as written: for operands of the same type; corrected: for
    * equal operands), and `a/b = a * b^(-1/1)`; a divisor Null is rejected. */
  function ImplDivide(e: Node, rules: RuleSet, fuel: nat): Result<Node, SimplError>
    requires e.Bin?
    decreases fuel, e, 1
  {
    var l, r := e.lhs, e.rhs;
    if OwnTag(r).None? then Err(NoTag)
    else if r == Null(OwnTag(r).value) then Err(DivisionByZero)
    else if SameOperands(rules, l, r) then
      if OwnTag(e).None? then Err(NoTag) else Ok(One(OwnTag(e).value))
    else
      var sl :- Evoke(l, rules, fuel);
      var sr :- Evoke(r, rules, fuel);
      Ok(Bin(Multiply, sl, Pow(-1, 1, sr)))
  }

  /** `x + x = 2*x` (as written: for operands of the same type; corrected:
    * for equal operands), and the generic rule, which drops summands Null
    * and folds `1 + 0` and `0 + 1` to One, all with the node's tag. */
  function ImplPlus(e: Node, rules: RuleSet, fuel: nat): Result<Node, SimplError>
    requires e.Bin?
    decreases fuel, e, 1
  {
    var l, r := e.lhs, e.rhs;
    if SameOperands(rules, l, r) then
      var sl :- Evoke(l, rules, fuel);
      if OwnTag(e).None? then Err(NoTag)
      else Ok(Bin(Multiply, Scalar(2.0, OwnTag(e).value), sl))
    else
      var sl :- Evoke(l, rules, fuel);
      var sr :- Evoke(r, rules, fuel);
      if OwnTag(e).None? then Err(NoTag)
      else
        var t := OwnTag(e).value;
        var lNull, rNull, lOne, rOne := sl == Null(t), sr == Null(t), sl == One(t), sr == One(t);
        if (lOne && rNull) || (lNull && rOne) then Ok(One(t))
        else if lNull then (if rNull then Ok(Null(t)) else Ok(sr))
        else if rNull then Ok(sl)
        else Ok(Bin(Plus, sl, sr))
  }

  /** `a - b = a + (-b)`, on the unsimplified operands. */
  function ImplMinus(e: Node): Result<Node, SimplError>
    requires e.Bin?
  {
    if OwnTag(e.rhs).None? then Err(NoTag)
    else Ok(Bin(Plus, e.lhs, Un(UMinus, e.rhs)))
  }

  /** `Simplify(t)`: strip an `Expr`, simplify, wrap the result again. */
  function Simplify(t: Term, rules: RuleSet, fuel: nat): (r: Result<Term, SimplError>)
    ensures r.Ok? ==> !t.Changed? && TermTag(t).Some? && r.value.Wrapped? && TermTag(r.value) == TermTag(t)
  {
    if t.Changed? then Err(SimplError.NotUnwrappable)
    else
      var n := if t.Plain? then t.node else t.content;
      var s :- Evoke(n, rules, fuel);
      if OwnTag(s).None? then Err(NoTag) else Ok(Wrapped(s))
  }
}
