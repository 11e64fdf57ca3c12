// Symbolic differentiation (`Diff`, `Differentiator`, `DiffImpl`).  The C++
// differentiates by type: every leaf whose type is that of the variable
// counts as the variable, and a tree whose operator has no rule does not
// compile.  Here a rejected tree is an `Err`.
module Differentiation {
  import opened Wrappers
  import opened Ops
  import opened Tags
  import opened Nodes
  import opened Terms
  import opened Semantics
  import opened Counting

  /** `AsWritten` follows the source, whose coefficient of `f^(m/n)` does not
    * compile for `m == n` and for `m == 1`; `Corrected` builds the
    * coefficient the comment above the decision sequence describes. */
  datatype DiffRules = DiffAsWritten | DiffCorrected

  /** Why differentiating a tree does not compile. */
  datatype DiffError =
    | NotImplemented       // an operator without a differentiation rule
    | DivisionByZero       // a divisor of type `IsNull<D>`
    | NoTag                // `RHS^(-1)` of a divisor without a `Disambiguation`
    | ZeroDenominator      // `RationalPower<m, 0>`
    | CoefficientRejected  // the two coefficient cases that do not compile
    | TagMismatch          // function and variable have different tags
    | NotUnwrappable       // the argument is a `DisambiguationChanger`

  /** A leaf counts as the variable when the variable was passed as a bare
    * node of the same type; an `Expr`-wrapped variable matches no leaf. */
  predicate IsVariable(wrt: Term, e: Node)
  {
    wrt.Plain? && SameType(wrt.node, e)
  }

  /** The coefficient of the power rule for `f^(m/n)` with `n > 0`, first
    * match wins: 1, -1, `Scalar(n)^(-1)` for `m == 1`, `-Scalar(-m/n)` for a
    * negative `m`, `Scalar(m/n)` otherwise. */
  function Coefficient(m: int, n: int, tag: Tag, rules: DiffRules): Result<Node, DiffError>
    requires n > 0
  {
    if m == n then
      if rules == DiffAsWritten then Err(CoefficientRejected) else Ok(One(tag))
    else if m == -n then Ok(Un(UMinus, One(tag)))
    else if m == 1 then
      if rules == DiffAsWritten then Err(CoefficientRejected)
      else Ok(Pow(-1, 1, Scalar(n as real, tag)))
    else if m < 0 then Ok(Un(UMinus, Scalar((-m) as real / n as real, tag)))
    else Ok(Scalar(m as real / n as real, tag))
  }

  /** `(f^(m/n))' = (c * f^((m-n)/n)) * f'`, after moving the sign of the
    * exponent to `m`; `da` is the derivative of `a` and `tag` the tag of the
    * power node. */
  function PowerRule(mm: int, nn: int, a: Node, da: Node, tag: Tag, rules: DiffRules): Result<Node, DiffError>
  {
    var m, n := NormNum(mm, nn), NormDen(mm, nn);
    if n == 0 then Err(DiffError.ZeroDenominator)
    else
      var c :- Coefficient(m, n, tag, rules);
      Ok(Bin(Multiply, Bin(Multiply, c, Pow(m - n, n, a)), da))
  }

  /** `(f * g)' = f' * g + f * g'`, in exactly this shape. */
  function ProductRule(l: Node, r: Node, dl: Node, dr: Node): Node
  {
    Bin(Plus, Bin(Multiply, dl, r), Bin(Multiply, l, dr))
  }

  /** `DiffImpl<WRT, ARG>::Apply`.  A leaf, Null, One or Scalar gives One if
    * it has the variable's type and Null otherwise, with its own tag; unary
    * plus and minus and binary plus and minus go through; a product follows
    * the product rule; `f / g` is differentiated as `f * g^(-1/1)`; a power
    * follows the power rule. */
  function Diff(e: Node, wrt: Term, rules: DiffRules): Result<Node, DiffError>
  {
    match e
    case Un(op, a) =>
      var da :- Diff(a, wrt, rules);
      if op == UPlus || op == UMinus then Ok(Un(op, da)) else Err(NotImplemented)
    case Pow(m, n, a) =>
      var da :- Diff(a, wrt, rules);
      PowerRule(m, n, a, da, OperandTag(e), rules)
    case Bin(op, l, r) =>
      if op == Multiply then
        var dl :- Diff(l, wrt, rules);
        var dr :- Diff(r, wrt, rules);
        Ok(ProductRule(l, r, dl, dr))
      else if op == Divide then
        if r.Null? then Err(DivisionByZero)
        else if OwnTag(r).None? then Err(NoTag)
        else
          var dl :- Diff(l, wrt, rules);
          var dr :- Diff(r, wrt, rules);
          var dinv :- PowerRule(-1, 1, r, dr, OwnTag(r).value, rules);
          Ok(ProductRule(l, Pow(-1, 1, r), dl, dinv))
      else if op == Plus || op == Minus then
        var dl :- Diff(l, wrt, rules);
        var dr :- Diff(r, wrt, rules);
        Ok(Bin(op, dl, dr))
      else Err(NotImplemented)
    case _ =>
      if IsVariable(wrt, e) then Ok(One(OperandTag(e))) else Ok(Null(OperandTag(e)))
  }

  /** The `Disambiguation` the top-level check compares: that of the node,
    * or of the wrapper's content. */
  function TermDisambiguation(t: Term): Tag
  {
    match t
    case Plain(n) => OperandTag(n)
    case Wrapped(n) => OperandTag(n)
    case Changed(n, _) => OperandTag(n)
  }

  /** `Diff(f, x)`: function and variable must have the same tag; an `Expr`
    * argument is unwrapped; the derivative is returned inside an `Expr`. */
  function DiffTerm(f: Term, wrt: Term, rules: DiffRules): Result<Term, DiffError>
  {
    if TermDisambiguation(f) != TermDisambiguation(wrt) then Err(TagMismatch)
    else if f.Changed? then Err(DiffError.NotUnwrappable)
    else
      var d :- Diff(Unwrap(f).value, wrt, rules);
      if OwnTag(d).None? then Err(NoTag) else Ok(Wrapped(d))
  }

  /** `Diff(f, x)` with the pre-differentiation its comment describes: a
    * function in which the variable's type does not occur is
    * differentiated to the Null of its tag at once, before any rule is
    * looked up.  The library hard-codes that decision to "differentiate",
    * which is `DiffTerm`. */
  function DiffTermShortcut(f: Term, wrt: Term, rules: DiffRules): Result<Term, DiffError>
  {
    if TermDisambiguation(f) != TermDisambiguation(wrt) then Err(TagMismatch)
    else if StaticCountTerm(f, wrt) == 0 then Ok(Wrapped(Null(TermDisambiguation(f))))
    else DiffTerm(f, wrt, rules)
  }

  // ---------------------------------------------------------------------
  // The reference: the derivative by the rules of calculus, computed
  // forward from the values and derivatives of the operands.

  /** The derivative of `x^(m/n)` from the value `x` and the derivative `dx`
    * of the base: `(k * x^(k-1)) * dx` for an integral exponent `k`. */
  function PowerSlope(m: int, n: int, x: real, dx: real): Option<real>
  {
    if n == 0 || NormDen(m, n) != 1 || Power(x, NormNum(m, n) - 1).None? then None
    else Some((NormNum(m, n) as real * Power(x, NormNum(m, n) - 1).value) * dx)
  }

  /** The derivative of a binary operation from the values `x`, `y` and the
    * derivatives `dx`, `dy` of its operands; only the four arithmetic
    * operators have one, and a quotient by zero has none. */
  function BinarySlope(op: BinaryOp, x: real, dx: real, y: real, dy: real): Option<real>
  {
    if op == Multiply then Some(dx * y + x * dy)
    else if op == Divide then
      if y == 0.0 then None else Some((dx * y - x * dy) / (y * y))
    else if op == Plus then Some(dx + dy)
    else if op == Minus then Some(dx - dy)
    else None
  }

  /** The derivative of a tree at the point `env`, where the leaves of the
    * variable's type have slope 1 and all others slope 0; None where the
    * tree has no value or one of its operators no derivative. */
  function Slope(env: Env, e: Node, wrt: Term): Option<real>
  {
    if Eval(env, e).None? then None
    else
      match e
      case Un(op, a) =>
        if Slope(env, a, wrt).None? then None
        else if op == UPlus then Slope(env, a, wrt)
        else if op == UMinus then Some(-Slope(env, a, wrt).value)
        else None
      case Pow(m, n, a) =>
        if Slope(env, a, wrt).None? then None
        else PowerSlope(m, n, Eval(env, a).value, Slope(env, a, wrt).value)
      case Bin(op, l, r) =>
        if Slope(env, l, wrt).None? || Slope(env, r, wrt).None? then None
        else BinarySlope(op, Eval(env, l).value, Slope(env, l, wrt).value,
                         Eval(env, r).value, Slope(env, r, wrt).value)
      case _ => Some(if IsVariable(wrt, e) then 1.0 else 0.0)
  }

  /** Every divisor in the tree has a `Disambiguation`, which `g^(-1/1)` needs. */
  predicate DivisorsTagged(e: Node)
  {
    match e
    case Un(_, a) => DivisorsTagged(a)
    case Pow(_, _, a) => DivisorsTagged(a)
    case Bin(op, l, r) => DivisorsTagged(l) && DivisorsTagged(r) && (op == Divide ==> OwnTag(r).Some?)
    case _ => true
  }
}
