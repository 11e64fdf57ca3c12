// The `Expr<T>` wrapper, its wrap and unwrap helpers, the tag-changing
// wrapper of ChangeDisambiguation.h, and the node builders of DefaultOps.h
// and Scalar.h.
module Terms {
  import opened Wrappers
  import opened Ops
  import opened Tags
  import opened Nodes

  /** What a user holds: a bare node, an `Expr<T>` around a node, or
    * `Expr<DisambiguationChanger<T, N>>`, which holds the original content and
    * takes its features from the new tag `N`. */
  datatype Term =
    | Plain(node: Node)
    | Wrapped(content: Node)
    | Changed(content: Node, newTag: Tag)

  /** Why a term operation does not compile. */
  datatype TermError =
    | NoDisambiguation   // the operand has no `Disambiguation` typedef
    | NestedExpr         // `Expr<Expr<T>>` is an incomplete type
    | NotUnwrappable     // the content of a changer does not convert back
    | NoResultTag        // no `BinOpResultDisambiguator` for the operand tags
    | ZeroDenominator    // `RationalPow<m, 0>`
    | NotAnExpr          // the operation takes an `Expr<T>` only

  predicate IsExpr(t: Term)
  {
    t.Wrapped? || t.Changed?
  }

  /** The `Disambiguation` typedef of a term: a node's own, or the content's
    * for both wrappers (a changer does not change this typedef). */
  function TermTag(t: Term): Option<Tag>
  {
    match t
    case Plain(n) => OwnTag(n)
    case Wrapped(n) => OwnTag(n)
    case Changed(n, _) => OwnTag(n)
  }

  /** The tag an `Expr` takes its `FeaturesOfExpression` from: the content's
    * tag, or the new tag of a changer. */
  function FeaturesTag(t: Term): Option<Tag>
    requires IsExpr(t)
  {
    if t.Changed? then Some(t.newTag) else OwnTag(t.content)
  }

  /** `Expr<T>(t)`: only a node with a tag can be wrapped, and wrapping an
    * `Expr` again is forbidden. */
  function ExprOf(t: Term): (r: Result<Term, TermError>)
    ensures r.Ok? <==> t.Plain? && OwnTag(t.node).Some?
    ensures r.Ok? ==> r.value.Wrapped? && r.value.content == t.node
                      && TermTag(r.value) == TermTag(t)
    ensures t.Wrapped? || t.Changed? ==> r == Err(NestedExpr)
  {
    match t
    case Plain(n) => if OwnTag(n).Some? then Ok(Wrapped(n)) else Err(NoDisambiguation)
    case _ => Err(NestedExpr)
  }

  /** `content()` of either wrapper: exactly the node it was built from. */
  function Content(t: Term): Node
    requires IsExpr(t)
  {
    t.content
  }

  /** `make_expr`: wraps a node, returns an `Expr` argument unchanged. */
  function MakeExpr(t: Term): Result<Term, TermError>
  {
    if t.Plain? then ExprOf(t) else Ok(t)
  }

  /** `unwrap_expr`: strips one `Expr` layer, the identity on a node.  The
    * content of a changer has the original type, which the declared result
    * type (the changer) cannot be built from, so that call is rejected. */
  function Unwrap(t: Term): Result<Node, TermError>
  {
    match t
    case Plain(n) => Ok(n)
    case Wrapped(n) => Ok(n)
    case Changed(_, _) => Err(NotUnwrappable)
  }

  /** `make_expr` is idempotent, and unwrapping what it made gives back the
    * node. */
  lemma MakeExprRoundTrip(t: Term)
    requires MakeExpr(t).Ok?
    ensures MakeExpr(MakeExpr(t).value) == MakeExpr(t)
    ensures IsExpr(MakeExpr(t).value)
    ensures t.Plain? ==> Unwrap(MakeExpr(t).value) == Ok(t.node)
    ensures !t.Plain? ==> MakeExpr(t).value == t
  {
  }

  /** `ChangeDisambiguation<N>(E)`: only an `Expr<T>` around a node can be
    * given a new features tag.  The content and the `Disambiguation` typedef
    * stay those of `E`; only the features change. */
  function ChangeDisambiguation(newTag: Tag, t: Term): (r: Result<Term, TermError>)
    ensures r.Ok? <==> t.Wrapped?
    ensures r.Ok? ==> r.value.Changed? && Content(r.value) == Content(t)
                      && TermTag(r.value) == TermTag(t)
                      && FeaturesTag(r.value) == Some(newTag)
  {
    if t.Wrapped? then Ok(Changed(t.content, newTag)) else Err(NotAnExpr)
  }

  /** A unary operator function (`operator-`, `Transpose`, ...): wraps
    * `UnOp<unwrap(arg), OP>` in an `Expr`.  The argument must have a tag. */
  function UnaryNode(op: UnaryOp, t: Term): (r: Result<Term, TermError>)
    ensures r.Ok? <==> Unwrap(t).Ok? && OwnTag(Unwrap(t).value).Some?
    ensures r.Ok? ==> r.value.Wrapped? && r.value.content.Un?
                      && r.value.content.op == op && r.value.content.arg == Unwrap(t).value
                      && TermTag(r.value) == Some(UnResultTag(TermTag(t).value, op))
    ensures r.Ok? && WellFormed(Unwrap(t).value) ==> WellFormed(r.value.content)
  {
    var n :- Unwrap(t);
    if OwnTag(n).None? then Err(NoDisambiguation) else Ok(Wrapped(Un(op, n)))
  }

  /** A binary operator function (`operator+`, ...): wraps
    * `BinOp<unwrap(lhs), unwrap(rhs), OP>` in an `Expr`; rejected when no
    * result tag exists for the operand tags. */
  function BinaryNode(op: BinaryOp, lhs: Term, rhs: Term): (r: Result<Term, TermError>)
    ensures r.Ok? <==> Unwrap(lhs).Ok? && Unwrap(rhs).Ok?
                       && BinResultTag(OperandTag(Unwrap(lhs).value), OperandTag(Unwrap(rhs).value), op).Some?
    ensures r.Ok? ==> r.value.Wrapped? && r.value.content == Bin(op, Unwrap(lhs).value, Unwrap(rhs).value)
    ensures r.Ok? && WellFormed(Unwrap(lhs).value) && WellFormed(Unwrap(rhs).value) ==>
              WellFormed(r.value.content)
  {
    var l :- Unwrap(lhs);
    var rr :- Unwrap(rhs);
    if BinResultTag(OperandTag(l), OperandTag(rr), op).None? then Err(NoResultTag)
    else Ok(Wrapped(Bin(op, l, rr)))
  }

  /** `RationalPow<m, n>(arg)`: `n == 0` is rejected at compile time. */
  function RationalPow(m: int, n: int, t: Term): (r: Result<Term, TermError>)
    ensures n == 0 ==> r == Err(ZeroDenominator)
    ensures r.Ok? <==> n != 0 && Unwrap(t).Ok? && OwnTag(Unwrap(t).value).Some?
    ensures r.Ok? ==> r.value == Wrapped(Pow(m, n, Unwrap(t).value))
                      && TermTag(r.value) == TermTag(t)
    ensures r.Ok? && WellFormed(Unwrap(t).value) ==> WellFormed(r.value.content)
  {
    if n == 0 then Err(ZeroDenominator)
    else
      var a :- Unwrap(t);
      if OwnTag(a).None? then Err(NoDisambiguation) else Ok(Wrapped(Pow(m, n, a)))
  }

  /** `Pow<m>(arg)` is the power `m/1`. */
  function PowOf(m: int, t: Term): Result<Term, TermError>
  {
    RationalPow(m, 1, t)
  }

  /** `Sqrt(arg)` is the power `1/2`. */
  function Sqrt(t: Term): Result<Term, TermError>
  {
    RationalPow(1, 2, t)
  }

  /** `Inverse(arg)` is the power `1/-1`. */
  function Inverse(t: Term): Result<Term, TermError>
  {
    RationalPow(1, -1, t)
  }

  /** The three named powers build exactly those exponents, and none of them
    * is ever rejected for its denominator. */
  lemma NamedPowers(m: int, t: Term)
    ensures PowOf(m, t).Ok? ==> PowOf(m, t).value.content == Pow(m, 1, Unwrap(t).value)
    ensures Sqrt(t).Ok? ==> Sqrt(t).value.content == Pow(1, 2, Unwrap(t).value)
    ensures Inverse(t).Ok? ==> Inverse(t).value.content == Pow(1, -1, Unwrap(t).value)
    ensures PowOf(m, t) != Err(ZeroDenominator) && Sqrt(t) != Err(ZeroDenominator)
            && Inverse(t) != Err(ZeroDenominator)
  {
  }

  /** The operators of the `Convenience` builders: a double combined with
    * an expression exists only for these four. */
  predicate IsConvenienceOp(op: BinaryOp)
  {
    op == Multiply || op == Divide || op == Plus || op == Minus
  }

  /** `expr OP d`: the double becomes a `Scalar` with the expression's tag,
    * on the right. */
  function ScalarOnRight(op: BinaryOp, t: Term, d: real): (r: Result<Term, TermError>)
    requires IsConvenienceOp(op)
    ensures r.Ok? <==> Unwrap(t).Ok? && TermTag(t).Some?
    ensures r.Ok? ==> r.value.Wrapped?
                      && r.value.content == Bin(op, Unwrap(t).value, Scalar(d, TermTag(t).value))
                      && TermTag(r.value) == TermTag(t)
  {
    var a :- Unwrap(t);
    if OwnTag(a).None? then Err(NoDisambiguation)
    else
      assert BinResultTag(OperandTag(a), OperandTag(Scalar(d, OwnTag(a).value)), op)
             == Some(OwnTag(a).value) by { SameTagKept(OwnTag(a).value, op); }
      Ok(Wrapped(Bin(op, a, Scalar(d, OwnTag(a).value))))
  }

  /** `d OP expr`: the same with the Scalar on the left. */
  function ScalarOnLeft(op: BinaryOp, d: real, t: Term): (r: Result<Term, TermError>)
    requires IsConvenienceOp(op)
    ensures r.Ok? <==> Unwrap(t).Ok? && TermTag(t).Some?
    ensures r.Ok? ==> r.value.Wrapped?
                      && r.value.content == Bin(op, Scalar(d, TermTag(t).value), Unwrap(t).value)
                      && TermTag(r.value) == TermTag(t)
  {
    var a :- Unwrap(t);
    if OwnTag(a).None? then Err(NoDisambiguation)
    else
      assert BinResultTag(OperandTag(Scalar(d, OwnTag(a).value)), OperandTag(a), op)
             == Some(OwnTag(a).value) by { SameTagKept(OwnTag(a).value, op); }
      Ok(Wrapped(Bin(op, Scalar(d, OwnTag(a).value), a)))
  }

  /** `ExtractOp` of a term: an `Expr` is looked through; the content of a
    * changer is not an operation, so a changer yields the dummy. */
  function ExtractOp(t: Term): (r: TopOperator)
    ensures t.Plain? ==> r == TopOp(t.node)
    ensures t.Wrapped? ==> r == TopOp(t.content)
    ensures t.Changed? ==> r == NoOp
  {
    match t
    case Plain(n) => TopOp(n)
    case Wrapped(n) => TopOp(n)
    case Changed(_, _) => NoOp
  }
}
