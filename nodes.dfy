// Expression trees.  The C++ library encodes a tree in a nested template
// type (`BinOp<LHS, RHS, OP>`, `UnOp<ARG, OP>`, leaves); here the tree is a
// value, and the facts that the C++ reads off the type (which rule applies,
// which tag a node has) are computed from the value by `Erase`, `OwnTag` and
// `TopOp`.
module Nodes {
  import opened Wrappers
  import opened Ops
  import opened Tags

  /** A leaf that is not one of the library's own atoms.  `Object` is a value
    * of a user type (a variable, a matrix, a vector, the lambda placeholder);
    * `disamb` is its `Disambiguation` typedef, if it has one, and `byRef` says
    * whether builders capture it by reference (matrices and vectors) rather
    * than copy it.  `Literal` is a plain number, such as the `6` of `x < 6`,
    * which has no `Disambiguation`. */
  datatype LeafKind =
    | Object(typeName: string, disamb: Option<Tag>, byRef: bool)
    | Literal(typeName: string, value: int)

  /** An expression node.  `Leaf` carries the leaf's identity `id` (its
    * address), which is not part of its type; `Null` and `One` are
    * `IsNull<D>` and `IsOne<D>`; `Scalar` is `Scalar<D>` holding a double;
    * `Pow(m, n, arg)` is the unary node `UnOp<ARG, RationalPower<m, n>>`. */
  datatype Node =
    | Leaf(kind: LeafKind, id: nat)
    | Null(tag: Tag)
    | One(tag: Tag)
    | Scalar(value: real, tag: Tag)
    | Un(op: UnaryOp, arg: Node)
    | Bin(bop: BinaryOp, lhs: Node, rhs: Node)
    | Pow(m: int, n: int, arg: Node)

  /** The node's own `Disambiguation` typedef, when it has one.  A unary node
    * inherits from `Disambiguator<UnOpResultDisambiguator<ARG::Disambiguation>>`,
    * so it has a tag only when its argument has one; a binary node's tag is
    * computed from the operand tags of BinOps.h. */
  function OwnTag(e: Node): Option<Tag>
    decreases e, 0
  {
    match e
    case Leaf(k, _) => if k.Object? then k.disamb else None
    case Null(t) => Some(t)
    case One(t) => Some(t)
    case Scalar(_, t) => Some(t)
    case Un(op, a) => if OwnTag(a).Some? then Some(UnResultTag(OwnTag(a).value, op)) else None
    case Pow(_, _, a) => OwnTag(a)
    case Bin(op, l, r) => BinResultTag(OperandTag(l), OperandTag(r), op)
  }

  /** The tag an operand contributes to its parent: its `Disambiguation` if
    * it has one, otherwise its own type.  Only a leaf can lack a tag in a
    * well-formed tree. */
  function OperandTag(e: Node): Tag
    decreases e, 1
  {
    if OwnTag(e).Some? then OwnTag(e).value
    else if e.Leaf? then TypeTag(e.kind.typeName)
    else TypeTag("")
  }

  /** The trees the C++ compiler accepts: every unary node's argument has a
    * tag (the base class needs it), every binary node has a result tag, and
    * every power has a non-zero denominator (`RationalPow` rejects zero). */
  predicate WellFormed(e: Node)
  {
    match e
    case Leaf(_, _) => true
    case Null(_) => true
    case One(_) => true
    case Scalar(_, _) => true
    case Un(_, a) => WellFormed(a) && OwnTag(a).Some?
    case Pow(_, n, a) => WellFormed(a) && OwnTag(a).Some? && n != 0
    case Bin(op, l, r) =>
      WellFormed(l) && WellFormed(r) && BinResultTag(OperandTag(l), OperandTag(r), op).Some?
  }

  /** Every composite node of a well-formed tree has a tag. */
  lemma WellFormedCompositeTagged(e: Node)
    requires WellFormed(e) && (e.Un? || e.Bin? || e.Pow?)
    ensures OwnTag(e).Some?
  {
  }

  /** The type of a node: its value with everything that is not part of the
    * C++ type forgotten (the number inside a Scalar or a literal, the identity
    * of a leaf). */
  function Erase(e: Node): Node
  {
    match e
    case Leaf(k, _) => Leaf(if k.Literal? then Literal(k.typeName, 0) else k, 0)
    case Null(t) => e
    case One(t) => e
    case Scalar(_, t) => Scalar(0.0, t)
    case Un(op, a) => Un(op, Erase(a))
    case Pow(m, n, a) => Pow(m, n, Erase(a))
    case Bin(op, l, r) => Bin(op, Erase(l), Erase(r))
  }

  /** `SAME_TYPE(A, B)`. */
  predicate SameType(a: Node, b: Node)
  {
    Erase(a) == Erase(b)
  }

  /** Erasing keeps the shape and the tags, so erasure is idempotent and a
    * node has the same type as its erasure. */
  lemma {:induction false} EraseIdempotent(e: Node)
    ensures Erase(Erase(e)) == Erase(e)
    ensures OwnTag(Erase(e)) == OwnTag(e)
  {
    match e
    case Leaf(_, _) =>
    case Null(_) =>
    case One(_) =>
    case Scalar(_, _) =>
    case Un(op, a) => EraseIdempotent(a);
    case Pow(_, _, a) => EraseIdempotent(a);
    case Bin(op, l, r) =>
      EraseIdempotent(l);
      EraseIdempotent(r);
      assert OperandTag(Erase(l)) == OperandTag(l);
      assert OperandTag(Erase(r)) == OperandTag(r);
  }

  /** Two nodes of the same type have the same tag. */
  lemma SameTypeSameTag(a: Node, b: Node)
    requires SameType(a, b)
    ensures OwnTag(a) == OwnTag(b)
  {
    EraseIdempotent(a);
    EraseIdempotent(b);
  }

  /** `IsNull<D>` and `IsOne<D>` have no runtime state, so being of their type
    * is being them. */
  lemma NeutralTypes(e: Node, t: Tag)
    ensures SameType(e, Null(t)) <==> e == Null(t)
    ensures SameType(e, One(t)) <==> e == One(t)
  {
  }

  /** `ExtractOp<T>::Result`: the operator at the top of a node, or `NoOp`
    * (the private `Dummy`) for anything that is not an operation. */
  datatype TopOperator = BinTop(b: BinaryOp) | UnTop(u: UnaryOp) | PowTop(m: int, n: int) | NoOp

  function TopOp(e: Node): (r: TopOperator)
    ensures r == NoOp <==> !(e.Un? || e.Bin? || e.Pow?)
    ensures e.Bin? ==> r == BinTop(e.bop)
    ensures e.Un? ==> r == UnTop(e.op)
  {
    match e
    case Bin(op, _, _) => BinTop(op)
    case Un(op, _) => UnTop(op)
    case Pow(m, n, _) => PowTop(m, n)
    case _ => NoOp
  }

  /** The operator is part of the type: nodes of the same type have the
    * same `ExtractOp`, so it can be computed on types alone. */
  lemma TopOpOfSameType(a: Node, b: Node)
    requires SameType(a, b)
    ensures TopOp(a) == TopOp(b)
  {
    assert Erase(a) == Erase(b);
  }
}
