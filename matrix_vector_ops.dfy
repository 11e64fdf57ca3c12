// How the builders of the `Linalg` library capture their operands
// (linalg/MatrixVectorOps.h): `CRefOrVal` is specialised so that a sparse
// matrix or vector is held by a constant reference and never copied into a
// node, while any other operand is held by value.
module MatrixVectorOps {
  import opened Wrappers
  import opened Ops
  import opened Tags
  import opened Nodes
  import opened LinalgExpr
  import Semantics

  /** The type of an operand handed to a builder: `Linalg::Matrix<T,
    * RowStorage, Allocator>`, `Linalg::Vector<T, Allocator>`, or another
    * type with its name and its `Disambiguation`, if it has one. */
  datatype OperandType =
    | MatrixType(numT: string, rowStorage: string, alloc: string)
    | VectorType(numT: string, alloc: string)
    | OtherType(name: string, disamb: Option<Tag>)

  /** `CRefOrVal<T>::Type` is a `ConstRef<T>` for exactly the two
    * specialised types. */
  function CRefOrVal(t: OperandType): (byRef: bool)
  {
    t.MatrixType? || t.VectorType?
  }

  /** The `Disambiguation` typedef of the operand type: a matrix is a
    * `MatrixExpression<MatrixDisambiguator<T, RowStorage, Allocator>>`, a
    * vector a `VectorExpression<VectorDisambiguator<T, Allocator>>`. */
  function DisambOf(t: OperandType): Option<Tag>
  {
    match t
    case MatrixType(n, rs, a) => Some(MatrixExpr(n, rs, a))
    case VectorType(n, a) => Some(VectorExpr(n, a))
    case OtherType(_, d) => d
  }

  function NameOf(t: OperandType): string
  {
    match t
    case MatrixType(_, _, _) => "Linalg::Matrix"
    case VectorType(_, _) => "Linalg::Vector"
    case OtherType(name, _) => name
  }

  /** The leaf a builder makes of the object `id` of type `t`. */
  function OperandLeaf(t: OperandType, id: nat): (e: Node)
    ensures e.Leaf? && e.id == id && e.kind.Object? && e.kind.byRef == CRefOrVal(t)
  {
    Leaf(Object(NameOf(t), DisambOf(t), CRefOrVal(t)), id)
  }

  /** An expression as the user writes it: operands, scalars, and the unary
    * and binary operators of the library. */
  datatype Written =
    | Operand(t: OperandType, id: nat)
    | Number(value: real, tag: Tag)
    | UnOf(op: UnaryOp, arg: Written)
    | BinOf(bop: BinaryOp, lhs: Written, rhs: Written)

  /** The tree the builders make of it: every operand becomes a leaf captured
    * as `CRefOrVal` says. */
  function Build(w: Written): Node
  {
    match w
    case Operand(t, id) => OperandLeaf(t, id)
    case Number(v, tag) => Scalar(v, tag)
    case UnOf(op, a) => Un(op, Build(a))
    case BinOf(op, l, r) => Bin(op, Build(l), Build(r))
  }

  /** Every operand of the expression is a sparse matrix or vector. */
  predicate OnlyMatricesAndVectors(w: Written)
  {
    match w
    case Operand(t, _) => !t.OtherType?
    case Number(_, _) => true
    case UnOf(_, a) => OnlyMatricesAndVectors(a)
    case BinOf(_, l, r) => OnlyMatricesAndVectors(l) && OnlyMatricesAndVectors(r)
  }

  /** A built tree refers to all its object leaves by reference exactly when
    * every operand is a sparse matrix or vector; an operand of another type
    * is copied into the tree. */
  lemma {:induction false} BuiltCapturedByReference(w: Written)
    ensures CapturedByReference(Build(w)) <==> OnlyMatricesAndVectors(w)
  {
    match w
    case Operand(t, id) =>
    case Number(_, _) =>
    case UnOf(_, a) =>
      BuiltCapturedByReference(a);
    case BinOf(_, l, r) =>
      BuiltCapturedByReference(l);
      BuiltCapturedByReference(r);
  }

  /** The product of a sparse matrix and a sparse vector, as built, has the
    * vector's tag, whatever the matrix's number type and allocator. */
  lemma MatrixTimesVectorBuilt(mt: string, rs: string, ma: string, vt: string, va: string, m: nat, v: nat)
    ensures OwnTag(Build(BinOf(Multiply, Operand(MatrixType(mt, rs, ma), m), Operand(VectorType(vt, va), v))))
            == Some(VectorExpr(vt, va))
  {
    var l := OperandLeaf(MatrixType(mt, rs, ma), m);
    var r := OperandLeaf(VectorType(vt, va), v);
    assert OperandTag(l) == MatrixExpr(mt, rs, ma);
    assert OperandTag(r) == VectorExpr(vt, va);
    MatrixTimesVectorIsVector(mt, rs, ma, vt, va);
  }

  /** `DoNothing(t)`: the element-wise operation of the matrix operations. */
  function DoNothing<T>(t: T): T
  {
    t
  }

  /** The five matrix operations are exactly the unary operations that
    * print as "DoNothing" and leave every number as it is. */
  lemma DoNothingIsTheDefault(op: UnaryOp, x: real)
    ensures IsDoNothing(op) <==>
              UnarySymbol(op) == "DoNothing" && Semantics.ApplyUnary(op, x) == Some(DoNothing(x))
  {
  }
}
