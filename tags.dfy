// Disambiguation tags: the type-level label every expression node carries,
// and the rules that compute the label of a unary or binary node from the
// labels of its operands.
module Tags {
  import opened Wrappers
  import opened Ops

  /** A disambiguation.  `Named` is a user-supplied tag struct, `TypeTag`
    * stands for an operand type that is used as its own tag because it has no
    * `Disambiguation` typedef, `Comparison` is the tag of the lambda
    * placeholder, and the remaining four are the tags of the sparse and the
    * fixed-size matrix and vector libraries. */
  datatype Tag =
    | Named(name: string)
    | TypeTag(typeName: string)
    | Comparison
    | MatrixExpr(numT: string, rowStorage: string, alloc: string)
    | VectorExpr(numT: string, alloc: string)
    | TinyMatrixExpr(elemT: string, dim: nat)
    | TinyVectorExpr(elemT: string, dim: nat)

  /** `BinOpResultDisambiguator<L, R, OP>`: the tag of a binary node, or None
    * where no specialisation covers the pair and the node does not compile.
    * The specialisations are tried in the order: the lambda placeholder's
    * Comparison tag absorbs anything, equal tags are kept, a sparse matrix
    * times a sparse vector is a vector ("the vector is the master"), and a
    * fixed-size matrix times a fixed-size vector of the same element type and
    * dimension is that vector. */
  function BinResultTag(l: Tag, r: Tag, op: BinaryOp): Option<Tag>
  {
    if l == Comparison || r == Comparison then Some(Comparison)
    else if l == r then Some(l)
    else if op == Multiply && l.MatrixExpr? && r.VectorExpr? then Some(r)
    else if op == Multiply && l.TinyMatrixExpr? && r.TinyVectorExpr?
            && l.elemT == r.elemT && l.dim == r.dim then Some(r)
    else None
  }

  /** `UnOpResultDisambiguator<T, OP>`: a unary node keeps its operand's tag,
    * except that the row sum of a sparse matrix is a sparse vector with the
    * matrix's number type and allocator. */
  function UnResultTag(t: Tag, op: UnaryOp): Tag
  {
    if op == RowSumOfMatrix && t.MatrixExpr? then VectorExpr(t.numT, t.alloc)
    else t
  }

  /** Two operands with the same tag give that tag, for every operator. */
  lemma SameTagKept(t: Tag, op: BinaryOp)
    ensures BinResultTag(t, t, op) == Some(t)
  {
  }

  /** A binary node never invents a tag: its tag is one of its operands'
    * tags or the placeholder's.  Apart from the product, the rule does not
    * depend on the order of the operands, and operands with different tags
    * (neither the placeholder) have no common tag. */
  lemma ResultTagFromOperands(l: Tag, r: Tag, op: BinaryOp)
    ensures BinResultTag(l, r, op).Some? ==>
              BinResultTag(l, r, op).value in {l, r, Comparison}
    ensures op != Multiply ==> BinResultTag(l, r, op) == BinResultTag(r, l, op)
    ensures op != Multiply && l != r && l != Comparison && r != Comparison ==>
              BinResultTag(l, r, op).None?
  {
  }

  /** Matrix times vector has the vector tag, with the vector's number type
    * and allocator, whatever the matrix's are. */
  lemma MatrixTimesVectorIsVector(mt: string, rs: string, ma: string, vt: string, va: string)
    ensures BinResultTag(MatrixExpr(mt, rs, ma), VectorExpr(vt, va), Multiply)
            == Some(VectorExpr(vt, va))
  {
  }

  /** A fixed-size matrix times a fixed-size vector of the same element type
    * and dimension has the vector tag. */
  lemma TinyMatrixTimesVectorIsVector(t: string, n: nat)
    ensures BinResultTag(TinyMatrixExpr(t, n), TinyVectorExpr(t, n), Multiply)
            == Some(TinyVectorExpr(t, n))
  {
  }

  /** A unary operation changes a tag only from a matrix to the vector with
    * the same number type and allocator, and applying it a second time
    * changes nothing more (the row sum of a row sum is still a vector). */
  lemma UnaryTagRule(t: Tag, op: UnaryOp)
    ensures UnResultTag(t, op) != t ==>
              op == RowSumOfMatrix && t.MatrixExpr? && UnResultTag(t, op) == VectorExpr(t.numT, t.alloc)
    ensures UnResultTag(UnResultTag(t, op), op) == UnResultTag(t, op)
  {
  }

  /** Only a product has result tags of its own; every other operator has
    * those of `+`, and a product has at least those. */
  lemma ResultTagByOperator(l: Tag, r: Tag, op: BinaryOp)
    ensures op != Multiply ==> BinResultTag(l, r, op) == BinResultTag(l, r, Plus)
    ensures BinResultTag(l, r, op).Some? ==> BinResultTag(l, r, Multiply) == BinResultTag(l, r, op)
  {
  }
}
