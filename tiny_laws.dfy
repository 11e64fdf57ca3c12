// What the entry-wise evaluation of tiny/GetIndexedValue.h computes, stated
// against sums written independently of its loops: the lump is the row sum,
// a matrix product entry is the sum of the products of a row and a column,
// and the unrolled matrix-vector recursion is the sum of the products of a
// row and the vector.  Transposition is an involution and the lump is
// symmetric.
module TinyValueLaws {
  import opened Wrappers
  import opened Ops
  import opened Tags
  import opened Nodes
  import opened LinalgExpr
  import opened TinyValues

  /** The sum of a sequence, added up from the first item to the last. */
  function SumSeq(xs: seq<real>): real
  {
    if |xs| == 0 then 0.0 else SumSeq(xs[..|xs| - 1]) + xs[|xs| - 1]
  }

  /** Item-wise products of two sequences of the same length. */
  function MulSeq(xs: seq<real>, ys: seq<real>): (zs: seq<real>)
    requires |xs| == |ys|
    ensures |zs| == |xs| && forall k :: 0 <= k < |xs| ==> zs[k] == Times(xs[k], ys[k])
  {
    seq(|xs|, k requires 0 <= k < |xs| => Times(xs[k], ys[k]))
  }

  /** The sum of collected items, or the error of the collection. */
  function Summed(r: Result<seq<real>, LinalgError>): Result<real, LinalgError>
  {
    match r
    case Ok(xs) => Ok(SumSeq(xs))
    case Err(x) => Err(x)
  }

  /** Row `i` of the matrix `a` denotes, entry k at k. */
  function RowFn(env: TinyOperands, t: string, a: Node, i: nat): nat -> Result<real, LinalgError>
  {
    (k: nat) => MatGetValue(env, t, a, i, k)
  }

  /** Column `j` of the matrix `a` denotes. */
  function ColFn(env: TinyOperands, t: string, a: Node, j: nat): nat -> Result<real, LinalgError>
  {
    (k: nat) => MatGetValue(env, t, a, k, j)
  }

  /** The entries of the vector `v` denotes. */
  function VecFn(env: TinyOperands, t: string, v: Node): nat -> Result<real, LinalgError>
  {
    (k: nat) => VecGetValue(env, t, v, k)
  }

  lemma PrefixOfSnoc(xs: seq<real>, x: real)
    ensures (xs + [x])[..|xs|] == xs
  {
  }

  // -----------------------------------------------------------------------
  // Transpose.

  /** The transpose and the lump keep their argument's tag: one has a
    * tiny-matrix tag exactly when the other has. */
  lemma UnaryKeepsTag(t: string, op: UnaryOp, a: Node)
    requires op == TransposeOfTinyMatrix || op == LumpedTinyMatrix
    ensures IsTinyMatrixOf(Un(op, a), t) <==> IsTinyMatrixOf(a, t)
    ensures IsTinyMatrixOf(a, t) ==> OperandTag(Un(op, a)) == OperandTag(a)
  {
    if OwnTag(a).Some? {
      assert OperandTag(a) == OwnTag(a).value;
      assert UnResultTag(OwnTag(a).value, op) == OwnTag(a).value;
      assert OwnTag(Un(op, a)) == OwnTag(a);
    } else {
      assert OwnTag(Un(op, a)).None?;
      assert OperandTag(a).TypeTag? && OperandTag(Un(op, a)).TypeTag?;
    }
  }

  /** `Transpose(A)(i, j) = A(j, i)`, for every tree: a transpose keeps its
    * argument's tag, so both sides pass or fail the tag check together. */
  lemma TransposeEntry(env: TinyOperands, t: string, a: Node, i: nat, j: nat)
    ensures MatGetValue(env, t, Un(TransposeOfTinyMatrix, a), i, j) == MatGetValue(env, t, a, j, i)
  {
    var e := Un(TransposeOfTinyMatrix, a);
    UnaryKeepsTag(t, TransposeOfTinyMatrix, a);
    if !IsTinyMatrixOf(a, t) {
      assert MatGetValue(env, t, a, j, i) == Err(NotCompiled);
      assert MatGetValue(env, t, e, i, j) == Err(NotCompiled);
    }
  }

  /** Transposing twice gives the matrix back. */
  lemma TransposeTwice(env: TinyOperands, t: string, a: Node, i: nat, j: nat)
    ensures MatGetValue(env, t, Un(TransposeOfTinyMatrix, Un(TransposeOfTinyMatrix, a)), i, j)
            == MatGetValue(env, t, a, i, j)
  {
    TransposeEntry(env, t, Un(TransposeOfTinyMatrix, a), i, j);
    TransposeEntry(env, t, a, j, i);
  }

  // -----------------------------------------------------------------------
  // Lump.

  /** The lump's loop adds up row `i` of the argument from k = 1 to k = kmax:
    * it is the sum of the collected row, and fails where the row fails. */
  lemma {:induction false} RowTotalIsRowSum(env: TinyOperands, t: string, e: Node, i: nat, kmax: nat)
    requires e.Un?
    ensures RowTotal(env, t, e, i, kmax) == Summed(Collect(RowFn(env, t, e.arg, i), kmax))
  {
    if kmax > 0 {
      RowTotalIsRowSum(env, t, e, i, kmax - 1);
      var f := RowFn(env, t, e.arg, i);
      var prev := Collect(f, kmax - 1);
      if prev.Ok? && f(kmax).Ok? {
        PrefixOfSnoc(prev.value, f(kmax).value);
      }
    }
  }

  /** `Lump(A)(i, j)` is 0 off the diagonal, and the sum of row `i` of A,
    * entries 1 to the dimension, on it. */
  lemma LumpEntry(env: TinyOperands, t: string, a: Node, i: nat, j: nat)
    ensures MatGetValue(env, t, Un(LumpedTinyMatrix, a), i, j) ==
              if !IsTinyMatrixOf(a, t) then Err(NotCompiled)
              else if i != j then Ok(0.0)
              else Summed(Collect(RowFn(env, t, a, i), Dim(a)))
  {
    UnaryKeepsTag(t, LumpedTinyMatrix, a);
    if !IsTinyMatrixOf(a, t) {
      assert MatGetValue(env, t, Un(LumpedTinyMatrix, a), i, j) == Err(NotCompiled);
    }
    RowTotalIsRowSum(env, t, Un(LumpedTinyMatrix, a), i, Dim(a));
  }

  /** The lump is symmetric: it equals its own transpose. */
  lemma LumpSymmetric(env: TinyOperands, t: string, a: Node, i: nat, j: nat)
    ensures MatGetValue(env, t, Un(TransposeOfTinyMatrix, Un(LumpedTinyMatrix, a)), i, j)
            == MatGetValue(env, t, Un(LumpedTinyMatrix, a), i, j)
  {
    TransposeEntry(env, t, Un(LumpedTinyMatrix, a), i, j);
    LumpEntry(env, t, a, i, j);
    LumpEntry(env, t, a, j, i);
  }

  // -----------------------------------------------------------------------
  // Sums, differences and products of matrices.

  /** Two operands of the same tiny-matrix tag give their binary node that
    * tag. */
  lemma BinTag(t: string, op: BinaryOp, l: Node, r: Node)
    requires IsTinyMatrixOf(l, t) && OperandTag(r) == OperandTag(l)
    ensures OperandTag(Bin(op, l, r)) == OperandTag(l) && IsTinyMatrixOf(Bin(op, l, r), t)
  {
    SameTagKept(OperandTag(l), op);
  }

  /** A binary node has a tiny-matrix tag only when both operands have that
    * same tag: no rule of `BinOpResultDisambiguator` makes a matrix tag of
    * two different ones. */
  lemma BinTagInverse(t: string, op: BinaryOp, l: Node, r: Node)
    requires IsTinyMatrixOf(Bin(op, l, r), t)
    ensures IsTinyMatrixOf(l, t) && OperandTag(r) == OperandTag(l)
  {
    var tl, tr := OperandTag(l), OperandTag(r);
    assert OwnTag(Bin(op, l, r)) == BinResultTag(tl, tr, op);
    OnlySameTagsMakeTinyMatrix(tl, tr, op);
  }

  lemma OnlySameTagsMakeTinyMatrix(l: Tag, r: Tag, op: BinaryOp)
    requires BinResultTag(l, r, op).Some? && BinResultTag(l, r, op).value.TinyMatrixExpr?
    ensures l == r && BinResultTag(l, r, op).value == l
  {
  }

  /** A binary node has a matrix entry only when both operands have the
    * tiny-matrix tag of the element type and the same dimension (the
    * `COMPILE_TIME_ASSERT` on the dimensions never fails for a tree that got
    * its tag). */
  lemma BinaryNeedsEqualDimensions(env: TinyOperands, t: string, op: BinaryOp, l: Node, r: Node, i: nat, j: nat)
    requires MatGetValue(env, t, Bin(op, l, r), i, j).Ok?
    ensures IsTinyMatrixOf(l, t) && IsTinyMatrixOf(r, t) && Dim(l) == Dim(r)
  {
    BinTagInverse(t, op, l, r);
  }

  /** The product's loop succeeds exactly when row `i` of the left operand
    * and column `j` of the right one do, and is then the sum of their
    * entry-wise products. */
  lemma {:induction false} ProductTotalOk(env: TinyOperands, t: string, e: Node, i: nat, j: nat, kmax: nat)
    requires e.Bin?
    ensures ProductTotal(env, t, e, i, j, kmax).Ok? <==>
              Collect(RowFn(env, t, e.lhs, i), kmax).Ok? && Collect(ColFn(env, t, e.rhs, j), kmax).Ok?
    ensures ProductTotal(env, t, e, i, j, kmax).Ok? ==>
              ProductTotal(env, t, e, i, j, kmax).value ==
              SumSeq(MulSeq(Collect(RowFn(env, t, e.lhs, i), kmax).value, Collect(ColFn(env, t, e.rhs, j), kmax).value))
  {
    if kmax > 0 {
      ProductTotalOk(env, t, e, i, j, kmax - 1);
      var f := RowFn(env, t, e.lhs, i);
      var g := ColFn(env, t, e.rhs, j);
      var rows, cols := Collect(f, kmax - 1), Collect(g, kmax - 1);
      if rows.Ok? && cols.Ok? && f(kmax).Ok? && g(kmax).Ok? {
        var xs, ys := rows.value + [f(kmax).value], cols.value + [g(kmax).value];
        var zs := MulSeq(xs, ys);
        assert zs[..kmax - 1] == MulSeq(rows.value, cols.value);
      }
    }
  }

  /** `(A*B)(i, j)` for two matrices of the same tag: the sum over k = 1..n
    * of `A(i, k) * B(k, j)`, when every entry involved has a value. */
  lemma ProductEntry(env: TinyOperands, t: string, l: Node, r: Node, i: nat, j: nat)
    requires IsTinyMatrixOf(l, t) && OperandTag(r) == OperandTag(l) && !l.Scalar? && !r.Scalar?
    ensures MatGetValue(env, t, Bin(Multiply, l, r), i, j).Ok? <==>
              Collect(RowFn(env, t, l, i), Dim(l)).Ok? && Collect(ColFn(env, t, r, j), Dim(l)).Ok?
    ensures MatGetValue(env, t, Bin(Multiply, l, r), i, j).Ok? ==>
              MatGetValue(env, t, Bin(Multiply, l, r), i, j).value ==
              SumSeq(MulSeq(Collect(RowFn(env, t, l, i), Dim(l)).value, Collect(ColFn(env, t, r, j), Dim(l)).value))
  {
    BinTag(t, Multiply, l, r);
    ProductTotalOk(env, t, Bin(Multiply, l, r), i, j, Dim(l));
  }

  /** A sum of two matrices of the same tag is their entry-wise sum; a
    * difference their entry-wise difference. */
  lemma SumAndDifferenceEntry(env: TinyOperands, t: string, l: Node, r: Node, i: nat, j: nat)
    requires IsTinyMatrixOf(l, t) && OperandTag(r) == OperandTag(l)
    ensures MatGetValue(env, t, Bin(Plus, l, r), i, j).Ok? <==>
              MatGetValue(env, t, l, i, j).Ok? && MatGetValue(env, t, r, i, j).Ok?
    ensures MatGetValue(env, t, Bin(Plus, l, r), i, j).Ok? ==>
              MatGetValue(env, t, Bin(Plus, l, r), i, j).value ==
              MatGetValue(env, t, l, i, j).value + MatGetValue(env, t, r, i, j).value
    ensures MatGetValue(env, t, Bin(Minus, l, r), i, j).Ok? <==>
              MatGetValue(env, t, l, i, j).Ok? && MatGetValue(env, t, r, i, j).Ok?
    ensures MatGetValue(env, t, Bin(Minus, l, r), i, j).Ok? ==>
              MatGetValue(env, t, Bin(Minus, l, r), i, j).value ==
              MatGetValue(env, t, l, i, j).value - MatGetValue(env, t, r, i, j).value
  {
    BinTag(t, Plus, l, r);
    BinTag(t, Minus, l, r);
  }

  /** A matrix times a scalar of its tag, or a scalar times a matrix, scales
    * every entry by the scalar's value. */
  lemma ScaledEntry(env: TinyOperands, t: string, a: Node, v: real, i: nat, j: nat)
    requires IsTinyMatrixOf(a, t) && !a.Scalar?
    ensures MatGetValue(env, t, Bin(Multiply, a, Scalar(v, OperandTag(a))), i, j) ==
              if MatGetValue(env, t, a, i, j).Ok? then Ok(Times(MatGetValue(env, t, a, i, j).value, v))
              else MatGetValue(env, t, a, i, j)
    ensures MatGetValue(env, t, Bin(Multiply, Scalar(v, OperandTag(a)), a), i, j) ==
              if MatGetValue(env, t, a, i, j).Ok? then Ok(Times(MatGetValue(env, t, a, i, j).value, v))
              else MatGetValue(env, t, a, i, j)
  {
    var s := Scalar(v, OperandTag(a));
    assert OperandTag(s) == OperandTag(a);
    BinTag(t, Multiply, a, s);
    BinTag(t, Multiply, s, a);
  }

  // -----------------------------------------------------------------------
  // The matrix-vector product.

  /** The unrolled recursion `MatVecMult<n>` succeeds exactly when row `j`
    * of the matrix and the vector do, and is then the sum over k = 1..n of
    * `M(j, k) * v(k)`: adding from n down to 1 gives the same sum as adding
    * from 1 up. */
  lemma {:induction false} MatVecMultIsRowTimesVector(env: TinyOperands, t: string, e: Node, j: nat, n: nat)
    requires e.Bin? && n > 0
    ensures MatVecMult(env, t, e, j, n).Ok? <==>
              Collect(RowFn(env, t, e.lhs, j), n).Ok? && Collect(VecFn(env, t, e.rhs), n).Ok?
    ensures MatVecMult(env, t, e, j, n).Ok? ==>
              MatVecMult(env, t, e, j, n).value ==
              SumSeq(MulSeq(Collect(RowFn(env, t, e.lhs, j), n).value, Collect(VecFn(env, t, e.rhs), n).value))
  {
    MatVecMultIsDownSum(env, t, e, j, n);
    DownSumIsSum(RowFn(env, t, e.lhs, j), VecFn(env, t, e.rhs), n);
  }

  /** The order in which `MatVecMult` evaluates and adds, over any two
    * entry functions: entry n first, then the rest down to 1. */
  function DownSum(f: nat -> Result<real, LinalgError>, g: nat -> Result<real, LinalgError>, n: nat): Result<real, LinalgError>
  {
    if n == 0 then Err(NotCompiled)
    else
      var x :- f(n);
      var y :- g(n);
      if n == 1 then Ok(Times(x, y))
      else
        var rest :- DownSum(f, g, n - 1);
        Ok(Times(x, y) + rest)
  }

  lemma {:induction false} MatVecMultIsDownSum(env: TinyOperands, t: string, e: Node, j: nat, n: nat)
    requires e.Bin?
    ensures MatVecMult(env, t, e, j, n) == DownSum(RowFn(env, t, e.lhs, j), VecFn(env, t, e.rhs), n)
  {
    if n > 1 {
      MatVecMultIsDownSum(env, t, e, j, n - 1);
    }
  }

  lemma {:induction false} DownSumIsSum(f: nat -> Result<real, LinalgError>, g: nat -> Result<real, LinalgError>, n: nat)
    requires n > 0
    ensures DownSum(f, g, n).Ok? <==> Collect(f, n).Ok? && Collect(g, n).Ok?
    ensures DownSum(f, g, n).Ok? ==> DownSum(f, g, n).value == SumSeq(MulSeq(Collect(f, n).value, Collect(g, n).value))
  {
    if n == 1 {
      if f(1).Ok? && g(1).Ok? {
        var zs := MulSeq([f(1).value], [g(1).value]);
        assert zs[..0] == [];
      }
    } else {
      DownSumIsSum(f, g, n - 1);
      var rows, vals := Collect(f, n - 1), Collect(g, n - 1);
      if rows.Ok? && vals.Ok? && f(n).Ok? && g(n).Ok? {
        var xs, ys := rows.value + [f(n).value], vals.value + [g(n).value];
        var zs := MulSeq(xs, ys);
        assert zs[..n - 1] == MulSeq(rows.value, vals.value);
      }
    }
  }

  /** `(M*v)(j)` for a tiny matrix and a tiny vector of the same element type
    * and dimension n > 0: the sum over k = 1..n of `M(j, k) * v(k)`. */
  lemma MatrixTimesVectorEntry(env: TinyOperands, t: string, m: Node, v: Node, n: nat, j: nat)
    requires OperandTag(m) == TinyMatrixExpr(t, n) && OperandTag(v) == TinyVectorExpr(t, n) && n > 0
    ensures VecGetValue(env, t, Bin(Multiply, m, v), j).Ok? <==>
              Collect(RowFn(env, t, m, j), n).Ok? && Collect(VecFn(env, t, v), n).Ok?
    ensures VecGetValue(env, t, Bin(Multiply, m, v), j).Ok? ==>
              VecGetValue(env, t, Bin(Multiply, m, v), j).value ==
              SumSeq(MulSeq(Collect(RowFn(env, t, m, j), n).value, Collect(VecFn(env, t, v), n).value))
  {
    var e := Bin(Multiply, m, v);
    TinyMatrixTimesVectorIsVector(t, n);
    assert OperandTag(e) == TinyVectorExpr(t, n);
    assert Dim(m) == n && Dim(v) == n;
    assert VecGetValue(env, t, e, j) == MatVecMult(env, t, e, j, n);
    MatVecMultIsRowTimesVector(env, t, Bin(Multiply, m, v), j, n);
  }

  /** Only `RationalPower<m, 1>` has an `Apply` that compiles: a power with
    * any other denominator, `Inverse` and `Sqrt` among them, has no entry. */
  lemma PowerNotCompiled(env: TinyOperands, t: string, m: int, n: int, a: Node, i: nat, j: nat)
    requires n != 1
    ensures MatGetValue(env, t, Pow(m, n, a), i, j) == Err(NotCompiled)
    ensures VecGetValue(env, t, Pow(m, n, a), j) == Err(NotCompiled)
  {
  }

  /** Vector operands of different dimensions never give a value. */
  lemma VectorsNeedEqualDimensions(env: TinyOperands, t: string, op: BinaryOp, l: Node, r: Node, j: nat)
    requires HasDimension(OperandTag(l)) && HasDimension(OperandTag(r)) && Dim(l) != Dim(r)
    ensures VecGetValue(env, t, Bin(op, l, r), j) == Err(NotCompiled)
  {
    if IsTinyVectorOf(Bin(op, l, r), t) {
      assert !(HasDimension(OperandTag(l)) && HasDimension(OperandTag(r)) && Dim(l) == Dim(r));
    }
  }

  /** A tiny-matrix unary operator on a vector keeps the vector's tag. */
  lemma UnaryKeepsVectorTag(t: string, op: UnaryOp, a: Node)
    requires op == TransposeOfTinyMatrix || op == LumpedTinyMatrix
    ensures IsTinyVectorOf(Un(op, a), t) <==> IsTinyVectorOf(a, t)
  {
    if OwnTag(a).Some? {
      assert UnResultTag(OwnTag(a).value, op) == OwnTag(a).value;
      assert OwnTag(Un(op, a)) == OwnTag(a);
    } else {
      assert OwnTag(Un(op, a)).None?;
      assert OperandTag(a).TypeTag? && OperandTag(Un(op, a)).TypeTag?;
    }
  }

  /** A vector has no specialisation of `Transpose`: the default unary
    * operator applies the operator's own element-wise meaning, which for
    * the transpose is the identity, so `Transpose(v)(j) = v(j)`. */
  lemma TransposeOfVectorIsIdentity(env: TinyOperands, t: string, v: Node, j: nat)
    ensures VecGetValue(env, t, Un(TransposeOfTinyMatrix, v), j) == VecGetValue(env, t, v, j)
  {
    UnaryKeepsVectorTag(t, TransposeOfTinyMatrix, v);
    if !IsTinyVectorOf(v, t) {
      assert VecGetValue(env, t, v, j) == Err(NotCompiled);
    }
  }

  // -----------------------------------------------------------------------
  // Frames: what an expression denotes depends only on the objects it
  // mentions.

  /** Two operand environments that differ at most in the object `id`. */
  ghost predicate TinyAgreeExcept(env1: TinyOperands, env2: TinyOperands, id: nat)
  {
    (forall k :: k != id ==> (k in env1.matrices <==> k in env2.matrices)) &&
    (forall k :: k != id && k in env1.matrices ==> env1.matrices[k] == env2.matrices[k]) &&
    (forall k :: k != id ==> (k in env1.vectors <==> k in env2.vectors)) &&
    (forall k :: k != id && k in env1.vectors ==> env1.vectors[k] == env2.vectors[k])
  }

  lemma {:induction false} FrameMat(env1: TinyOperands, env2: TinyOperands, id: nat, t: string, e: Node, i: nat, j: nat)
    requires TinyAgreeExcept(env1, env2, id) && !Mentions(e, id)
    ensures MatGetValue(env1, t, e, i, j) == MatGetValue(env2, t, e, i, j)
    decreases e, 1, 0
  {
    match e
    case Un(op, a) =>
      FrameMat(env1, env2, id, t, a, j, i);
      FrameMat(env1, env2, id, t, a, i, j);
      FrameRowTotal(env1, env2, id, t, e, i, Dim(a));
    case Pow(_, _, a) => FrameMat(env1, env2, id, t, a, i, j);
    case Bin(_, l, r) =>
      FrameMat(env1, env2, id, t, l, i, j);
      FrameMat(env1, env2, id, t, r, i, j);
      FrameProductTotal(env1, env2, id, t, e, i, j, Dim(l));
    case Leaf(k, x) =>
      if k.Object? {
        assert x != id;
      } else {
        assert OwnTag(e).None?;
        assert OperandTag(e) == TypeTag(k.typeName);
      }
    case _ =>
  }

  lemma {:induction false} FrameRowTotal(env1: TinyOperands, env2: TinyOperands, id: nat, t: string, e: Node, i: nat, kmax: nat)
    requires e.Un? && TinyAgreeExcept(env1, env2, id) && !Mentions(e, id)
    ensures RowTotal(env1, t, e, i, kmax) == RowTotal(env2, t, e, i, kmax)
    decreases e, 0, kmax
  {
    if kmax > 0 {
      FrameRowTotal(env1, env2, id, t, e, i, kmax - 1);
      FrameMat(env1, env2, id, t, e.arg, i, kmax);
    }
  }

  lemma {:induction false} FrameProductTotal(env1: TinyOperands, env2: TinyOperands, id: nat, t: string, e: Node, i: nat, j: nat, kmax: nat)
    requires e.Bin? && TinyAgreeExcept(env1, env2, id) && !Mentions(e, id)
    ensures ProductTotal(env1, t, e, i, j, kmax) == ProductTotal(env2, t, e, i, j, kmax)
    decreases e, 0, kmax
  {
    if kmax > 0 {
      FrameProductTotal(env1, env2, id, t, e, i, j, kmax - 1);
      FrameMat(env1, env2, id, t, e.lhs, i, kmax);
      FrameMat(env1, env2, id, t, e.rhs, kmax, j);
    }
  }

  lemma {:induction false} FrameVec(env1: TinyOperands, env2: TinyOperands, id: nat, t: string, e: Node, j: nat)
    requires TinyAgreeExcept(env1, env2, id) && !Mentions(e, id)
    ensures VecGetValue(env1, t, e, j) == VecGetValue(env2, t, e, j)
    decreases e, 1, 0
  {
    match e
    case Un(_, a) => FrameVec(env1, env2, id, t, a, j);
    case Pow(_, _, a) => FrameVec(env1, env2, id, t, a, j);
    case Bin(_, l, r) =>
      FrameVec(env1, env2, id, t, l, j);
      FrameVec(env1, env2, id, t, r, j);
      FrameMatVecMult(env1, env2, id, t, e, j, Dim(r));
    case Leaf(k, x) =>
      if k.Object? {
        assert x != id;
      } else {
        assert OwnTag(e).None?;
        assert OperandTag(e) == TypeTag(k.typeName);
      }
    case _ =>
  }

  lemma {:induction false} FrameMatVecMult(env1: TinyOperands, env2: TinyOperands, id: nat, t: string, e: Node, j: nat, n: nat)
    requires e.Bin? && TinyAgreeExcept(env1, env2, id) && !Mentions(e, id)
    ensures MatVecMult(env1, t, e, j, n) == MatVecMult(env2, t, e, j, n)
    decreases e, 0, n
  {
    if n > 0 {
      FrameMat(env1, env2, id, t, e.lhs, j, n);
      FrameVec(env1, env2, id, t, e.rhs, n);
      FrameMatVecMult(env1, env2, id, t, e, j, n - 1);
    }
  }
}
