// Entry-wise evaluation of fixed-size matrix and vector expressions
// (tiny/GetIndexedValue.h).  A `TinyQuadraticMatrix<T, n>` stores its n*n
// entries column by column, so entry (i, j), counted from 1, sits at
// `i - 1 + (j - 1) * n`.  `TinyMat::GetValue(i, j)` and
// `TinyVec::GetValue(j)` walk an expression tree and compute one entry of
// the matrix or vector it denotes.  In C++ a tree the specialisations do not
// cover is rejected by the compiler; here such a tree gives `NotCompiled`,
// and a failed `RangeCheck` assertion gives `RangeError`.
module TinyValues {
  import opened Wrappers
  import opened Ops
  import opened Tags
  import opened Nodes
  import opened Semantics
  import opened LinalgExpr

  // -----------------------------------------------------------------------
  // Column-major storage.

  /** The position of entry (i, j) in the data of an n x n matrix. */
  function MatIndex(n: nat, i: nat, j: nat): int
  {
    (i - 1) + (j - 1) * n
  }

  /** `RangeCheck(i, j)`: both indices are 1-based and at most n. */
  predicate InRange(n: nat, i: nat, j: nat)
  {
    0 < i < n + 1 && 0 < j < n + 1
  }

  lemma MulLe(a: nat, b: nat, c: nat)
    requires a <= b
    ensures a * c <= b * c
  {
    assert b * c == a * c + (b - a) * c;
  }

  /** Every in-range entry has a position inside the data. */
  lemma MatIndexBound(n: nat, i: nat, j: nat)
    requires InRange(n, i, j)
    ensures 0 <= MatIndex(n, i, j) < n * n
  {
    MulLe(j - 1, n - 1, n);
    assert (n - 1) * n == n * n - n;
  }

  /** Different in-range entries have different positions. */
  lemma MatIndexInjective(n: nat, i: nat, j: nat, i2: nat, j2: nat)
    requires InRange(n, i, j) && InRange(n, i2, j2)
    requires MatIndex(n, i, j) == MatIndex(n, i2, j2)
    ensures i == i2 && j == j2
  {
    if j < j2 {
      assert (j - 1 + 1) * n == (j - 1) * n + n;
      MulLe(j - 1 + 1, j2 - 1, n);
    } else if j2 < j {
      assert (j2 - 1 + 1) * n == (j2 - 1) * n + n;
      MulLe(j2 - 1 + 1, j - 1, n);
    }
  }

  /** Every position inside the data belongs to an in-range entry: the one in
    * row `k % n + 1` and column `k / n + 1`. */
  lemma MatIndexOnto(n: nat, k: nat)
    requires k < n * n
    ensures n > 0 && InRange(n, k % n + 1, k / n + 1) && MatIndex(n, k % n + 1, k / n + 1) == k
  {
    var q := k / n;
    var r := k % n;
    assert k == q * n + r;
    if q >= n {
      MulLe(n, q, n);
      assert false;
    }
  }

  /** The row and column of a position are its remainder and quotient by
    * n, plus one. */
  lemma MatIndexDivMod(n: nat, i: nat, j: nat)
    requires InRange(n, i, j)
    ensures MatIndex(n, i, j) % n == i - 1 && MatIndex(n, i, j) / n == j - 1
  {
    var k := MatIndex(n, i, j);
    MatIndexBound(n, i, j);
    MatIndexOnto(n, k);
    MatIndexInjective(n, i, j, k % n + 1, k / n + 1);
  }

  // -----------------------------------------------------------------------
  // The objects leaves refer to.

  /** The data of the fixed-size matrices and vectors the leaves of a tree
    * refer to, by identity; a matrix's data are stored column by column. */
  datatype TinyOperands = TinyOperands(matrices: map<nat, seq<real>>, vectors: map<nat, seq<real>>)

  /** `M(i, j)` of an n x n matrix with data `data`. */
  function MatEntry(data: seq<real>, n: nat, i: nat, j: nat): (r: Result<real, LinalgError>)
    ensures r.Ok? <==> |data| == n * n && InRange(n, i, j)
    ensures r.Ok? ==> 0 <= MatIndex(n, i, j) < |data| && r.value == data[MatIndex(n, i, j)]
  {
    if |data| != n * n then Err(Unbound)
    else if !InRange(n, i, j) then Err(RangeError)
    else
      MatIndexBound(n, i, j);
      Ok(data[MatIndex(n, i, j)])
  }

  /** `V(j)` of a vector of n entries: `data_[j - 1]`, after `RangeCheck`. */
  function VecEntry(data: seq<real>, n: nat, j: nat): (r: Result<real, LinalgError>)
    ensures r.Ok? <==> |data| == n && 0 < j < n + 1
    ensures r.Ok? ==> r.value == data[j - 1]
  {
    if |data| != n then Err(Unbound)
    else if !(0 < j < n + 1) then Err(RangeError)
    else Ok(data[j - 1])
  }

  // -----------------------------------------------------------------------
  // Tags.

  /** The argument's `Disambiguation` is `TinyQuadraticMatrixExpression<T,
    * Dimension>` for the element type `t` of the request. */
  predicate IsTinyMatrixOf(e: Node, t: string)
  {
    OperandTag(e).TinyMatrixExpr? && OperandTag(e).elemT == t
  }

  /** The argument's `Disambiguation` is `TinyVectorExpression<T,
    * Dimension>`. */
  predicate IsTinyVectorOf(e: Node, t: string)
  {
    OperandTag(e).TinyVectorExpr? && OperandTag(e).elemT == t
  }

  /** The tag has a `Dimension`. */
  predicate HasDimension(tag: Tag)
  {
    tag.TinyMatrixExpr? || tag.TinyVectorExpr?
  }

  /** `Disambiguation::Dimension` of the operand. */
  function Dim(e: Node): nat
  {
    var tag := OperandTag(e);
    if HasDimension(tag) then tag.dim else 0
  }

  /** `x * y`, named so that products of reals stay out of the recursive
    * definitions. */
  function Times(x: real, y: real): real
  {
    x * y
  }

  // -----------------------------------------------------------------------
  // TinyMat::GetValue.

  /** `TinyMat::GetValue<T>(i, j)(e)`: entry (i, j) of the matrix `e`
    * denotes.  The tag is checked first; then a matrix leaf gives its entry,
    * a scalar its value, a transpose the swapped entry, a lump zero off the
    * diagonal and the row sum on it, other unary operators apply entry-wise
    * (a rational power only when its denominator is 1, the one
    * `RationalPower` whose `Apply` compiles),
    * sums and differences are entry-wise, a product with a scalar on one
    * side scales, and the product of two matrices sums over k. */
  function MatGetValue(env: TinyOperands, t: string, e: Node, i: nat, j: nat): (r: Result<real, LinalgError>)
    ensures r.Ok? ==> IsTinyMatrixOf(e, t)
    ensures e.Pow? && e.n != 1 ==> r == Err(NotCompiled)
    decreases e, 1, 0
  {
    if !IsTinyMatrixOf(e, t) then Err(NotCompiled)
    else
      match e
      case Leaf(_, id) =>
        if id !in env.matrices then Err(Unbound)
        else MatEntry(env.matrices[id], Dim(e), i, j)
      case Scalar(v, _) => Ok(v)
      case Un(op, a) =>
        if op == TransposeOfTinyMatrix then MatGetValue(env, t, a, j, i)
        else if op == LumpedTinyMatrix then
          if i != j then Ok(0.0) else RowTotal(env, t, e, i, Dim(a))
        else if UnaryDefined(op) then
          var x :- MatGetValue(env, t, a, i, j);
          Ok(UnaryValue(op, x))
        else Err(NotCompiled)
      case Pow(m, n, a) =>
        if n != 1 then Err(NotCompiled)
        else
          var x :- MatGetValue(env, t, a, i, j);
          if Power(x, m).Some? then Ok(Power(x, m).value) else Err(NoValue)
      case Bin(op, l, r) =>
        if op == Plus then
          var x :- MatGetValue(env, t, l, i, j);
          var y :- MatGetValue(env, t, r, i, j);
          Ok(x + y)
        else if op == Minus then
          var x :- MatGetValue(env, t, l, i, j);
          var y :- MatGetValue(env, t, r, i, j);
          Ok(x - y)
        else if op == Multiply then
          if l.Scalar? && r.Scalar? then Err(NotCompiled)
          else if r.Scalar? then
            var x :- MatGetValue(env, t, l, i, j);
            Ok(Times(x, r.value))
          else if l.Scalar? then
            var y :- MatGetValue(env, t, r, i, j);
            Ok(Times(y, l.value))
          else ProductTotal(env, t, e, i, j, Dim(l))
        else Err(NotCompiled)
      case _ => Err(NotCompiled)
  }

  /** The loop of the lump: `Result += GetValue(i, k)(arg)` for k = 1..kmax,
    * starting from 0. */
  function RowTotal(env: TinyOperands, t: string, e: Node, i: nat, kmax: nat): Result<real, LinalgError>
    requires e.Un?
    decreases e, 0, kmax
  {
    if kmax == 0 then Ok(0.0)
    else
      var s :- RowTotal(env, t, e, i, kmax - 1);
      var x :- MatGetValue(env, t, e.arg, i, kmax);
      Ok(s + x)
  }

  /** The loop of the product: `Result += l(i, k) * r(k, j)` for k =
    * 1..kmax, starting from 0. */
  function ProductTotal(env: TinyOperands, t: string, e: Node, i: nat, j: nat, kmax: nat): Result<real, LinalgError>
    requires e.Bin?
    decreases e, 0, kmax
  {
    if kmax == 0 then Ok(0.0)
    else
      var s :- ProductTotal(env, t, e, i, j, kmax - 1);
      var x :- MatGetValue(env, t, e.lhs, i, kmax);
      var y :- MatGetValue(env, t, e.rhs, kmax, j);
      Ok(s + Times(x, y))
  }

  // -----------------------------------------------------------------------
  // TinyVec::GetValue.

  /** `TinyVec::GetValue<T>(j)(e)`: entry j of the vector `e` denotes.  The
    * tag is checked first; a vector leaf gives its entry, a scalar its
    * value, unary operators apply entry-wise (a rational power only with
    * denominator 1); a binary node needs operands
    * of equal dimension, and is the matrix-vector product when a matrix of
    * the element type multiplies a vector of it, and the operator applied
    * entry-wise otherwise. */
  function VecGetValue(env: TinyOperands, t: string, e: Node, j: nat): (r: Result<real, LinalgError>)
    ensures r.Ok? ==> IsTinyVectorOf(e, t)
    ensures e.Pow? && e.n != 1 ==> r == Err(NotCompiled)
    decreases e, 1, 0
  {
    if !IsTinyVectorOf(e, t) then Err(NotCompiled)
    else
      match e
      case Leaf(_, id) =>
        if id !in env.vectors then Err(Unbound)
        else VecEntry(env.vectors[id], Dim(e), j)
      case Scalar(v, _) => Ok(v)
      case Un(op, a) =>
        if UnaryDefined(op) then
          var x :- VecGetValue(env, t, a, j);
          Ok(UnaryValue(op, x))
        else Err(NotCompiled)
      case Pow(m, n, a) =>
        if n != 1 then Err(NotCompiled)
        else
          var x :- VecGetValue(env, t, a, j);
          if Power(x, m).Some? then Ok(Power(x, m).value) else Err(NoValue)
      case Bin(op, l, r) =>
        if !(HasDimension(OperandTag(l)) && HasDimension(OperandTag(r)) && Dim(l) == Dim(r)) then
          Err(NotCompiled)
        else if IsTinyMatrixOf(l, t) && op == Multiply && IsTinyVectorOf(r, t) then
          MatVecMult(env, t, e, j, Dim(r))
        else if ApplyBinary(op, 1.0, 1.0).None? then Err(NotCompiled)
        else
          var x :- VecGetValue(env, t, l, j);
          var y :- VecGetValue(env, t, r, j);
          if ApplyBinary(op, x, y).Some? then Ok(ApplyBinary(op, x, y).value) else Err(NoValue)
      case _ => Err(NotCompiled)
  }

  /** `MatVecMult<N>(j).Result(lhs, rhs)`: `M(j, N) * v(N)` plus the same
    * for N - 1, down to `M(j, 1) * v(1)`.  There is no `MatVecMult<0>`, so a
    * dimension of 0 does not compile. */
  function MatVecMult(env: TinyOperands, t: string, e: Node, j: nat, n: nat): Result<real, LinalgError>
    requires e.Bin?
    decreases e, 0, n
  {
    if n == 0 then Err(NotCompiled)
    else
      var x :- MatGetValue(env, t, e.lhs, j, n);
      var y :- VecGetValue(env, t, e.rhs, n);
      if n == 1 then Ok(Times(x, y))
      else
        var rest :- MatVecMult(env, t, e, j, n - 1);
        Ok(Times(x, y) + rest)
  }
}
