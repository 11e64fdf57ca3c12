// Sparse matrix and vector expressions of the `Linalg` library.  A matrix
// expression is read row by row (`RowExtractor<MatrixExpression>`) and
// column by column (`ColExtractor`), a vector expression entry by entry
// (`RowExtractor<VectorExpression>`); `NumberOfRows` and `NumberOfCols`
// give the shape.  Each is a function of the tree and of the matrices and
// vectors its by-reference leaves refer to.  A tree for which the C++
// compiler finds no specialisation gives `NotCompiled`.
module LinalgExpr {
  import opened Wrappers
  import opened Ops
  import opened Tags
  import opened Nodes
  import opened Semantics
  import opened SparseRows

  /** The exceptions of the library (`std::range_error`,
    * `std::invalid_argument`, `std::logic_error`), a tree the compiler
    * rejects, a leaf that refers to no object, and an entry without a value
    * (a division by zero or a power of zero with a negative exponent). */
  datatype LinalgError = RangeError | InvalidArgument | LogicError | NotCompiled | Unbound | NoValue

  /** The four fields of a `Matrix`: the shape, one sparse row per row, and
    * per column the list of the rows that store an entry in it. */
  datatype MatVal = MatVal(nrows: nat, ncols: nat, rows: seq<Row>, cols: seq<seq<nat>>)

  predicate ListWithin(l: seq<nat>, lo: nat, hi: nat)
  {
    forall k :: 0 <= k < |l| ==> lo <= l[k] <= hi
  }

  /** The representation invariant of a `Matrix`: one row per row number,
    * one list per column, every key a column number and every listed row a
    * row number, and row `i` listed exactly once for column `j` when the row
    * stores an entry in column `j`, otherwise not at all. */
  predicate Indexed(m: MatVal)
  {
    |m.rows| == m.nrows && |m.cols| == m.ncols &&
    (forall i :: 0 <= i < |m.rows| ==> KeysWithin(m.rows[i], 1, m.ncols)) &&
    (forall j :: 0 <= j < |m.cols| ==> ListWithin(m.cols[j], 1, m.nrows)) &&
    (forall i, j :: 0 <= i < |m.rows| && 0 <= j < |m.cols| ==>
       multiset(m.cols[j])[i + 1] == if j + 1 in m.rows[i] then 1 else 0)
  }

  /** The library only supports square matrices (`Matrix(rows, cols)`
    * asserts `rows == cols`). */
  type SquareMatrix = m: MatVal | Indexed(m) && m.nrows == m.ncols
    witness MatVal(0, 0, [], [])

  /** The objects the by-reference leaves of a tree refer to, by identity. */
  datatype Operands = Operands(matrices: map<nat, SquareMatrix>, vectors: map<nat, seq<real>>)

  predicate IsMatrixLeaf(e: Node)
  {
    e.Leaf? && e.kind.Object? && e.kind.disamb.Some? && e.kind.disamb.value.MatrixExpr?
  }

  predicate IsVectorLeaf(e: Node)
  {
    e.Leaf? && e.kind.Object? && e.kind.disamb.Some? && e.kind.disamb.value.VectorExpr?
  }

  /** The operator has an `Apply` for a double. */
  predicate UnaryDefined(op: UnaryOp)
  {
    ApplyUnary(op, 0.0).Some?
  }

  function UnaryValue(op: UnaryOp, x: real): real
  {
    match ApplyUnary(op, x)
    case Some(y) => y
    case None => x
  }

  // -----------------------------------------------------------------------
  // Reading a matrix.

  /** `RangeCheck(i, j)`: both indices are 1-based and within the shape. */
  predicate InRange(m: MatVal, i: nat, j: nat)
  {
    !(i > m.nrows || i == 0) && !(j > m.ncols || j == 0)
  }

  /** `M(i)`: the stored row, after `RangeCheck(i, 1)`. */
  function LeafRow(m: SquareMatrix, i: nat): Result<Row, LinalgError>
  {
    if !InRange(m, i, 1) then Err(RangeError) else Ok(m.rows[i - 1])
  }

  /** Row `i`, counted from 1. */
  function RowNo(m: MatVal, i: nat): Row
    requires 1 <= i <= |m.rows|
  {
    m.rows[i - 1]
  }

  /** Column `j` of the matrix: its entries, keyed by row number. */
  function ColumnOf(m: SquareMatrix, j: nat): Row
  {
    map i: nat | 1 <= i <= m.nrows && j in RowNo(m, i) :: RowNo(m, i)[j]
  }

  /** The loop of `GetColumn(j)`: each row listed for column `j` gives its
    * entry in column `j`; a listed row without one is an inconsistency. */
  function WalkColumn(m: SquareMatrix, j: nat, list: seq<nat>): Result<Row, LinalgError>
    requires ListWithin(list, 1, m.nrows)
  {
    if list == [] then Ok(map[])
    else
      var r := list[0];
      if j in m.rows[r - 1] then
        var rest :- WalkColumn(m, j, list[1..]);
        Ok(rest[r := m.rows[r - 1][j]])
      else Err(LogicError)
  }

  /** `M.GetColumn(j)`, after `RangeCheck(1, j)`. */
  function LeafColumn(m: SquareMatrix, j: nat): Result<Row, LinalgError>
  {
    if !InRange(m, 1, j) then Err(RangeError) else WalkColumn(m, j, m.cols[j - 1])
  }

  // -----------------------------------------------------------------------
  // Shapes.

  /** `NumberOfRows` of a matrix expression (`RowCounter<MatrixExpression>`). */
  function MatRows(env: Operands, e: Node): Result<nat, LinalgError>
    decreases e
  {
    match e
    case Leaf(_, id) =>
      if !IsMatrixLeaf(e) then Err(NotCompiled)
      else if id !in env.matrices then Err(Unbound)
      else Ok(env.matrices[id].nrows)
    case Un(op, a) => if op == TransposeOfMatrix then MatCols(env, a) else MatRows(env, a)
    case Pow(_, _, a) => MatRows(env, a)
    case Bin(op, l, r) =>
      if op == Plus || op == Minus then
        var x :- MatRows(env, l);
        var y :- MatRows(env, r);
        if x != y then Err(InvalidArgument) else Ok(x)
      else if op == Multiply then
        if l.Scalar? then MatRows(env, r) else MatRows(env, l)
      else Err(NotCompiled)
    case _ => Err(NotCompiled)
  }

  /** `NumberOfCols` of a matrix expression (`ColumnCounter<MatrixExpression>`). */
  function MatCols(env: Operands, e: Node): Result<nat, LinalgError>
    decreases e
  {
    match e
    case Leaf(_, id) =>
      if !IsMatrixLeaf(e) then Err(NotCompiled)
      else if id !in env.matrices then Err(Unbound)
      else Ok(env.matrices[id].ncols)
    case Un(op, a) => if op == TransposeOfMatrix then MatRows(env, a) else MatCols(env, a)
    case Pow(_, _, a) => MatCols(env, a)
    case Bin(op, l, r) =>
      if op == Plus || op == Minus then
        var x :- MatCols(env, l);
        var y :- MatCols(env, r);
        if x != y then Err(InvalidArgument) else Ok(x)
      else if op == Multiply then
        if r.Scalar? then MatCols(env, l) else MatCols(env, r)
      else Err(NotCompiled)
    case _ => Err(NotCompiled)
  }

  /** Which `RowCounter<VectorExpression>` for `RowSum(A)`: the one of the
    * library (`AsWritten`, the vector counter of the matrix `A`) or the
    * matrix counter (`Fixed`). */
  datatype RowSumCounter = AsWritten | Fixed

  /** `NumberOfRows` of a vector expression (`RowCounter<VectorExpression>`).
    * A product is counted by the counter of its left operand's tag. */
  function VecRows(env: Operands, e: Node, rc: RowSumCounter): Result<nat, LinalgError>
    decreases e
  {
    match e
    case Leaf(_, id) =>
      if !IsVectorLeaf(e) then Err(NotCompiled)
      else if id !in env.vectors then Err(Unbound)
      else Ok(|env.vectors[id]|)
    case Un(op, a) =>
      if op == RowSumOfMatrix && rc == Fixed then MatRows(env, a) else VecRows(env, a, rc)
    case Pow(_, _, a) => VecRows(env, a, rc)
    case Bin(op, l, r) =>
      if op == Plus || op == Minus then
        var x :- VecRows(env, l, rc);
        var y :- VecRows(env, r, rc);
        if x != y then Err(InvalidArgument) else Ok(x)
      else if op == Multiply then
        if l.Scalar? then VecRows(env, r, rc)
        else if OperandTag(l).MatrixExpr? then MatRows(env, l)
        else if OperandTag(l).VectorExpr? then VecRows(env, l, rc)
        else Err(NotCompiled)
      else Err(NotCompiled)
    case _ => Err(NotCompiled)
  }

  // -----------------------------------------------------------------------
  // Rows and columns.

  /** `RationalPower<m, 1>::Apply` on every stored value (`pow(x, m)`), or
    * no value.  The extractors reach it only for denominator 1: for any
    * other `RationalPower<m, n>` the `Apply` does not compile. */
  function PowRow(r: Row, m: int): Result<Row, LinalgError>
  {
    if forall k | k in r :: Power(r[k], m).Some? then
      Ok(map k | k in r :: Power(r[k], m).value)
    else Err(NoValue)
  }

  /** `RowExtractor<MatrixExpression>(i)(e)`: row `i` of the matrix the
    * expression denotes. */
  function RowOf(env: Operands, e: Node, i: nat): Result<Row, LinalgError>
    decreases e, 0
  {
    match e
    case Leaf(_, id) =>
      if !IsMatrixLeaf(e) then Err(NotCompiled)
      else if id !in env.matrices then Err(Unbound)
      else LeafRow(env.matrices[id], i)
    case Un(op, a) =>
      if op == TransposeOfMatrix then ColOf(env, a, i)
      else if op == LumpedMatrix then
        var r :- RowOf(env, a, i);
        Ok(Lumped(r, i))
      else if op == UMinus then
        var r :- RowOf(env, a, i);
        Ok(Scaled(r, -1.0))
      else if UnaryDefined(op) then
        var r :- RowOf(env, a, i);
        Ok(MapValues(r, x => UnaryValue(op, x)))
      else Err(NotCompiled)
    case Pow(m, n, a) =>
      if n != 1 then Err(NotCompiled)
      else
        var r :- RowOf(env, a, i);
        PowRow(r, m)
    case Bin(op, l, r) =>
      if op == Plus then
        var x :- RowOf(env, l, i);
        var y :- RowOf(env, r, i);
        Ok(Merge(x, y))
      else if op == Minus then
        var x :- RowOf(env, l, i);
        var y :- RowOf(env, r, i);
        Ok(Difference(x, y))
      else if op == Multiply && r.Scalar? && !l.Scalar? then
        var x :- RowOf(env, l, i);
        Ok(Scaled(x, r.value))
      else if op == Multiply && l.Scalar? && !r.Scalar? then
        var y :- RowOf(env, r, i);
        Ok(Scaled(y, l.value))
      else Err(NotCompiled)
    case _ => Err(NotCompiled)
  }

  /** `ColExtractor<MatrixExpression>(j)(e)`: column `j`, keyed by row
    * number.  The column of a lumped matrix is its row. */
  function ColOf(env: Operands, e: Node, j: nat): Result<Row, LinalgError>
    decreases e, 1
  {
    match e
    case Leaf(_, id) =>
      if !IsMatrixLeaf(e) then Err(NotCompiled)
      else if id !in env.matrices then Err(Unbound)
      else LeafColumn(env.matrices[id], j)
    case Un(op, a) =>
      if op == TransposeOfMatrix then RowOf(env, a, j)
      else if op == LumpedMatrix then RowOf(env, e, j)
      else if UnaryDefined(op) then
        var c :- ColOf(env, a, j);
        Ok(MapValues(c, x => UnaryValue(op, x)))
      else Err(NotCompiled)
    case Pow(m, n, a) =>
      if n != 1 then Err(NotCompiled)
      else
        var c :- ColOf(env, a, j);
        PowRow(c, m)
    case Bin(op, l, r) =>
      if op == Plus then
        var x :- ColOf(env, l, j);
        var y :- ColOf(env, r, j);
        Ok(Merge(x, y))
      else if op == Minus then
        var x :- ColOf(env, l, j);
        var y :- ColOf(env, r, j);
        Ok(MergeWith(x, y, Negate))
      else if op == Multiply && r.Scalar? && !l.Scalar? then
        var x :- ColOf(env, l, j);
        Ok(Scaled(x, r.value))
      else if op == Multiply && l.Scalar? && !r.Scalar? then
        var y :- ColOf(env, r, j);
        Ok(Scaled(y, l.value))
      else Err(NotCompiled)
    case _ => Err(NotCompiled)
  }

  /** `RowExtractor<VectorExpression>(i)(e)`: entry `i` of the vector the
    * expression denotes.  A product with a matrix on the left is the sum of
    * the row's entries times the vector's entries at their column numbers;
    * two vectors multiply entry by entry. */
  function VecAt(env: Operands, e: Node, i: nat): Result<real, LinalgError>
    decreases e, 0, 0
  {
    match e
    case Leaf(_, id) =>
      if !IsVectorLeaf(e) then Err(NotCompiled)
      else if id !in env.vectors then Err(Unbound)
      else if i > |env.vectors[id]| || i == 0 then Err(RangeError)
      else Ok(env.vectors[id][i - 1])
    case Scalar(v, _) => Ok(v)
    case Un(op, a) =>
      if op == RowSumOfMatrix then
        var r :- RowOf(env, a, i);
        Ok(SumOf(r))
      else if op == UMinus then
        var x :- VecAt(env, a, i);
        Ok(x * -1.0)
      else if UnaryDefined(op) then
        var x :- VecAt(env, a, i);
        Ok(UnaryValue(op, x))
      else Err(NotCompiled)
    case Pow(m, n, a) =>
      if n != 1 then Err(NotCompiled)
      else
        var x :- VecAt(env, a, i);
        if Power(x, m).Some? then Ok(Power(x, m).value) else Err(NoValue)
    case Bin(op, l, r) =>
      if op != Multiply then
        if !ApplyBinary(op, 1.0, 1.0).Some? then Err(NotCompiled)
        else
          var x :- VecAt(env, l, i);
          var y :- VecAt(env, r, i);
          if ApplyBinary(op, x, y).Some? then Ok(ApplyBinary(op, x, y).value) else Err(NoValue)
      else if OperandTag(l).MatrixExpr? && OperandTag(r).VectorExpr? then
        var row :- RowOf(env, l, i);
        DotRow(env, row, r)
      else if OperandTag(l).VectorExpr? && OperandTag(r).VectorExpr? then
        var x :- VecAt(env, l, i);
        var y :- VecAt(env, r, i);
        Ok(ApplyBinary(Multiply, x, y).value)
      else Err(NotCompiled)
    case _ => Err(NotCompiled)
  }

  /** The accumulation loop of the matrix-vector product: in ascending
    * column order, each stored value times the vector's entry there. */
  function DotRow(env: Operands, row: Row, v: Node): Result<real, LinalgError>
    decreases v, 1, |row.Keys|
  {
    if row.Keys == {} then Ok(0.0)
    else
      var k := MinKey(row.Keys);
      assert |(row - {k}).Keys| < |row.Keys| by { RemoveKeys(row, k); }
      var x :- VecAt(env, v, k);
      var rest :- DotRow(env, row - {k}, v);
      Ok(Accumulate(row[k], x, rest))
  }

  /** One step of the accumulation: `Result += value * v(k)`. */
  function Accumulate(value: real, x: real, rest: real): real
  {
    value * x + rest
  }

  // -----------------------------------------------------------------------
  // The trees the compiler accepts.

  /** A matrix expression with a row and a column extractor at every node
    * (a power only with denominator 1). */
  predicate Extractable(e: Node)
  {
    match e
    case Leaf(_, _) => IsMatrixLeaf(e)
    case Un(op, a) => UnaryDefined(op) && Extractable(a)
    case Pow(_, n, a) => n == 1 && Extractable(a)
    case Bin(op, l, r) =>
      ((op == Plus || op == Minus) && Extractable(l) && Extractable(r)) ||
      (op == Multiply && r.Scalar? && !l.Scalar? && Extractable(l)) ||
      (op == Multiply && l.Scalar? && !r.Scalar? && Extractable(r))
    case _ => false
  }

  /** Every matrix and vector leaf of the tree is captured by reference
    * (`CRefOrVal` of MatrixVectorOps.h). */
  predicate CapturedByReference(e: Node)
  {
    match e
    case Leaf(k, _) => k.Object? ==> k.byRef
    case Un(_, a) => CapturedByReference(a)
    case Pow(_, _, a) => CapturedByReference(a)
    case Bin(_, l, r) => CapturedByReference(l) && CapturedByReference(r)
    case _ => true
  }

  /** Some object leaf of the tree has the identity `id`. */
  predicate Mentions(e: Node, id: nat)
  {
    match e
    case Leaf(k, i) => k.Object? && i == id
    case Un(_, a) => Mentions(a, id)
    case Pow(_, _, a) => Mentions(a, id)
    case Bin(_, l, r) => Mentions(l, id) || Mentions(r, id)
    case _ => false
  }

  /** Two operand environments that differ at most in the object `id`. */
  ghost predicate AgreeExcept(env1: Operands, env2: Operands, id: nat)
  {
    (forall k :: k != id ==> (k in env1.matrices <==> k in env2.matrices)) &&
    (forall k :: k != id && k in env1.matrices ==> env1.matrices[k] == env2.matrices[k]) &&
    (forall k :: k != id ==> (k in env1.vectors <==> k in env2.vectors)) &&
    (forall k :: k != id && k in env1.vectors ==> env1.vectors[k] == env2.vectors[k])
  }

  // -----------------------------------------------------------------------
  // What a loop over rows or entries computes.

  /** Items `1..n` as `f` gives them, or the error of the first one that
    * fails, as a loop over rows or entries meets them. */
  function Collect<T>(f: nat -> Result<T, LinalgError>, n: nat): (r: Result<seq<T>, LinalgError>)
    ensures r.Ok? ==> |r.value| == n
  {
    if n == 0 then Ok([])
    else
      var prev :- Collect(f, n - 1);
      var r :- f(n);
      Ok(prev + [r])
  }

  function ErrorOf<T>(r: Result<T, LinalgError>): Option<LinalgError>
  {
    if r.Ok? then None else Some(r.error)
  }

  /** The collected items are those `f` gives, and the collection fails
    * exactly when one of them fails. */
  lemma {:induction false} CollectMeaning<T>(f: nat -> Result<T, LinalgError>, n: nat)
    ensures Collect(f, n).Ok? <==> forall i: nat :: 1 <= i <= n ==> f(i).Ok?
    ensures Collect(f, n).Ok? ==>
              |Collect(f, n).value| == n &&
              forall i: nat :: 1 <= i <= n ==> Collect(f, n).value[i - 1] == f(i).value
  {
    if n > 0 {
      CollectMeaning(f, n - 1);
      var prev := Collect(f, n - 1);
      if prev.Err? {
        assert Collect(f, n).Err?;
        assert !(forall i: nat :: 1 <= i <= n - 1 ==> f(i).Ok?);
      } else if f(n).Err? {
        assert Collect(f, n).Err?;
      } else {
        var all := prev.value + [f(n).value];
        assert Collect(f, n) == Ok(all);
        forall i | 1 <= i <= n
          ensures f(i).Ok? && all[i - 1] == f(i).value
        {
          if i < n {
            assert all[i - 1] == prev.value[i - 1];
          }
        }
      }
    }
  }

  /** One more entry: a success appends its value, a failure is the
    * collection's error. */
  lemma CollectStep<T>(f: nat -> Result<T, LinalgError>, k: nat, xs: seq<T>)
    requires Collect(f, k) == Ok(xs)
    ensures f(k + 1).Ok? ==> Collect(f, k + 1) == Ok(xs + [f(k + 1).value])
    ensures f(k + 1).Err? ==> Collect(f, k + 1) == Err(f(k + 1).error)
  {
  }

  /** Once an item fails, every longer collection fails with its error. */
  lemma {:induction false} CollectFails<T>(f: nat -> Result<T, LinalgError>, k: nat, n: nat)
    requires k <= n && Collect(f, k).Err?
    ensures Collect(f, n) == Err(Collect(f, k).error)
    decreases n
  {
    if n > k {
      CollectFails(f, k, n - 1);
    }
  }

  /** Collections with functions that agree on `1..n` are equal. */
  lemma {:induction false} CollectAgree<T>(f: nat -> Result<T, LinalgError>, g: nat -> Result<T, LinalgError>, n: nat)
    requires forall i: nat :: 1 <= i <= n ==> f(i) == g(i)
    ensures Collect(f, n) == Collect(g, n)
  {
    if n > 0 {
      CollectAgree(f, g, n - 1);
    }
  }
}
