// Properties of the sparse matrix expressions: the column index yields the
// columns, extracted rows and columns stay inside the shape, the row and
// the column extractors describe the same matrix, an expression that does
// not mention an object does not read it, and the row sums of `RowSum` and
// `Lump`.
module LinalgProofs {
  import opened Wrappers
  import opened Ops
  import opened Tags
  import opened Nodes
  import opened SparseRows
  import opened LinalgExpr
  import opened Counting

  // -----------------------------------------------------------------------
  // The column index.

  /** Walking a list of rows that all store an entry in column `j` collects
    * those entries. */
  lemma {:induction false} WalkCollects(m: SquareMatrix, j: nat, list: seq<nat>)
    requires ListWithin(list, 1, m.nrows)
    requires forall k :: 0 <= k < |list| ==> j in RowNo(m, list[k])
    ensures WalkColumn(m, j, list) == Ok(map r | r in list :: RowNo(m, r)[j])
  {
    if list != [] {
      assert j in RowNo(m, list[0]);
      WalkCollects(m, j, list[1..]);
      var rest := map r | r in list[1..] :: RowNo(m, r)[j];
      var all := map r | r in list :: RowNo(m, r)[j];
      assert WalkColumn(m, j, list) == Ok(rest[list[0] := RowNo(m, list[0])[j]]);
      assert all.Keys == rest.Keys + {list[0]} by {
        forall r | r in list
          ensures r == list[0] || r in list[1..]
        {
          var k :| 0 <= k < |list| && list[k] == r;
          if k > 0 { assert list[1..][k - 1] == r; }
        }
      }
      assert all == rest[list[0] := RowNo(m, list[0])[j]];
    }
  }

  /** `GetColumn(j)` of a consistent matrix succeeds for every column and
    * returns exactly the entries of column `j`. */
  lemma GetColumnCorrect(m: SquareMatrix, j: nat)
    ensures LeafColumn(m, j).Ok? <==> 1 <= j <= m.ncols
    ensures 1 <= j <= m.ncols ==> LeafColumn(m, j) == Ok(ColumnOf(m, j))
  {
    if 1 <= j <= m.ncols {
      var list := m.cols[j - 1];
      forall k | 0 <= k < |list|
        ensures j in RowNo(m, list[k])
      {
        var r := list[k];
        assert multiset(list)[r] >= 1;
        assert multiset(m.cols[j - 1])[(r - 1) + 1] == if j in m.rows[r - 1] then 1 else 0;
      }
      WalkCollects(m, j, list);
      var got := map r | r in list :: RowNo(m, r)[j];
      forall i: nat | 1 <= i <= m.nrows && j in RowNo(m, i)
        ensures i in list
      {
        assert multiset(m.cols[j - 1])[(i - 1) + 1] == 1;
      }
      assert got == ColumnOf(m, j);
    }
  }

  /** The rows and the column lists of a consistent matrix hold the same
    * entries. */
  lemma RowsAgreeWithColumns(m: SquareMatrix, i: nat, j: nat)
    requires 1 <= i <= m.nrows && 1 <= j <= m.ncols
    ensures Get(RowNo(m, i), j) == Get(ColumnOf(m, j), i)
  {
  }

  // -----------------------------------------------------------------------
  // Shapes and index ranges.

  /** A row that extracts without error has all its keys among the columns,
    * its index among the rows, and the expression is square. */
  lemma {:induction false} RowWithinShape(env: Operands, e: Node, i: nat, n: nat, c: nat)
    requires RowOf(env, e, i).Ok? && MatRows(env, e) == Ok(n) && MatCols(env, e) == Ok(c)
    ensures n == c && 1 <= i <= n && KeysWithin(RowOf(env, e, i).value, 1, c)
    decreases e, 0
  {
    match e
    case Leaf(_, _) =>
    case Un(op, a) =>
      if op == TransposeOfMatrix {
        ColWithinShape(env, a, i, c, n);
      } else {
        RowWithinShape(env, a, i, n, c);
      }
    case Pow(_, _, a) =>
      RowWithinShape(env, a, i, n, c);
    case Bin(op, l, r) =>
      if op == Plus || op == Minus {
        RowWithinShape(env, l, i, n, c);
        RowWithinShape(env, r, i, n, c);
      } else if r.Scalar? {
        RowWithinShape(env, l, i, n, c);
      } else {
        RowWithinShape(env, r, i, n, c);
      }
  }

  /** A column that extracts without error has all its keys among the rows
    * and its index among the columns. */
  lemma {:induction false} ColWithinShape(env: Operands, e: Node, j: nat, n: nat, c: nat)
    requires ColOf(env, e, j).Ok? && MatRows(env, e) == Ok(n) && MatCols(env, e) == Ok(c)
    ensures n == c && 1 <= j <= c && KeysWithin(ColOf(env, e, j).value, 1, n)
    decreases e, 1
  {
    match e
    case Leaf(_, id) =>
      GetColumnCorrect(env.matrices[id], j);
    case Un(op, a) =>
      if op == TransposeOfMatrix {
        RowWithinShape(env, a, j, c, n);
      } else if op == LumpedMatrix {
        RowWithinShape(env, e, j, n, c);
      } else {
        ColWithinShape(env, a, j, n, c);
      }
    case Pow(_, _, a) =>
      ColWithinShape(env, a, j, n, c);
    case Bin(op, l, r) =>
      if op == Plus || op == Minus {
        ColWithinShape(env, l, j, n, c);
        ColWithinShape(env, r, j, n, c);
      } else if r.Scalar? {
        ColWithinShape(env, l, j, n, c);
      } else {
        ColWithinShape(env, r, j, n, c);
      }
  }

  /** The trees that extract without error are the ones the compiler
    * accepts. */
  lemma {:induction false} RowOkIsExtractable(env: Operands, e: Node, i: nat)
    requires RowOf(env, e, i).Ok?
    ensures Extractable(e)
    decreases e, 0
  {
    match e
    case Leaf(_, _) =>
    case Un(op, a) =>
      if op == TransposeOfMatrix { ColOkIsExtractable(env, a, i); } else { RowOkIsExtractable(env, a, i); }
    case Pow(_, _, a) => RowOkIsExtractable(env, a, i);
    case Bin(op, l, r) =>
      if op == Plus || op == Minus {
        RowOkIsExtractable(env, l, i);
        RowOkIsExtractable(env, r, i);
      } else if r.Scalar? {
        RowOkIsExtractable(env, l, i);
      } else {
        RowOkIsExtractable(env, r, i);
      }
  }

  lemma {:induction false} ColOkIsExtractable(env: Operands, e: Node, j: nat)
    requires ColOf(env, e, j).Ok?
    ensures Extractable(e)
    decreases e, 1
  {
    match e
    case Leaf(_, _) =>
    case Un(op, a) =>
      if op == TransposeOfMatrix { RowOkIsExtractable(env, a, j); }
      else if op == LumpedMatrix { RowOkIsExtractable(env, e, j); }
      else { ColOkIsExtractable(env, a, j); }
    case Pow(_, _, a) => ColOkIsExtractable(env, a, j);
    case Bin(op, l, r) =>
      if op == Plus || op == Minus {
        ColOkIsExtractable(env, l, j);
        ColOkIsExtractable(env, r, j);
      } else if r.Scalar? {
        ColOkIsExtractable(env, l, j);
      } else {
        ColOkIsExtractable(env, r, j);
      }
  }

  /** An accepted matrix expression over square matrices is square: every
    * operation of the library keeps the shape. */
  lemma {:induction false} ExtractableIsSquare(env: Operands, e: Node)
    requires Extractable(e) && MatRows(env, e).Ok? && MatCols(env, e).Ok?
    ensures MatRows(env, e) == MatCols(env, e)
  {
    match e
    case Leaf(_, _) =>
    case Un(_, a) => ExtractableIsSquare(env, a);
    case Pow(_, _, a) => ExtractableIsSquare(env, a);
    case Bin(op, l, r) =>
      if op == Plus || op == Minus {
        ExtractableIsSquare(env, l);
        ExtractableIsSquare(env, r);
      } else if r.Scalar? {
        ExtractableIsSquare(env, l);
      } else {
        ExtractableIsSquare(env, r);
      }
  }

  /** An accepted matrix expression that mentions a matrix has that
    * matrix's shape. */
  lemma {:induction false} ShapeOfMentioned(env: Operands, e: Node, id: nat)
    requires Extractable(e) && MatRows(env, e).Ok? && MatCols(env, e).Ok?
    requires Mentions(e, id) && id in env.matrices
    ensures MatRows(env, e) == Ok(env.matrices[id].nrows)
    ensures MatCols(env, e) == Ok(env.matrices[id].ncols)
  {
    match e
    case Leaf(_, _) =>
    case Un(_, a) => ShapeOfMentioned(env, a, id);
    case Pow(_, _, a) => ShapeOfMentioned(env, a, id);
    case Bin(op, l, r) =>
      if op == Plus || op == Minus {
        if Mentions(l, id) { ShapeOfMentioned(env, l, id); } else { ShapeOfMentioned(env, r, id); }
      } else if r.Scalar? {
        ShapeOfMentioned(env, l, id);
      } else {
        ShapeOfMentioned(env, r, id);
      }
  }

  // -----------------------------------------------------------------------
  // Rows and columns agree.

  /** Entry `j` of a row and entry `i` of a column are the same entry
    * `(i, j)`: stored in both or in neither, with the same value. */
  predicate Agree(row: Row, col: Row, i: nat, j: nat)
  {
    (j in row <==> i in col) && (j in row ==> row[j] == col[i])
  }

  /** The row and the column extractor describe the same matrix: entry `j`
    * of row `i` is stored exactly when entry `i` of column `j` is, with the
    * same value. */
  lemma {:induction false} RowsAgreeWithCols(env: Operands, e: Node, i: nat, j: nat)
    requires RowOf(env, e, i).Ok? && ColOf(env, e, j).Ok?
    ensures Agree(RowOf(env, e, i).value, ColOf(env, e, j).value, i, j)
    decreases e
  {
    match e
    case Leaf(_, id) =>
      GetColumnCorrect(env.matrices[id], j);
    case Un(op, a) =>
      if op == TransposeOfMatrix {
        RowsAgreeWithCols(env, a, j, i);
      } else if op == LumpedMatrix {
        LumpedAgree(RowOf(env, a, i).value, RowOf(env, a, j).value, i, j);
      } else {
        RowsAgreeWithCols(env, a, i, j);
        var x, y := RowOf(env, a, i).value, ColOf(env, a, j).value;
        if op == UMinus {
          AgreeNegated(x, y, i, j);
        } else {
          AgreeMapped(x, y, i, j, z => UnaryValue(op, z));
        }
      }
    case Pow(m, n, a) =>
      RowsAgreeWithCols(env, a, i, j);
    case Bin(op, l, r) =>
      if op == Plus || op == Minus {
        RowsAgreeWithCols(env, l, i, j);
        RowsAgreeWithCols(env, r, i, j);
        var x1, y1 := RowOf(env, l, i).value, ColOf(env, l, j).value;
        var x2, y2 := RowOf(env, r, i).value, ColOf(env, r, j).value;
        if op == Plus {
          AgreeMerged(x1, y1, x2, y2, i, j);
        } else {
          AgreeDifference(x1, y1, x2, y2, i, j);
        }
      } else if r.Scalar? {
        RowsAgreeWithCols(env, l, i, j);
        AgreeScaled(RowOf(env, l, i).value, ColOf(env, l, j).value, i, j, r.value);
      } else {
        RowsAgreeWithCols(env, r, i, j);
        AgreeScaled(RowOf(env, r, i).value, ColOf(env, r, j).value, i, j, l.value);
      }
  }

  /** `Lump` puts the whole row on the diagonal, so rows `i` and `j` of a
    * lumped matrix only meet at `i == j`. */
  lemma LumpedAgree(x: Row, y: Row, i: nat, j: nat)
    requires i == j ==> x == y
    ensures Agree(Lumped(x, i), Lumped(y, j), i, j)
  {
    LumpedMeaning(x, i);
    LumpedMeaning(y, j);
  }

  lemma AgreeNegated(x: Row, y: Row, i: nat, j: nat)
    requires Agree(x, y, i, j)
    ensures Agree(Scaled(x, -1.0), MapValues(y, z => UnaryValue(UMinus, z)), i, j)
  {
  }

  lemma AgreeMapped(x: Row, y: Row, i: nat, j: nat, f: real -> real)
    requires Agree(x, y, i, j)
    ensures Agree(MapValues(x, f), MapValues(y, f), i, j)
  {
  }

  lemma AgreeMerged(x1: Row, y1: Row, x2: Row, y2: Row, i: nat, j: nat)
    requires Agree(x1, y1, i, j) && Agree(x2, y2, i, j)
    ensures Agree(Merge(x1, x2), Merge(y1, y2), i, j)
  {
  }

  lemma AgreeDifference(x1: Row, y1: Row, x2: Row, y2: Row, i: nat, j: nat)
    requires Agree(x1, y1, i, j) && Agree(x2, y2, i, j)
    ensures Agree(Difference(x1, x2), MergeWith(y1, y2, Negate), i, j)
  {
  }

  lemma AgreeScaled(x: Row, y: Row, i: nat, j: nat, s: real)
    requires Agree(x, y, i, j)
    ensures Agree(Scaled(x, s), Scaled(y, s), i, j)
  {
  }

  // -----------------------------------------------------------------------
  // What an expression reads.

  /** With every object leaf captured by reference, an object that
    * `CountOccurrence` does not find is not mentioned at all. */
  lemma {:induction false} UncountedIsUnmentioned(e: Node, id: nat)
    requires CapturedByReference(e)
    ensures DynamicCount(e, [], External(id)) == 0 <==> !Mentions(e, id)
  {
    DynamicCountExternal(e, [], id);
    RefCountMentions(e, id);
  }

  lemma {:induction false} RefCountMentions(e: Node, id: nat)
    requires CapturedByReference(e)
    ensures RefCount(e, id) == 0 <==> !Mentions(e, id)
  {
    match e
    case Un(_, a) => RefCountMentions(a, id);
    case Pow(_, _, a) => RefCountMentions(a, id);
    case Bin(_, l, r) =>
      RefCountMentions(l, id);
      RefCountMentions(r, id);
    case _ =>
  }

  /** The shape of an expression does not depend on an object it does not
    * mention. */
  lemma {:induction false} FrameShape(env1: Operands, env2: Operands, id: nat, e: Node)
    requires AgreeExcept(env1, env2, id) && !Mentions(e, id)
    ensures MatRows(env1, e) == MatRows(env2, e)
    ensures MatCols(env1, e) == MatCols(env2, e)
  {
    match e
    case Un(_, a) => FrameShape(env1, env2, id, a);
    case Pow(_, _, a) => FrameShape(env1, env2, id, a);
    case Bin(_, l, r) =>
      FrameShape(env1, env2, id, l);
      FrameShape(env1, env2, id, r);
    case _ =>
  }

  /** The rows of an expression do not depend on an object it does not
    * mention. */
  lemma {:induction false} FrameRow(env1: Operands, env2: Operands, id: nat, e: Node, i: nat)
    requires AgreeExcept(env1, env2, id) && !Mentions(e, id)
    ensures RowOf(env1, e, i) == RowOf(env2, e, i)
    decreases e, 0
  {
    match e
    case Un(op, a) =>
      if op == TransposeOfMatrix { FrameCol(env1, env2, id, a, i); } else { FrameRow(env1, env2, id, a, i); }
    case Pow(_, _, a) => FrameRow(env1, env2, id, a, i);
    case Bin(_, l, r) =>
      FrameRow(env1, env2, id, l, i);
      FrameRow(env1, env2, id, r, i);
    case _ =>
  }

  lemma {:induction false} FrameCol(env1: Operands, env2: Operands, id: nat, e: Node, j: nat)
    requires AgreeExcept(env1, env2, id) && !Mentions(e, id)
    ensures ColOf(env1, e, j) == ColOf(env2, e, j)
    decreases e, 1
  {
    match e
    case Un(op, a) =>
      if op == TransposeOfMatrix { FrameRow(env1, env2, id, a, j); }
      else if op == LumpedMatrix { FrameRow(env1, env2, id, e, j); }
      else { FrameCol(env1, env2, id, a, j); }
    case Pow(_, _, a) => FrameCol(env1, env2, id, a, j);
    case Bin(_, l, r) =>
      FrameCol(env1, env2, id, l, j);
      FrameCol(env1, env2, id, r, j);
    case _ =>
  }

  /** The entries and the length of a vector expression do not depend on an
    * object it does not mention. */
  lemma {:induction false} FrameVec(env1: Operands, env2: Operands, id: nat, e: Node, i: nat)
    requires AgreeExcept(env1, env2, id) && !Mentions(e, id)
    ensures VecAt(env1, e, i) == VecAt(env2, e, i)
    decreases e, 0, 2
  {
    match e
    case Un(op, a) =>
      FrameRow(env1, env2, id, a, i);
      FrameVec(env1, env2, id, a, i);
    case Pow(_, _, a) => FrameVec(env1, env2, id, a, i);
    case Bin(op, l, r) => FrameVecBin(env1, env2, id, op, l, r, i);
    case _ =>
  }

  lemma {:induction false} FrameVecBin(env1: Operands, env2: Operands, id: nat, op: BinaryOp, l: Node, r: Node, i: nat)
    requires AgreeExcept(env1, env2, id) && !Mentions(Bin(op, l, r), id)
    ensures VecAt(env1, Bin(op, l, r), i) == VecAt(env2, Bin(op, l, r), i)
    decreases Bin(op, l, r), 0, 1
  {
    if op == Multiply && OperandTag(l).MatrixExpr? && OperandTag(r).VectorExpr? {
      FrameMatVec(env1, env2, id, l, r, i);
    } else if op != Multiply {
      FrameVec(env1, env2, id, l, i);
      FrameVec(env1, env2, id, r, i);
    } else if OperandTag(l).VectorExpr? && OperandTag(r).VectorExpr? {
      FrameVec(env1, env2, id, l, i);
      FrameVec(env1, env2, id, r, i);
    }
  }

  /** The matrix-vector product reads the row of the matrix and the entries
    * of the vector it names, which agree in both operand sets. */
  lemma {:induction false} FrameMatVec(env1: Operands, env2: Operands, id: nat, l: Node, r: Node, i: nat)
    requires AgreeExcept(env1, env2, id) && !Mentions(Bin(Multiply, l, r), id)
    requires OperandTag(l).MatrixExpr? && OperandTag(r).VectorExpr?
    ensures VecAt(env1, Bin(Multiply, l, r), i) == VecAt(env2, Bin(Multiply, l, r), i)
    decreases Bin(Multiply, l, r), 0, 0
  {
    FrameRow(env1, env2, id, l, i);
    if RowOf(env1, l, i).Ok? {
      FrameDot(env1, env2, id, RowOf(env1, l, i).value, r);
    }
  }

  lemma {:induction false} FrameDot(env1: Operands, env2: Operands, id: nat, row: Row, v: Node)
    requires AgreeExcept(env1, env2, id) && !Mentions(v, id)
    ensures DotRow(env1, row, v) == DotRow(env2, row, v)
    decreases v, 1, |row.Keys|
  {
    if row.Keys != {} {
      var k := MinKey(row.Keys);
      RemoveKeys(row, k);
      FrameVec(env1, env2, id, v, k);
      FrameDot(env1, env2, id, row - {k}, v);
    }
  }

  lemma {:induction false} FrameVecRows(env1: Operands, env2: Operands, id: nat, e: Node, rc: RowSumCounter)
    requires AgreeExcept(env1, env2, id) && !Mentions(e, id)
    ensures VecRows(env1, e, rc) == VecRows(env2, e, rc)
  {
    match e
    case Un(_, a) =>
      FrameShape(env1, env2, id, a);
      FrameVecRows(env1, env2, id, a, rc);
    case Pow(_, _, a) => FrameVecRows(env1, env2, id, a, rc);
    case Bin(_, l, r) =>
      FrameShape(env1, env2, id, l);
      FrameVecRows(env1, env2, id, l, rc);
      FrameVecRows(env1, env2, id, r, rc);
    case _ =>
  }

  // -----------------------------------------------------------------------
  // Row sums and lumping.

  /** Entry `i` of `RowSum(e)` is the sum of row `i` of `e`. */
  lemma RowSumAt(env: Operands, e: Node, i: nat, x: Row)
    requires RowOf(env, e, i) == Ok(x)
    ensures VecAt(env, Un(RowSumOfMatrix, e), i) == Ok(SumOf(x))
  {
  }

  /** `RowSum` of a sum of matrices is the sum of their row sums: with rows
    * `x` of `A` and `y` of `B` (whose row sums `RowSumAt` gives), entry `i`
    * of `RowSum(A + B)` is the sum of `x` plus the sum of `y`. */
  lemma RowSumOfSum(env: Operands, a: Node, b: Node, i: nat, x: Row, y: Row)
    requires RowOf(env, a, i) == Ok(x) && RowOf(env, b, i) == Ok(y)
    ensures VecAt(env, Un(RowSumOfMatrix, Bin(Plus, a, b)), i) == Ok(SumOf(x) + SumOf(y))
  {
    RowOfSum(env, a, b, i, x, y);
    RowSumAt(env, Bin(Plus, a, b), i, Merge(x, y));
    SumOfMerge(x, y);
  }

  /** `RowSum` of a difference of matrices is the difference of their row
    * sums. */
  lemma RowSumOfDifference(env: Operands, a: Node, b: Node, i: nat, x: Row, y: Row)
    requires RowOf(env, a, i) == Ok(x) && RowOf(env, b, i) == Ok(y)
    ensures VecAt(env, Un(RowSumOfMatrix, Bin(Minus, a, b)), i) == Ok(SumOf(x) - SumOf(y))
  {
    RowOfDifference(env, a, b, i, x, y);
    RowSumAt(env, Bin(Minus, a, b), i, Difference(x, y));
    SumOfDifference(x, y);
  }

  /** Row `i` of `A + B` is the merge of the rows of `A` and `B`. */
  lemma RowOfSum(env: Operands, a: Node, b: Node, i: nat, x: Row, y: Row)
    requires RowOf(env, a, i) == Ok(x) && RowOf(env, b, i) == Ok(y)
    ensures RowOf(env, Bin(Plus, a, b), i) == Ok(Merge(x, y))
  {
  }

  /** Row `i` of `A - B` is the row of `A` minus the row of `B`. */
  lemma RowOfDifference(env: Operands, a: Node, b: Node, i: nat, x: Row, y: Row)
    requires RowOf(env, a, i) == Ok(x) && RowOf(env, b, i) == Ok(y)
    ensures RowOf(env, Bin(Minus, a, b), i) == Ok(Difference(x, y))
  {
  }

  /** A lumped row stores at most its diagonal entry, and lumping keeps
    * every row sum. */
  lemma LumpKeepsRowSums(env: Operands, a: Node, i: nat)
    requires RowOf(env, a, i).Ok?
    ensures RowOf(env, Un(LumpedMatrix, a), i).value.Keys <= {i}
    ensures VecAt(env, Un(RowSumOfMatrix, Un(LumpedMatrix, a)), i) == VecAt(env, Un(RowSumOfMatrix, a), i)
  {
    LumpedMeaning(RowOf(env, a, i).value, i);
  }

  /** A lumped matrix is its own transpose. */
  lemma LumpIsSymmetric(env: Operands, a: Node, i: nat)
    ensures RowOf(env, Un(TransposeOfMatrix, Un(LumpedMatrix, a)), i) == RowOf(env, Un(LumpedMatrix, a), i)
  {
  }

  /** The vector counter of the library has no case for a matrix, so
    * `NumberOfRows(RowSum(M))` is not accepted; counting `RowSum(M)` by the
    * matrix counter gives the rows of `M`. */
  lemma RowSumCounterAsWritten(env: Operands, m: Node)
    requires IsMatrixLeaf(m)
    ensures VecRows(env, Un(RowSumOfMatrix, m), AsWritten) == Err(NotCompiled)
  {
  }

  /** With the matrix counter, `RowSum(M)` has as many entries as `M` has
    * rows, and entry `i` extracts exactly for those `i`. */
  lemma RowSumCounterFixed(env: Operands, m: Node)
    requires IsMatrixLeaf(m) && m.id in env.matrices && env.matrices[m.id].nrows > 0
    ensures VecRows(env, Un(RowSumOfMatrix, m), Fixed) == Ok(env.matrices[m.id].nrows)
    ensures forall i: nat :: VecAt(env, Un(RowSumOfMatrix, m), i).Ok? <==> 1 <= i <= env.matrices[m.id].nrows
  {
  }

  /** `RationalPower<m, n>::Apply` compiles only for denominator 1, so no
    * extractor accepts another power: neither `Inverse(A)` (exponent 1/-1)
    * nor `Sqrt(A)` (1/2) gives a row, a column or a vector entry, and an
    * assignment from such a tree is rejected. */
  lemma PowerNotCompiled(env: Operands, m: int, n: int, a: Node, i: nat)
    requires n != 1
    ensures RowOf(env, Pow(m, n, a), i) == Err(NotCompiled)
    ensures ColOf(env, Pow(m, n, a), i) == Err(NotCompiled)
    ensures VecAt(env, Pow(m, n, a), i) == Err(NotCompiled)
    ensures !Extractable(Pow(m, n, a))
  {
  }
}
