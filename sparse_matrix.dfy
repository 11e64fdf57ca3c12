// The sparse `Matrix` of the `Linalg` library: a vector of `std::map` rows
// and, per column, the list of the rows that store an entry there
// (`ColumnInfo_`).  Every operation keeps the two consistent (`Indexed`), and
// the assignments from expressions write the rows the extractors compute.
module SparseMatrix {
  import opened Wrappers
  import opened Ops
  import opened Tags
  import opened Nodes
  import opened SparseRows
  import opened LinalgExpr
  import opened LinalgProofs
  import opened LinalgSimplify
  import opened Counting

  // -----------------------------------------------------------------------
  // The column index.

  /** `l.erase(std::remove(l.begin(), l.end(), x))` on a list that holds `x`
    * once: the list without `x`, in its order. */
  function Without(l: seq<nat>, x: nat): (r: seq<nat>)
    ensures multiset(r) == multiset(l)[x := 0]
  {
    if l == [] then []
    else
      assert l == [l[0]] + l[1..];
      var rest := Without(l[1..], x);
      if l[0] == x then rest else [l[0]] + rest
  }

  /** Removing an element keeps the list within its bounds. */
  lemma WithoutWithin(l: seq<nat>, x: nat, lo: nat, hi: nat)
    requires ListWithin(l, lo, hi)
    ensures ListWithin(Without(l, x), lo, hi)
  {
    var r := Without(l, x);
    forall k | 0 <= k < |r|
      ensures lo <= r[k] <= hi
    {
      assert r[k] in multiset(r);
    }
  }

  /** The column index after `UpdateColumnInfo(i, oldRow, newRow)`: row `i`
    * leaves the lists of the columns it no longer stores and is appended to
    * the lists of the columns it newly stores. */
  function UpdatedIndex(cols: seq<seq<nat>>, i: nat, oldRow: Row, newRow: Row): seq<seq<nat>>
  {
    seq(|cols|, j requires 0 <= j < |cols| =>
      if j + 1 in oldRow && j + 1 !in newRow then Without(cols[j], i)
      else if j + 1 in newRow && j + 1 !in oldRow then cols[j] + [i]
      else cols[j])
  }

  function EmptyRows(n: nat): seq<Row>
  {
    seq(n, _ => map[])
  }

  function EmptyIndex(n: nat): seq<seq<nat>>
  {
    seq(n, _ => [])
  }

  /** A matrix without entries is consistent. */
  lemma EmptyIsIndexed(n: nat, c: nat)
    ensures Indexed(MatVal(n, c, EmptyRows(n), EmptyIndex(c)))
  {
  }

  /** Replacing a row and updating the index accordingly keeps the matrix
    * consistent (`ReplaceRow`). */
  lemma ReplaceRowKeepsIndexed(m: MatVal, i: nat, newRow: Row)
    requires Indexed(m) && 1 <= i <= m.nrows && KeysWithin(newRow, 1, m.ncols)
    ensures Indexed(MatVal(m.nrows, m.ncols, m.rows[i - 1 := newRow],
                           UpdatedIndex(m.cols, i, m.rows[i - 1], newRow)))
  {
    ReplaceRowListsWithin(m, i, newRow);
    ReplaceRowCounts(m, i, newRow);
  }

  lemma ReplaceRowListsWithin(m: MatVal, i: nat, newRow: Row)
    requires Indexed(m) && 1 <= i <= m.nrows
    ensures var cols := UpdatedIndex(m.cols, i, m.rows[i - 1], newRow);
      forall j :: 0 <= j < |cols| ==> ListWithin(cols[j], 1, m.nrows)
  {
    var cols := UpdatedIndex(m.cols, i, m.rows[i - 1], newRow);
    forall j | 0 <= j < |cols|
      ensures ListWithin(cols[j], 1, m.nrows)
    {
      assert ListWithin(m.cols[j], 1, m.nrows);
      WithoutWithin(m.cols[j], i, 1, m.nrows);
    }
  }

  lemma ReplaceRowCounts(m: MatVal, i: nat, newRow: Row)
    requires Indexed(m) && 1 <= i <= m.nrows
    ensures var rows := m.rows[i - 1 := newRow];
      var cols := UpdatedIndex(m.cols, i, m.rows[i - 1], newRow);
      forall r, j :: 0 <= r < |rows| && 0 <= j < |cols| ==>
        multiset(cols[j])[r + 1] == if j + 1 in rows[r] then 1 else 0
  {
    var rows := m.rows[i - 1 := newRow];
    var cols := UpdatedIndex(m.cols, i, m.rows[i - 1], newRow);
    forall r, j | 0 <= r < |rows| && 0 <= j < |cols|
      ensures multiset(cols[j])[r + 1] == if j + 1 in rows[r] then 1 else 0
    {
      CountAfterReplace(m.cols, m.rows, i, newRow, r, j);
    }
  }

  /** The count of row `r + 1` in the list of column `j + 1` after row `i`
    * is replaced. */
  lemma CountAfterReplace(cols: seq<seq<nat>>, rows: seq<Row>, i: nat, newRow: Row, r: nat, j: nat)
    requires 1 <= i <= |rows| && r < |rows| && j < |cols|
    requires multiset(cols[j])[i] == if j + 1 in rows[i - 1] then 1 else 0
    requires multiset(cols[j])[r + 1] == if j + 1 in rows[r] then 1 else 0
    ensures multiset(UpdatedIndex(cols, i, rows[i - 1], newRow)[j])[r + 1] ==
            if j + 1 in rows[i - 1 := newRow][r] then 1 else 0
  {
    var l := cols[j];
    var oldIn, newIn := j + 1 in rows[i - 1], j + 1 in newRow;
    var u := UpdatedIndex(cols, i, rows[i - 1], newRow)[j];
    if oldIn && !newIn {
      assert u == Without(l, i);
      assert multiset(u) == multiset(l)[i := 0];
    } else if newIn && !oldIn {
      assert u == l + [i];
      assert multiset(u) == multiset(l) + multiset{i};
    } else {
      assert u == l;
    }
    if r + 1 == i {
      assert rows[i - 1 := newRow][r] == newRow;
    } else {
      assert rows[i - 1 := newRow][r] == rows[r];
      assert multiset(u)[r + 1] == multiset(l)[r + 1];
    }
  }

  /** Appending a row and indexing it keeps the rows built so far consistent
    * (the loop of the constructor from an expression). */
  lemma AppendRowKeepsIndexed(m: MatVal, newRow: Row)
    requires Indexed(m) && KeysWithin(newRow, 1, m.ncols)
    ensures Indexed(MatVal(m.nrows + 1, m.ncols, m.rows + [newRow],
                           UpdatedIndex(m.cols, m.nrows + 1, map[], newRow)))
  {
    var n := m.nrows + 1;
    var rows := m.rows + [newRow];
    var cols := UpdatedIndex(m.cols, n, map[], newRow);
    forall j | 0 <= j < |cols|
      ensures ListWithin(cols[j], 1, n)
    {
      assert ListWithin(m.cols[j], 1, m.nrows);
    }
    forall r, j | 0 <= r < |rows| && 0 <= j < |cols|
      ensures multiset(cols[j])[r + 1] == if j + 1 in rows[r] then 1 else 0
    {
      if r < m.nrows {
        assert rows[r] == m.rows[r];
        assert multiset(m.cols[j])[r + 1] == if j + 1 in m.rows[r] then 1 else 0;
      } else {
        assert ListWithin(m.cols[j], 1, m.nrows);
        assert n !in multiset(m.cols[j]);
      }
    }
  }

  /** One key of the `+=` merge loop: storing the sum (or the new value)
    * at `j` takes the merged row from `done` to `done + {j}`. */
  lemma MergeLoopStep(d: seq<Row>, d0: seq<Row>, i: nat, r0: Row, row: Row, done: set<nat>, j: nat)
    requires 1 <= i <= |d0| && d == d0[i - 1 := Merge(r0, Restrict(row, done))]
    requires j in row && j !in done
    ensures d[i - 1 := Store(d[i - 1], j, if j in d[i - 1] then d[i - 1][j] + row[j] else row[j])] ==
            d0[i - 1 := Merge(r0, Restrict(row, done + {j}))]
  {
    MergeStep(r0, row, done, j);
  }

  /** Before row `nrows + 1` is indexed, no column lists it. */
  lemma NextRowUnlisted(m: MatVal)
    requires Indexed(m)
    ensures forall j :: 0 <= j < |m.cols| ==> multiset(m.cols[j])[m.nrows + 1] == 0
  {
    forall j | 0 <= j < |m.cols|
      ensures multiset(m.cols[j])[m.nrows + 1] == 0
    {
      assert ListWithin(m.cols[j], 1, m.nrows);
    }
  }

  /** Changing stored values without changing the stored keys keeps the
    * matrix consistent. */
  lemma SameKeysKeepIndexed(m: MatVal, i: nat, newRow: Row)
    requires Indexed(m) && 1 <= i <= m.nrows && newRow.Keys == m.rows[i - 1].Keys
    ensures Indexed(MatVal(m.nrows, m.ncols, m.rows[i - 1 := newRow], m.cols))
  {
    var rows := m.rows[i - 1 := newRow];
    forall r, j | 0 <= r < |rows| && 0 <= j < |m.cols|
      ensures multiset(m.cols[j])[r + 1] == if j + 1 in rows[r] then 1 else 0
    {
    }
  }

  /** Storing a new entry `(i, j)` and appending `i` to the list of column
    * `j` keeps the matrix consistent (`M(i, j)` and the `+=` loop). */
  lemma InsertKeepsIndexed(m: MatVal, i: nat, j: nat, v: real)
    requires Indexed(m) && 1 <= i <= m.nrows && 1 <= j <= m.ncols && j !in m.rows[i - 1]
    ensures var newRow: Row := m.rows[i - 1][j := v];
      Indexed(MatVal(m.nrows, m.ncols, m.rows[i - 1 := newRow], m.cols[j - 1 := m.cols[j - 1] + [i]]))
  {
    var newRow := m.rows[i - 1][j := v];
    assert KeysWithin(m.rows[i - 1], 1, m.ncols);
    ReplaceRowKeepsIndexed(m, i, newRow);
    assert UpdatedIndex(m.cols, i, m.rows[i - 1], newRow) == m.cols[j - 1 := m.cols[j - 1] + [i]];
  }

  // -----------------------------------------------------------------------
  // What the assignments compute.

  /** Rows `1..n` of an expression, or the error of the first row that
    * fails. */
  function RowsUpTo(env: Operands, e: Node, n: nat): (r: Result<seq<Row>, LinalgError>)
    ensures r.Ok? ==> |r.value| == n
  {
    Collect(RowFn(env, e), n)
  }

  /** The row extractor of an expression as a function of the row number. */
  function RowFn(env: Operands, e: Node): nat -> Result<Row, LinalgError>
  {
    (i: nat) => RowOf(env, e, i)
  }

  /** The rows a matrix gets from an expression (`Matrix(const OtherT&)` and
    * `operator=(const OtherT&)`): a tree without extractors is rejected,
    * then the shape is counted, then the rows are extracted in order. */
  function Extract(env: Operands, e: Node): Result<seq<Row>, LinalgError>
  {
    if !Extractable(e) then Err(NotCompiled)
    else
      var n :- MatRows(env, e);
      var c :- MatCols(env, e);
      RowsUpTo(env, e, n)
  }

  /** The rows of `m += e` (`operator+=`): the shape of `e` must be the shape
    * of `m` (`std::range_error` otherwise), and each row of `e` is merged
    * into the row of `m`. */
  function Added(env: Operands, e: Node, m: SquareMatrix): Result<seq<Row>, LinalgError>
  {
    if !Extractable(e) then Err(NotCompiled)
    else
      var n :- MatRows(env, e);
      var c :- MatCols(env, e);
      if m.nrows != n || m.ncols != c then Err(RangeError)
      else
        var rows :- RowsUpTo(env, e, n);
        Ok(MergeRows(m.rows, rows))
  }

  /** Row by row merge of two equally long lists of rows. */
  function MergeRows(a: seq<Row>, b: seq<Row>): (r: seq<Row>)
    requires |a| == |b|
    ensures |r| == |a| && forall i :: 0 <= i < |a| ==> r[i] == Merge(a[i], b[i])
  {
    seq(|a|, i requires 0 <= i < |a| => Merge(a[i], b[i]))
  }

  /** The first `|b|` rows of `a` merged with `b`, the rest of `a` as it is:
    * the state of `+=` after `|b|` rows. */
  function MergedPrefix(a: seq<Row>, b: seq<Row>): (r: seq<Row>)
    requires |b| <= |a|
    ensures |r| == |a|
  {
    MergeRows(a[..|b|], b) + a[|b|..]
  }

  /** Merging row `|b| + 1` extends the merged prefix by that row. */
  lemma MergedPrefixStep(a: seq<Row>, b: seq<Row>, row: Row)
    requires |b| < |a|
    ensures MergedPrefix(a, b)[|b| := Merge(MergedPrefix(a, b)[|b|], row)] == MergedPrefix(a, b + [row])
  {
    var k := |b|;
    var lhs := MergedPrefix(a, b)[k := Merge(MergedPrefix(a, b)[k], row)];
    var rhs := MergedPrefix(a, b + [row]);
    forall i | 0 <= i < |a|
      ensures lhs[i] == rhs[i]
    {
      if i < k {
        assert lhs[i] == Merge(a[i], b[i]);
      } else if i == k {
        assert lhs[i] == Merge(a[k], row);
      }
    }
  }

  /** Nothing merged, the rows are those of `a`; everything merged, the
    * row-by-row merge. */
  lemma MergedPrefixEnds(a: seq<Row>, b: seq<Row>)
    requires |b| == |a|
    ensures MergedPrefix(a, []) == a
    ensures MergedPrefix(a, b) == MergeRows(a, b)
  {
    assert a[..0] == [] && a[0..] == a;
    assert a[..|b|] == a && a[|b|..] == [];
  }

  /** An expression that does not mention `self` reads the same rows whatever
    * value `self` has. */
  lemma LiveRow(env: Operands, self: nat, m: SquareMatrix, e: Node, i: nat)
    requires !Mentions(e, self)
    ensures RowOf(env.(matrices := env.matrices[self := m]), e, i) == RowOf(env, e, i)
  {
    FrameRow(env, env.(matrices := env.matrices[self := m]), self, e, i);
  }

  /** Rows `1..n` of the expression can all be extracted. */
  predicate AllRowsOk(env: Operands, e: Node, n: nat)
  {
    forall i: nat :: 1 <= i <= n ==> RowOf(env, e, i).Ok?
  }

  /** The rows up to `n` are the extracted rows, and the first failure is
    * the result. */
  lemma RowsUpToMeaning(env: Operands, e: Node, n: nat)
    ensures RowsUpTo(env, e, n).Ok? <==> AllRowsOk(env, e, n)
    ensures RowsUpTo(env, e, n).Ok? ==>
              |RowsUpTo(env, e, n).value| == n &&
              forall i: nat :: 1 <= i <= n ==> RowsUpTo(env, e, n).value[i - 1] == RowOf(env, e, i).value
  {
    var f := RowFn(env, e);
    CollectMeaning(f, n);
    assert RowsUpTo(env, e, n) == Collect(f, n);
    if RowsUpTo(env, e, n).Err? {
      var k: nat :| 1 <= k <= n && f(k).Err?;
      assert RowOf(env, e, k).Err?;
    } else {
      var rows := RowsUpTo(env, e, n).value;
      forall i: nat | 1 <= i <= n
        ensures RowOf(env, e, i).Ok? && rows[i - 1] == RowOf(env, e, i).value
      {
        assert f(i) == RowOf(env, e, i);
        assert rows[i - 1] == Collect(f, n).value[i - 1];
      }
    }
  }

  /** Once a row fails, every longer extraction fails with its error. */
  lemma RowsUpToFails(env: Operands, e: Node, k: nat, n: nat)
    requires k <= n && RowsUpTo(env, e, k).Err?
    ensures RowsUpTo(env, e, n) == Err(RowsUpTo(env, e, k).error)
  {
    CollectFails(RowFn(env, e), k, n);
  }

  lemma RowsUpToStep(env: Operands, e: Node, rows: seq<Row>, i: nat)
    requires 1 <= i && RowsUpTo(env, e, i - 1) == Ok(rows) && RowOf(env, e, i).Ok?
    ensures RowsUpTo(env, e, i) == Ok(rows + [RowOf(env, e, i).value])
  {
  }

  /** The extracted rows of an assignment fit the shape, and the shape is
    * square. */
  lemma ExtractFits(env: Operands, e: Node)
    requires Extract(env, e).Ok?
    ensures MatRows(env, e).Ok? && MatCols(env, e) == MatRows(env, e)
    ensures |Extract(env, e).value| == MatRows(env, e).value
    ensures forall i :: 0 <= i < |Extract(env, e).value| ==>
              KeysWithin(Extract(env, e).value[i], 1, MatCols(env, e).value)
  {
    var n := MatRows(env, e).value;
    ExtractableIsSquare(env, e);
    RowsUpToMeaning(env, e, n);
    forall i | 0 <= i < n
      ensures KeysWithin(Extract(env, e).value[i], 1, n)
    {
      RowWithinShape(env, e, i + 1, n, n);
    }
  }

  /** The leaf a matrix is captured by when it occurs in its own `+=`. */
  function SelfLeaf(self: nat): Node
  {
    Leaf(Object("Matrix", Some(MatrixExpr("T", "RowStorage", "Allocator")), true), self)
  }

  /** `m += e` assigns `m + e`: the loop that merges in place computes what
    * the temporary of the aliasing case computes. */
  lemma {:induction false} AddedIsAssignedSum(env: Operands, e: Node, self: nat)
    requires self in env.matrices && Extractable(e)
    requires MatRows(env, e) == Ok(env.matrices[self].nrows) && MatCols(env, e) == Ok(env.matrices[self].ncols)
    ensures Added(env, e, env.matrices[self]) == Extract(env, Bin(Plus, SelfLeaf(self), e))
  {
    var m := env.matrices[self];
    var s := Bin(Plus, SelfLeaf(self), e);
    var n := m.nrows;
    SumRows(env, e, self, n);
    assert m.rows[..n] == m.rows;
    assert Extractable(s);
    assert MatRows(env, s) == Ok(n);
    assert MatCols(env, SelfLeaf(self)) == Ok(m.ncols);
    assert MatCols(env, s) == Ok(m.ncols);
  }

  lemma {:induction false} SumRows(env: Operands, e: Node, self: nat, k: nat)
    requires self in env.matrices && k <= env.matrices[self].nrows
    ensures var m := env.matrices[self];
      RowsUpTo(env, Bin(Plus, SelfLeaf(self), e), k) ==
        match RowsUpTo(env, e, k)
        case Ok(rows) => Ok(MergeRows(m.rows[..k], rows))
        case Err(x) => Err(x)
  {
    if k > 0 {
      SumRows(env, e, self, k - 1);
      var m := env.matrices[self];
      var s := Bin(Plus, SelfLeaf(self), e);
      assert RowOf(env, SelfLeaf(self), k) == Ok(m.rows[k - 1]);
      if RowsUpTo(env, e, k).Ok? {
        var rows := RowsUpTo(env, e, k - 1).value;
        var r := RowOf(env, e, k).value;
        assert m.rows[..k] == m.rows[..k - 1] + [m.rows[k - 1]];
        assert MergeRows(m.rows[..k], rows + [r]) == MergeRows(m.rows[..k - 1], rows) + [Merge(m.rows[k - 1], r)];
      }
    }
  }

  /** `NumberOfEntriesPerRow` reads the sizes of the rows. */
  function RowSizes(rows: seq<Row>): seq<nat>
  {
    seq(|rows|, i requires 0 <= i < |rows| => |rows[i]|)
  }

  /** The rows after `SetEntriesInColTo(j, val)`: every stored entry of
    * column `j` becomes `val`. */
  function SetInColumn(rows: seq<Row>, j: nat, val: real): seq<Row>
  {
    seq(|rows|, r requires 0 <= r < |rows| => if j in rows[r] then rows[r][j := val] else rows[r])
  }

  /** Setting a column fills that column and leaves every other column as it
    * was. */
  lemma SetInColumnMeaning(m: SquareMatrix, j: nat, val: real)
    requires 1 <= j <= m.ncols
    ensures var m2 := MatVal(m.nrows, m.ncols, SetInColumn(m.rows, j, val), m.cols);
      Indexed(m2) &&
      ColumnOf(m2, j) == FilledRow(ColumnOf(m, j), val) &&
      forall k :: k != j ==> ColumnOf(m2, k) == ColumnOf(m, k)
  {
    SetInColumnIndexed(m, j, val);
    var m2: SquareMatrix := MatVal(m.nrows, m.ncols, SetInColumn(m.rows, j, val), m.cols);
    SetInColumnRows(m, j, val);
    SetInColumnFills(m, m2, j, val);
    forall k | k != j
      ensures ColumnOf(m2, k) == ColumnOf(m, k)
    {
      SetInColumnOthers(m, m2, j, k, val);
    }
  }

  lemma SetInColumnIndexed(m: SquareMatrix, j: nat, val: real)
    ensures Indexed(MatVal(m.nrows, m.ncols, SetInColumn(m.rows, j, val), m.cols))
  {
    var rows := SetInColumn(m.rows, j, val);
    forall r | 0 <= r < |rows|
      ensures rows[r].Keys == m.rows[r].Keys
    {
    }
  }

  lemma SetInColumnRows(m: SquareMatrix, j: nat, val: real)
    ensures forall i: nat :: 1 <= i <= m.nrows ==>
      RowNo(MatVal(m.nrows, m.ncols, SetInColumn(m.rows, j, val), m.cols), i) ==
        if j in RowNo(m, i) then RowNo(m, i)[j := val] else RowNo(m, i)
  {
  }

  lemma SetInColumnFills(m: SquareMatrix, m2: SquareMatrix, j: nat, val: real)
    requires m2.nrows == m.nrows && |m2.rows| == |m.rows|
    requires forall i: nat :: 1 <= i <= m.nrows ==>
      RowNo(m2, i) == if j in RowNo(m, i) then RowNo(m, i)[j := val] else RowNo(m, i)
    ensures ColumnOf(m2, j) == FilledRow(ColumnOf(m, j), val)
  {
  }

  lemma SetInColumnOthers(m: SquareMatrix, m2: SquareMatrix, j: nat, k: nat, val: real)
    requires k != j && m2.nrows == m.nrows && |m2.rows| == |m.rows|
    requires forall i: nat :: 1 <= i <= m.nrows ==>
      RowNo(m2, i) == if j in RowNo(m, i) then RowNo(m, i)[j := val] else RowNo(m, i)
    ensures ColumnOf(m2, k) == ColumnOf(m, k)
  {
    forall i: nat | 1 <= i <= m.nrows && k in RowNo(m, i)
      ensures k in RowNo(m2, i) && RowNo(m2, i)[k] == RowNo(m, i)[k]
    {
    }
  }

  /** The column index while `UpdateColumnInfo` runs: row `i` erased from
    * the columns in `erased`, appended to those in `added`. */
  function PartlyUpdated(cols: seq<seq<nat>>, i: nat, erased: set<nat>, added: set<nat>): seq<seq<nat>>
  {
    seq(|cols|, j requires 0 <= j < |cols| =>
      if j + 1 in erased then Without(cols[j], i)
      else if j + 1 in added then cols[j] + [i]
      else cols[j])
  }

  lemma PartlyUpdatedErase(cols: seq<seq<nat>>, i: nat, erased: set<nat>, added: set<nat>, k: nat)
    requires 1 <= k <= |cols| && k !in erased && k !in added
    ensures var p := PartlyUpdated(cols, i, erased, added);
      PartlyUpdated(cols, i, erased + {k}, added) == p[k - 1 := Without(p[k - 1], i)]
  {
  }

  lemma PartlyUpdatedAdd(cols: seq<seq<nat>>, i: nat, erased: set<nat>, added: set<nat>, k: nat)
    requires 1 <= k <= |cols| && k !in erased && k !in added
    ensures var p := PartlyUpdated(cols, i, erased, added);
      p[k - 1] == cols[k - 1] &&
      PartlyUpdated(cols, i, erased, added + {k}) == p[k - 1 := p[k - 1] + [i]]
  {
  }

  /** One round of the appending loop, stated on the columns still to do. */
  lemma AppendStep(cols: seq<seq<nat>>, i: nat, toAdd: set<nat>, rest: set<nat>, k: nat, cur: seq<seq<nat>>)
    requires rest <= toAdd && k in rest && 1 <= k <= |cols| && cur == PartlyUpdated(cols, i, {}, toAdd - rest)
    ensures k - 1 < |cur| && cur[k - 1] == cols[k - 1]
    ensures PartlyUpdated(cols, i, {}, toAdd - (rest - {k})) == cur[k - 1 := cur[k - 1] + [i]]
  {
    PartlyUpdatedAdd(cols, i, {}, toAdd - rest, k);
    assert toAdd - (rest - {k}) == (toAdd - rest) + {k};
  }

  /** Erasing first and appending then is one update. */
  lemma PartlyUpdatedCompose(cols: seq<seq<nat>>, i: nat, erased: set<nat>, added: set<nat>)
    requires erased !! added
    ensures PartlyUpdated(PartlyUpdated(cols, i, erased, {}), i, {}, added) == PartlyUpdated(cols, i, erased, added)
  {
  }

  lemma PartlyUpdatedDone(cols: seq<seq<nat>>, i: nat, oldRow: Row, newRow: Row)
    ensures PartlyUpdated(cols, i, oldRow.Keys - newRow.Keys, newRow.Keys - oldRow.Keys) ==
            UpdatedIndex(cols, i, oldRow, newRow)
  {
  }

  // -----------------------------------------------------------------------
  // The class.

  class Matrix {
    var nrows: nat
    var ncols: nat
    var data: seq<Row>
    var columnInfo: seq<seq<nat>>

    /** The rows and the column index agree, and the matrix is square. */
    predicate Valid()
      reads this
    {
      Indexed(MatVal(nrows, ncols, data, columnInfo)) && nrows == ncols
    }

    /** The matrix as a value, the way an expression leaf sees it. */
    function Value(): SquareMatrix
      reads this
      requires Valid()
    {
      MatVal(nrows, ncols, data, columnInfo)
    }

    /** `Matrix(rows, cols)`: no entries; only square shapes are accepted. */
    constructor (rows: nat, cols: nat)
      requires rows == cols
      ensures Valid() && nrows == rows && ncols == cols
      ensures data == EmptyRows(rows) && columnInfo == EmptyIndex(cols)
    {
      nrows := rows;
      ncols := cols;
      data := EmptyRows(rows);
      columnInfo := EmptyIndex(cols);
      new;
      EmptyIsIndexed(rows, cols);
    }

    /** The copy constructor. */
    constructor Copy(other: Matrix)
      requires other.Valid()
      ensures Valid() && Value() == other.Value()
    {
      nrows := other.nrows;
      ncols := other.ncols;
      data := other.data;
      columnInfo := other.columnInfo;
    }

    /** The copy assignment; assigning a matrix to itself changes nothing. */
    method Assign(other: Matrix)
      requires Valid() && other.Valid()
      modifies this
      ensures Valid() && Value() == old(other.Value())
    {
      if this != other {
        nrows := other.nrows;
        ncols := other.ncols;
        data := other.data;
        columnInfo := other.columnInfo;
      }
    }

    /** `swap`: the two matrices exchange their contents. */
    method Swap(other: Matrix)
      requires Valid() && other.Valid()
      modifies this, other
      ensures Valid() && other.Valid()
      ensures Value() == old(other.Value()) && other.Value() == old(Value())
    {
      nrows, other.nrows := other.nrows, nrows;
      ncols, other.ncols := other.ncols, ncols;
      data, other.data := other.data, data;
      columnInfo, other.columnInfo := other.columnInfo, columnInfo;
    }

    /** `M(i)`: row `i`, within the columns, after `RangeCheck(i, 1)`. */
    function RowAt(i: nat): (r: Result<Row, LinalgError>)
      reads this
      requires Valid()
      ensures r.Ok? <==> 1 <= i <= nrows
      ensures r.Ok? ==> r.value == data[i - 1] && KeysWithin(r.value, 1, ncols)
      ensures r == LeafRow(Value(), i)
    {
      if !InRange(Value(), i, 1) then Err(RangeError) else Ok(data[i - 1])
    }

    /** The const `M(i, j)`: the stored value or 0, after `RangeCheck(i, j)`;
    * it agrees with the column index. */
    function EntryAt(i: nat, j: nat): (r: Result<real, LinalgError>)
      reads this
      requires Valid()
      ensures r.Ok? <==> 1 <= i <= nrows && 1 <= j <= ncols
      ensures r.Ok? ==> r.value == Get(ColumnOf(Value(), j), i)
    {
      if !InRange(Value(), i, j) then Err(RangeError)
      else
        RowsAgreeWithColumns(Value(), i, j);
        Ok(Get(data[i - 1], j))
    }

    /** The non-const `M(i, j)`: after `RangeCheck(i, j)`, the stored value,
      * or a new entry 0 that row `i` stores and column `j` lists from now
      * on.  The matrix reads the same afterwards. */
    method At(i: nat, j: nat) returns (r: Result<real, LinalgError>)
      requires Valid()
      modifies this
      ensures Valid() && nrows == old(nrows) && ncols == old(ncols)
      ensures !InRange(old(Value()), i, j) ==> r == Err(RangeError) && Value() == old(Value())
      ensures InRange(old(Value()), i, j) ==>
                r == Ok(Get(old(data)[i - 1], j)) &&
                if j in old(data)[i - 1] then Value() == old(Value())
                else data == old(data)[i - 1 := Store(old(data)[i - 1], j, 0.0)] &&
                     columnInfo == old(columnInfo)[j - 1 := old(columnInfo)[j - 1] + [i]]
    {
      if !InRange(Value(), i, j) {
        return Err(RangeError);
      }
      var row := data[i - 1];
      if j in row {
        return Ok(row[j]);
      }
      InsertEntry(i, j, 0.0);
      r := Ok(0.0);
    }

    /** `M(i, j) = x`: the entry is stored (and indexed if it is new) with
      * the value `x`. */
    method Set(i: nat, j: nat, x: real) returns (err: Option<LinalgError>)
      requires Valid()
      modifies this
      ensures Valid() && nrows == old(nrows) && ncols == old(ncols)
      ensures !InRange(old(Value()), i, j) ==> err == Some(RangeError) && Value() == old(Value())
      ensures InRange(old(Value()), i, j) ==>
                err.None? && data == old(data)[i - 1 := Store(old(data)[i - 1], j, x)] &&
                EntryAt(i, j) == Ok(x)
    {
      var r := At(i, j);
      if r.Err? {
        return Some(r.error);
      }
      SameKeysKeepIndexed(Value(), i, Store(data[i - 1], j, x));
      assert Store(data[i - 1], j, x) == Store(old(data)[i - 1], j, x);
      data := data[i - 1 := Store(data[i - 1], j, x)];
      err := None;
    }

    /** Every stored value of one row replaced by `t`, in key order. */
    static method FillRow(row: Row, t: real) returns (r: Row)
      ensures r == FilledRow(row, t)
    {
      r := row;
      var rest := row.Keys;
      while rest != {}
        invariant rest <= row.Keys && r.Keys == row.Keys
        invariant forall k :: k in r ==> r[k] == if k in rest then row[k] else t
        decreases |rest|
      {
        var k := MinKey(rest);
        r := r[k := t];
        rest := rest - {k};
      }
    }

    /** `operator=(const T&)`: every stored value becomes `t`, the sparsity
      * pattern is kept. */
    method Fill(t: real)
      requires Valid()
      modifies this
      ensures Valid() && nrows == old(nrows) && ncols == old(ncols) && columnInfo == old(columnInfo)
      ensures |data| == |old(data)| && forall i :: 0 <= i < |data| ==> data[i] == FilledRow(old(data)[i], t)
    {
      for i := 0 to |data|
        invariant Valid() && nrows == old(nrows) && ncols == old(ncols) && columnInfo == old(columnInfo)
        invariant |data| == |old(data)|
        invariant forall k :: 0 <= k < |data| ==> data[k] == if k < i then FilledRow(old(data)[k], t) else old(data)[k]
      {
        var row := FillRow(data[i], t);
        SameKeysKeepIndexed(Value(), i + 1, row);
        data := data[i := row];
      }
    }

    /** `SetEntriesInRowTo(i, val)`: every stored value of row `i` becomes
      * `val`, after `RangeCheck(i, 1)`. */
    method SetEntriesInRowTo(i: nat, val: real) returns (err: Option<LinalgError>)
      requires Valid()
      modifies this
      ensures Valid() && nrows == old(nrows) && ncols == old(ncols) && columnInfo == old(columnInfo)
      ensures !(1 <= i <= old(nrows)) ==> err == Some(RangeError) && data == old(data)
      ensures 1 <= i <= old(nrows) ==> err.None? && data == old(data)[i - 1 := FilledRow(old(data)[i - 1], val)]
    {
      if !InRange(Value(), i, 1) {
        return Some(RangeError);
      }
      var row := FillRow(data[i - 1], val);
      SameKeysKeepIndexed(Value(), i, row);
      data := data[i - 1 := row];
      err := None;
    }

    /** `SetEntriesInColTo(j, val)`: every stored value of column `j` becomes
      * `val`, after `RangeCheck(1, j)`; the rows are found through the
      * column index, so a listed row without an entry there cannot occur. */
    method SetEntriesInColTo(j: nat, val: real) returns (err: Option<LinalgError>)
      requires Valid()
      modifies this
      ensures Valid() && nrows == old(nrows) && ncols == old(ncols) && columnInfo == old(columnInfo)
      ensures !(1 <= j <= old(ncols)) ==> err == Some(RangeError) && data == old(data)
      ensures 1 <= j <= old(ncols) ==> err.None? && data == SetInColumn(old(data), j, val)
    {
      if !InRange(Value(), 1, j) {
        return Some(RangeError);
      }
      var list := columnInfo[j - 1];
      ghost var m0 := Value();
      for k := 0 to |list|
        invariant Valid() && nrows == old(nrows) && ncols == old(ncols) && columnInfo == old(columnInfo)
        invariant |data| == |m0.rows|
        invariant forall r :: 0 <= r < |data| ==>
                    data[r] == if r + 1 in list[..k] && j in m0.rows[r] then m0.rows[r][j := val] else m0.rows[r]
      {
        var r := list[k];
        assert multiset(m0.cols[j - 1])[(r - 1) + 1] > 0;
        var row := data[r - 1];
        if j !in row {
          assert false;
        }
        SameKeysKeepIndexed(Value(), r, row[j := val]);
        data := data[r - 1 := row[j := val]];
        assert list[..k + 1] == list[..k] + [r];
      }
      forall r | 0 <= r < |data|
        ensures data[r] == SetInColumn(m0.rows, j, val)[r]
      {
        if j in m0.rows[r] {
          assert multiset(m0.cols[j - 1])[r + 1] == 1;
          assert r + 1 in list;
          assert list[..|list|] == list;
        }
      }
      err := None;
    }

    /** `ReplaceRow(i, row)`: the index is updated for the new row, which then
      * takes the place of the old one.  The library checks neither the
      * index nor the keys; both must be in range. */
    method ReplaceRow(i: nat, row: Row)
      requires Valid() && 1 <= i <= nrows && KeysWithin(row, 1, ncols)
      modifies this
      ensures Valid() && nrows == old(nrows) && ncols == old(ncols)
      ensures data == old(data)[i - 1 := row]
      ensures columnInfo == UpdatedIndex(old(columnInfo), i, old(data)[i - 1], row)
    {
      ReplaceRowKeepsIndexed(Value(), i, row);
      assert KeysWithin(data[i - 1], 1, ncols);
      UpdateColumnInfo(i, data[i - 1], row);
      data := data[i - 1 := row];
    }

    /** `UpdateColumnInfo(i, oldRow, newRow)`: row `i` is erased from the
      * lists of the columns only `oldRow` stores, then appended to those of
      * the columns only `newRow` stores, each in ascending column order.
      * The erasure is only right for a list that holds `i` once, and the
      * addition asserts that the list then holds `i` once. */
    method UpdateColumnInfo(i: nat, oldRow: Row, newRow: Row)
      requires KeysWithin(oldRow, 1, |columnInfo|) && KeysWithin(newRow, 1, |columnInfo|)
      requires forall j :: j in oldRow && j !in newRow ==> multiset(columnInfo[j - 1])[i] == 1
      requires forall j :: j in newRow && j !in oldRow ==> multiset(columnInfo[j - 1])[i] == 0
      modifies this
      ensures nrows == old(nrows) && ncols == old(ncols) && data == old(data)
      ensures columnInfo == UpdatedIndex(old(columnInfo), i, oldRow, newRow)
    {
      ghost var ci := columnInfo;
      var toErase := oldRow.Keys - newRow.Keys;
      var toAdd := newRow.Keys - oldRow.Keys;
      EraseFromColumns(i, toErase);
      AppendToColumns(i, toAdd);
      PartlyUpdatedCompose(ci, i, toErase, toAdd);
      PartlyUpdatedDone(ci, i, oldRow, newRow);
    }

    /** The erasing loop of `UpdateColumnInfo`. */
    method EraseFromColumns(i: nat, toErase: set<nat>)
      requires forall k :: k in toErase ==> 1 <= k <= |columnInfo|
      modifies this
      ensures nrows == old(nrows) && ncols == old(ncols) && data == old(data)
      ensures columnInfo == PartlyUpdated(old(columnInfo), i, toErase, {})
    {
      ghost var ci := columnInfo;
      var rest := toErase;
      while rest != {}
        invariant nrows == old(nrows) && ncols == old(ncols) && data == old(data)
        invariant rest <= toErase && columnInfo == PartlyUpdated(ci, i, toErase - rest, {})
        decreases |rest|
      {
        var k := MinKey(rest);
        PartlyUpdatedErase(ci, i, toErase - rest, {}, k);
        columnInfo := columnInfo[k - 1 := Without(columnInfo[k - 1], i)];
        assert toErase - (rest - {k}) == (toErase - rest) + {k};
        rest := rest - {k};
      }
    }

    /** The appending loop of `UpdateColumnInfo`, with its check that row
      * `i` is then listed once. */
    method AppendToColumns(i: nat, toAdd: set<nat>)
      requires forall k :: k in toAdd ==> 1 <= k <= |columnInfo|
      requires forall k :: k in toAdd ==> multiset(columnInfo[k - 1])[i] == 0
      modifies this
      ensures nrows == old(nrows) && ncols == old(ncols) && data == old(data)
      ensures columnInfo == PartlyUpdated(old(columnInfo), i, {}, toAdd)
    {
      ghost var ci := columnInfo;
      var rest := toAdd;
      while rest != {}
        invariant nrows == old(nrows) && ncols == old(ncols) && data == old(data)
        invariant rest <= toAdd && columnInfo == PartlyUpdated(ci, i, {}, toAdd - rest)
        decreases |rest|
      {
        var k := MinKey(rest);
        AppendStep(ci, i, toAdd, rest, k, columnInfo);
        columnInfo := columnInfo[k - 1 := columnInfo[k - 1] + [i]];
        assert multiset(columnInfo[k - 1])[i] == 1;
        rest := rest - {k};
      }
    }

    /** `NumberOfEntriesPerRow()`: the number of stored entries of each row,
      * and the entries of all rows together are the entries the column
      * lists hold. */
    method NumberOfEntriesPerRow() returns (counts: seq<nat>)
      requires Valid()
      ensures counts == RowSizes(data)
    {
      counts := [];
      for i := 0 to nrows
        invariant counts == RowSizes(data[..i])
      {
        assert data[..i + 1] == data[..i] + [data[i]];
        counts := counts + [|data[i]|];
      }
      assert data[..nrows] == data;
    }

    /** `GetColumn(j)`: after `RangeCheck(1, j)`, the entries of column `j`,
      * keyed by row, collected through the column index. */
    method GetColumn(j: nat) returns (r: Result<Row, LinalgError>)
      requires Valid()
      ensures r.Ok? <==> 1 <= j <= ncols
      ensures r.Ok? ==> r.value == ColumnOf(Value(), j)
    {
      if !InRange(Value(), 1, j) {
        return Err(RangeError);
      }
      var list := columnInfo[j - 1];
      var result: Row := map[];
      for k := 0 to |list|
        invariant result == map l | l in list[..k] :: RowNo(Value(), l)[j]
        invariant forall l :: l in list[..k] ==> 1 <= l <= nrows && j in data[l - 1]
      {
        var row := list[k];
        assert multiset(columnInfo[j - 1])[(row - 1) + 1] > 0;
        var entries := data[row - 1];
        if j !in entries {
          assert false;
        }
        result := result[row := entries[j]];
        assert list[..k + 1] == list[..k] + [row];
      }
      assert list[..|list|] == list;
      forall i: nat | 1 <= i <= nrows && j in RowNo(Value(), i)
        ensures i in list
      {
        assert multiset(columnInfo[j - 1])[(i - 1) + 1] == 1;
      }
      r := Ok(result);
    }

    /** `Matrix(const OtherT&)`: the shape of the expression, then its rows
      * in order, each appended and indexed. */
    static method FromExpression(env: Operands, e: Node) returns (r: Result<Matrix, LinalgError>)
      ensures r.Ok? <==> Extract(env, e).Ok?
      ensures r.Err? ==> r.error == Extract(env, e).error
      ensures r.Ok? ==> fresh(r.value) && r.value.Valid() && r.value.data == Extract(env, e).value
    {
      if !Extractable(e) {
        return Err(NotCompiled);
      }
      var nr := MatRows(env, e);
      if nr.Err? {
        return Err(nr.error);
      }
      var nc := MatCols(env, e);
      if nc.Err? {
        return Err(nc.error);
      }
      var n, c := nr.value, nc.value;
      ExtractableIsSquare(env, e);
      var m := new Matrix(0, 0);
      m.nrows, m.ncols, m.data, m.columnInfo := n, c, [], EmptyIndex(c);
      var err := m.AppendRows(env, e, n, c);
      if err.Some? {
        return Err(err.value);
      }
      r := Ok(m);
    }

    /** The row loop of the constructor from an expression: starting from
      * no rows, row `i` of the expression is appended and its keys are
      * listed in the column index, for `i` from 1 to n. */
    method AppendRows(env: Operands, e: Node, n: nat, c: nat) returns (err: Option<LinalgError>)
      requires nrows == n && ncols == c && n == c && data == [] && columnInfo == EmptyIndex(c)
      requires MatRows(env, e) == Ok(n) && MatCols(env, e) == Ok(c)
      modifies this
      ensures err == ErrorOf(RowsUpTo(env, e, n))
      ensures err.None? ==> Valid() && data == RowsUpTo(env, e, n).value
    {
      EmptyIsIndexed(0, c);
      for i := 1 to n + 1
        invariant nrows == n && ncols == c
        invariant Indexed(MatVal(i - 1, c, data, columnInfo))
        invariant RowsUpTo(env, e, i - 1) == Ok(data)
      {
        var row := RowOf(env, e, i);
        if row.Err? {
          RowsUpToFails(env, e, i, n);
          return Some(row.error);
        }
        RowWithinShape(env, e, i, n, c);
        NextRowUnlisted(MatVal(i - 1, c, data, columnInfo));
        AppendRowKeepsIndexed(MatVal(i - 1, c, data, columnInfo), row.value);
        data := data + [row.value];
        UpdateColumnInfo(i, map[], row.value);
      }
      err := None;
    }

    /** `operator=(const OtherT&)`.  When `CountOccurrence` finds this matrix
      * in the expression, the rows are built in a temporary of the new shape
      * (for the old number of rows, which an expression mentioning the
      * matrix shares) and swapped in.  Otherwise the matrix is emptied if
      * the shape changes and each row is replaced in place while the
      * expression is read from the matrix as it is at that moment: the
      * expression does not mention it, so it reads the same rows. */
    method AssignFrom(env: Operands, e: Node, self: nat) returns (err: Option<LinalgError>)
      requires Valid() && self in env.matrices && env.matrices[self] == Value() && CapturedByReference(e)
      modifies this
      ensures Valid()
      ensures err == ErrorOf(Extract(env, e))
      ensures Extract(env, e).Ok? ==> data == Extract(env, e).value
      ensures (!Extractable(e) || MatRows(env, e).Err? || MatCols(env, e).Err?) ==> Value() == old(Value())
    {
      if !Extractable(e) {
        return Some(NotCompiled);
      }
      var nr := MatRows(env, e);
      if nr.Err? {
        return Some(nr.error);
      }
      var nc := MatCols(env, e);
      if nc.Err? {
        return Some(nc.error);
      }
      var n := nr.value;
      ExtractableIsSquare(env, e);
      UncountedIsUnmentioned(e, self);
      if DynamicCount(e, [], External(self)) > 0 {
        ShapeOfMentioned(env, e, self);
        err := AssignViaTemporary(env, e, n);
      } else {
        err := AssignInPlace(env, e, self, n);
      }
    }

    /** The aliasing case of the assignment: the rows are built in a
      * temporary of the same shape, which is then swapped in; on an error
      * the matrix is left as it was. */
    method AssignViaTemporary(env: Operands, e: Node, n: nat) returns (err: Option<LinalgError>)
      requires Valid() && MatRows(env, e) == Ok(n) && MatCols(env, e) == Ok(n) && nrows == n
      modifies this
      ensures Valid()
      ensures err == ErrorOf(RowsUpTo(env, e, n))
      ensures err.None? ==> data == RowsUpTo(env, e, n).value
      ensures err.Some? ==> Value() == old(Value())
    {
      var tmp := new Matrix(n, n);
      err := tmp.ExtractRows(env, e, n);
      if err.Some? {
        return;
      }
      Swap(tmp);
    }

    /** The row loop into a fresh temporary: row `i` of the expression,
      * read from the operands as they were before the assignment, is
      * stored as row `i`. */
    method ExtractRows(env: Operands, e: Node, n: nat) returns (err: Option<LinalgError>)
      requires Valid() && nrows == n && ncols == n && MatRows(env, e) == Ok(n) && MatCols(env, e) == Ok(n)
      modifies this
      ensures Valid() && nrows == n && ncols == n
      ensures err == ErrorOf(RowsUpTo(env, e, n))
      ensures err.None? ==> data == RowsUpTo(env, e, n).value
    {
      for i := 1 to n + 1
        invariant Valid() && nrows == n && ncols == n
        invariant RowsUpTo(env, e, i - 1) == Ok(data[..i - 1])
      {
        var row := RowOf(env, e, i);
        if row.Err? {
          RowsUpToFails(env, e, i, n);
          return Some(row.error);
        }
        RowWithinShape(env, e, i, n, n);
        ghost var before := data;
        RowsUpToStep(env, e, before[..i - 1], i);
        ReplaceRow(i, row.value);
        assert data[..i] == before[..i - 1] + [row.value];
      }
      assert data[..n] == data;
      err := None;
    }

    /** The matrix emptied and given the shape `n`×`n`. */
    method Reset(n: nat)
      modifies this
      ensures Valid() && nrows == n && ncols == n
      ensures data == EmptyRows(n) && columnInfo == EmptyIndex(n)
    {
      nrows, ncols := n, n;
      columnInfo := EmptyIndex(n);
      data := EmptyRows(n);
      EmptyIsIndexed(n, n);
    }

    /** The case without aliasing: a matrix of another shape is first reset
      * to an empty one of the new shape, then the rows are extracted one by
      * one from the expression as it reads the matrix being assigned. */
    method AssignInPlace(env: Operands, e: Node, self: nat, n: nat) returns (err: Option<LinalgError>)
      requires Valid() && MatRows(env, e) == Ok(n) && MatCols(env, e) == Ok(n)
      requires !Mentions(e, self)
      modifies this
      ensures Valid()
      ensures err == ErrorOf(RowsUpTo(env, e, n))
      ensures err.None? ==> data == RowsUpTo(env, e, n).value
    {
      if nrows != n || ncols != n {
        Reset(n);
      }
      err := FillRows(env, e, self, n);
    }

    /** The row loop of the assignment without aliasing: each row is
      * replaced by the expression's row, read from the matrix as it is at
      * that moment. */
    method FillRows(env: Operands, e: Node, self: nat, n: nat) returns (err: Option<LinalgError>)
      requires Valid() && nrows == n && MatRows(env, e) == Ok(n) && MatCols(env, e) == Ok(n)
      requires !Mentions(e, self)
      modifies this
      ensures Valid()
      ensures err == ErrorOf(RowsUpTo(env, e, n))
      ensures err.None? ==> data == RowsUpTo(env, e, n).value
    {
      for i := 1 to nrows + 1
        invariant Valid() && nrows == n && ncols == n
        invariant RowsUpTo(env, e, i - 1) == Ok(data[..i - 1])
      {
        LiveRow(env, self, Value(), e, i);
        var row := RowOf(env.(matrices := env.matrices[self := Value()]), e, i);
        if row.Err? {
          RowsUpToFails(env, e, i, n);
          return Some(row.error);
        }
        RowWithinShape(env, e, i, n, n);
        ghost var before := data;
        RowsUpToStep(env, e, before[..i - 1], i);
        ReplaceRow(i, row.value);
        assert data[..i] == before[..i - 1] + [row.value];
      }
      assert data[..n] == data;
      err := None;
    }

    /** A stored entry `(i, j)` incremented by `v`. */
    method AddToEntry(i: nat, j: nat, v: real)
      requires Valid() && 1 <= i <= nrows && j in data[i - 1]
      modifies this
      ensures Valid() && nrows == old(nrows) && ncols == old(ncols) && columnInfo == old(columnInfo)
      ensures data == old(data)[i - 1 := Store(old(data)[i - 1], j, old(data)[i - 1][j] + v)]
    {
      var myRow := data[i - 1];
      SameKeysKeepIndexed(Value(), i, Store(myRow, j, myRow[j] + v));
      data := data[i - 1 := Store(myRow, j, myRow[j] + v)];
    }

    /** A new entry `(i, j)` with the value `v`: row `i` is appended to the
      * list of column `j`, then the entry is inserted. */
    method InsertEntry(i: nat, j: nat, v: real)
      requires Valid() && 1 <= i <= nrows && 1 <= j <= ncols && j !in data[i - 1]
      modifies this
      ensures Valid() && nrows == old(nrows) && ncols == old(ncols)
      ensures data == old(data)[i - 1 := Store(old(data)[i - 1], j, v)]
      ensures columnInfo == old(columnInfo)[j - 1 := old(columnInfo)[j - 1] + [i]]
    {
      InsertKeepsIndexed(Value(), i, j, v);
      columnInfo := columnInfo[j - 1 := columnInfo[j - 1] + [i]];
      data := data[i - 1 := Store(data[i - 1], j, v)];
    }

    /** `Row[j] += v` on a `std::map`: a stored entry is incremented, a
      * missing one is inserted (and listed in its column) with the value
      * `v`. */
    method MergeEntry(i: nat, j: nat, v: real)
      requires Valid() && 1 <= i <= nrows && 1 <= j <= ncols
      modifies this
      ensures Valid() && nrows == old(nrows) && ncols == old(ncols)
      ensures data == old(data)[i - 1 := Store(old(data)[i - 1], j,
                        if j in old(data)[i - 1] then old(data)[i - 1][j] + v else v)]
    {
      if j in data[i - 1] {
        AddToEntry(i, j, v);
      } else {
        InsertEntry(i, j, v);
      }
    }

    /** One step of the inner loop of `+=`: entry `j` of `row` merged into
      * row `i`, which holds `r0` merged with the entries in `done`. */
    method MergeKey(i: nat, row: Row, j: nat, ghost r0: Row, ghost d0: seq<Row>, ghost done: set<nat>)
      requires Valid() && 1 <= i <= nrows && KeysWithin(row, 1, ncols) && j in row && j !in done
      requires |d0| == nrows && data == d0[i - 1 := Merge(r0, Restrict(row, done))]
      modifies this
      ensures Valid() && nrows == old(nrows) && ncols == old(ncols)
      ensures data == d0[i - 1 := Merge(r0, Restrict(row, done + {j}))]
    {
      MergeLoopStep(data, d0, i, r0, row, done, j);
      MergeEntry(i, j, row[j]);
    }

    /** The inner loop of `+=`: the entries of `row`, in ascending column
      * order, are added to the stored entries of row `i`; a new entry is
      * listed in its column and inserted. */
    method MergeIntoRow(i: nat, row: Row)
      requires Valid() && 1 <= i <= nrows && KeysWithin(row, 1, ncols)
      modifies this
      ensures Valid() && nrows == old(nrows) && ncols == old(ncols)
      ensures data == old(data)[i - 1 := Merge(old(data)[i - 1], row)]
    {
      ghost var r0 := data[i - 1];
      ghost var d0 := data;
      RestrictEnds(r0, row);
      assert d0[i - 1 := Merge(r0, Restrict(row, {}))] == d0;
      var rest := row.Keys;
      ghost var done: set<nat> := {};
      while rest != {}
        invariant Valid() && nrows == old(nrows) && ncols == old(ncols)
        invariant rest + done == row.Keys && rest !! done
        invariant data == d0[i - 1 := Merge(r0, Restrict(row, done))]
        decreases |rest|
      {
        var j := MinKey(rest);
        MergeKey(i, row, j, r0, d0, done);
        rest := rest - {j};
        done := done + {j};
      }
      assert done == row.Keys;
    }

    /** `operator+=(const OtherT&)`: after counting the shape of the
      * expression, a different shape is a `std::range_error`.  An expression
      * that mentions this matrix is delegated to `*this = *this + Other`;
      * otherwise each row of the expression is merged into the stored row. */
    method PlusAssign(env: Operands, e: Node, self: nat) returns (err: Option<LinalgError>)
      requires Valid() && self in env.matrices && env.matrices[self] == Value() && CapturedByReference(e)
      modifies this
      ensures Valid()
      ensures err == ErrorOf(Added(env, e, old(Value())))
      ensures Added(env, e, old(Value())).Ok? ==> data == Added(env, e, old(Value())).value
    {
      if !Extractable(e) {
        return Some(NotCompiled);
      }
      var nr := MatRows(env, e);
      if nr.Err? {
        return Some(nr.error);
      }
      var nc := MatCols(env, e);
      if nc.Err? {
        return Some(nc.error);
      }
      var n, c := nr.value, nc.value;
      if nrows != n || ncols != c {
        return Some(RangeError);
      }
      UncountedIsUnmentioned(e, self);
      if DynamicCount(e, [], External(self)) > 0 {
        AddedIsAssignedSum(env, e, self);
        err := AssignFrom(env, Bin(Plus, SelfLeaf(self), e), self);
      } else {
        err := MergeInPlace(env, e, self, n);
        if err.None? {
          MergedPrefixEnds(old(data), RowsUpTo(env, e, n).value);
        }
      }
    }

    /** The `+=` loop without aliasing: row `i` of the expression, read from
      * the matrix as it is at that moment, is merged into row `i`. */
    method MergeInPlace(env: Operands, e: Node, self: nat, n: nat) returns (err: Option<LinalgError>)
      requires Valid() && nrows == n && MatRows(env, e) == Ok(n) && MatCols(env, e) == Ok(n)
      requires !Mentions(e, self)
      modifies this
      ensures Valid()
      ensures err == ErrorOf(RowsUpTo(env, e, n))
      ensures err.None? ==> data == MergedPrefix(old(data), RowsUpTo(env, e, n).value)
    {
      MergedPrefixEnds(data, data);
      for i := 1 to nrows + 1
        invariant Valid() && nrows == n && ncols == n
        invariant RowsUpTo(env, e, i - 1).Ok?
        invariant data == MergedPrefix(old(data), RowsUpTo(env, e, i - 1).value)
      {
        LiveRow(env, self, Value(), e, i);
        var row := RowOf(env.(matrices := env.matrices[self := Value()]), e, i);
        if row.Err? {
          RowsUpToFails(env, e, i, n);
          return Some(row.error);
        }
        RowWithinShape(env, e, i, n, n);
        ghost var prev := RowsUpTo(env, e, i - 1).value;
        ghost var before := data;
        RowsUpToStep(env, e, prev, i);
        MergedPrefixStep(old(data), prev, row.value);
        MergeIntoRow(i, row.value);
        assert data == before[|prev| := Merge(before[|prev|], row.value)];
        assert RowsUpTo(env, e, i).value == prev + [row.value];
      }
      err := None;
    }

    /** `operator-=(const OtherT&)`: `+=` of `Simplify(-e)`, the negation
      * simplified with the library's own rules (`Negated`); a negation that
      * does not simplify does not compile. */
    method MinusAssign(env: Operands, e: Node, self: nat, fuel: nat) returns (err: Option<LinalgError>)
      requires Valid() && self in env.matrices && env.matrices[self] == Value() && CapturedByReference(e)
      modifies this
      ensures Valid()
      ensures Negated(e, fuel).Err? ==> err == Some(NotCompiled) && unchanged(this)
      ensures Negated(e, fuel).Ok? ==> err == ErrorOf(Added(env, Negated(e, fuel).value, old(Value())))
      ensures Negated(e, fuel).Ok? && Added(env, Negated(e, fuel).value, old(Value())).Ok? ==>
                data == Added(env, Negated(e, fuel).value, old(Value())).value
    {
      var neg := Negated(e, fuel);
      if neg.Err? {
        return Some(NotCompiled);
      }
      NegatedByRef(e, fuel);
      err := PlusAssign(env, neg.value, self);
    }
  }
}
