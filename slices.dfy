// The strided view of a `Vector` of the `Linalg` library
// (linalg/SliceVector.h).  A `std::slice` names `size` entries of a vector
// the view does not own: the first at position `start` of the vector's
// storage (counted from 0), each next one `stride` positions further.  The
// view reads and writes them as `S(j)`, counted from a base index that is a
// parameter of its type, and is assigned from vector expressions and
// incremented by them entry by entry, through a temporary when the
// expression refers to the view itself.
module SliceVectors {
  import opened Wrappers
  import opened Ops
  import opened Nodes
  import opened LinalgExpr
  import opened LinalgProofs
  import opened LinalgSimplify
  import opened Counting
  import opened SparseVector
  import opened SliceIteration

  // -----------------------------------------------------------------------
  // Positions of the entries of a slice.

  /** The storage position of entry `k` (counted from 0): where the begin
    * iterator is after `k` increments. */
  function Position(start: nat, stride: nat, k: nat): nat
  {
    if k == 0 then start else Position(start, stride, k - 1) + stride
  }

  /** It is the begin iterator moved `k` steps at once. */
  lemma {:induction false} PositionIsStep(start: nat, stride: nat, k: nat)
    ensures Position(start, stride, k) == start + Step(stride, k)
  {
    if k > 0 {
      PositionIsStep(start, stride, k - 1);
      StepAdds(stride, k - 1, 1);
    }
  }

  /** Later entries sit further on, strictly so for a non-zero stride. */
  lemma {:induction false} PositionMonotone(start: nat, stride: nat, j: nat, k: nat)
    requires j <= k
    ensures Position(start, stride, j) <= Position(start, stride, k)
    ensures stride > 0 && j < k ==> Position(start, stride, j) < Position(start, stride, k)
    decreases k
  {
    if j < k {
      PositionMonotone(start, stride, j, k - 1);
    }
  }

  /** The first `n` entries lie inside a storage of length `len`. */
  predicate Covers(len: nat, start: nat, stride: nat, n: nat)
  {
    n == 0 || Position(start, stride, n - 1) < len
  }

  lemma PositionBound(len: nat, start: nat, stride: nat, n: nat, k: nat)
    requires Covers(len, start, stride, n) && k < n
    ensures Position(start, stride, k) < len
  {
    PositionMonotone(start, stride, k, n - 1);
  }

  lemma CoversAll(len: nat, start: nat, stride: nat, n: nat)
    requires Covers(len, start, stride, n)
    ensures forall k :: 0 <= k < n ==> Position(start, stride, k) < len
  {
    forall k | 0 <= k < n
      ensures Position(start, stride, k) < len
    {
      PositionBound(len, start, stride, n, k);
    }
  }

  /** With a non-zero stride, different entries sit at different positions. */
  lemma PositionInjective(start: nat, stride: nat, j: nat, k: nat)
    requires stride > 0 && j != k
    ensures Position(start, stride, j) != Position(start, stride, k)
  {
    if j < k {
      PositionMonotone(start, stride, j, k);
    } else {
      PositionMonotone(start, stride, k, j);
    }
  }

  /** A slice of a vector of length `len` that makes sense: entries, a
    * non-zero stride, and the last entry inside the vector. */
  predicate Fits(len: nat, start: nat, size: nat, stride: nat)
  {
    size > 0 && stride > 0 && Position(start, stride, size - 1) < len
  }

  /** The checks of the constructor as written: the last entry is compared
    * with `V.end()`, which is one past the last position of the vector. */
  predicate AcceptedAsWritten(len: nat, start: nat, size: nat, stride: nat)
  {
    size > 0 && stride > 0 && !(len < Position(start, stride, size - 1))
  }

  /** The checks as written accept every slice that fits, and exactly one
    * more kind: a slice whose last entry is one past the end of the
    * vector. */
  lemma AcceptedAsWrittenMeaning(len: nat, start: nat, size: nat, stride: nat)
    ensures Fits(len, start, size, stride) ==> AcceptedAsWritten(len, start, size, stride)
    ensures AcceptedAsWritten(len, start, size, stride) && !Fits(len, start, size, stride) <==>
              size > 0 && stride > 0 && Position(start, stride, size - 1) == len
  {
  }

  /** A vector of three entries and the slice of one entry at position 3:
    * accepted as written, but position 3 is not in the vector. */
  lemma AcceptedAsWrittenOnePastEnd()
    ensures AcceptedAsWritten(3, 3, 1, 1) && !Fits(3, 3, 1, 1)
  {
    assert Position(3, 1, 0) == 3;
  }

  // -----------------------------------------------------------------------
  // Reading and writing the entries of a slice in storage.

  /** The `n` entries of the slice, read from storage `v`. */
  function Gather(v: seq<real>, start: nat, stride: nat, n: nat): (r: seq<real>)
    requires Covers(|v|, start, stride, n)
    ensures |r| == n
  {
    CoversAll(|v|, start, stride, n);
    seq(n, k requires 0 <= k < n => PositionBound(|v|, start, stride, n, k); v[Position(start, stride, k)])
  }

  /** Entry `k` of the slice is the value at its position. */
  lemma GatherAt(v: seq<real>, start: nat, stride: nat, n: nat, k: nat)
    requires Covers(|v|, start, stride, n) && k < n
    ensures Position(start, stride, k) < |v| && Gather(v, start, stride, n)[k] == v[Position(start, stride, k)]
  {
    PositionBound(|v|, start, stride, n, k);
  }

  /** Storage `v` with `xs[k]` stored at the position of entry `k`, for `k`
    * in order. */
  function Scatter(v: seq<real>, start: nat, stride: nat, xs: seq<real>): (r: seq<real>)
    requires Covers(|v|, start, stride, |xs|)
    ensures |r| == |v|
    decreases |xs|
  {
    if xs == [] then v
    else
      var k := |xs| - 1;
      PositionBound(|v|, start, stride, |xs|, k);
      assert Covers(|v|, start, stride, k) by {
        if k > 0 {
          PositionBound(|v|, start, stride, |xs|, k - 1);
        }
      }
      Scatter(v, start, stride, xs[..k])[Position(start, stride, k) := xs[k]]
  }

  /** Storing one more entry. */
  lemma ScatterStep(v: seq<real>, start: nat, stride: nat, xs: seq<real>, x: real)
    requires Covers(|v|, start, stride, |xs| + 1)
    ensures Covers(|v|, start, stride, |xs|)
    ensures Position(start, stride, |xs|) < |v|
    ensures Scatter(v, start, stride, xs + [x]) ==
              Scatter(v, start, stride, xs)[Position(start, stride, |xs|) := x]
  {
    PositionBound(|v|, start, stride, |xs| + 1, |xs|);
    if |xs| > 0 {
      PositionBound(|v|, start, stride, |xs| + 1, |xs| - 1);
    }
    assert (xs + [x])[..|xs|] == xs;
  }

  /** Entry `k` of the stored entries is found at its position. */
  lemma {:induction false} ScatterAt(v: seq<real>, start: nat, stride: nat, xs: seq<real>, k: nat)
    requires stride > 0 && Covers(|v|, start, stride, |xs|) && k < |xs|
    ensures Position(start, stride, k) < |v|
    ensures Scatter(v, start, stride, xs)[Position(start, stride, k)] == xs[k]
    decreases |xs|
  {
    PositionBound(|v|, start, stride, |xs|, k);
    var last := |xs| - 1;
    if k < last {
      PositionBound(|v|, start, stride, |xs|, last - 1);
      ScatterAt(v, start, stride, xs[..last], k);
      PositionInjective(start, stride, k, last);
    }
  }

  /** A position that is not one of the entries keeps its value. */
  lemma {:induction false} ScatterUntouched(v: seq<real>, start: nat, stride: nat, xs: seq<real>, p: nat)
    requires Covers(|v|, start, stride, |xs|) && p < |v|
    requires forall k :: 0 <= k < |xs| ==> p != Position(start, stride, k)
    ensures Scatter(v, start, stride, xs)[p] == v[p]
    decreases |xs|
  {
    if xs != [] {
      var last := |xs| - 1;
      if last > 0 {
        PositionBound(|v|, start, stride, |xs|, last - 1);
      }
      ScatterUntouched(v, start, stride, xs[..last], p);
      assert p != Position(start, stride, last);
    }
  }

  /** The position of the next entry still holds its old value. */
  lemma NextUntouched(v: seq<real>, start: nat, stride: nat, ys: seq<real>)
    requires stride > 0 && Covers(|v|, start, stride, |ys| + 1)
    ensures Covers(|v|, start, stride, |ys|) && Position(start, stride, |ys|) < |v|
    ensures Scatter(v, start, stride, ys)[Position(start, stride, |ys|)] == v[Position(start, stride, |ys|)]
  {
    ScatterStep(v, start, stride, ys, 0.0);
    forall k | 0 <= k < |ys|
      ensures Position(start, stride, |ys|) != Position(start, stride, k)
    {
      PositionInjective(start, stride, |ys|, k);
    }
    ScatterUntouched(v, start, stride, ys, Position(start, stride, |ys|));
  }

  /** Reading the slice after storing `xs` gives `xs`. */
  lemma GatherScatter(v: seq<real>, start: nat, stride: nat, xs: seq<real>)
    requires stride > 0 && Covers(|v|, start, stride, |xs|)
    ensures Gather(Scatter(v, start, stride, xs), start, stride, |xs|) == xs
  {
    var w := Scatter(v, start, stride, xs);
    forall k | 0 <= k < |xs|
      ensures Gather(w, start, stride, |xs|)[k] == xs[k]
    {
      GatherAt(w, start, stride, |xs|, k);
      ScatterAt(v, start, stride, xs, k);
    }
  }

  /** Storing the entries the slice already holds changes nothing. */
  lemma {:induction false} ScatterGather(v: seq<real>, start: nat, stride: nat, n: nat)
    requires Covers(|v|, start, stride, n)
    ensures Scatter(v, start, stride, Gather(v, start, stride, n)) == v
  {
    if n > 0 {
      var g := Gather(v, start, stride, n);
      ScatterStep(v, start, stride, g[..n - 1], g[n - 1]);
      GatherAt(v, start, stride, n, n - 1);
      forall i | 0 <= i < n - 1
        ensures g[i] == Gather(v, start, stride, n - 1)[i]
      {
        GatherAt(v, start, stride, n, i);
        GatherAt(v, start, stride, n - 1, i);
      }
      assert g[..n - 1] == Gather(v, start, stride, n - 1);
      assert g == g[..n - 1] + [g[n - 1]];
      ScatterGather(v, start, stride, n - 1);
    }
  }

  /** Writing the position of entry `k` changes entry `k` of the slice and
    * no other. */
  lemma GatherUpdate(v: seq<real>, start: nat, stride: nat, n: nat, k: nat, x: real)
    requires stride > 0 && Covers(|v|, start, stride, n) && k < n
    ensures Position(start, stride, k) < |v|
    ensures Gather(v[Position(start, stride, k) := x], start, stride, n) == Gather(v, start, stride, n)[k := x]
  {
    PositionBound(|v|, start, stride, n, k);
    var w := v[Position(start, stride, k) := x];
    forall i | 0 <= i < n
      ensures Gather(w, start, stride, n)[i] == Gather(v, start, stride, n)[k := x][i]
    {
      GatherAt(w, start, stride, n, i);
      GatherAt(v, start, stride, n, i);
      if i != k {
        PositionInjective(start, stride, i, k);
      }
    }
  }

  lemma PrefixSnoc(s: seq<real>, k: nat)
    requires k < |s|
    ensures s[..k + 1] == s[..k] + [s[k]]
  {
  }

  lemma PrefixAll(s: seq<real>)
    ensures s[..|s|] == s
  {
  }


  /** Entry-by-entry sums grow one entry at a time. */
  lemma AddSeqSnoc(a: seq<real>, b: seq<real>, x: real, y: real)
    requires |a| == |b|
    ensures AddSeq(a + [x], b + [y]) == AddSeq(a, b) + [x + y]
  {
  }

  /** One step of adding into a slice: after the sums of the first `|done|`
    * entries are stored, the next position still holds its old value, and
    * adding `y` there stores the next sum. */
  lemma AddStep(v: seq<real>, start: nat, stride: nat, w: seq<real>, done: seq<real>, k: nat, y: real)
    requires stride > 0 && |done| == k < |w| && Covers(|v|, start, stride, k + 1)
    requires Position(start, stride, k) < |v| && v[Position(start, stride, k)] == w[k]
    ensures Covers(|v|, start, stride, k)
    ensures Scatter(v, start, stride, AddSeq(w[..k], done))[Position(start, stride, k)] == w[k]
    ensures Scatter(v, start, stride, AddSeq(w[..k + 1], done + [y])) ==
              Scatter(v, start, stride, AddSeq(w[..k], done))[Position(start, stride, k) := w[k] + y]
  {
    var sums := AddSeq(w[..k], done);
    NextUntouched(v, start, stride, sums);
    PrefixSnoc(w, k);
    AddSeqSnoc(w[..k], done, w[k], y);
    assert AddSeq(w[..k + 1], done + [y]) == sums + [w[k] + y];
    ScatterStep(v, start, stride, sums, w[k] + y);
  }

  /** The same step stated on the stored data as the loop sees it: the
    * next entry of the view lies inside the vector, and adding `y` at its
    * position stores one more sum. */
  lemma AddLoopStep(v: seq<real>, start: nat, stride: nat, n: nat, w: seq<real>, done: seq<real>, k: nat, y: real, data: seq<real>)
    requires stride > 0 && Covers(|v|, start, stride, n) && |done| == k < n && Covers(|v|, start, stride, k)
    requires w == Gather(v, start, stride, n) && data == Scatter(v, start, stride, AddSeq(w[..k], done))
    ensures Covers(|v|, start, stride, k + 1) && Position(start, stride, k) < |data|
    ensures data[Position(start, stride, k) := data[Position(start, stride, k)] + y] ==
              Scatter(v, start, stride, AddSeq(w[..k + 1], done + [y]))
  {
    PositionBound(|v|, start, stride, n, k);
    GatherAt(v, start, stride, n, k);
    AddStep(v, start, stride, w, done, k, y);
  }


  /** Where the `+=` loop over a slice stands after `k` entries: `xs` are the
    * first `k` values of `f`, and the storage holds their sums with the
    * view `w` of the original storage `v` at the first `k` positions. */
  ghost predicate AddedSoFar(v: seq<real>, start: nat, stride: nat, n: nat, w: seq<real>,
                             f: nat -> Result<real, LinalgError>, k: nat, xs: seq<real>, data: seq<real>)
  {
    stride > 0 && Covers(|v|, start, stride, n) && k <= n && w == Gather(v, start, stride, n) &&
    Collect(f, k) == Ok(xs) && Covers(|v|, start, stride, k) &&
    data == Scatter(v, start, stride, AddSeq(w[..k], xs))
  }

  lemma AddedSoFarStart(v: seq<real>, start: nat, stride: nat, n: nat, f: nat -> Result<real, LinalgError>)
    requires stride > 0 && Covers(|v|, start, stride, n)
    ensures AddedSoFar(v, start, stride, n, Gather(v, start, stride, n), f, 0, [], v)
  {
    assert AddSeq(Gather(v, start, stride, n)[..0], []) == [];
  }

  /** A value of `f` adds into the next position; a failure of `f` is the
    * failure of the whole collection. */
  lemma AddedSoFarStep(v: seq<real>, start: nat, stride: nat, n: nat, w: seq<real>,
                       f: nat -> Result<real, LinalgError>, k: nat, xs: seq<real>, data: seq<real>,
                       y: Result<real, LinalgError>, p: nat)
    requires AddedSoFar(v, start, stride, n, w, f, k, xs, data) && k < n
    requires y == f(k + 1) && p == Position(start, stride, k)
    ensures p < |data|
    ensures y.Err? ==> Collect(f, n) == Err(y.error)
    ensures y.Ok? ==> AddedSoFar(v, start, stride, n, w, f, k + 1, xs + [y.value], data[p := data[p] + y.value])
  {
    CollectStep(f, k, xs);
    PositionBound(|v|, start, stride, n, k);
    if y.Err? {
      CollectFails(f, k + 1, n);
    } else {
      AddLoopStep(v, start, stride, n, w, xs, k, y.value, data);
    }
  }

  lemma AddedSoFarDone(v: seq<real>, start: nat, stride: nat, n: nat, w: seq<real>,
                       f: nat -> Result<real, LinalgError>, xs: seq<real>, data: seq<real>)
    requires AddedSoFar(v, start, stride, n, w, f, n, xs, data)
    ensures Collect(f, n) == Ok(xs) && data == Scatter(v, start, stride, AddSeq(w, xs))
  {
    PrefixAll(w);
  }

  // -----------------------------------------------------------------------
  // What an assignment from a vector expression computes.

  /** Entry `i` (counted from 1) of the assignment loop, which extracts index
    * `i - 1 + BaseIndex` of the expression. */
  function SliceEntryFn(env: Operands, e: Node, base: nat): nat -> Result<real, LinalgError>
  {
    (i: nat) => if i == 0 then Err(RangeError) else VecAt(env, e, base + i - 1)
  }

  /** The first `n` extracted entries, or the error of the first that fails. */
  function SliceEntries(env: Operands, e: Node, base: nat, n: nat): (r: Result<seq<real>, LinalgError>)
    ensures r.Ok? ==> |r.value| == n
  {
    Collect(SliceEntryFn(env, e, base), n)
  }

  /** Indices `base..base + n - 1` of the expression can be extracted. */
  predicate AllSliceEntriesOk(env: Operands, e: Node, base: nat, n: nat)
  {
    forall i: nat :: base <= i < base + n ==> VecAt(env, e, i).Ok?
  }

  /** The entries a slice gets from `operator=(const OtherT&)`: a tree
    * without extractors is rejected, then the size of the expression is
    * counted and must be the size of the slice (`std::range_error`
    * otherwise), then the entries are extracted from the base index on. */
  function SliceAssigned(env: Operands, e: Node, base: nat, size: nat): Result<seq<real>, LinalgError>
  {
    if !VecExtractable(e) then Err(NotCompiled)
    else
      var n :- VecRows(env, e, Fixed);
      if n != size then Err(RangeError)
      else SliceEntries(env, e, base, n)
  }

  /** The entries of a slice holding `v` after `operator+=(const OtherT&)`. */
  function SliceSummed(env: Operands, e: Node, base: nat, v: seq<real>): Result<seq<real>, LinalgError>
  {
    if !VecExtractable(e) then Err(NotCompiled)
    else
      var n :- VecRows(env, e, Fixed);
      if n != |v| then Err(RangeError)
      else
        var xs :- SliceEntries(env, e, base, n);
        Ok(AddSeq(v, xs))
  }

  /** The extracted entries are those of the expression from the base index
    * on, and the extraction fails exactly when one of them fails. */
  lemma SliceEntriesMeaning(env: Operands, e: Node, base: nat, n: nat)
    ensures SliceEntries(env, e, base, n).Ok? <==> AllSliceEntriesOk(env, e, base, n)
    ensures SliceEntries(env, e, base, n).Ok? ==>
              forall k: nat :: k < n ==> SliceEntries(env, e, base, n).value[k] == VecAt(env, e, base + k).value
  {
    var f := SliceEntryFn(env, e, base);
    CollectMeaning(f, n);
    if SliceEntries(env, e, base, n).Err? {
      var i: nat :| 1 <= i <= n && f(i).Err?;
      assert VecAt(env, e, base + (i - 1)).Err?;
    } else {
      forall i: nat | base <= i < base + n
        ensures VecAt(env, e, i).Ok?
      {
        assert f(i - base + 1) == VecAt(env, e, i);
      }
      forall k: nat | k < n
        ensures SliceEntries(env, e, base, n).value[k] == VecAt(env, e, base + k).value
      {
        assert f(k + 1) == VecAt(env, e, base + k);
      }
    }
  }

  /** Once an entry fails, every longer extraction fails with its error. */
  lemma SliceEntriesFails(env: Operands, e: Node, base: nat, k: nat, n: nat)
    requires k <= n && SliceEntries(env, e, base, k).Err?
    ensures SliceEntries(env, e, base, n) == Err(SliceEntries(env, e, base, k).error)
  {
    CollectFails(SliceEntryFn(env, e, base), k, n);
  }


  lemma SliceEntriesStep(env: Operands, e: Node, base: nat, xs: seq<real>, k: nat)
    requires SliceEntries(env, e, base, k) == Ok(xs) && VecAt(env, e, base + k).Ok?
    ensures SliceEntries(env, e, base, k + 1) == Ok(xs + [VecAt(env, e, base + k).value])
  {
    assert SliceEntryFn(env, e, base)(k + 1) == VecAt(env, e, base + k);
  }
  /** For an expression that does not mention vector `self`, giving `self`
    * another value changes none of the entries. */
  lemma LiveSliceEntries(env: Operands, self: nat, v: seq<real>, e: Node, base: nat, n: nat)
    requires !Mentions(e, self)
    ensures Collect(SliceEntryFn(env.(vectors := env.vectors[self := v]), e, base), n) == SliceEntries(env, e, base, n)
  {
    var live := env.(vectors := env.vectors[self := v]);
    forall i: nat | 1 <= i <= n
      ensures SliceEntryFn(live, e, base)(i) == SliceEntryFn(env, e, base)(i)
    {
      LiveEntry(env, self, v, e, base + i - 1);
    }
    CollectAgree(SliceEntryFn(live, e, base), SliceEntryFn(env, e, base), n);
  }
  /** The entries of a vector already computed, counted from 1. */
  function SeqEntryFn(xs: seq<real>): nat -> Result<real, LinalgError>
  {
    (i: nat) => if 1 <= i <= |xs| then Ok(xs[i - 1]) else Err(RangeError)
  }

  /** Collecting the entries of a computed vector gives its prefix. */
  lemma {:induction false} CollectSeq(xs: seq<real>, n: nat)
    requires n <= |xs|
    ensures Collect(SeqEntryFn(xs), n) == Ok(xs[..n])
  {
    if n > 0 {
      CollectSeq(xs, n - 1);
      PrefixSnoc(xs, n - 1);
    }
  }



  /** The assignment succeeds exactly when the expression compiles, has the
    * size of the slice and all its entries; entry `k` of the slice is then
    * index `base + k` of the expression; a size that differs is a range
    * error. */
  lemma SliceAssignedMeaning(env: Operands, e: Node, base: nat, size: nat)
    ensures SliceAssigned(env, e, base, size).Ok? <==>
              VecExtractable(e) && VecRows(env, e, Fixed) == Ok(size) && AllSliceEntriesOk(env, e, base, size)
    ensures SliceAssigned(env, e, base, size).Ok? ==>
              |SliceAssigned(env, e, base, size).value| == size &&
              forall k: nat :: k < size ==> SliceAssigned(env, e, base, size).value[k] == VecAt(env, e, base + k).value
    ensures VecExtractable(e) && VecRows(env, e, Fixed).Ok? && VecRows(env, e, Fixed) != Ok(size) ==>
              SliceAssigned(env, e, base, size) == Err(RangeError)
  {
    SliceEntriesMeaning(env, e, base, size);
  }

  /** `+=` succeeds under the same conditions and adds entry by entry. */
  lemma SliceSummedMeaning(env: Operands, e: Node, base: nat, v: seq<real>)
    ensures SliceSummed(env, e, base, v).Ok? <==>
              VecExtractable(e) && VecRows(env, e, Fixed) == Ok(|v|) && AllSliceEntriesOk(env, e, base, |v|)
    ensures SliceSummed(env, e, base, v).Ok? ==>
              |SliceSummed(env, e, base, v).value| == |v| &&
              forall k: nat :: k < |v| ==> SliceSummed(env, e, base, v).value[k] == v[k] + VecAt(env, e, base + k).value
    ensures VecExtractable(e) && VecRows(env, e, Fixed).Ok? && VecRows(env, e, Fixed) != Ok(|v|) ==>
              SliceSummed(env, e, base, v) == Err(RangeError)
  {
    SliceEntriesMeaning(env, e, base, |v|);
  }

  /** With the base index 1 of a `Vector`, a slice of the right size gets
    * the entries a vector gets from the same expression, for assignment
    * and for `+=`. */
  lemma SliceOfBaseOne(env: Operands, e: Node, v: seq<real>)
    requires VecRows(env, e, Fixed) == Ok(|v|)
    ensures SliceAssigned(env, e, 1, |v|) == Evaluate(env, e)
    ensures SliceSummed(env, e, 1, v) == Summed(env, e, v)
  {
    var f := SliceEntryFn(env, e, 1);
    forall i: nat | 1 <= i <= |v|
      ensures f(i) == EntryFn(env, e)(i)
    {
      assert f(i) == VecAt(env, e, i);
    }
    CollectAgree(f, EntryFn(env, e), |v|);
  }

  // -----------------------------------------------------------------------
  // The classes.

  /** `std::slice`: start, size and stride, fixed when it is made. */
  class Slice {
    const start: nat
    const size: nat
    const stride: nat

    constructor (start: nat, size: nat, stride: nat)
      ensures this.start == start && this.size == size && this.stride == stride
    {
      this.start := start;
      this.size := size;
      this.stride := stride;
    }
  }

  /** Two `std::slice` objects describe the same entries. */
  predicate SameSlice(a: Slice, b: Slice)
  {
    a.start == b.start && a.size == b.size && a.stride == b.stride
  }

  class SliceVector {
    /** The sliced vector, which the view does not own. */
    var target: Vector
    /** The `std::slice` object the view points to. */
    var slice: Slice
    /** The `BaseIndex` parameter of the type: the index of the first entry. */
    const base: nat

    constructor Init(v: Vector, s: Slice, base: nat)
      ensures target == v && fresh(slice) && SameSlice(slice, s) && this.base == base
    {
      target := v;
      slice := new Slice(s.start, s.size, s.stride);
      this.base := base;
    }

    /** The slice fits the vector it views. */
    predicate Valid()
      reads this, target
    {
      Fits(|target.data|, slice.start, slice.size, slice.stride)
    }

    /** The entries of the view, in order. */
    function View(): (r: seq<real>)
      reads this, target
      requires Valid()
    {
      Gather(target.data, slice.start, slice.stride, slice.size)
    }

    /** `SliceVector(V, s)`: a slice with no entries, a stride of 0, or an
      * entry past the end of `V` is a `std::range_error`; otherwise the view
      * refers to `V` and keeps a copy of `s`.  The range is checked as
      * intended (see `AcceptedAsWritten`). */
    static method Make(v: Vector, s: Slice, base: nat) returns (r: Result<SliceVector, LinalgError>)
      ensures r.Ok? <==> Fits(|v.data|, s.start, s.size, s.stride)
      ensures r.Err? ==> r.error == RangeError
      ensures r.Ok? ==> fresh(r.value) && fresh(r.value.slice) && r.value.target == v &&
                        SameSlice(r.value.slice, s) && r.value.base == base && r.value.Valid() &&
                        r.value.View() == Gather(v.data, s.start, s.stride, s.size)
    {
      if s.size == 0 {
        return Err(RangeError);
      }
      if s.stride == 0 {
        return Err(RangeError);
      }
      if |v.data| <= Position(s.start, s.stride, s.size - 1) {
        return Err(RangeError);
      }
      var sv := new SliceVector.Init(v, s, base);
      r := Ok(sv);
    }

    /** `size()`: the number of entries of the view. */
    function Size(): (n: nat)
      reads this, target
      ensures Valid() ==> n == |View()|
    {
      slice.size
    }

    /** `S(j)` after `RangeCheck(j)`: indices below the base or from
      * `base + size` on are a `std::range_error`; otherwise the entry the
      * begin iterator reaches after `j - base` steps, which is entry
      * `j - base` of the view.  `GetValue(S, j)` reads the same. */
    function At(j: nat): (r: Result<real, LinalgError>)
      reads this, target
      requires Valid()
      ensures r.Ok? <==> base <= j < base + slice.size
      ensures r.Ok? ==> r.value == View()[j - base]
    {
      if j + 1 < base + 1 || base + slice.size <= j then Err(RangeError)
      else
        GatherAt(target.data, slice.start, slice.stride, slice.size, j - base);
        Ok(target.data[Position(slice.start, slice.stride, j - base)])
    }

    /** `S(j) = x`: the entry of the vector under index `j` is written. */
    method Set(j: nat, x: real) returns (err: Option<LinalgError>)
      requires Valid()
      modifies target
      ensures Valid()
      ensures !(base <= j < base + slice.size) ==> err == Some(RangeError) && target.data == old(target.data)
      ensures base <= j < base + slice.size ==>
                err.None? && View() == old(View())[j - base := x] && At(j) == Ok(x) &&
                Position(slice.start, slice.stride, j - base) < |old(target.data)| &&
                target.data == old(target.data)[Position(slice.start, slice.stride, j - base) := x]
    {
      if j + 1 < base + 1 || base + slice.size <= j {
        return Some(RangeError);
      }
      GatherUpdate(target.data, slice.start, slice.stride, slice.size, j - base, x);
      target.data := target.data[Position(slice.start, slice.stride, j - base) := x];
      err := None;
    }

    /** `begin()`: an iterator at the first entry, moving by the stride. */
    method Begin() returns (it: SliceIterator)
      ensures fresh(it) && it.pos == slice.start && it.stride == slice.stride
    {
      it := new SliceIterator(slice.start, slice.stride);
    }

    /** `end()`: the iterator `size` steps after the first entry. */
    method End() returns (it: SliceIterator)
      ensures fresh(it) && it.pos == Position(slice.start, slice.stride, slice.size) && it.stride == slice.stride
    {
      it := new SliceIterator(slice.start + Step(slice.stride, slice.size), slice.stride);
      PositionIsStep(slice.start, slice.stride, slice.size);
    }

    /** `std::copy(from.begin(), from.end(), this->begin())`: the entries are
      * stored one by one while an iterator walks from `begin()` to
      * `end()`. */
    method CopyIn(xs: seq<real>)
      requires Valid() && |xs| == slice.size
      modifies target
      ensures Valid()
      ensures target.data == Scatter(old(target.data), slice.start, slice.stride, xs)
    {
      var it := Begin();
      var stop := End();
      var k := 0;
      while it.Ne(stop)
        invariant k <= slice.size && Covers(|old(target.data)|, slice.start, slice.stride, k)
        invariant it.pos == Position(slice.start, slice.stride, k) && it.stride == slice.stride
        invariant stop.pos == Position(slice.start, slice.stride, slice.size)
        invariant target.data == Scatter(old(target.data), slice.start, slice.stride, xs[..k])
        decreases slice.size - k
      {
        PositionBound(|old(target.data)|, slice.start, slice.stride, slice.size, k);
        ScatterStep(old(target.data), slice.start, slice.stride, xs[..k], xs[k]);
        target.data := target.data[it.pos := xs[k]];
        PrefixSnoc(xs, k);
        it.Increment();
        k := k + 1;
      }
      if k != slice.size {
        PositionInjective(slice.start, slice.stride, k, slice.size);
      }
      PrefixAll(xs);
    }

    /** `operator=(const T&)`: `std::fill(begin(), end(), t)`. */
    method Fill(t: real)
      requires Valid()
      modifies target
      ensures Valid()
      ensures target.data == Scatter(old(target.data), slice.start, slice.stride, Filled(slice.size, t))
      ensures View() == Filled(slice.size, t)
      ensures forall j: nat :: base <= j < base + slice.size ==> At(j) == Ok(t)
    {
      CopyIn(Filled(slice.size, t));
      GatherScatter(old(target.data), slice.start, slice.stride, Filled(slice.size, t));
    }

    /** `std::transform(begin(), end(), from.begin(), begin(), plus)`: each
      * entry of `xs` is added to the entry of the view, by the loop that
      * adds the entries of an expression, reading them from `xs`. */
    method AddIn(xs: seq<real>)
      requires Valid() && |xs| == slice.size
      modifies target
      ensures Valid()
      ensures target.data == Scatter(old(target.data), slice.start, slice.stride, AddSeq(old(View()), xs))
    {
      var err := AddEntries(SeqEntryFn(xs));
      CollectSeq(xs, |xs|);
      PrefixAll(xs);
    }

    /** The loop that fills the temporary `Vector Tmp(nrows)`: entry `i` is
      * index `i + BaseIndex` of the expression. */
    static method TempEntries(env: Operands, e: Node, base: nat, n: nat) returns (r: Result<seq<real>, LinalgError>)
      ensures r == SliceEntries(env, e, base, n)
    {
      var xs: seq<real> := [];
      for i := 0 to n
        invariant SliceEntries(env, e, base, i) == Ok(xs)
      {
        var x := VecAt(env, e, i + base);
        if x.Err? {
          SliceEntriesFails(env, e, base, i + 1, n);
          return Err(x.error);
        }
        SliceEntriesStep(env, e, base, xs, i);
        xs := xs + [x.value];
      }
      r := Ok(xs);
    }

    /** `operator=(const OtherT&)`.  When `CountOccurrence` finds the view in
      * the expression, the entries are built in a temporary and then copied
      * in, so that an error leaves the vector as it was; otherwise each entry
      * is written as soon as it is extracted. */
    method AssignFrom(env: Operands, e: Node, self: nat) returns (err: Option<LinalgError>)
      requires Valid() && self in env.vectors && env.vectors[self] == View() && CapturedByReference(e)
      modifies target
      ensures Valid()
      ensures err == ErrorOf(SliceAssigned(env, e, base, slice.size))
      ensures SliceAssigned(env, e, base, slice.size).Ok? ==>
                target.data == Scatter(old(target.data), slice.start, slice.stride, SliceAssigned(env, e, base, slice.size).value) &&
                View() == SliceAssigned(env, e, base, slice.size).value
      ensures (!VecExtractable(e) || VecRows(env, e, Fixed) != Ok(slice.size)) ==> target.data == old(target.data)
      ensures DynamicCount(e, [], External(self)) > 0 && err.Some? ==> target.data == old(target.data)
    {
      if !VecExtractable(e) {
        return Some(NotCompiled);
      }
      var nr := VecRows(env, e, Fixed);
      if nr.Err? {
        return Some(nr.error);
      }
      if nr.value != slice.size {
        return Some(RangeError);
      }
      UncountedIsUnmentioned(e, self);
      if DynamicCount(e, [], External(self)) > 0 {
        var tmp := TempEntries(env, e, base, nr.value);
        if tmp.Err? {
          return Some(tmp.error);
        }
        CopyIn(tmp.value);
        err := None;
      } else {
        err := AssignInPlace(env, e, self);
      }
      if err.None? {
        GatherScatter(old(target.data), slice.start, slice.stride, SliceEntries(env, e, base, slice.size).value);
      }
    }

    /** The case without aliasing: each entry of the expression is written
      * through the iterator as soon as it is extracted.  The expression does
      * not mention the view, so the entries it gives with the view as it is
      * at any moment are those it gives with the view as it was. */
    method AssignInPlace(env: Operands, e: Node, self: nat) returns (err: Option<LinalgError>)
      requires Valid() && !Mentions(e, self)
      modifies target
      ensures Valid()
      ensures err == ErrorOf(SliceEntries(env, e, base, slice.size))
      ensures err.None? ==>
                target.data == Scatter(old(target.data), slice.start, slice.stride, SliceEntries(env, e, base, slice.size).value)
    {
      var live := SliceEntryFn(env.(vectors := env.vectors[self := View()]), e, base);
      LiveSliceEntries(env, self, View(), e, base, slice.size);
      err := StoreEntries(live);
    }

    /** The in-place loop: entry `i + 1` of `f` is stored at the `i`-th
      * position; the first failing entry stops the loop. */
    method StoreEntries(f: nat -> Result<real, LinalgError>) returns (err: Option<LinalgError>)
      requires Valid()
      modifies target
      ensures Valid()
      ensures err == ErrorOf(Collect(f, slice.size))
      ensures err.None? ==> target.data == Scatter(old(target.data), slice.start, slice.stride, Collect(f, slice.size).value)
    {
      ghost var orig := target.data;
      var it := Begin();
      ghost var xs: seq<real> := [];
      for i := 0 to slice.size
        invariant |target.data| == |orig| && Covers(|orig|, slice.start, slice.stride, i)
        invariant it.pos == Position(slice.start, slice.stride, i) && it.stride == slice.stride
        invariant Collect(f, i) == Ok(xs)
        invariant target.data == Scatter(orig, slice.start, slice.stride, xs)
      {
        PositionBound(|orig|, slice.start, slice.stride, slice.size, i);
        var x := f(i + 1);
        if x.Err? {
          CollectFails(f, i + 1, slice.size);
          return Some(x.error);
        }
        ScatterStep(orig, slice.start, slice.stride, xs, x.value);
        target.data := target.data[it.pos := x.value];
        xs := xs + [x.value];
        it.Increment();
      }
      err := None;
    }


    /** `operator+=(const OtherT&)`: as the assignment, with each entry added
      * to the one of the view. */
    method PlusAssign(env: Operands, e: Node, self: nat) returns (err: Option<LinalgError>)
      requires Valid() && self in env.vectors && env.vectors[self] == View() && CapturedByReference(e)
      modifies target
      ensures Valid()
      ensures err == ErrorOf(SliceSummed(env, e, base, old(View())))
      ensures SliceSummed(env, e, base, old(View())).Ok? ==>
                target.data == Scatter(old(target.data), slice.start, slice.stride, SliceSummed(env, e, base, old(View())).value) &&
                View() == SliceSummed(env, e, base, old(View())).value
      ensures (!VecExtractable(e) || VecRows(env, e, Fixed) != Ok(slice.size)) ==> target.data == old(target.data)
      ensures DynamicCount(e, [], External(self)) > 0 && err.Some? ==> target.data == old(target.data)
    {
      if !VecExtractable(e) {
        return Some(NotCompiled);
      }
      var nr := VecRows(env, e, Fixed);
      if nr.Err? {
        return Some(nr.error);
      }
      if nr.value != slice.size {
        return Some(RangeError);
      }
      UncountedIsUnmentioned(e, self);
      if DynamicCount(e, [], External(self)) > 0 {
        var tmp := TempEntries(env, e, base, nr.value);
        if tmp.Err? {
          return Some(tmp.error);
        }
        AddIn(tmp.value);
        err := None;
      } else {
        err := AddInPlace(env, e, self);
      }
      if err.None? {
        GatherScatter(old(target.data), slice.start, slice.stride,
                      AddSeq(old(View()), SliceEntries(env, e, base, slice.size).value));
      }
    }

    /** The `+=` loop without aliasing, read as the assignment's. */
    method AddInPlace(env: Operands, e: Node, self: nat) returns (err: Option<LinalgError>)
      requires Valid() && !Mentions(e, self)
      modifies target
      ensures Valid()
      ensures err == ErrorOf(SliceEntries(env, e, base, slice.size))
      ensures err.None? ==>
                target.data == Scatter(old(target.data), slice.start, slice.stride,
                                       AddSeq(old(View()), SliceEntries(env, e, base, slice.size).value))
    {
      var live := SliceEntryFn(env.(vectors := env.vectors[self := View()]), e, base);
      LiveSliceEntries(env, self, View(), e, base, slice.size);
      err := AddEntries(live);
    }

    /** Entry `i + 1` of `f` is added to the `i`-th entry of the view; the
      * first failing entry stops the loop. */
    method AddEntries(f: nat -> Result<real, LinalgError>) returns (err: Option<LinalgError>)
      requires Valid()
      modifies target
      ensures Valid()
      ensures err == ErrorOf(Collect(f, slice.size))
      ensures err.None? ==>
                target.data == Scatter(old(target.data), slice.start, slice.stride, AddSeq(old(View()), Collect(f, slice.size).value))
    {
      ghost var orig := target.data;
      ghost var start, stride, size := slice.start, slice.stride, slice.size;
      ghost var v := Gather(orig, start, stride, size);
      var it := Begin();
      ghost var xs: seq<real> := [];
      AddedSoFarStart(orig, start, stride, size, f);
      for i := 0 to slice.size
        invariant AddedSoFar(orig, start, stride, size, v, f, i, xs, target.data)
        invariant it.pos == Position(start, stride, i) && it.stride == stride
      {
        var x := f(i + 1);
        var p := it.pos;
        AddedSoFarStep(orig, start, stride, size, v, f, i, xs, target.data, x, p);
        if x.Err? {
          return Some(x.error);
        }
        target.data := target.data[p := target.data[p] + x.value];
        xs := xs + [x.value];
        it.Increment();
      }
      AddedSoFarDone(orig, start, stride, size, v, f, xs, target.data);
      err := None;
    }


    /** `operator-=(const OtherT&)`: `+=` of `Simplify(-e)`, the negation
      * simplified with the library's own rules (`Negated`); a negation that
      * does not simplify does not compile. */
    method MinusAssign(env: Operands, e: Node, self: nat, fuel: nat) returns (err: Option<LinalgError>)
      requires Valid() && self in env.vectors && env.vectors[self] == View() && CapturedByReference(e)
      modifies target
      ensures Valid()
      ensures Negated(e, fuel).Err? ==> err == Some(NotCompiled) && unchanged(target)
      ensures Negated(e, fuel).Ok? ==> err == ErrorOf(SliceSummed(env, Negated(e, fuel).value, base, old(View())))
      ensures Negated(e, fuel).Ok? && SliceSummed(env, Negated(e, fuel).value, base, old(View())).Ok? ==>
                View() == SliceSummed(env, Negated(e, fuel).value, base, old(View())).value
    {
      var neg := Negated(e, fuel);
      if neg.Err? {
        return Some(NotCompiled);
      }
      NegatedByRef(e, fuel);
      err := PlusAssign(env, neg.value, self);
    }

    /** The copy constructor: the copy shares the vector and the
      * `std::slice` object of the original, so it views the same entries. */
    constructor Copy(other: SliceVector)
      ensures target == other.target && slice == other.slice && base == other.base
      ensures other.Valid() ==> Valid() && View() == other.View()
    {
      target := other.target;
      slice := other.slice;
      base := other.base;
    }

    /** The copy assignment: unless it is assigned to itself, the view takes
      * over the vector and the `std::slice` object of the other one; no
      * entry is copied. */
    method Assign(other: SliceVector)
      requires other.base == base
      modifies this
      ensures target == old(other.target) && slice == old(other.slice)
      ensures old(other.Valid()) ==> Valid() && View() == old(other.View())
    {
      if this != other {
        target := other.target;
        slice := other.slice;
      }
    }

    /** `swap`: the two views exchange their vectors and slices. */
    method Swap(other: SliceVector)
      requires other.base == base
      modifies this, other
      ensures target == old(other.target) && slice == old(other.slice)
      ensures other.target == old(target) && other.slice == old(slice)
      ensures old(other.Valid()) ==> Valid() && View() == old(other.View())
      ensures old(Valid()) ==> other.Valid() && other.View() == old(View())
    {
      target, other.target := other.target, target;
      slice, other.slice := other.slice, slice;
    }
  }

  /** The iterators of a view are `size` steps apart, and the begin iterator
    * comes first. */
  lemma BeginEndDistance(s: SliceVector, b: SliceIterator, e: SliceIterator)
    requires s.Valid()
    requires b.pos == s.slice.start && b.stride == s.slice.stride
    requires e.pos == Position(s.slice.start, s.slice.stride, s.slice.size) && e.stride == s.slice.stride
    ensures e.DistanceTo(b) == s.slice.size && b.Lt(e)
  {
    PositionIsStep(s.slice.start, s.slice.stride, s.slice.size);
    ComparisonsByDistance(e, b, s.slice.size);
  }
}
