// Rows of a sparse matrix: a map from 1-based column numbers to the stored
// values (`std::map<size_t, T>`).  An absent key is an entry that is not
// stored; read as a number it is 0.  This module holds the operations the
// row and column extractors perform on such maps, stated against the dense
// reading `Get`, and the sum of a row in the map's (ascending) key order.
module SparseRows {

  type Row = map<nat, real>

  /** The dense reading of a sparse row: a stored value or 0. */
  function Get(r: Row, k: nat): real
  {
    if k in r then r[k] else 0.0
  }

  /** `Private::Merge(Map, ToAdd)`: the stored entries of both rows, with the
    * values of common keys added. */
  function Merge(a: Row, b: Row): Row
  {
    map k | k in a.Keys + b.Keys ::
      if k in a && k in b then a[k] + b[k] else if k in a then a[k] else b[k]
  }

  /** `Private::Merge(Map, ToAdd, Op)`: as `Merge`, with `f` applied to every
    * value of `b` first. */
  function MergeWith(a: Row, b: Row, f: real -> real): Row
  {
    map k | k in a.Keys + b.Keys ::
      if k in a && k in b then a[k] + f(b[k]) else if k in a then a[k] else f(b[k])
  }

  /** The difference loop of the row extractor for `A - B`: every key of `b`
    * is subtracted from the entry of `a`, which is first inserted as 0 if
    * it is not stored. */
  function Difference(a: Row, b: Row): Row
  {
    map k | k in a.Keys + b.Keys ::
      if k in b then (if k in a then a[k] else 0.0) - b[k] else a[k]
  }

  /** Every stored value multiplied by `s` (the scalar-product extractors). */
  function Scaled(r: Row, s: real): Row
  {
    map k | k in r :: r[k] * s
  }

  /** Every stored value mapped by `f` (the default unary-operation
    * extractors). */
  function MapValues(r: Row, f: real -> real): Row
  {
    map k | k in r :: f(r[k])
  }

  function Negate(x: real): real
  {
    -x
  }

  /** The least element of a non-empty set of numbers. */
  function MinKey(s: set<nat>): (k: nat)
    requires s != {}
    ensures k in s && forall x :: x in s ==> k <= x
  {
    MinExists(s);
    var k :| k in s && forall x :: x in s ==> k <= x;
    k
  }

  lemma MinExists(s: set<nat>)
    requires s != {}
    ensures exists k :: k in s && forall x :: x in s ==> k <= x
  {
    var k := LeastOf(s);
  }

  /** The least element, found by taking one element out and comparing it
    * with the least of the others. */
  lemma {:induction false} LeastOf(s: set<nat>) returns (k: nat)
    requires s != {}
    ensures k in s && forall x :: x in s ==> k <= x
    decreases |s|
  {
    var y :| y in s;
    var others := s - {y};
    if others == {} {
      assert s == {y};
      k := y;
    } else {
      var m := LeastOf(others);
      k := if y < m then y else m;
      forall x | x in s
        ensures k <= x
      {
        if x != y {
          assert x in others;
        }
      }
    }
  }

  /** The sum of the stored values, accumulated from 0 in ascending key
    * order, as a loop over a `std::map` does. */
  function SumOf(r: Row): real
    decreases |r.Keys|
  {
    if r.Keys == {} then 0.0
    else
      var k := MinKey(r.Keys);
      assert |(r - {k}).Keys| < |r.Keys| by { assert (r - {k}).Keys == r.Keys - {k}; }
      r[k] + SumOf(r - {k})
  }

  /** `Lump` of one row: an empty row stays empty, any other becomes the
    * single entry `{i ↦ sum of its values}`. */
  function Lumped(r: Row, i: nat): Row
  {
    if r == map[] then r else map[i := SumOf(r)]
  }

  /** The row with the entry at `k` stored as `v`. */
  function Store(r: Row, k: nat, v: real): Row
  {
    r[k := v]
  }

  /** Every stored value replaced by `t`, the sparsity pattern kept
    * (`operator=(const T&)`, `SetEntriesIn...To`). */
  function FilledRow(r: Row, t: real): Row
  {
    map k | k in r :: t
  }

  /** The entries of `r` whose keys are in `ks`. */
  function Restrict(r: Row, ks: set<nat>): Row
  {
    map k | k in r && k in ks :: r[k]
  }

  /** The keys of the row lie in `lo..hi`. */
  predicate KeysWithin(r: Row, lo: nat, hi: nat)
  {
    forall k :: k in r ==> lo <= k <= hi
  }

  // -----------------------------------------------------------------------
  // The dense meaning of each operation.

  /** Merging two rows stores the union of their entries and adds them. */
  lemma MergeMeaning(a: Row, b: Row)
    ensures Merge(a, b).Keys == a.Keys + b.Keys
    ensures forall k :: Get(Merge(a, b), k) == Get(a, k) + Get(b, k)
  {
  }

  /** Merging with an operation adds `f` of the second row's entries. */
  lemma MergeWithMeaning(a: Row, b: Row, f: real -> real)
    ensures MergeWith(a, b, f).Keys == a.Keys + b.Keys
    ensures forall k :: Get(MergeWith(a, b, f), k) == Get(a, k) + (if k in b then f(b[k]) else 0.0)
  {
  }

  /** The difference stores the union of the entries and subtracts them,
    * missing entries read as 0; it is the merge with negation. */
  lemma DifferenceMeaning(a: Row, b: Row)
    ensures Difference(a, b).Keys == a.Keys + b.Keys
    ensures forall k :: Get(Difference(a, b), k) == Get(a, k) - Get(b, k)
    ensures Difference(a, b) == MergeWith(a, b, Negate)
  {
  }

  /** Scaling keeps the keys and multiplies every value. */
  lemma ScaledMeaning(r: Row, s: real)
    ensures Scaled(r, s).Keys == r.Keys
    ensures forall k :: Get(Scaled(r, s), k) == Get(r, k) * s
  {
  }

  /** Merging is commutative: the sum of two rows does not depend on the
    * order of the operands. */
  lemma MergeCommutes(a: Row, b: Row)
    ensures Merge(a, b) == Merge(b, a)
  {
  }

  /** Merging with the empty row changes nothing. */
  lemma MergeEmpty(a: Row)
    ensures Merge(a, map[]) == a && Merge(map[], a) == a
  {
  }

  /** Filling keeps the stored keys and reads `t` exactly there. */
  lemma FilledRowMeaning(r: Row, t: real)
    ensures FilledRow(r, t).Keys == r.Keys
    ensures forall k :: Get(FilledRow(r, t), k) == if k in r then t else 0.0
  {
  }

  /** Merging the entries of `b` one key at a time, as the `+=` loop walks
    * `b`: adding key `j` either adds to a stored entry or stores a new one. */
  lemma MergeStep(a: Row, b: Row, done: set<nat>, j: nat)
    requires j in b && j !in done
    ensures var cur := Merge(a, Restrict(b, done));
      Merge(a, Restrict(b, done + {j})) ==
        if j in cur then cur[j := cur[j] + b[j]] else cur[j := b[j]]
  {
    var cur := Merge(a, Restrict(b, done));
    var next := Merge(a, Restrict(b, done + {j}));
    assert j in cur <==> j in a;
    if j in cur {
      assert next == cur[j := cur[j] + b[j]];
    } else {
      assert next == cur[j := b[j]];
    }
  }

  /** Before the walk nothing of `b` is merged; afterwards all of it. */
  lemma RestrictEnds(a: Row, b: Row)
    ensures Merge(a, Restrict(b, {})) == a
    ensures Restrict(b, b.Keys) == b
  {
    assert Restrict(b, {}) == map[];
  }

  // -----------------------------------------------------------------------
  // Sums.

  /** A set's least element is the one no other element undercuts. */
  lemma MinKeyUnique(s: set<nat>, m: nat)
    requires m in s && forall x :: x in s ==> m <= x
    ensures MinKey(s) == m
  {
    var k := MinKey(s);
    assert k <= m && m <= k;
  }

  lemma RemoveKeys(r: Row, k: nat)
    ensures (r - {k}).Keys == r.Keys - {k}
  {
  }

  lemma RemoveTwice(r: Row, k: nat, m: nat)
    ensures r - {k} - {m} == r - {m} - {k}
  {
  }

  lemma MergeRemove(a: Row, b: Row, k: nat)
    ensures Merge(a, b) - {k} == Merge(a - {k}, b - {k})
  {
  }

  lemma DifferenceRemove(a: Row, b: Row, k: nat)
    ensures Difference(a, b) - {k} == Difference(a - {k}, b - {k})
  {
  }

  /** The sum does not depend on the order of accumulation: any stored entry
    * can be taken first. */
  lemma {:induction false} SumOfRemove(r: Row, k: nat)
    requires k in r
    ensures SumOf(r) == r[k] + SumOf(r - {k})
    decreases |r.Keys|
  {
    var m := MinKey(r.Keys);
    if m != k {
      var r1 := r - {m};
      RemoveKeys(r, m);
      SumOfRemove(r1, k);
      var r2 := r - {k};
      RemoveKeys(r, k);
      MinKeyUnique(r2.Keys, m);
      RemoveTwice(r, k, m);
    }
  }

  /** A row without `k` is unchanged by removing `k`. */
  lemma RemoveAbsent(r: Row, k: nat)
    requires k !in r
    ensures r - {k} == r
  {
  }

  /** The sum of a merge is the sum of the two sums. */
  lemma {:induction false} SumOfMerge(a: Row, b: Row)
    ensures SumOf(Merge(a, b)) == SumOf(a) + SumOf(b)
    decreases |b.Keys|
  {
    if b.Keys == {} {
      assert Merge(a, b) == a;
    } else {
      var k := MinKey(b.Keys);
      RemoveKeys(b, k);
      SumOfRemove(b, k);
      var m := Merge(a, b);
      assert k in m;
      SumOfRemove(m, k);
      MergeRemove(a, b, k);
      SumOfMerge(a - {k}, b - {k});
      if k in a {
        SumOfRemove(a, k);
      } else {
        RemoveAbsent(a, k);
      }
    }
  }

  /** The sum of a difference is the difference of the sums. */
  lemma {:induction false} SumOfDifference(a: Row, b: Row)
    ensures SumOf(Difference(a, b)) == SumOf(a) - SumOf(b)
    decreases |b.Keys|
  {
    if b.Keys == {} {
      assert Difference(a, b) == a;
    } else {
      var k := MinKey(b.Keys);
      RemoveKeys(b, k);
      SumOfRemove(b, k);
      var m := Difference(a, b);
      assert k in m;
      SumOfRemove(m, k);
      DifferenceRemove(a, b, k);
      SumOfDifference(a - {k}, b - {k});
      if k in a {
        SumOfRemove(a, k);
      } else {
        RemoveAbsent(a, k);
      }
    }
  }

  /** A lumped row has its own sum, at most one entry, and that entry sits
    * at position `i`. */
  lemma LumpedMeaning(r: Row, i: nat)
    ensures r == map[] ==> Lumped(r, i) == map[]
    ensures r != map[] ==> Lumped(r, i).Keys == {i} && Lumped(r, i)[i] == SumOf(r)
    ensures SumOf(Lumped(r, i)) == SumOf(r)
  {
    if r != map[] {
      var l := Lumped(r, i);
      assert l.Keys == {i};
      assert MinKey(l.Keys) == i;
      assert l - {i} == map[];
    }
  }
}
