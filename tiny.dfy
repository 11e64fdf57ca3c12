// The fixed-size containers of tiny/TinyMatrix.h, tiny/TinyVector.h and the
// row and column extraction of tiny/MatrixVectorOps.h.  A
// `TinyQuadraticMatrix<T, n>` owns an array `data_[n * n]` holding its
// entries column by column; a `TinyVector<T, n>` owns `data_[n]`.  Both are
// filled, transformed entry by entry with `std::transform`, and assigned
// from expressions, through a temporary when the expression refers to the
// object itself.  The scalar functors are those `std::bind1st` makes: the
// scalar is their FIRST argument.
module TinyContainers {
  import opened Wrappers
  import opened Nodes
  import opened LinalgExpr
  import opened Counting
  import LinalgProofs
  import opened TinyValues
  import opened TinyValueLaws

  // -----------------------------------------------------------------------
  // The scalar functors.

  /** `std::bind1st(std::multiplies<T>(), t)(x)`. */
  function BoundTimes(t: real, x: real): real
  {
    t * x
  }

  /** `std::bind1st(std::plus<T>(), t)(x)`. */
  function BoundPlus(t: real, x: real): real
  {
    t + x
  }

  /** `std::bind1st(std::minus<T>(), t)(x)`: t - x, the scalar minus the
    * entry, which is what the scalar `-=` of both containers applies. */
  function BoundMinus(t: real, x: real): real
  {
    t - x
  }

  /** The entry minus the scalar, which `x -= t` is meant to give. */
  function MinusScalar(x: real, t: real): real
  {
    x - t
  }

  /** The functor of the scalar `-=` agrees with subtracting the scalar only
    * where entry and scalar are equal. */
  lemma BoundMinusAgreesOnlyAtScalar(t: real, x: real)
    ensures BoundMinus(t, x) == MinusScalar(x, t) <==> x == t
  {
  }

  /** With t = 1, an entry 3 becomes -2 under the scalar `-=` as written,
    * where 2 is meant. */
  lemma BoundMinusWrong()
    ensures BoundMinus(1.0, 3.0) == -2.0 && MinusScalar(3.0, 1.0) == 2.0
  {
  }

  /** `x += t` followed by `x -= t` gives x back when `-=` subtracts the
    * scalar; with the functor as written it gives -x. */
  lemma AddThenSubtract(t: real, x: real)
    ensures MinusScalar(BoundPlus(t, x), t) == x
    ensures BoundMinus(t, BoundPlus(t, x)) == -x
  {
  }

  // -----------------------------------------------------------------------
  // What an expression gives, entry by entry.

  /** Entry (i, j) of the matrix expression `e`. */
  function MatEntryFn(env: TinyOperands, t: string, e: Node): (nat, nat) -> Result<real, LinalgError>
  {
    (i: nat, j: nat) => MatGetValue(env, t, e, i, j)
  }

  /** The entries of `f` in storage order: item p (from 1) is the entry at
    * position p - 1, in row `(p - 1) % n + 1` and column `(p - 1) / n + 1`. */
  function ColumnMajorFn(f: (nat, nat) -> Result<real, LinalgError>, n: nat): nat -> Result<real, LinalgError>
  {
    (p: nat) => if p == 0 || n == 0 then Err(RangeError) else f((p - 1) % n + 1, (p - 1) / n + 1)
  }

  /** The data of an n x n matrix built from `f`, or the error of the first
    * entry that fails, in storage order. */
  function ColumnMajor(f: (nat, nat) -> Result<real, LinalgError>, n: nat): Result<seq<real>, LinalgError>
  {
    Collect(ColumnMajorFn(f, n), n * n)
  }

  /** The storage order lists every in-range entry once: the data are
    * complete exactly when every entry has a value, and entry (i, j) then
    * sits at `i - 1 + (j - 1) * n`. */
  lemma ColumnMajorMeaning(f: (nat, nat) -> Result<real, LinalgError>, n: nat)
    ensures ColumnMajor(f, n).Ok? <==> forall i: nat, j: nat :: TinyValues.InRange(n, i, j) ==> f(i, j).Ok?
    ensures ColumnMajor(f, n).Ok? ==>
              forall i: nat, j: nat :: TinyValues.InRange(n, i, j) ==>
                0 <= MatIndex(n, i, j) < |ColumnMajor(f, n).value| &&
                ColumnMajor(f, n).value[MatIndex(n, i, j)] == f(i, j).value
  {
    CollectMeaning(ColumnMajorFn(f, n), n * n);
    if ColumnMajor(f, n).Ok? {
      forall i: nat, j: nat | TinyValues.InRange(n, i, j)
        ensures f(i, j).Ok? && 0 <= MatIndex(n, i, j) < |ColumnMajor(f, n).value|
        ensures ColumnMajor(f, n).value[MatIndex(n, i, j)] == f(i, j).value
      {
        ColumnMajorAt(f, n, i, j);
      }
    } else {
      ColumnMajorFails(f, n);
    }
  }

  /** Entry (i, j) is item `MatIndex(n, i, j) + 1` of the storage order. */
  lemma ColumnMajorAt(f: (nat, nat) -> Result<real, LinalgError>, n: nat, i: nat, j: nat)
    requires ColumnMajor(f, n).Ok? && TinyValues.InRange(n, i, j)
    ensures f(i, j).Ok? && 0 <= MatIndex(n, i, j) < |ColumnMajor(f, n).value|
    ensures ColumnMajor(f, n).value[MatIndex(n, i, j)] == f(i, j).value
  {
    var g := ColumnMajorFn(f, n);
    CollectMeaning(g, n * n);
    var p := MatIndex(n, i, j);
    MatIndexBound(n, i, j);
    MatIndexDivMod(n, i, j);
    assert g(p + 1) == f(i, j);
  }

  /** A failing item of the storage order is a failing in-range entry. */
  lemma ColumnMajorFails(f: (nat, nat) -> Result<real, LinalgError>, n: nat)
    requires ColumnMajor(f, n).Err?
    ensures exists i: nat, j: nat :: TinyValues.InRange(n, i, j) && f(i, j).Err?
  {
    var g := ColumnMajorFn(f, n);
    CollectMeaning(g, n * n);
    var p: nat :| 1 <= p <= n * n && g(p).Err?;
    MatIndexOnto(n, p - 1);
    assert f((p - 1) % n + 1, (p - 1) / n + 1).Err?;
  }

  /** An expression that does not mention the object `self` gives the same
    * entries whatever that object holds. */
  lemma LiveMatEntries(env: TinyOperands, self: nat, d: seq<real>, t: string, e: Node, n: nat)
    requires !Mentions(e, self)
    ensures ColumnMajor(MatEntryFn(env.(matrices := env.matrices[self := d]), t, e), n) ==
            ColumnMajor(MatEntryFn(env, t, e), n)
  {
    var env2 := env.(matrices := env.matrices[self := d]);
    assert TinyAgreeExcept(env2, env, self);
    forall i: nat, j: nat
      ensures MatEntryFn(env2, t, e)(i, j) == MatEntryFn(env, t, e)(i, j)
    {
      FrameMat(env2, env, self, t, e, i, j);
    }
    ColumnMajorAgree(MatEntryFn(env2, t, e), MatEntryFn(env, t, e), n);
  }

  /** Entries that agree everywhere give the same storage. */
  lemma ColumnMajorAgree(f: (nat, nat) -> Result<real, LinalgError>, g: (nat, nat) -> Result<real, LinalgError>, n: nat)
    requires forall i: nat, j: nat :: f(i, j) == g(i, j)
    ensures ColumnMajor(f, n) == ColumnMajor(g, n)
  {
    CollectAgree(ColumnMajorFn(f, n), ColumnMajorFn(g, n), n * n);
  }

  lemma LiveVecEntries(env: TinyOperands, self: nat, d: seq<real>, t: string, e: Node, n: nat)
    requires !Mentions(e, self)
    ensures Collect(VecFn(env.(vectors := env.vectors[self := d]), t, e), n) == Collect(VecFn(env, t, e), n)
  {
    var env2 := env.(vectors := env.vectors[self := d]);
    assert TinyAgreeExcept(env2, env, self);
    forall j: nat | 1 <= j <= n
      ensures VecFn(env2, t, e)(j) == VecFn(env, t, e)(j)
    {
      FrameVec(env2, env, self, t, e, j);
    }
    CollectAgree(VecFn(env2, t, e), VecFn(env, t, e), n);
  }

  /** The storage position of the first entry of column j, counted column
    * by column. */
  function ColumnStart(n: nat, j: nat): nat
  {
    if j <= 1 then 0 else ColumnStart(n, j - 1) + n
  }

  /** Counting column by column gives `(j - 1) * n`. */
  lemma {:induction false} ColumnStartIsIndex(n: nat, j: nat)
    requires j >= 1
    ensures ColumnStart(n, j) == MatIndex(n, 1, j)
  {
    if j > 1 {
      ColumnStartIsIndex(n, j - 1);
    }
  }

  /** Entry (i, j) is item `i + (j - 1) * n` of the storage order, the
    * item after position p when column j starts at position q: collecting
    * one item more adds that entry, or fails with its error. */
  lemma StorageStep(f: (nat, nat) -> Result<real, LinalgError>, n: nat, i: nat, j: nat, p: nat, xs: seq<real>)
    requires 1 <= i <= n && 1 <= j <= n && p == ColumnStart(n, j) + (i - 1)
    requires Collect(ColumnMajorFn(f, n), p) == Ok(xs)
    ensures p == MatIndex(n, i, j) < n * n
    ensures Collect(ColumnMajorFn(f, n), p + 1) ==
            if f(i, j).Ok? then Ok(xs + [f(i, j).value]) else Err(f(i, j).error)
  {
    ColumnStartIsIndex(n, j);
    MatIndexBound(n, i, j);
    MatIndexDivMod(n, i, j);
    assert ColumnMajorFn(f, n)(p + 1) == f(i, j);
  }

  /** The columns 1..n fill all n * n positions. */
  lemma AllColumns(n: nat)
    ensures ColumnStart(n, n + 1) == n * n
  {
    ColumnStartIsIndex(n, n + 1);
  }

  // -----------------------------------------------------------------------
  // TinyVector.

  class TinyVector {
    /** The dimension `n`, a template argument. */
    const n: nat
    /** `data_[n]`. */
    const data: array<real>

    predicate Valid()
    {
      data.Length == n
    }

    /** `TinyVector()`: the entries are left uninitialised. */
    constructor (n: nat)
      requires n > 0
      ensures this.n == n && Valid() && fresh(data)
    {
      this.n := n;
      data := new real[n];
    }

    /** `TinyVector(t)`: every entry is t. */
    constructor Filled(n: nat, t: real)
      requires n > 0
      ensures this.n == n && Valid() && fresh(data)
      ensures forall k :: 0 <= k < n ==> data[k] == t
    {
      this.n := n;
      data := new real[n];
      new;
      Fill(t);
    }

    /** `V(j)` read: `data_[j - 1]`, after `RangeCheck(j)`. */
    function Get(j: nat): (r: Result<real, LinalgError>)
      requires Valid()
      reads data
      ensures r.Ok? <==> 0 < j < n + 1
      ensures r.Ok? ==> r.value == data[j - 1]
    {
      VecEntry(data[..], n, j)
    }

    /** `V(j) = x`. */
    method Set(j: nat, x: real) returns (err: Option<LinalgError>)
      requires Valid()
      modifies data
      ensures err.None? <==> 0 < j < n + 1
      ensures err.None? ==> data[..] == old(data[..])[j - 1 := x]
      ensures err.Some? ==> err == Some(RangeError) && data[..] == old(data[..])
    {
      if !(0 < j < n + 1) {
        return Some(RangeError);
      }
      data[j - 1] := x;
      err := None;
    }

    /** `begin()`: the offset of `data_`. */
    function Begin(): nat
    {
      0
    }

    /** `end()`: `data_ + n`. */
    function End(): nat
    {
      n
    }

    /** The entries from `begin()` to `end()` are exactly the stored ones. */
    function Span(): (s: seq<real>)
      requires Valid()
      reads data
      ensures Begin() <= End() == data.Length && |s| == End() - Begin() == n && s == data[..]
    {
      data[Begin()..End()]
    }

    /** `operator=(t)`: `std::fill` of all n entries. */
    method Fill(t: real)
      requires Valid()
      modifies data
      ensures forall k :: 0 <= k < n ==> data[k] == t
    {
      for k := 0 to n
        invariant forall m :: 0 <= m < k ==> data[m] == t
      {
        data[k] := t;
      }
    }

    /** `std::transform(data_, data_ + n, data_, f)`. */
    method Transform(f: real -> real)
      requires Valid()
      modifies data
      ensures forall k :: 0 <= k < n ==> data[k] == f(old(data[k]))
    {
      for k := 0 to n
        invariant forall m :: 0 <= m < k ==> data[m] == f(old(data[m]))
        invariant forall m :: k <= m < n ==> data[m] == old(data[m])
      {
        data[k] := f(data[k]);
      }
    }

    /** `*= t`: every entry becomes t * x. */
    method Scale(t: real)
      requires Valid()
      modifies data
      ensures forall k :: 0 <= k < n ==> data[k] == BoundTimes(t, old(data[k]))
    {
      Transform(x => BoundTimes(t, x));
    }

    /** `+= t`: every entry becomes t + x. */
    method AddScalar(t: real)
      requires Valid()
      modifies data
      ensures forall k :: 0 <= k < n ==> data[k] == BoundPlus(t, old(data[k]))
    {
      Transform(x => BoundPlus(t, x));
    }

    /** `-= t` as written: every entry becomes t - x. */
    method SubtractScalarAsWritten(t: real)
      requires Valid()
      modifies data
      ensures forall k :: 0 <= k < n ==> data[k] == BoundMinus(t, old(data[k]))
    {
      Transform(x => BoundMinus(t, x));
    }

    /** `-= t` as meant: every entry becomes x - t. */
    method SubtractScalar(t: real)
      requires Valid()
      modifies data
      ensures forall k :: 0 <= k < n ==> data[k] == MinusScalar(old(data[k]), t)
    {
      Transform(x => MinusScalar(x, t));
    }

    /** `+= Other`: `std::transform` with `std::plus`, entry by entry; the
      * other vector may be this one. */
    method AddVector(other: TinyVector)
      requires Valid() && other.Valid() && other.n == n
      modifies data
      ensures forall k :: 0 <= k < n ==> data[k] == old(data[k]) + old(other.data[k])
    {
      for k := 0 to n
        invariant forall m :: 0 <= m < k ==> data[m] == old(data[m]) + old(other.data[m])
        invariant forall m :: k <= m < n ==> data[m] == old(data[m]) && other.data[m] == old(other.data[m])
      {
        data[k] := data[k] + other.data[k];
      }
    }

    /** `-= Other`: `std::transform` with `std::minus`, entry minus other. */
    method SubtractVector(other: TinyVector)
      requires Valid() && other.Valid() && other.n == n
      modifies data
      ensures forall k :: 0 <= k < n ==> data[k] == old(data[k]) - old(other.data[k])
    {
      for k := 0 to n
        invariant forall m :: 0 <= m < k ==> data[m] == old(data[m]) - old(other.data[m])
        invariant forall m :: k <= m < n ==> data[m] == old(data[m]) && other.data[m] == old(other.data[m])
      {
        data[k] := data[k] - other.data[k];
      }
    }

    /** `std::copy(other.data(), other.data() + n, data_)`. */
    method CopyFrom(other: TinyVector)
      requires Valid() && other.Valid() && other.n == n
      modifies data
      ensures data[..] == old(other.data[..])
    {
      for k := 0 to n
        invariant forall m :: 0 <= m < k ==> data[m] == old(other.data[m])
        invariant forall m :: k <= m < n ==> other.data[m] == old(other.data[m])
      {
        data[k] := other.data[k];
      }
    }

    /** The loop `(*this)(j) = GetValue(j)(E)` for j = 1..n, reading the
      * entries from `f`; the first entry that fails stops it. */
    method StoreEntries(f: nat -> Result<real, LinalgError>) returns (err: Option<LinalgError>)
      requires Valid()
      modifies data
      ensures err == ErrorOf(Collect(f, n))
      ensures err.None? ==> data[..] == Collect(f, n).value
    {
      ghost var xs: seq<real> := [];
      for j := 1 to n + 1
        invariant Collect(f, j - 1) == Ok(xs) && |xs| == j - 1
        invariant forall m :: 0 <= m < j - 1 ==> data[m] == xs[m]
      {
        var x := f(j);
        if x.Err? {
          CollectFails(f, j, n);
          return Some(x.error);
        }
        data[j - 1] := x.value;
        xs := xs + [x.value];
      }
      assert data[..] == xs;
      err := None;
    }

    /** `TinyVector(E)`: a new vector whose entry j is `GetValue(j)(E)`.  The
      * expression's dimension is not compared with n. */
    static method FromExpression(n: nat, env: TinyOperands, t: string, e: Node) returns (v: TinyVector, err: Option<LinalgError>)
      requires n > 0
      ensures fresh(v) && fresh(v.data) && v.n == n && v.Valid()
      ensures err == ErrorOf(Collect(VecFn(env, t, e), n))
      ensures err.None? ==> v.data[..] == Collect(VecFn(env, t, e), n).value
    {
      v := new TinyVector(n);
      err := v.StoreEntries(VecFn(env, t, e));
    }

    /** `operator=(E)`.  When `CountOccurrence` finds this vector in the
      * expression, the entries go into a temporary first and are then
      * copied in; otherwise each is written as soon as it is read. */
    method AssignFrom(env: TinyOperands, t: string, e: Node, self: nat) returns (err: Option<LinalgError>)
      requires Valid() && self in env.vectors && env.vectors[self] == data[..] && CapturedByReference(e)
      modifies data
      ensures err == ErrorOf(Collect(VecFn(env, t, e), n))
      ensures err.None? ==> data[..] == Collect(VecFn(env, t, e), n).value
      ensures DynamicCount(e, [], External(self)) > 0 && err.Some? ==> data[..] == old(data[..])
    {
      if DynamicCount(e, [], External(self)) > 0 {
        if n == 0 {
          err := StoreEntries(VecFn(env, t, e));
          return;
        }
        var tmp, terr := FromExpression(n, env, t, e);
        if terr.Some? {
          return terr;
        }
        CopyFrom(tmp);
        err := None;
      } else {
        LinalgProofs.UncountedIsUnmentioned(e, self);
        err := AssignInPlace(env, t, e, self);
      }
    }

    /** The case without aliasing: the expression is read with this vector
      * as it is while being written; since the expression does not mention
      * it, the entries are those it had at the start. */
    method AssignInPlace(env: TinyOperands, t: string, e: Node, self: nat) returns (err: Option<LinalgError>)
      requires Valid() && !Mentions(e, self)
      modifies data
      ensures err == ErrorOf(Collect(VecFn(env, t, e), n))
      ensures err.None? ==> data[..] == Collect(VecFn(env, t, e), n).value
    {
      var live := VecFn(env.(vectors := env.vectors[self := data[..]]), t, e);
      LiveVecEntries(env, self, data[..], t, e, n);
      err := StoreEntries(live);
    }
  }

  // -----------------------------------------------------------------------
  // TinyQuadraticMatrix.

  class TinyMatrix {
    /** The dimension `n`, a template argument. */
    const n: nat
    /** `data_[n * n]`, stored column by column ("the fortran way"). */
    const data: array<real>

    predicate Valid()
    {
      data.Length == n * n
    }

    /** `TinyQuadraticMatrix()`: the entries are left uninitialised. */
    constructor (n: nat)
      requires n > 0
      ensures this.n == n && Valid() && fresh(data)
    {
      this.n := n;
      data := new real[n * n];
    }

    /** `TinyQuadraticMatrix(t)`: every entry is t. */
    constructor Filled(n: nat, t: real)
      requires n > 0
      ensures this.n == n && Valid() && fresh(data)
      ensures forall k :: 0 <= k < n * n ==> data[k] == t
    {
      this.n := n;
      data := new real[n * n];
      new;
      Fill(t);
    }

    /** `size()`: the dimension, whose square is the number of entries. */
    function Size(): (r: nat)
      requires Valid()
      ensures r * r == data.Length
    {
      n
    }

    /** `M(i, j)` read: `data_[i - 1 + (j - 1) * n]`, after `RangeCheck`. */
    function Get(i: nat, j: nat): (r: Result<real, LinalgError>)
      requires Valid()
      reads data
      ensures r.Ok? <==> TinyValues.InRange(n, i, j)
      ensures r.Ok? ==> 0 <= MatIndex(n, i, j) < n * n && r.value == data[MatIndex(n, i, j)]
    {
      MatEntry(data[..], n, i, j)
    }

    /** `M(i, j) = x`. */
    method Set(i: nat, j: nat, x: real) returns (err: Option<LinalgError>)
      requires Valid()
      modifies data
      ensures err.None? <==> TinyValues.InRange(n, i, j)
      ensures err.None? ==> 0 <= MatIndex(n, i, j) < n * n && data[..] == old(data[..])[MatIndex(n, i, j) := x]
      ensures err.Some? ==> err == Some(RangeError) && data[..] == old(data[..])
    {
      if !TinyValues.InRange(n, i, j) {
        return Some(RangeError);
      }
      MatIndexBound(n, i, j);
      data[MatIndex(n, i, j)] := x;
      err := None;
    }

    /** `operator=(t)`: `std::fill` of all n * n entries. */
    method Fill(t: real)
      requires Valid()
      modifies data
      ensures forall k :: 0 <= k < n * n ==> data[k] == t
    {
      for k := 0 to n * n
        invariant forall m :: 0 <= m < k ==> data[m] == t
      {
        data[k] := t;
      }
    }

    /** `std::transform(data_, data_ + n * n, data_, f)`. */
    method Transform(f: real -> real)
      requires Valid()
      modifies data
      ensures forall k :: 0 <= k < n * n ==> data[k] == f(old(data[k]))
    {
      for k := 0 to n * n
        invariant forall m :: 0 <= m < k ==> data[m] == f(old(data[m]))
        invariant forall m :: k <= m < n * n ==> data[m] == old(data[m])
      {
        data[k] := f(data[k]);
      }
    }

    /** `*= t`: every entry becomes t * x. */
    method Scale(t: real)
      requires Valid()
      modifies data
      ensures forall k :: 0 <= k < n * n ==> data[k] == BoundTimes(t, old(data[k]))
    {
      Transform(x => BoundTimes(t, x));
    }

    /** `+= t`: every entry becomes t + x. */
    method AddScalar(t: real)
      requires Valid()
      modifies data
      ensures forall k :: 0 <= k < n * n ==> data[k] == BoundPlus(t, old(data[k]))
    {
      Transform(x => BoundPlus(t, x));
    }

    /** `-= t` as written: every entry becomes t - x. */
    method SubtractScalarAsWritten(t: real)
      requires Valid()
      modifies data
      ensures forall k :: 0 <= k < n * n ==> data[k] == BoundMinus(t, old(data[k]))
    {
      Transform(x => BoundMinus(t, x));
    }

    /** `-= t` as meant: every entry becomes x - t. */
    method SubtractScalar(t: real)
      requires Valid()
      modifies data
      ensures forall k :: 0 <= k < n * n ==> data[k] == MinusScalar(old(data[k]), t)
    {
      Transform(x => MinusScalar(x, t));
    }

    /** `+= Other`: a walk over the storage adding each entry of the other matrix; the
      * other matrix may be this one. */
    method AddMatrix(other: TinyMatrix)
      requires Valid() && other.Valid() && other.n == n
      modifies data
      ensures forall k :: 0 <= k < n * n ==> data[k] == old(data[k]) + old(other.data[k])
    {
      for k := 0 to n * n
        invariant forall m :: 0 <= m < k ==> data[m] == old(data[m]) + old(other.data[m])
        invariant forall m :: k <= m < n * n ==> data[m] == old(data[m]) && other.data[m] == old(other.data[m])
      {
        data[k] := data[k] + other.data[k];
      }
    }

    /** `-= Other`: `*(data_ + i) -= *(Other.data() + i)` for every i. */
    method SubtractMatrix(other: TinyMatrix)
      requires Valid() && other.Valid() && other.n == n
      modifies data
      ensures forall k :: 0 <= k < n * n ==> data[k] == old(data[k]) - old(other.data[k])
    {
      for k := 0 to n * n
        invariant forall m :: 0 <= m < k ==> data[m] == old(data[m]) - old(other.data[m])
        invariant forall m :: k <= m < n * n ==> data[m] == old(data[m]) && other.data[m] == old(other.data[m])
      {
        data[k] := data[k] - other.data[k];
      }
    }

    /** `operator=(Other)`, a `memcpy` of the n * n entries, and the
      * `std::copy` from the temporary in the assignment from an expression. */
    method Assign(other: TinyMatrix)
      requires Valid() && other.Valid() && other.n == n
      modifies data
      ensures data[..] == old(other.data[..])
    {
      for k := 0 to n * n
        invariant forall m :: 0 <= m < k ==> data[m] == old(other.data[m])
        invariant forall m :: k <= m < n * n ==> other.data[m] == old(other.data[m])
      {
        data[k] := other.data[k];
      }
    }

    /** The double loop `(*this)(i, j) = GetValue(i, j)(E)`, columns outside
      * and rows inside, reading the entries from `f`: it visits the storage
      * positions in order.  The first entry that fails stops it. */
    method StoreEntries(f: (nat, nat) -> Result<real, LinalgError>) returns (err: Option<LinalgError>)
      requires Valid()
      modifies data
      ensures err == ErrorOf(ColumnMajor(f, n))
      ensures err.None? ==> data[..] == ColumnMajor(f, n).value
    {
      ghost var xs: seq<real> := [];
      var p: nat := 0;
      var j := 1;
      while j != n + 1
        invariant 1 <= j <= n + 1
        invariant p == ColumnStart(n, j) && p <= data.Length
        invariant |xs| == p && Collect(ColumnMajorFn(f, n), p) == Ok(xs)
        invariant forall m :: 0 <= m < |xs| ==> data[m] == xs[m]
        decreases n + 1 - j
      {
        err, xs := StoreColumn(f, j, p, xs);
        if err.Some? {
          return;
        }
        p := p + n;
        j := j + 1;
      }
      AllColumns(n);
      assert data[..] == xs;
      err := None;
    }

    /** The inner loop of `StoreEntries`: rows 1..n of column j go to the
      * next n storage positions, starting at `p`. */
    method StoreColumn(f: (nat, nat) -> Result<real, LinalgError>, j: nat, p: nat, ghost done: seq<real>)
      returns (err: Option<LinalgError>, ghost xs: seq<real>)
      requires Valid() && 1 <= j <= n && p == ColumnStart(n, j) && p <= data.Length
      requires |done| == p && Collect(ColumnMajorFn(f, n), p) == Ok(done)
      requires forall m :: 0 <= m < p ==> data[m] == done[m]
      modifies data
      ensures err.Some? ==> err == ErrorOf(ColumnMajor(f, n))
      ensures err.None? ==> ColumnStart(n, j + 1) <= data.Length && |xs| == ColumnStart(n, j + 1)
      ensures err.None? ==> Collect(ColumnMajorFn(f, n), |xs|) == Ok(xs)
      ensures err.None? ==> forall m :: 0 <= m < |xs| ==> data[m] == xs[m]
    {
      xs := done;
      var q := p;
      var i := 1;
      while i != n + 1
        invariant 1 <= i <= n + 1
        invariant q == ColumnStart(n, j) + (i - 1) && q <= data.Length
        invariant |xs| == q && Collect(ColumnMajorFn(f, n), q) == Ok(xs)
        invariant forall m :: 0 <= m < |xs| ==> data[m] == xs[m]
        decreases n + 1 - i
      {
        StorageStep(f, n, i, j, q, xs);
        var x := f(i, j);
        if x.Err? {
          CollectFails(ColumnMajorFn(f, n), q + 1, n * n);
          return Some(x.error), xs;
        }
        data[q] := x.value;
        xs := xs + [x.value];
        q := q + 1;
        i := i + 1;
      }
      err := None;
    }

    /** `TinyQuadraticMatrix(E)`: a new matrix whose entry (i, j) is
      * `GetValue(i, j)(E)`.  The expression's dimension is not compared
      * with n. */
    static method FromExpression(n: nat, env: TinyOperands, t: string, e: Node) returns (m: TinyMatrix, err: Option<LinalgError>)
      requires n > 0
      ensures fresh(m) && fresh(m.data) && m.n == n && m.Valid()
      ensures err == ErrorOf(ColumnMajor(MatEntryFn(env, t, e), n))
      ensures err.None? ==> m.data[..] == ColumnMajor(MatEntryFn(env, t, e), n).value
    {
      m := new TinyMatrix(n);
      err := m.StoreEntries(MatEntryFn(env, t, e));
    }

    /** `operator=(E)`.  When `CountOccurrence` finds this matrix in the
      * expression, the entries go into a temporary first and are then
      * copied in; otherwise each is written as soon as it is read. */
    method AssignFrom(env: TinyOperands, t: string, e: Node, self: nat) returns (err: Option<LinalgError>)
      requires Valid() && self in env.matrices && env.matrices[self] == data[..] && CapturedByReference(e)
      modifies data
      ensures err == ErrorOf(ColumnMajor(MatEntryFn(env, t, e), n))
      ensures err.None? ==> data[..] == ColumnMajor(MatEntryFn(env, t, e), n).value
      ensures DynamicCount(e, [], External(self)) > 0 && err.Some? ==> data[..] == old(data[..])
    {
      if DynamicCount(e, [], External(self)) > 0 {
        if n == 0 {
          err := StoreEntries(MatEntryFn(env, t, e));
          return;
        }
        var tmp, terr := FromExpression(n, env, t, e);
        if terr.Some? {
          return terr;
        }
        Assign(tmp);
        err := None;
      } else {
        LinalgProofs.UncountedIsUnmentioned(e, self);
        err := AssignInPlace(env, t, e, self);
      }
    }

    /** The case without aliasing: the expression is read with this matrix
      * as it is while being written; since the expression does not mention
      * it, the entries are those it had at the start. */
    method AssignInPlace(env: TinyOperands, t: string, e: Node, self: nat) returns (err: Option<LinalgError>)
      requires Valid() && !Mentions(e, self)
      modifies data
      ensures err == ErrorOf(ColumnMajor(MatEntryFn(env, t, e), n))
      ensures err.None? ==> data[..] == ColumnMajor(MatEntryFn(env, t, e), n).value
    {
      var live := MatEntryFn(env.(matrices := env.matrices[self := data[..]]), t, e);
      LiveMatEntries(env, self, data[..], t, e, n);
      err := StoreEntries(live);
    }
  }

  // -----------------------------------------------------------------------
  // Row and column setters, row and column extraction.

  /** `d` is `d0` with the entries (i, j2) of row i for j2 < jmax set to
    * `value`; `RowSet(d, d0, n, i, value, n + 1)` is the whole row. */
  ghost predicate RowSet(d: seq<real>, d0: seq<real>, n: nat, i: nat, value: real, jmax: nat)
  {
    |d| == |d0| == n * n &&
    forall i2: nat, j2: nat :: TinyValues.InRange(n, i2, j2) ==>
      MatEntry(d, n, i2, j2) == if i2 == i && j2 < jmax then Ok(value) else MatEntry(d0, n, i2, j2)
  }

  /** `d` is `d0` with the entries (i2, j) of column j for i2 < imax set to
    * `value`. */
  ghost predicate ColumnSet(d: seq<real>, d0: seq<real>, n: nat, j: nat, value: real, imax: nat)
  {
    |d| == |d0| == n * n &&
    forall i2: nat, j2: nat :: TinyValues.InRange(n, i2, j2) ==>
      MatEntry(d, n, i2, j2) == if j2 == j && i2 < imax then Ok(value) else MatEntry(d0, n, i2, j2)
  }

  /** Writing entry (i, j) changes that entry only. */
  lemma WriteOneEntry(d: seq<real>, n: nat, i: nat, j: nat, x: real, i2: nat, j2: nat)
    requires |d| == n * n && TinyValues.InRange(n, i, j) && TinyValues.InRange(n, i2, j2)
    ensures 0 <= MatIndex(n, i, j) < n * n
    ensures MatEntry(d[MatIndex(n, i, j) := x], n, i2, j2) ==
            if i2 == i && j2 == j then Ok(x) else MatEntry(d, n, i2, j2)
  {
    MatIndexBound(n, i, j);
    MatIndexBound(n, i2, j2);
    if MatIndex(n, i2, j2) == MatIndex(n, i, j) {
      MatIndexInjective(n, i2, j2, i, j);
    }
  }

  lemma RowStep(d: seq<real>, d0: seq<real>, n: nat, i: nat, value: real, j: nat)
    requires RowSet(d, d0, n, i, value, j) && TinyValues.InRange(n, i, j)
    ensures 0 <= MatIndex(n, i, j) < n * n
    ensures RowSet(d[MatIndex(n, i, j) := value], d0, n, i, value, j + 1)
  {
    MatIndexBound(n, i, j);
    forall i2: nat, j2: nat | TinyValues.InRange(n, i2, j2)
      ensures MatEntry(d[MatIndex(n, i, j) := value], n, i2, j2) ==
              if i2 == i && j2 < j + 1 then Ok(value) else MatEntry(d0, n, i2, j2)
    {
      WriteOneEntry(d, n, i, j, value, i2, j2);
    }
  }

  lemma ColumnStep(d: seq<real>, d0: seq<real>, n: nat, j: nat, value: real, i: nat)
    requires ColumnSet(d, d0, n, j, value, i) && TinyValues.InRange(n, i, j)
    ensures 0 <= MatIndex(n, i, j) < n * n
    ensures ColumnSet(d[MatIndex(n, i, j) := value], d0, n, j, value, i + 1)
  {
    MatIndexBound(n, i, j);
    forall i2: nat, j2: nat | TinyValues.InRange(n, i2, j2)
      ensures MatEntry(d[MatIndex(n, i, j) := value], n, i2, j2) ==
              if j2 == j && i2 < i + 1 then Ok(value) else MatEntry(d0, n, i2, j2)
    {
      WriteOneEntry(d, n, i, j, value, i2, j2);
    }
  }

  /** `SetEntriesInRowTo(i, Value, M)`: `M(i, j) = Value` for j = 1..n.  An
    * out-of-range row fails the range check at the first entry. */
  method SetEntriesInRowTo(i: nat, value: real, m: TinyMatrix) returns (err: Option<LinalgError>)
    requires m.Valid()
    modifies m.data
    ensures err == if m.n > 0 && !(0 < i < m.n + 1) then Some(RangeError) else None
    ensures err.Some? ==> m.data[..] == old(m.data[..])
    ensures err.None? ==> RowSet(m.data[..], old(m.data[..]), m.n, i, value, m.n + 1)
  {
    var n := m.n;
    for j := 1 to n + 1
      invariant j > 1 ==> 0 < i < n + 1
      invariant j == 1 ==> m.data[..] == old(m.data[..])
      invariant RowSet(m.data[..], old(m.data[..]), n, i, value, j)
    {
      ghost var before := m.data[..];
      err := m.Set(i, j, value);
      if err.Some? {
        return;
      }
      RowStep(before, old(m.data[..]), n, i, value, j);
    }
    err := None;
  }

  /** `SetEntriesInColTo(j, Value, M)`: `M(i, j) = Value` for i = 1..n. */
  method SetEntriesInColTo(j: nat, value: real, m: TinyMatrix) returns (err: Option<LinalgError>)
    requires m.Valid()
    modifies m.data
    ensures err == if m.n > 0 && !(0 < j < m.n + 1) then Some(RangeError) else None
    ensures err.Some? ==> m.data[..] == old(m.data[..])
    ensures err.None? ==> ColumnSet(m.data[..], old(m.data[..]), m.n, j, value, m.n + 1)
  {
    var n := m.n;
    for i := 1 to n + 1
      invariant i > 1 ==> 0 < j < n + 1
      invariant i == 1 ==> m.data[..] == old(m.data[..])
      invariant ColumnSet(m.data[..], old(m.data[..]), n, j, value, i)
    {
      ghost var before := m.data[..];
      err := m.Set(i, j, value);
      if err.Some? {
        return;
      }
      ColumnStep(before, old(m.data[..]), n, j, value, i);
    }
    err := None;
  }

  /** `ExtractRow<i>(M)`: a new vector with `Result(j) = M(i, j)` for j =
    * 1..n.  An out-of-range row fails the range check. */
  method ExtractRow(i: nat, m: TinyMatrix) returns (r: TinyVector, err: Option<LinalgError>)
    requires m.Valid() && m.n > 0
    ensures fresh(r) && fresh(r.data) && r.n == m.n && r.Valid()
    ensures err == if 0 < i < m.n + 1 then None else Some(RangeError)
    ensures err.None? ==>
              forall j: nat :: 1 <= j <= m.n ==> m.Get(i, j).Ok? && r.data[j - 1] == m.Get(i, j).value
  {
    var n := m.n;
    r := new TinyVector(n);
    for j := 1 to n + 1
      invariant j > 1 ==> 0 < i < n + 1
      invariant forall j2: nat :: 1 <= j2 < j ==> m.Get(i, j2).Ok? && r.data[j2 - 1] == m.Get(i, j2).value
    {
      var x := m.Get(i, j);
      if x.Err? {
        return r, Some(RangeError);
      }
      var serr := r.Set(j, x.value);
    }
    err := None;
  }

  /** `ExtractColumn<i>(M)`: a new vector with `Result(j) = M(j, i)` for j
    * = 1..n. */
  method ExtractColumn(i: nat, m: TinyMatrix) returns (r: TinyVector, err: Option<LinalgError>)
    requires m.Valid() && m.n > 0
    ensures fresh(r) && fresh(r.data) && r.n == m.n && r.Valid()
    ensures err == if 0 < i < m.n + 1 then None else Some(RangeError)
    ensures err.None? ==>
              forall j: nat :: 1 <= j <= m.n ==> m.Get(j, i).Ok? && r.data[j - 1] == m.Get(j, i).value
  {
    var n := m.n;
    r := new TinyVector(n);
    for j := 1 to n + 1
      invariant j > 1 ==> 0 < i < n + 1
      invariant forall j2: nat :: 1 <= j2 < j ==> m.Get(j2, i).Ok? && r.data[j2 - 1] == m.Get(j2, i).value
    {
      var x := m.Get(j, i);
      if x.Err? {
        return r, Some(RangeError);
      }
      var serr := r.Set(j, x.value);
    }
    err := None;
  }
}
