// The dense, 1-based `Vector` of the `Linalg` library (linalg/Vector.h): a
// `std::vector` of numbers read and written as `V(j)`, filled, assigned
// from vector expressions (through a temporary when the expression refers
// to the vector itself), incremented by `+=` and `-=`, swapped and resized.
module SparseVector {
  import opened Wrappers
  import opened Ops
  import opened Tags
  import opened Nodes
  import opened Semantics
  import opened LinalgExpr
  import opened LinalgProofs
  import opened LinalgSimplify
  import Simplification
  import opened Counting

  /** A vector expression with an entry extractor at every node
    * (`RowExtractor<VectorExpression>`): vector leaves and scalars,
    * defined unary operations, the row sum of a matrix expression, powers
    * with denominator 1,
    * element-wise binary operations, and products of a matrix or a vector
    * with a vector. */
  predicate VecExtractable(e: Node)
  {
    match e
    case Leaf(_, _) => IsVectorLeaf(e)
    case Scalar(_, _) => true
    case Un(op, a) =>
      if op == RowSumOfMatrix then Extractable(a) else UnaryDefined(op) && VecExtractable(a)
    case Pow(_, n, a) => n == 1 && VecExtractable(a)
    case Bin(op, l, r) =>
      if op != Multiply then ApplyBinary(op, 1.0, 1.0).Some? && VecExtractable(l) && VecExtractable(r)
      else
        (OperandTag(l).MatrixExpr? && OperandTag(r).VectorExpr? && Extractable(l) && VecExtractable(r)) ||
        (OperandTag(l).VectorExpr? && OperandTag(r).VectorExpr? && VecExtractable(l) && VecExtractable(r))
    case _ => false
  }

  /** The entry extractor of an expression as a function of the index. */
  function EntryFn(env: Operands, e: Node): nat -> Result<real, LinalgError>
  {
    (i: nat) => VecAt(env, e, i)
  }

  /** Entries `1..n` of an expression, or the error of the first entry that
    * fails. */
  function EntriesUpTo(env: Operands, e: Node, n: nat): (r: Result<seq<real>, LinalgError>)
    ensures r.Ok? ==> |r.value| == n
  {
    Collect(EntryFn(env, e), n)
  }

  /** The entries a vector gets from an expression (`Vector(const OtherT&)`
    * and `operator=(const OtherT&)`): a tree without extractors is
    * rejected, then the size is counted, then the entries are extracted in
    * order. */
  function Evaluate(env: Operands, e: Node): Result<seq<real>, LinalgError>
  {
    if !VecExtractable(e) then Err(NotCompiled)
    else
      var n :- VecRows(env, e, Fixed);
      EntriesUpTo(env, e, n)
  }

  /** Entry-by-entry sum of two equally long vectors. */
  function AddSeq(a: seq<real>, b: seq<real>): (r: seq<real>)
    requires |a| == |b|
    ensures |r| == |a| && forall i :: 0 <= i < |a| ==> r[i] == a[i] + b[i]
  {
    seq(|a|, i requires 0 <= i < |a| => a[i] + b[i])
  }

  /** The entries of `v += e` (`operator+=`): the size of `e` must be the
    * size of `v` (`std::range_error` otherwise), and each entry of `e` is
    * added to the entry of `v`. */
  function Summed(env: Operands, e: Node, v: seq<real>): Result<seq<real>, LinalgError>
  {
    if !VecExtractable(e) then Err(NotCompiled)
    else
      var n :- VecRows(env, e, Fixed);
      if n != |v| then Err(RangeError)
      else
        var xs :- EntriesUpTo(env, e, n);
        Ok(AddSeq(v, xs))
  }

  /** The first `|b|` entries of `a` incremented by `b`, the rest of `a` as it
    * is: the state of `+=` after `|b|` entries. */
  function AddedPrefix(a: seq<real>, b: seq<real>): (r: seq<real>)
    requires |b| <= |a|
    ensures |r| == |a|
  {
    AddSeq(a[..|b|], b) + a[|b|..]
  }

  /** `n` copies of `t`. */
  function Filled(n: nat, t: real): (r: seq<real>)
    ensures |r| == n && forall i :: 0 <= i < n ==> r[i] == t
  {
    seq(n, _ => t)
  }

  /** `std::vector::resize(n)`: the first `n` entries are kept, and new
    * entries are 0. */
  function Resized(v: seq<real>, n: nat): (r: seq<real>)
    ensures |r| == n
    ensures forall i :: 0 <= i < n ==> r[i] == if i < |v| then v[i] else 0.0
  {
    if n <= |v| then v[..n] else v + Filled(n - |v|, 0.0)
  }

  /** The leaf a vector is captured by when it occurs in its own assignment
    * or `+=`. */
  function SelfVector(self: nat): Node
  {
    Leaf(Object("Vector", Some(VectorExpr("T", "Allocator")), true), self)
  }

  // -----------------------------------------------------------------------
  // Properties of the specifications.

  /** The entries up to `n` are the extracted entries, and the collection
    * fails exactly when one of them fails. */
  lemma EntriesUpToMeaning(env: Operands, e: Node, n: nat)
    ensures EntriesUpTo(env, e, n).Ok? <==> AllEntriesOk(env, e, n)
    ensures EntriesUpTo(env, e, n).Ok? ==>
              forall i: nat :: 1 <= i <= n ==> EntriesUpTo(env, e, n).value[i - 1] == VecAt(env, e, i).value
  {
    var f := EntryFn(env, e);
    CollectMeaning(f, n);
    assert EntriesUpTo(env, e, n) == Collect(f, n);
    if EntriesUpTo(env, e, n).Err? {
      var k: nat :| 1 <= k <= n && f(k).Err?;
      assert VecAt(env, e, k).Err?;
    } else {
      var xs := EntriesUpTo(env, e, n).value;
      forall i: nat | 1 <= i <= n
        ensures VecAt(env, e, i).Ok? && xs[i - 1] == VecAt(env, e, i).value
      {
        assert f(i) == VecAt(env, e, i);
        assert xs[i - 1] == Collect(f, n).value[i - 1];
      }
    }
  }

  /** Entries `1..n` of the expression can all be extracted. */
  predicate AllEntriesOk(env: Operands, e: Node, n: nat)
  {
    forall i: nat :: 1 <= i <= n ==> VecAt(env, e, i).Ok?
  }

  /** Once an entry fails, every longer extraction fails with its error. */
  lemma EntriesUpToFails(env: Operands, e: Node, k: nat, n: nat)
    requires k <= n && EntriesUpTo(env, e, k).Err?
    ensures EntriesUpTo(env, e, n) == Err(EntriesUpTo(env, e, k).error)
  {
    CollectFails(EntryFn(env, e), k, n);
  }

  lemma EntriesUpToStep(env: Operands, e: Node, xs: seq<real>, i: nat)
    requires 1 <= i && EntriesUpTo(env, e, i - 1) == Ok(xs) && VecAt(env, e, i).Ok?
    ensures EntriesUpTo(env, e, i) == Ok(xs + [VecAt(env, e, i).value])
  {
  }

  /** A vector assigned from an expression has the counted size, and entry
    * `j` is entry `j` of the expression. */
  lemma EvaluateMeaning(env: Operands, e: Node)
    ensures Evaluate(env, e).Ok? <==>
              VecExtractable(e) && VecRows(env, e, Fixed).Ok? && AllEntriesOk(env, e, VecRows(env, e, Fixed).value)
    ensures Evaluate(env, e).Ok? ==>
              |Evaluate(env, e).value| == VecRows(env, e, Fixed).value &&
              forall j: nat :: 1 <= j <= |Evaluate(env, e).value| ==>
                Evaluate(env, e).value[j - 1] == VecAt(env, e, j).value
  {
    if VecExtractable(e) && VecRows(env, e, Fixed).Ok? {
      EntriesUpToMeaning(env, e, VecRows(env, e, Fixed).value);
    }
  }

  /** `v += e` succeeds exactly when the expression compiles, has the size
    * of `v` and all its entries, and then adds entry by entry. */
  lemma SummedMeaning(env: Operands, e: Node, v: seq<real>)
    ensures Summed(env, e, v).Ok? <==>
              VecExtractable(e) && VecRows(env, e, Fixed) == Ok(|v|) && AllEntriesOk(env, e, |v|)
    ensures Summed(env, e, v).Ok? ==>
              |Summed(env, e, v).value| == |v| &&
              forall j: nat :: 1 <= j <= |v| ==> Summed(env, e, v).value[j - 1] == v[j - 1] + VecAt(env, e, j).value
    ensures VecExtractable(e) && VecRows(env, e, Fixed).Ok? && VecRows(env, e, Fixed) != Ok(|v|) ==>
              Summed(env, e, v) == Err(RangeError)
  {
    EntriesUpToMeaning(env, e, |v|);
  }

  /** `v -= e` subtracts entry by entry. */
  lemma SubtractedMeaning(env: Operands, e: Node, v: seq<real>)
    requires Summed(env, Un(UMinus, e), v).Ok?
    ensures |Summed(env, Un(UMinus, e), v).value| == |v|
    ensures forall j: nat :: 1 <= j <= |v| ==>
              VecAt(env, e, j).Ok? && Summed(env, Un(UMinus, e), v).value[j - 1] == v[j - 1] - VecAt(env, e, j).value
  {
    SummedMeaning(env, Un(UMinus, e), v);
    forall j: nat | 1 <= j <= |v|
      ensures VecAt(env, e, j).Ok? && Summed(env, Un(UMinus, e), v).value[j - 1] == v[j - 1] - VecAt(env, e, j).value
    {
      assert VecAt(env, Un(UMinus, e), j).Ok?;
    }
  }

  /** `v += e` assigns `v + e`: the loop that adds in place computes what the
    * temporary of the aliasing case computes. */
  lemma {:induction false} SummedIsAssignedSum(env: Operands, e: Node, self: nat)
    requires self in env.vectors && VecRows(env, e, Fixed) == Ok(|env.vectors[self]|)
    ensures Summed(env, e, env.vectors[self]) == Evaluate(env, Bin(Plus, SelfVector(self), e))
  {
    var v := env.vectors[self];
    var s := Bin(Plus, SelfVector(self), e);
    SumEntries(env, e, self, |v|);
    assert v[..|v|] == v;
    assert VecRows(env, SelfVector(self), Fixed) == Ok(|v|);
    assert VecRows(env, s, Fixed) == Ok(|v|);
    assert VecExtractable(s) == VecExtractable(e);
  }

  lemma {:induction false} SumEntries(env: Operands, e: Node, self: nat, k: nat)
    requires self in env.vectors && k <= |env.vectors[self]|
    ensures var v := env.vectors[self];
      EntriesUpTo(env, Bin(Plus, SelfVector(self), e), k) ==
        match EntriesUpTo(env, e, k)
        case Ok(xs) => Ok(AddSeq(v[..k], xs))
        case Err(x) => Err(x)
  {
    if k > 0 {
      SumEntries(env, e, self, k - 1);
      var v := env.vectors[self];
      assert VecAt(env, SelfVector(self), k) == Ok(v[k - 1]);
      if EntriesUpTo(env, e, k).Ok? {
        var xs := EntriesUpTo(env, e, k - 1).value;
        var x := VecAt(env, e, k).value;
        assert v[..k] == v[..k - 1] + [v[k - 1]];
        assert AddSeq(v[..k], xs + [x]) == AddSeq(v[..k - 1], xs) + [v[k - 1] + x];
      }
    }
  }

  /** Adding entry `|b| + 1` extends the incremented prefix by that entry. */
  lemma AddedPrefixStep(a: seq<real>, b: seq<real>, x: real)
    requires |b| < |a|
    ensures AddedPrefix(a, b)[|b| := AddedPrefix(a, b)[|b|] + x] == AddedPrefix(a, b + [x])
  {
    var k := |b|;
    var lhs := AddedPrefix(a, b)[k := AddedPrefix(a, b)[k] + x];
    var rhs := AddedPrefix(a, b + [x]);
    forall i | 0 <= i < |a|
      ensures lhs[i] == rhs[i]
    {
      if i < k {
        assert lhs[i] == a[i] + b[i];
      } else if i == k {
        assert lhs[i] == a[k] + x;
      }
    }
  }

  /** Nothing added, the entries are those of `a`; everything added, the
    * entry-by-entry sum. */
  lemma AddedPrefixEnds(a: seq<real>, b: seq<real>)
    requires |b| == |a|
    ensures AddedPrefix(a, []) == a
    ensures AddedPrefix(a, b) == AddSeq(a, b)
  {
    assert a[..0] == [] && a[0..] == a;
    assert a[..|b|] == a && a[|b|..] == [];
  }

  /** An expression that does not mention `self` reads the same entries
    * whatever value `self` has. */
  lemma LiveEntry(env: Operands, self: nat, v: seq<real>, e: Node, i: nat)
    requires !Mentions(e, self)
    ensures VecAt(env.(vectors := env.vectors[self := v]), e, i) == VecAt(env, e, i)
  {
    FrameVec(env, env.(vectors := env.vectors[self := v]), self, e, i);
  }

  /** Growing a vector and shrinking it back gives the vector again;
    * shrinking keeps a prefix. */
  lemma ResizedRoundTrip(v: seq<real>, n: nat)
    ensures |v| <= n ==> Resized(Resized(v, n), |v|) == v
    ensures n <= |v| ==> Resized(v, n) == v[..n]
  {
  }

  // -----------------------------------------------------------------------
  // The class.

  class Vector {
    var data: seq<real>

    /** `Vector(size)`: `size` entries 0. */
    constructor (size: nat)
      ensures data == Filled(size, 0.0)
    {
      data := Filled(size, 0.0);
    }

    /** The copy constructor copies the entries one by one. */
    constructor Copy(other: Vector)
      ensures data == other.data
    {
      var d: seq<real> := [];
      for i := 0 to |other.data|
        invariant d == other.data[..i]
      {
        d := d + [other.data[i]];
      }
      assert other.data[..|other.data|] == other.data;
      data := d;
    }

    /** The copy assignment; assigning a vector to itself changes nothing. */
    method Assign(other: Vector)
      modifies this
      ensures data == old(other.data)
    {
      if this != other {
        data := other.data;
      }
    }

    /** `swap`: the two vectors exchange their entries. */
    method Swap(other: Vector)
      modifies this, other
      ensures data == old(other.data) && other.data == old(data)
    {
      data, other.data := other.data, data;
    }

    /** `resize(n)`. */
    method Resize(n: nat)
      modifies this
      ensures data == Resized(old(data), n)
    {
      data := Resized(data, n);
    }

    /** `V(j)` after `RangeCheck(j)`: entry `j`, counted from 1, read the way
      * an expression leaf referring to this vector reads it. */
    function At(j: nat): (r: Result<real, LinalgError>)
      reads this
      ensures r.Ok? <==> 1 <= j <= |data|
      ensures r.Ok? ==> r.value == data[j - 1]
      ensures r == VecAt(Operands(map[], map[0 := data]), SelfVector(0), j)
    {
      if j > |data| || j == 0 then Err(RangeError) else Ok(data[j - 1])
    }

    /** `V(j) = x`. */
    method Set(j: nat, x: real) returns (err: Option<LinalgError>)
      modifies this
      ensures !(1 <= j <= |old(data)|) ==> err == Some(RangeError) && data == old(data)
      ensures 1 <= j <= |old(data)| ==> err.None? && data == old(data)[j - 1 := x] && At(j) == Ok(x)
    {
      if j > |data| || j == 0 {
        return Some(RangeError);
      }
      data := data[j - 1 := x];
      err := None;
    }

    /** `operator=(const T&)`: every entry becomes `t`, the size is kept. */
    method Fill(t: real)
      modifies this
      ensures data == Filled(|old(data)|, t)
      ensures forall j: nat :: 1 <= j <= |data| ==> At(j) == Ok(t)
    {
      for i := 0 to |data|
        invariant |data| == |old(data)|
        invariant forall k :: 0 <= k < i ==> data[k] == t
      {
        data := data[i := t];
      }
    }

    /** `Vector(const OtherT&)`: the size is counted, then the entries are
      * appended one by one. */
    static method FromExpression(env: Operands, e: Node) returns (r: Result<Vector, LinalgError>)
      ensures r.Ok? <==> Evaluate(env, e).Ok?
      ensures r.Err? ==> r.error == Evaluate(env, e).error
      ensures r.Ok? ==> fresh(r.value) && r.value.data == Evaluate(env, e).value
    {
      if !VecExtractable(e) {
        return Err(NotCompiled);
      }
      var nr := VecRows(env, e, Fixed);
      if nr.Err? {
        return Err(nr.error);
      }
      var xs := Entries(env, e, nr.value);
      if xs.Err? {
        return Err(xs.error);
      }
      var v := new Vector(0);
      v.data := xs.value;
      r := Ok(v);
    }

    /** The `push_back` loop: entries `1..n` in order, or the first error. */
    static method Entries(env: Operands, e: Node, n: nat) returns (r: Result<seq<real>, LinalgError>)
      ensures r == EntriesUpTo(env, e, n)
    {
      var xs: seq<real> := [];
      for i := 1 to n + 1
        invariant EntriesUpTo(env, e, i - 1) == Ok(xs)
      {
        var x := VecAt(env, e, i);
        if x.Err? {
          EntriesUpToFails(env, e, i, n);
          return Err(x.error);
        }
        EntriesUpToStep(env, e, xs, i);
        xs := xs + [x.value];
      }
      r := Ok(xs);
    }

    /** `operator=(const OtherT&)`.  When `CountOccurrence` finds this vector
      * in the expression, the entries are built in a temporary, which is
      * swapped in, so that an error leaves the vector as it was.  Otherwise
      * the vector is cleared and the entries appended one by one while the
      * expression is read from the vector as it is at that moment: the
      * expression does not mention it, so it reads the same entries. */
    method AssignFrom(env: Operands, e: Node, self: nat) returns (err: Option<LinalgError>)
      requires self in env.vectors && env.vectors[self] == data && CapturedByReference(e)
      modifies this
      ensures err == ErrorOf(Evaluate(env, e))
      ensures Evaluate(env, e).Ok? ==> data == Evaluate(env, e).value
      ensures (!VecExtractable(e) || VecRows(env, e, Fixed).Err?) ==> data == old(data)
      ensures DynamicCount(e, [], External(self)) > 0 && err.Some? ==> data == old(data)
    {
      if !VecExtractable(e) {
        return Some(NotCompiled);
      }
      var nr := VecRows(env, e, Fixed);
      if nr.Err? {
        return Some(nr.error);
      }
      var n := nr.value;
      UncountedIsUnmentioned(e, self);
      if DynamicCount(e, [], External(self)) > 0 {
        var tmp := Entries(env, e, n);
        if tmp.Err? {
          return Some(tmp.error);
        }
        data := tmp.value;
        err := None;
      } else {
        err := AssignInPlace(env, e, self, n);
      }
    }

    /** The case without aliasing: the vector is cleared, then each entry of
      * the expression, read from the vector as it is at that moment, is
      * appended. */
    method AssignInPlace(env: Operands, e: Node, self: nat, n: nat) returns (err: Option<LinalgError>)
      requires !Mentions(e, self)
      modifies this
      ensures err == ErrorOf(EntriesUpTo(env, e, n))
      ensures err.None? ==> data == EntriesUpTo(env, e, n).value
    {
      data := [];
      for i := 1 to n + 1
        invariant EntriesUpTo(env, e, i - 1) == Ok(data)
      {
        LiveEntry(env, self, data, e, i);
        var x := VecAt(env.(vectors := env.vectors[self := data]), e, i);
        if x.Err? {
          EntriesUpToFails(env, e, i, n);
          return Some(x.error);
        }
        EntriesUpToStep(env, e, data, i);
        data := data + [x.value];
      }
      err := None;
    }

    /** `operator+=(const OtherT&)`: after counting the size of the
      * expression, a different size is a `std::range_error`.  An expression
      * that mentions this vector is delegated to `*this = *this + Other`;
      * otherwise each entry of the expression is added to the stored one. */
    method PlusAssign(env: Operands, e: Node, self: nat) returns (err: Option<LinalgError>)
      requires self in env.vectors && env.vectors[self] == data && CapturedByReference(e)
      modifies this
      ensures err == ErrorOf(Summed(env, e, old(data)))
      ensures Summed(env, e, old(data)).Ok? ==> data == Summed(env, e, old(data)).value
    {
      if !VecExtractable(e) {
        return Some(NotCompiled);
      }
      var nr := VecRows(env, e, Fixed);
      if nr.Err? {
        return Some(nr.error);
      }
      var n := nr.value;
      if n != |data| {
        return Some(RangeError);
      }
      UncountedIsUnmentioned(e, self);
      if DynamicCount(e, [], External(self)) > 0 {
        SummedIsAssignedSum(env, e, self);
        err := AssignFrom(env, Bin(Plus, SelfVector(self), e), self);
      } else {
        err := AddInPlace(env, e, self, n);
        if err.None? {
          AddedPrefixEnds(old(data), EntriesUpTo(env, e, n).value);
        }
      }
    }

    /** The `+=` loop without aliasing: entry `i` of the expression, read from
      * the vector as it is at that moment, is added to entry `i`. */
    method AddInPlace(env: Operands, e: Node, self: nat, n: nat) returns (err: Option<LinalgError>)
      requires |data| == n && !Mentions(e, self)
      modifies this
      ensures err == ErrorOf(EntriesUpTo(env, e, n))
      ensures err.None? ==> data == AddedPrefix(old(data), EntriesUpTo(env, e, n).value)
    {
      ghost var orig := data;
      ghost var xs: seq<real> := [];
      AddedPrefixEnds(orig, orig);
      for i := 0 to n
        invariant |data| == n && |xs| == i
        invariant EntriesUpTo(env, e, i) == Ok(xs)
        invariant data == AddedPrefix(orig, xs)
      {
        LiveEntry(env, self, data, e, i + 1);
        var x := VecAt(env.(vectors := env.vectors[self := data]), e, i + 1);
        if x.Err? {
          EntriesUpToFails(env, e, i + 1, n);
          return Some(x.error);
        }
        EntriesUpToStep(env, e, xs, i + 1);
        AddedPrefixStep(orig, xs, x.value);
        data := data[i := data[i] + x.value];
        xs := xs + [x.value];
      }
      err := None;
    }

    /** `operator-=(const OtherT&)`: `+=` of `Simplify(-e)`, the negation
      * simplified with the library's own rules (`Negated`); a negation that
      * does not simplify does not compile. */
    method MinusAssign(env: Operands, e: Node, self: nat, fuel: nat) returns (err: Option<LinalgError>)
      requires self in env.vectors && env.vectors[self] == data && CapturedByReference(e)
      modifies this
      ensures Negated(e, fuel).Err? ==> err == Some(NotCompiled) && data == old(data)
      ensures Negated(e, fuel).Ok? ==> err == ErrorOf(Summed(env, Negated(e, fuel).value, old(data)))
      ensures Negated(e, fuel).Ok? && Summed(env, Negated(e, fuel).value, old(data)).Ok? ==>
                data == Summed(env, Negated(e, fuel).value, old(data)).value
    {
      var neg := Negated(e, fuel);
      if neg.Err? {
        return Some(NotCompiled);
      }
      NegatedByRef(e, fuel);
      err := PlusAssign(env, neg.value, self);
    }
  }

  /** `V -= A + B` for two vectors of one type: the library simplifies
    * `-(A + B)` to `-(2 * A)`, so with `V = [0]`, `A = [2]` and `B = [3]`
    * the vector becomes `[-4]`, not the `[-5]` that adding `-(A + B)`
    * gives. */
  lemma MinusAssignOfSumAsWritten()
    ensures Negated(Bin(Plus, SelfVector(1), SelfVector(2)), 3)
            == Ok(Un(UMinus, Bin(Multiply, Scalar(2.0, VectorExpr("T", "Allocator")), SelfVector(1))))
    ensures Summed(Operands(map[], map[0 := [0.0], 1 := [2.0], 2 := [3.0]]),
                   Un(UMinus, Bin(Plus, SelfVector(1), SelfVector(2))), [0.0]) == Ok([-5.0])
    ensures Summed(Operands(map[], map[0 := [0.0], 1 := [2.0], 2 := [3.0]]),
                   Negated(Bin(Plus, SelfVector(1), SelfVector(2)), 3).value, [0.0]) == Ok([-4.0])
  {
    NegatedSumOfVectors();
    var env := Operands(map[], map[0 := [0.0], 1 := [2.0], 2 := [3.0]]);
    SummedAtOne(env, Un(UMinus, Bin(Plus, SelfVector(1), SelfVector(2))), -5.0);
    SummedAtOne(env, Un(UMinus, Bin(Multiply, Scalar(2.0, VectorExpr("T", "Allocator")), SelfVector(1))), -4.0);
  }

  lemma NegatedSumOfVectors()
    ensures Negated(Bin(Plus, SelfVector(1), SelfVector(2)), 3)
            == Ok(Un(UMinus, Bin(Multiply, Scalar(2.0, VectorExpr("T", "Allocator")), SelfVector(1))))
  {
    var a, b := SelfVector(1), SelfVector(2);
    var two := Scalar(2.0, VectorExpr("T", "Allocator"));
    var aw := Simplification.RuleSet.AsWritten;
    assert Simplification.Evoke(a, aw, 1) == Ok(a);
    assert Simplification.Evoke(two, aw, 1) == Ok(two);
    assert Simplification.Impl(Bin(Plus, a, b), aw, 1) == Ok(Bin(Multiply, two, a));
    assert Simplification.Impl(Bin(Multiply, two, a), aw, 1) == Ok(Bin(Multiply, two, a));
    assert Simplification.Evoke(Bin(Plus, a, b), aw, 2) == Ok(Bin(Multiply, two, a));
    assert Simplification.Evoke(Bin(Multiply, two, a), aw, 2) == Ok(Bin(Multiply, two, a));
    assert Simplification.Impl(Un(UMinus, Bin(Plus, a, b)), aw, 2) == Ok(Un(UMinus, Bin(Multiply, two, a)));
    assert Simplification.Impl(Un(UMinus, Bin(Multiply, two, a)), aw, 2) == Ok(Un(UMinus, Bin(Multiply, two, a)));
  }

  /** A one-entry vector plus an expression whose single entry is `x`. */
  lemma SummedAtOne(env: Operands, e: Node, x: real)
    requires VecExtractable(e) && VecRows(env, e, Fixed) == Ok(1) && VecAt(env, e, 1) == Ok(x)
    ensures Summed(env, e, [0.0]) == Ok([x])
  {
    EntriesUpToMeaning(env, e, 1);
    assert AllEntriesOk(env, e, 1);
    var xs := EntriesUpTo(env, e, 1).value;
    assert xs == [x] by {
      assert xs[0] == VecAt(env, e, 1).value;
    }
    assert AddSeq([0.0], xs) == [x];
  }
}
