// The strided iterator of the `Linalg` library (linalg/SliceIterator.h): a
// position in the entries of a vector and a stride.  Moving the iterator by
// one moves the position by the stride; comparisons look at the position
// only.  Positions are counted from 0, as `std::vector` iterators are.
module SliceIteration {

  /** `stride * offset`: the distance an iterator moves for `offset` steps. */
  function Step(stride: nat, offset: int): int
  {
    stride * offset
  }

  /** More steps in the same direction go further. */
  lemma StepBound(stride: nat, k: nat, n: nat)
    requires k <= n
    ensures 0 <= Step(stride, k) <= Step(stride, n)
  {
    assert Step(stride, n) - Step(stride, k) == stride * (n - k);
  }

  /** Steps add up. */
  lemma StepAdds(stride: nat, a: int, b: int)
    ensures Step(stride, a) + Step(stride, b) == Step(stride, a + b)
  {
  }

  /** With a non-zero stride, different step counts reach different
    * positions. */
  lemma StepInjective(stride: nat, a: int, b: int)
    requires stride > 0 && Step(stride, a) == Step(stride, b)
    ensures a == b
  {
    if a < b {
      assert stride * (b - a) == stride * (b - a - 1) + stride;
      MulNonNeg(stride, b - a - 1);
    } else if b < a {
      assert stride * (a - b) == stride * (a - b - 1) + stride;
      MulNonNeg(stride, a - b - 1);
    }
  }

  lemma MulNonNeg(a: int, b: int)
    requires a >= 0 && b >= 0
    ensures a * b >= 0
  {
  }

  /** A multiple of `s` divided by `s`. */
  lemma DivExact(s: nat, k: nat)
    requires s > 0
    ensures (s * k) / s == k
  {
    var q := (s * k) / s;
    var r := (s * k) % s;
    assert s * k == s * q + r;
    assert s * (k - q) == r;
    if k - q >= 1 {
      assert s * (k - q) == s * (k - q - 1) + s;
      MulNonNeg(s, k - q - 1);
    } else if k - q < 0 {
      assert s * (k - q) == -(s * (q - k));
      assert s * (q - k) == s * (q - k - 1) + s;
      MulNonNeg(s, q - k - 1);
    }
  }

  /** Division by a positive number does not grow a non-negative one. */
  lemma DivBound(d: nat, s: nat)
    requires s > 0
    ensures 0 <= d / s <= d
  {
    var q := d / s;
    var r := d % s;
    assert d == s * q + r;
    assert q >= 0;
    MulNonNeg(s - 1, q);
    assert s * q == (s - 1) * q + q;
  }

  // -----------------------------------------------------------------------
  // The distance of two iterators.

  /** 2^64: `std::size_t` and `std::ptrdiff_t` are 64 bits wide. */
  const Word: int := 0x1_0000_0000_0000_0000

  /** A signed 64-bit value read as `std::size_t` (two's complement). */
  function ToUnsigned(d: int): (u: int)
    ensures 0 <= u < Word
  {
    d % Word
  }

  /** An unsigned 64-bit value read as `std::ptrdiff_t`. */
  function ToSigned(u: int): int
    requires 0 <= u < Word
  {
    if u >= Word / 2 then u - Word else u
  }

  /** C++'s signed division, which truncates toward zero. */
  function TruncDiv(d: int, s: nat): int
    requires s > 0
  {
    if d >= 0 then d / s else -((-d) / s)
  }

  /** The values a `std::ptrdiff_t` holds. */
  predicate IsSigned64(d: int)
  {
    -Word / 2 <= d < Word / 2
  }

  /** `it1 - it2` as written: the position difference, a `ptrdiff_t`, is
    * divided in place by the `size_t` stride, so both are converted to the
    * unsigned type before the division and the quotient back to the signed
    * type. */
  function DistanceAsWritten(pos1: int, pos2: int, stride: nat): int
    requires stride > 0 && stride < Word && IsSigned64(pos1 - pos2)
  {
    ToSigned(ToUnsigned(pos1 - pos2) / stride)
  }

  /** The distance in steps that `it1 - it2` is meant to give: the position
    * difference divided by the stride. */
  function Distance(pos1: int, pos2: int, stride: nat): int
    requires stride > 0
  {
    TruncDiv(pos1 - pos2, stride)
  }

  /** Moving `k` steps and measuring the distance gives `k` back. */
  lemma DistanceOfMoved(pos: int, stride: nat, k: int)
    requires stride > 0
    ensures Distance(pos + Step(stride, k), pos, stride) == k
  {
    var d := pos + Step(stride, k) - pos;
    assert d == stride * k;
    if k >= 0 {
      DivExact(stride, k);
    } else {
      assert -d == stride * -k;
      DivExact(stride, -k);
    }
  }

  /** For an iterator at or after the other, or a stride of 1, the distance
    * as written is the intended one. */
  lemma DistanceAsWrittenAgrees(pos1: int, pos2: int, stride: nat)
    requires stride > 0 && stride < Word && IsSigned64(pos1 - pos2)
    requires pos1 >= pos2 || stride == 1
    ensures DistanceAsWritten(pos1, pos2, stride) == Distance(pos1, pos2, stride)
  {
    var d := pos1 - pos2;
    if d >= 0 {
      assert ToUnsigned(d) == d;
      DivBound(d, stride);
    } else {
      assert ToUnsigned(d) == d + Word;
      assert (d + Word) / 1 == d + Word;
      assert (-d) / 1 == -d;
    }
  }

  /** An iterator two positions, one step of stride 2, before the other is at
    * distance -1, but the distance as written is 2^63 - 1. */
  lemma DistanceAsWrittenWrongBackwards()
    ensures Distance(0, 2, 2) == -1
    ensures DistanceAsWritten(0, 2, 2) == Word / 2 - 1
  {
    assert ToUnsigned(-2) == Word - 2;
    assert (Word - 2) / 2 == Word / 2 - 1;
  }

  // -----------------------------------------------------------------------
  // The iterator.

  class SliceIterator {
    var pos: int
    var stride: nat

    /** `SliceIterator(iter, stride)`. */
    constructor (pos: int, stride: nat)
      ensures this.pos == pos && this.stride == stride
    {
      this.pos := pos;
      this.stride := stride;
    }

    /** The position `offset` steps away. */
    function Moved(offset: int): int
      reads this
    {
      pos + Step(stride, offset)
    }

    /** `*it`: the entry at the position. */
    function Deref(v: seq<real>): (x: real)
      reads this
      requires 0 <= pos < |v|
      ensures x == v[pos]
    {
      v[pos]
    }

    /** `++it`. */
    method Increment()
      modifies this
      ensures pos == old(pos) + stride && stride == old(stride)
    {
      pos := pos + stride;
    }

    /** `it++`: the iterator moves, and a copy of it as it was is returned. */
    method PostIncrement() returns (before: SliceIterator)
      modifies this
      ensures fresh(before) && before.pos == old(pos) && before.stride == stride
      ensures pos == old(pos) + stride && stride == old(stride)
    {
      before := new SliceIterator(pos, stride);
      pos := pos + stride;
    }

    /** `--it`. */
    method Decrement()
      modifies this
      ensures pos == old(pos) - stride && stride == old(stride)
    {
      pos := pos - stride;
    }

    /** `it--`. */
    method PostDecrement() returns (before: SliceIterator)
      modifies this
      ensures fresh(before) && before.pos == old(pos) && before.stride == stride
      ensures pos == old(pos) - stride && stride == old(stride)
    {
      before := new SliceIterator(pos, stride);
      pos := pos - stride;
    }

    /** `it += offset`. */
    method AddAssign(offset: int)
      modifies this
      ensures pos == old(Moved(offset)) && stride == old(stride)
    {
      pos := pos + Step(stride, offset);
    }

    /** `it -= offset`. */
    method SubAssign(offset: int)
      modifies this
      ensures pos == old(Moved(-offset)) && stride == old(stride)
    {
      pos := pos - Step(stride, offset);
      StepAdds(stride, offset, -offset);
    }

    /** `it + offset`: a moved copy; the iterator itself stays. */
    method Plus(offset: int) returns (moved: SliceIterator)
      ensures fresh(moved) && moved.pos == Moved(offset) && moved.stride == stride
    {
      moved := new SliceIterator(pos, stride);
      moved.AddAssign(offset);
    }

    /** `it - offset`. */
    method Minus(offset: int) returns (moved: SliceIterator)
      ensures fresh(moved) && moved.pos == Moved(-offset) && moved.stride == stride
    {
      moved := new SliceIterator(pos, stride);
      moved.SubAssign(offset);
    }

    /** `it[offset]`, which is `*(it + offset)`. */
    method Index(v: seq<real>, offset: int) returns (x: real)
      requires 0 <= Moved(offset) < |v|
      ensures x == v[Moved(offset)]
    {
      var moved := Plus(offset);
      x := moved.Deref(v);
    }

    /** `it1 - it2` as written (the strides must agree). */
    function DistanceToAsWritten(other: SliceIterator): int
      reads this, other
      requires stride == other.stride && 0 < stride < Word && IsSigned64(pos - other.pos)
    {
      DistanceAsWritten(pos, other.pos, stride)
    }

    /** `it1 - it2` as intended. */
    function DistanceTo(other: SliceIterator): int
      reads this, other
      requires stride == other.stride && stride > 0
    {
      Distance(pos, other.pos, stride)
    }

    predicate Eq(other: SliceIterator)
      reads this, other
    {
      pos == other.pos
    }

    predicate Ne(other: SliceIterator)
      reads this, other
    {
      pos != other.pos
    }

    predicate Lt(other: SliceIterator)
      reads this, other
    {
      pos < other.pos
    }

    predicate Gt(other: SliceIterator)
      reads this, other
    {
      pos > other.pos
    }

    predicate Le(other: SliceIterator)
      reads this, other
    {
      pos <= other.pos
    }

    predicate Ge(other: SliceIterator)
      reads this, other
    {
      pos >= other.pos
    }
  }

  /** For two iterators with the same stride on the same lattice of
    * positions, the comparisons agree with the sign of their distance, and
    * the distance moves the second onto the first. */
  lemma ComparisonsByDistance(a: SliceIterator, b: SliceIterator, k: int)
    requires a.stride == b.stride && a.stride > 0 && a.pos == b.Moved(k)
    ensures a.DistanceTo(b) == k
    ensures a.Eq(b) <==> k == 0
    ensures a.Ne(b) <==> k != 0
    ensures a.Lt(b) <==> k < 0
    ensures a.Gt(b) <==> k > 0
    ensures a.Le(b) <==> k <= 0
    ensures a.Ge(b) <==> k >= 0
  {
    DistanceOfMoved(b.pos, b.stride, k);
    if k > 0 {
      StepBound(b.stride, 1, k);
      assert Step(b.stride, 1) == b.stride;
    } else if k < 0 {
      StepBound(b.stride, 1, -k);
      assert Step(b.stride, 1) == b.stride;
      assert Step(b.stride, k) == -Step(b.stride, -k);
    }
  }
}
