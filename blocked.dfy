// Human-readable output of a sparse matrix whose entries are tiny blocks
// (linalg/PrintBlockedMatrix.h).  Both `operator<<` overloads, for a
// `Linalg::Matrix` of `TinyQuadraticMatrix<Double, N>` and of
// `TinyVector<Double, N>`, draw the matrix block row by block row: a line
// of dashes, then N text lines (one per inner row of the blocks), each made
// of one segment per block column followed by " | ", then dashes again.  A
// column without a stored block shows a placeholder: spaces with dashes
// before the last stored block of the row, plain spaces after it.
//
// The text of one number, `os << double` with the stream's default
// settings, is a parameter `show` of the model.
module BlockedPrinter {
  import opened Wrappers
  import opened LinalgExpr
  import TinyValues
  import SparseRows

  /** `LengthOfValue`: the field width every number is printed in. */
  const LengthOfValue: nat := 12
  const BlockSeparator: string := " | "

  /** The two overloads: blocks that are tiny square matrices, or tiny
    * vectors. */
  datatype Overload = OfMatrices | OfVectors

  /** A `Linalg::Matrix` of tiny blocks of dimension n: per block row a map
    * from the column key (from 1) to the stored block's data. */
  datatype BlockRows = BlockRows(n: nat, rows: seq<map<nat, seq<real>>>, ncols: nat)

  /** The number of reals in one block. */
  function BlockSize(kind: Overload, n: nat): nat
  {
    match kind
    case OfMatrices => n * n
    case OfVectors => n
  }

  /** `LengthOfBlockRow`: the width of one block in one text line. */
  function LengthOfBlockRow(kind: Overload, n: nat): nat
  {
    match kind
    case OfMatrices => (LengthOfValue + 1) * n
    case OfVectors => LengthOfValue + 1
  }

  /** What the matrix guarantees: blocks have a positive dimension, every
    * column key lies in 1..ncols and every stored block has its size. */
  predicate ValidBlockRows(kind: Overload, m: BlockRows)
  {
    m.n > 0 &&
    forall r, k :: 0 <= r < |m.rows| && k in m.rows[r] ==>
      1 <= k <= m.ncols && |m.rows[r][k]| == BlockSize(kind, m.n)
  }

  // -----------------------------------------------------------------------
  // Text pieces.

  function Spaces(k: nat): string
  {
    seq(k, _ => ' ')
  }

  /** `std::setw(w) << s`: s right-aligned in a field of at least w
    * characters; a longer s is not cut. */
  function PadLeft(s: string, w: nat): (r: string)
    ensures |r| == if |s| < w then w else |s|
  {
    if |s| < w then Spaces(w - |s|) + s else s
  }

  /** The padding only adds blanks in front: the text itself ends the field. */
  lemma PadLeftKeepsText(s: string, w: nat)
    ensures |s| <= |PadLeft(s, w)|
    ensures PadLeft(s, w)[|PadLeft(s, w)| - |s|..] == s
    ensures forall k :: 0 <= k < |PadLeft(s, w)| - |s| ==> PadLeft(s, w)[k] == ' '
  {
    if |s| < w {
      assert (Spaces(w - |s|) + s)[w - |s|..] == s;
    }
  }

  /** `std::setw(LengthOfValue) << x << ' '`. */
  function ValueText(x: real, show: real -> string): string
  {
    PadLeft(show(x), LengthOfValue) + " "
  }

  /** Every number prints in at least one and at most `LengthOfValue`
    * characters. */
  ghost predicate Printable(show: real -> string)
  {
    forall x: real :: 1 <= |show(x)| <= LengthOfValue
  }

  function Last(s: string): char
    requires |s| > 0
  {
    s[|s| - 1]
  }

  /** The entries of inner row i of a stored n x n block, left to right. */
  function InnerRow(blk: seq<real>, n: nat, i: nat): seq<real>
    requires |blk| == n * n && 1 <= i <= n
  {
    seq(n, q requires 0 <= q < n => TinyValues.MatEntry(blk, n, i, q + 1).value)
  }

  /** The fields of a sequence of numbers, one after the other. */
  function Fields(vals: seq<real>, show: real -> string): string
  {
    if vals == [] then ""
    else Fields(vals[..|vals| - 1], show) + ValueText(vals[|vals| - 1], show)
  }

  /** Inner row i of a stored block: its n entries, or its one entry. */
  function StoredText(kind: Overload, n: nat, blk: seq<real>, i: nat, show: real -> string): string
    requires |blk| == BlockSize(kind, n) && 1 <= i <= n
  {
    match kind
    case OfMatrices => Fields(InnerRow(blk, n, i), show)
    case OfVectors => ValueText(blk[i - 1], show)
  }

  // -----------------------------------------------------------------------
  // The placeholder of an empty block.

  /** Where the source puts the dashes of the placeholder:
    * `i * LengthOfValue + LengthOfValue - 1` for i < n, or one dash at
    * `LengthOfValue - 1` for vector blocks. */
  predicate DashAsWritten(kind: Overload, n: nat, p: int)
  {
    match kind
    case OfMatrices => p % 12 == 11 && p / 12 < n
    case OfVectors => p == 11
  }

  /** Where the last character of every number sits in a stored block's
    * line: the end of each field of `LengthOfValue + 1` characters, less
    * the trailing blank. */
  predicate DashAligned(kind: Overload, n: nat, p: int)
  {
    match kind
    case OfMatrices => p % 13 == 11
    case OfVectors => p == 11
  }

  function PlaceholderAsWritten(kind: Overload, n: nat): string
  {
    seq(LengthOfBlockRow(kind, n), p => if DashAsWritten(kind, n, p) then '-' else ' ')
  }

  function Placeholder(kind: Overload, n: nat): string
  {
    seq(LengthOfBlockRow(kind, n), p => if DashAligned(kind, n, p) then '-' else ' ')
  }

  /** The `Emptyness` vector as the source fills it. */
  method MakeEmptynessAsWritten(kind: Overload, n: nat) returns (e: string)
    ensures e == PlaceholderAsWritten(kind, n)
  {
    e := Spaces(LengthOfBlockRow(kind, n));
    match kind {
      case OfMatrices =>
        for i := 0 to n
          invariant |e| == 13 * n
          invariant forall p :: 0 <= p < |e| ==> e[p] == if p % 12 == 11 && p / 12 < i then '-' else ' '
        {
          e := e[i * 12 + 11 := '-'];
        }
      case OfVectors =>
        e := e[11 := '-'];
    }
  }

  /** The `Emptyness` vector with the dash of inner column i at
    * `i * (LengthOfValue + 1) + LengthOfValue - 1`. */
  method MakeEmptyness(kind: Overload, n: nat) returns (e: string)
    ensures e == Placeholder(kind, n)
  {
    e := Spaces(LengthOfBlockRow(kind, n));
    match kind {
      case OfMatrices =>
        for i := 0 to n
          invariant |e| == 13 * n
          invariant forall p :: 0 <= p < |e| ==> e[p] == if p % 13 == 11 && p / 13 < i then '-' else ' '
        {
          e := e[i * 13 + 11 := '-'];
        }
      case OfVectors =>
        e := e[11 := '-'];
    }
  }

  /** The dash of inner column q sits under the last character of the
    * number that a stored block prints in column q, in every inner row. */
  lemma {:induction false} FieldEnds(vals: seq<real>, q: nat, show: real -> string)
    requires Printable(show) && 1 <= q <= |vals|
    ensures |Fields(vals, show)| == 13 * |vals|
    ensures Fields(vals, show)[13 * (q - 1) + 11] == ValueText(vals[q - 1], show)[11]
    ensures Fields(vals, show)[13 * (q - 1) + 12] == ValueText(vals[q - 1], show)[12]
  {
    var j := |vals|;
    var pre, t := vals[..j - 1], ValueText(vals[j - 1], show);
    var a := Fields(pre, show);
    assert |a| == 13 * (j - 1) by { FieldsLength(pre, show); }
    assert |t| == 13 by { ValueTextShape(vals[j - 1], show); }
    if q < j {
      assert a[13 * (q - 1) + 11] == ValueText(vals[q - 1], show)[11]
          && a[13 * (q - 1) + 12] == ValueText(vals[q - 1], show)[12] by {
        FieldEnds(pre, q, show);
        assert pre[q - 1] == vals[q - 1];
      }
      IndexLeft(a, t, 13 * (q - 1) + 11);
      IndexLeft(a, t, 13 * (q - 1) + 12);
    } else {
      IndexRight(a, t, 11);
      IndexRight(a, t, 12);
    }
  }

  /** Every field takes 13 characters. */
  lemma {:induction false} FieldsLength(vals: seq<real>, show: real -> string)
    requires Printable(show)
    ensures |Fields(vals, show)| == 13 * |vals|
  {
    if vals != [] {
      FieldsLength(vals[..|vals| - 1], show);
      ValueTextShape(vals[|vals| - 1], show);
    }
  }

  /** A number's field is 13 characters that end with the number and a blank. */
  lemma ValueTextShape(x: real, show: real -> string)
    requires Printable(show)
    ensures |ValueText(x, show)| == 13
    ensures ValueText(x, show)[11] == Last(show(x))
    ensures ValueText(x, show)[12] == ' '
  {
    var s := show(x);
    var pad := PadLeft(s, LengthOfValue);
    assert 1 <= |s| <= 12;
    IndexRight(Spaces(12 - |s|), s, |s| - 1);
  }

  lemma IndexLeft(a: string, b: string, k: nat)
    requires k < |a|
    ensures (a + b)[k] == a[k]
  {
  }

  lemma IndexRight(a: string, b: string, k: nat)
    requires k < |b|
    ensures (a + b)[|a| + k] == b[k]
  {
  }

  lemma PlaceholderDash(kind: Overload, n: nat, q: nat)
    requires if kind.OfMatrices? then 1 <= q <= n else q == 1
    ensures 13 * (q - 1) + 11 < |Placeholder(kind, n)|
    ensures Placeholder(kind, n)[13 * (q - 1) + 11] == '-'
  {
    var p := 13 * (q - 1) + 11;
    assert p % 13 == 11;
  }

  /** In every inner row, the placeholder of an empty matrix block has a
    * dash at the position where a stored block printed in the same block
    * column ends the number of its inner column q.  (Vector blocks have
    * one field and one dash at its end.) */
  lemma DashUnderValueEnd(n: nat, blk: seq<real>, i: nat, q: nat, show: real -> string)
    requires Printable(show) && |blk| == n * n && 1 <= i <= n && 1 <= q <= n
    ensures |Placeholder(OfMatrices, n)| == |StoredText(OfMatrices, n, blk, i, show)|
    ensures 13 * (q - 1) + 11 < |Placeholder(OfMatrices, n)|
    ensures Placeholder(OfMatrices, n)[13 * (q - 1) + 11] == '-'
    ensures StoredText(OfMatrices, n, blk, i, show)[13 * (q - 1) + 11] == Last(show(TinyValues.MatEntry(blk, n, i, q).value))
  {
    PlaceholderDash(OfMatrices, n, q);
    FieldEnds(InnerRow(blk, n, i), q, show);
    ValueTextShape(InnerRow(blk, n, i)[q - 1], show);
  }

  /** With blocks of dimension 2, the dash the source writes for the
    * second column sits one place before the end of that column's number,
    * and the place where the number ends stays blank. */
  lemma PlaceholderMisplacedDash(blk: seq<real>, show: real -> string)
    requires Printable(show) && |blk| == 4
    ensures PlaceholderAsWritten(OfMatrices, 2)[23] == '-'
    ensures PlaceholderAsWritten(OfMatrices, 2)[24] == ' '
    ensures |StoredText(OfMatrices, 2, blk, 1, show)| == 26
    ensures StoredText(OfMatrices, 2, blk, 1, show)[24] == Last(show(blk[2]))
  {
    DashUnderValueEnd(2, blk, 1, 2, show);
    assert TinyValues.MatIndex(2, 1, 2) == 2;
  }

  // -----------------------------------------------------------------------
  // The blocks of one block row.

  /** What a block column shows: a stored block, the dashed placeholder
    * before the last stored block of the row, or blanks after it. */
  datatype Slot = Gap | Stored(block: seq<real>) | Trail

  /** Block column c + 1 of a block row. */
  function SlotAt(row: map<nat, seq<real>>, c: nat): Slot
  {
    if c + 1 in row then Stored(row[c + 1])
    else if exists k :: k in row && c + 1 < k then Gap
    else Trail
  }

  /** The ncols block columns of a block row. */
  function Slots(row: map<nat, seq<real>>, ncols: nat): seq<Slot>
  {
    seq(ncols, c requires 0 <= c => SlotAt(row, c))
  }

  /** Between two consecutive stored blocks at keys prev < k (prev = 0 for
    * the first one) the row shows exactly k - prev - 1 placeholders. */
  lemma GapsBeforeKey(row: map<nat, seq<real>>, ncols: nat, prev: nat, k: nat)
    requires k in row && k <= ncols && prev < k && (prev == 0 || prev in row)
    requires forall c :: c in row ==> !(prev < c < k)
    ensures Slots(row, ncols)[k - 1] == Stored(row[k])
    ensures forall c :: prev <= c < k - 1 ==> Slots(row, ncols)[c] == Gap
  {
  }

  /** After the last stored block the row shows blanks up to column
    * ncols. */
  lemma TrailingAfterLast(row: map<nat, seq<real>>, ncols: nat, last: nat)
    requires forall c :: c in row ==> c <= last
    ensures forall c :: last <= c < ncols ==> Slots(row, ncols)[c] == Trail
  {
  }

  predicate SlotsFit(kind: Overload, n: nat, slots: seq<Slot>)
  {
    forall c :: 0 <= c < |slots| && slots[c].Stored? ==> |slots[c].block| == BlockSize(kind, n)
  }

  /** Inner row i of one block column. */
  function SlotText(kind: Overload, n: nat, slot: Slot, i: nat, show: real -> string): string
    requires (slot.Stored? ==> |slot.block| == BlockSize(kind, n)) && 1 <= i <= n
  {
    match slot
    case Gap => Placeholder(kind, n)
    case Stored(b) => StoredText(kind, n, b, i, show)
    case Trail => Spaces(LengthOfBlockRow(kind, n))
  }

  /** Inner row i of a sequence of block columns, each closed by the
    * separator. */
  function LineText(kind: Overload, n: nat, slots: seq<Slot>, i: nat, show: real -> string): string
    requires SlotsFit(kind, n, slots) && 1 <= i <= n
    decreases |slots|
  {
    if slots == [] then ""
    else LineText(kind, n, slots[..|slots| - 1], i, show) + SlotText(kind, n, slots[|slots| - 1], i, show) + BlockSeparator
  }

  lemma LineTextSnoc(kind: Overload, n: nat, slots: seq<Slot>, x: Slot, i: nat, show: real -> string)
    requires SlotsFit(kind, n, slots) && (x.Stored? ==> |x.block| == BlockSize(kind, n)) && 1 <= i <= n
    ensures SlotsFit(kind, n, slots + [x])
    ensures LineText(kind, n, slots + [x], i, show) == LineText(kind, n, slots, i, show) + SlotText(kind, n, x, i, show) + BlockSeparator
  {
    assert (slots + [x])[..|slots|] == slots;
  }

  /** With numbers that fit their field, one block column is
    * `LengthOfBlockRow` characters wide in every inner row. */
  lemma SlotWidth(kind: Overload, n: nat, x: Slot, i: nat, show: real -> string)
    requires Printable(show) && (x.Stored? ==> |x.block| == BlockSize(kind, n)) && 1 <= i <= n
    ensures |SlotText(kind, n, x, i, show)| == LengthOfBlockRow(kind, n)
  {
    if x.Stored? && kind.OfMatrices? {
      FieldsLength(InnerRow(x.block, n, i), show);
    }
  }

  /** `k` block columns of width `w`. */
  function Repeated(w: nat, k: nat): nat
  {
    if k == 0 then 0 else Repeated(w, k - 1) + w
  }

  lemma {:induction false} RepeatedIsProduct(w: nat, k: nat)
    ensures Repeated(w, k) == w * k
  {
    if k > 0 {
      RepeatedIsProduct(w, k - 1);
      assert w * k == w * (k - 1) + w;
    }
  }

  /** With numbers that fit their field, every block column is
    * `LengthOfBlockRow + 3` characters wide in every inner row. */
  lemma {:induction false} LineWidth(kind: Overload, n: nat, slots: seq<Slot>, i: nat, show: real -> string)
    requires Printable(show) && SlotsFit(kind, n, slots) && 1 <= i <= n
    ensures |LineText(kind, n, slots, i, show)| == Repeated(LengthOfBlockRow(kind, n) + 3, |slots|)
  {
    if slots != [] {
      var k := |slots| - 1;
      LineWidth(kind, n, slots[..k], i, show);
      SlotWidth(kind, n, slots[k], i, show);
    }
  }

  lemma LineTextSnocAll(kind: Overload, n: nat, slots: seq<Slot>, x: Slot, show: real -> string)
    requires SlotsFit(kind, n, slots) && (x.Stored? ==> |x.block| == BlockSize(kind, n))
    ensures SlotsFit(kind, n, slots + [x])
    ensures forall i :: 1 <= i <= n ==>
              LineText(kind, n, slots + [x], i, show) == LineText(kind, n, slots, i, show) + SlotText(kind, n, x, i, show) + BlockSeparator
  {
    forall i | 1 <= i <= n
      ensures LineText(kind, n, slots + [x], i, show) == LineText(kind, n, slots, i, show) + SlotText(kind, n, x, i, show) + BlockSeparator
    {
      LineTextSnoc(kind, n, slots, x, i, show);
    }
  }

  // -----------------------------------------------------------------------
  // The whole picture.

  lemma SlotsOfRowFit(kind: Overload, m: BlockRows, r: nat)
    requires ValidBlockRows(kind, m) && r < |m.rows|
    ensures SlotsFit(kind, m.n, Slots(m.rows[r], m.ncols))
  {
  }

  /** The n text lines of block row r. */
  function BlockRowLines(kind: Overload, m: BlockRows, r: nat, show: real -> string): seq<string>
    requires ValidBlockRows(kind, m) && r < |m.rows|
  {
    SlotsOfRowFit(kind, m, r);
    seq(m.n, i requires 0 <= i < m.n => LineText(kind, m.n, Slots(m.rows[r], m.ncols), i + 1, show))
  }

  /** A row separator: one dash fewer than `(LengthOfBlockRow + 3) * ncols`. */
  function Separator(kind: Overload, n: nat, ncols: nat): string
    requires ncols > 0
  {
    seq(Repeated(LengthOfBlockRow(kind, n) + 3, ncols) - 1, _ => '-')
  }

  /** The lines drawn for the first k block rows: a separator, then per
    * block row its n lines and a separator. */
  function PictureLines(kind: Overload, m: BlockRows, show: real -> string, k: nat): seq<string>
    requires ValidBlockRows(kind, m) && m.ncols > 0 && k <= |m.rows|
  {
    if k == 0 then [Separator(kind, m.n, m.ncols)]
    else PictureLines(kind, m, show, k - 1) + BlockRowLines(kind, m, k - 1, show) + [Separator(kind, m.n, m.ncols)]
  }

  /** Lines, each ended by a newline. */
  function Joined(lines: seq<string>): string
  {
    if lines == [] then "" else Joined(lines[..|lines| - 1]) + lines[|lines| - 1] + "\n"
  }

  /** The picture opens with the separator line. */
  lemma PictureStart(kind: Overload, m: BlockRows, show: real -> string)
    requires ValidBlockRows(kind, m) && m.ncols > 0
    ensures Joined(PictureLines(kind, m, show, 0)) == Separator(kind, m.n, m.ncols) + "\n"
  {
    JoinedSnoc([], Separator(kind, m.n, m.ncols));
    assert [] + [Separator(kind, m.n, m.ncols)] == [Separator(kind, m.n, m.ncols)];
  }

  lemma JoinedSnoc(lines: seq<string>, x: string)
    ensures Joined(lines + [x]) == Joined(lines) + x + "\n"
  {
    assert (lines + [x])[..|lines|] == lines;
  }

  /** What `os << M` writes, or the `range_error` it throws for a matrix
    * without rows or without columns. */
  function Picture(kind: Overload, m: BlockRows, show: real -> string): Result<string, LinalgError>
    requires ValidBlockRows(kind, m)
  {
    if |m.rows| == 0 || m.ncols == 0 then Err(RangeError)
    else Ok(Joined(PictureLines(kind, m, show, |m.rows|)))
  }

  lemma {:induction false} RepeatedMonotone(w: nat, r: nat, k: nat)
    requires r < k
    ensures Repeated(w, r) + w <= Repeated(w, k)
  {
    if r < k - 1 {
      RepeatedMonotone(w, r, k - 1);
    }
  }

  /** The picture has `1 + (n + 1) * k` lines for k block rows. */
  lemma {:induction false} PictureLength(kind: Overload, m: BlockRows, show: real -> string, k: nat)
    requires ValidBlockRows(kind, m) && m.ncols > 0 && k <= |m.rows|
    ensures |PictureLines(kind, m, show, k)| == 1 + Repeated(m.n + 1, k)
  {
    if k > 0 {
      PictureLength(kind, m, show, k - 1);
    }
  }

  /** A separator opens every block row and closes the last one. */
  lemma {:induction false} SeparatorAt(kind: Overload, m: BlockRows, show: real -> string, k: nat, r: nat)
    requires ValidBlockRows(kind, m) && m.ncols > 0 && r <= k <= |m.rows|
    ensures Repeated(m.n + 1, r) < |PictureLines(kind, m, show, k)|
    ensures PictureLines(kind, m, show, k)[Repeated(m.n + 1, r)] == Separator(kind, m.n, m.ncols)
  {
    PictureLength(kind, m, show, k);
    if r < k {
      SeparatorAt(kind, m, show, k - 1, r);
    }
  }

  /** Between the separators, block row r comes as its n text lines. */
  lemma {:induction false} BlockLineAt(kind: Overload, m: BlockRows, show: real -> string, k: nat, r: nat, i: nat)
    requires ValidBlockRows(kind, m) && m.ncols > 0 && r < k <= |m.rows| && i < m.n
    ensures Repeated(m.n + 1, r) + 1 + i < |PictureLines(kind, m, show, k)|
    ensures PictureLines(kind, m, show, k)[Repeated(m.n + 1, r) + 1 + i] == BlockRowLines(kind, m, r, show)[i]
  {
    var before := PictureLines(kind, m, show, k - 1);
    var lines := BlockRowLines(kind, m, k - 1, show);
    var sep := [Separator(kind, m.n, m.ncols)];
    assert PictureLines(kind, m, show, k) == before + lines + sep;
    assert |lines| == m.n;
    PictureLength(kind, m, show, k - 1);
    if r < k - 1 {
      BlockLineAt(kind, m, show, k - 1, r, i);
      RepeatedMonotone(m.n + 1, r, k - 1);
      PickLeft(before, lines, sep, Repeated(m.n + 1, r) + 1 + i);
      assert PictureLines(kind, m, show, k)[Repeated(m.n + 1, r) + 1 + i] == before[Repeated(m.n + 1, r) + 1 + i];
    } else {
      PickMiddle(before, lines, sep, i);
      assert Repeated(m.n + 1, r) + 1 + i == |before| + i;
    }
  }

  lemma PickLeft<T>(a: seq<T>, b: seq<T>, c: seq<T>, p: nat)
    requires p < |a|
    ensures p < |a + b + c| && (a + b + c)[p] == a[p]
  {
  }

  lemma PickMiddle<T>(a: seq<T>, b: seq<T>, c: seq<T>, i: nat)
    requires i < |b|
    ensures |a| + i < |a + b + c| && (a + b + c)[|a| + i] == b[i]
  {
  }

  /** With numbers that fit their field, every text line of a block row is
    * exactly one character longer than the separator: the separator ends
    * under the last `|`, and every block row has ncols block columns. */
  lemma BlockLineWidth(kind: Overload, m: BlockRows, r: nat, i: nat, show: real -> string)
    requires Printable(show) && ValidBlockRows(kind, m) && m.ncols > 0 && r < |m.rows| && i < m.n
    ensures |Slots(m.rows[r], m.ncols)| == m.ncols
    ensures |BlockRowLines(kind, m, r, show)[i]| == |Separator(kind, m.n, m.ncols)| + 1
  {
    SlotsOfRowFit(kind, m, r);
    LineWidth(kind, m.n, Slots(m.rows[r], m.ncols), i + 1, show);
  }

  // -----------------------------------------------------------------------
  // The printing loops.

  /** `os << '-'` for i from 1 while i != w. */
  method SeparatorLine(w: nat) returns (s: string)
    requires w >= 1
    ensures |s| == w - 1 && forall k :: 0 <= k < |s| ==> s[k] == '-'
  {
    s := "";
    var i := 1;
    while i != w
      invariant 1 <= i <= w && |s| == i - 1
      invariant forall k :: 0 <= k < |s| ==> s[k] == '-'
      decreases w - i
    {
      s := s + "-";
      i := i + 1;
    }
  }

  /** `Streams(i) << std::setw(LengthOfValue) << value << ' '` for the
    * entries of inner row i of a stored block. */
  method StoredLine(kind: Overload, n: nat, blk: seq<real>, i: nat, show: real -> string) returns (s: string)
    requires |blk| == BlockSize(kind, n) && 1 <= i <= n
    ensures s == StoredText(kind, n, blk, i, show)
  {
    match kind {
      case OfMatrices =>
        ghost var row := InnerRow(blk, n, i);
        s := "";
        for j := 1 to n + 1
          invariant s == Fields(row[..j - 1], show)
        {
          assert row[..j][..j - 1] == row[..j - 1];
          s := s + ValueText(TinyValues.MatEntry(blk, n, i, j).value, show);
        }
        assert row[..n] == row;
      case OfVectors =>
        s := ValueText(blk[i - 1], show);
    }
  }

  /** One block column appended to every inner row's stream, each closed
    * by the separator. */
  method AppendSlot(kind: Overload, n: nat, streams: seq<string>, x: Slot, e: string, show: real -> string)
    returns (out: seq<string>)
    requires |streams| == n && e == Placeholder(kind, n) && (x.Stored? ==> |x.block| == BlockSize(kind, n))
    ensures |out| == n
    ensures forall i :: 0 <= i < n ==> out[i] == streams[i] + SlotText(kind, n, x, i + 1, show) + BlockSeparator
  {
    out := streams;
    for i := 1 to n + 1
      invariant |out| == n
      invariant forall i' :: 0 <= i' < n ==>
                  out[i'] == if i' < i - 1 then streams[i'] + SlotText(kind, n, x, i' + 1, show) + BlockSeparator else streams[i']
    {
      var text;
      match x {
        case Gap => text := e;
        case Stored(b) => text := StoredLine(kind, n, b, i, show);
        case Trail => text := Spaces(LengthOfBlockRow(kind, n));
      }
      out := out[i - 1 := out[i - 1] + text + BlockSeparator];
    }
  }

  lemma GapAt(row: map<nat, seq<real>>, c: nat, key: nat)
    requires key in row && c + 1 < key && c + 1 !in row
    ensures SlotAt(row, c) == Gap
  {
  }

  lemma TrailAt(row: map<nat, seq<real>>, c: nat)
    requires forall k :: k in row ==> k <= c
    ensures SlotAt(row, c) == Trail
  {
  }

  /** Block columns that match the row, and the streams that show them,
    * give the block row's lines. */
  lemma RowLinesFrom(kind: Overload, m: BlockRows, r: nat, slots: seq<Slot>, lines: seq<string>, show: real -> string)
    requires ValidBlockRows(kind, m) && r < |m.rows|
    requires |slots| == m.ncols && forall c :: 0 <= c < |slots| ==> slots[c] == SlotAt(m.rows[r], c)
    requires SlotsFit(kind, m.n, slots)
    requires |lines| == m.n && forall i :: 0 <= i < m.n ==> lines[i] == LineText(kind, m.n, slots, i + 1, show)
    ensures lines == BlockRowLines(kind, m, r, show)
  {
    assert slots == Slots(m.rows[r], m.ncols);
  }

  /** `count` copies of block column x appended to the streams of a block
    * row whose columns so far are `slots`. */
  method AppendRun(kind: Overload, n: nat, lines: seq<string>, ghost slots: seq<Slot>, ghost row: map<nat, seq<real>>,
                   x: Slot, count: nat, e: string, show: real -> string)
    returns (out: seq<string>, ghost slots': seq<Slot>)
    requires e == Placeholder(kind, n) && SlotsFit(kind, n, slots) && (x.Stored? ==> |x.block| == BlockSize(kind, n))
    requires |lines| == n && forall i :: 0 <= i < n ==> lines[i] == LineText(kind, n, slots, i + 1, show)
    requires forall c :: 0 <= c < |slots| ==> slots[c] == SlotAt(row, c)
    requires forall c :: |slots| <= c < |slots| + count ==> SlotAt(row, c) == x
    ensures |slots'| == |slots| + count && SlotsFit(kind, n, slots')
    ensures forall c :: 0 <= c < |slots'| ==> slots'[c] == SlotAt(row, c)
    ensures |out| == n && forall i :: 0 <= i < n ==> out[i] == LineText(kind, n, slots', i + 1, show)
  {
    out, slots' := lines, slots;
    for k := 0 to count
      invariant |slots'| == |slots| + k && SlotsFit(kind, n, slots')
      invariant forall c :: 0 <= c < |slots'| ==> slots'[c] == SlotAt(row, c)
      invariant |out| == n && forall i :: 0 <= i < n ==> out[i] == LineText(kind, n, slots', i + 1, show)
    {
      LineTextSnocAll(kind, n, slots', x, show);
      out := AppendSlot(kind, n, out, x, e, show);
      slots' := slots' + [x];
    }
  }

  /** One block row: the stored blocks in ascending key order, each
    * preceded by the placeholders of the empty columns since the previous
    * one (`key - 1` before the first, `key - prev - 1` after), then blanks
    * for the `ncols - printed` columns after the last. */
  method RenderRow(kind: Overload, m: BlockRows, r: nat, e: string, show: real -> string) returns (lines: seq<string>)
    requires ValidBlockRows(kind, m) && r < |m.rows| && e == Placeholder(kind, m.n)
    ensures lines == BlockRowLines(kind, m, r, show)
  {
    var n := m.n;
    var row := m.rows[r];
    lines := seq(n, _ => "");
    ghost var slots: seq<Slot> := [];
    var printed: nat := 0;
    var prev: nat := 0;
    var first := true;
    var remaining := row.Keys;
    while remaining != {}
      invariant remaining <= row.Keys
      invariant forall k :: k in row ==> (k in remaining <==> prev < k)
      invariant first <==> prev == 0
      invariant prev <= m.ncols && (prev > 0 ==> prev in row)
      invariant printed == prev == |slots|
      invariant forall c :: 0 <= c < |slots| ==> slots[c] == SlotAt(row, c)
      invariant SlotsFit(kind, n, slots)
      invariant |lines| == n && forall i :: 0 <= i < n ==> lines[i] == LineText(kind, n, slots, i + 1, show)
      decreases |remaining|
    {
      var key := SparseRows.MinKey(remaining);
      var gaps: nat := if first then key - 1 else key - prev - 1;
      printed := printed + gaps;
      forall c | prev <= c < prev + gaps
        ensures SlotAt(row, c) == Gap
      {
        GapAt(row, c, key);
      }
      lines, slots := AppendRun(kind, n, lines, slots, row, Gap, gaps, e, show);
      printed := printed + 1;
      lines, slots := AppendRun(kind, n, lines, slots, row, Stored(row[key]), 1, e, show);
      prev, first := key, false;
      remaining := remaining - {key};
    }
    var trailing: nat := m.ncols - printed;
    forall c | prev <= c < prev + trailing
      ensures SlotAt(row, c) == Trail
    {
      TrailAt(row, c);
    }
    lines, slots := AppendRun(kind, n, lines, slots, row, Trail, trailing, e, show);
    RowLinesFrom(kind, m, r, slots, lines, show);
  }

  /** The row separator: `os << '-'` while i runs from 1 up to
    * `(Emptyness.size() + BlockSeparator.size()) * ncols`. */
  method MakeSeparator(kind: Overload, n: nat, ncols: nat, e: string) returns (sep: string)
    requires ncols > 0 && e == Placeholder(kind, n)
    ensures sep == Separator(kind, n, ncols)
  {
    var w := (|e| + |BlockSeparator|) * ncols;
    RepeatedIsProduct(|e| + |BlockSeparator|, ncols);
    sep := SeparatorLine(w);
  }

  /** `os << Streams(i).str() << std::endl` for every inner row. */
  method EmitLines(os: string, ghost before: seq<string>, lines: seq<string>) returns (os': string)
    requires os == Joined(before)
    ensures os' == Joined(before + lines)
  {
    os' := os;
    assert before + lines[..0] == before;
    for i := 0 to |lines|
      invariant os' == Joined(before + lines[..i])
    {
      JoinedSnoc(before + lines[..i], lines[i]);
      assert before + lines[..i + 1] == before + lines[..i] + [lines[i]];
      os' := os' + lines[i] + "\n";
    }
    assert lines[..|lines|] == lines;
  }

  /** The text of block row `row` and the separator after it. */
  method PrintBlockRow(kind: Overload, m: BlockRows, row: nat, e: string, sep: string, os: string, show: real -> string)
    returns (os': string)
    requires ValidBlockRows(kind, m) && m.ncols > 0 && row < |m.rows|
    requires e == Placeholder(kind, m.n) && sep == Separator(kind, m.n, m.ncols)
    requires os == Joined(PictureLines(kind, m, show, row))
    ensures os' == Joined(PictureLines(kind, m, show, row + 1))
  {
    var lines := RenderRow(kind, m, row, e, show);
    ghost var before := PictureLines(kind, m, show, row);
    os' := EmitLines(os, before, lines);
    JoinedSnoc(before + lines, sep);
    os' := os' + sep + "\n";
  }

  /** `os << M` for a matrix of tiny blocks. */
  method Print(kind: Overload, m: BlockRows, show: real -> string) returns (r: Result<string, LinalgError>)
    requires ValidBlockRows(kind, m)
    ensures r == Picture(kind, m, show)
  {
    if |m.rows| == 0 {
      return Err(RangeError);
    }
    if m.ncols == 0 {
      return Err(RangeError);
    }
    var e := MakeEmptyness(kind, m.n);
    var sep := MakeSeparator(kind, m.n, m.ncols, e);
    var os := PrintBlockRows(kind, m, e, sep, show);
    r := Ok(os);
  }

  /** The separator line, then each block row followed by the separator. */
  method PrintBlockRows(kind: Overload, m: BlockRows, e: string, sep: string, show: real -> string) returns (os: string)
    requires ValidBlockRows(kind, m) && m.ncols > 0
    requires e == Placeholder(kind, m.n) && sep == Separator(kind, m.n, m.ncols)
    ensures os == Joined(PictureLines(kind, m, show, |m.rows|))
  {
    os := sep + "\n";
    PictureStart(kind, m, show);
    for row := 0 to |m.rows|
      invariant os == Joined(PictureLines(kind, m, show, row))
    {
      os := PrintBlockRow(kind, m, row, e, sep, os, show);
    }
  }
}
