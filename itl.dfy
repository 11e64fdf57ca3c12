// The bindings to the MTL/ITL solvers (linalg/ITL_Bindings.h): `operator<=`
// copies a block matrix of the `Linalg` library, whose entries are tiny
// matrices of dimension `bs`, into a flat MTL matrix, and a block vector,
// whose entries are tiny vectors, into a flat MTL vector.  Flat positions are
// 0-based; block rows, block keys and the entries inside a block 1-based.
module ItlBindings {
  import opened Wrappers
  import SparseRows
  import opened TinyValues

  /** A `Linalg::Matrix` of tiny blocks: row `irow + 1` maps column keys to
    * blocks, a block being the `data_` of a tiny matrix of dimension `bs`. */
  datatype BlockMatrix = BlockMatrix(bs: nat, rows: seq<map<nat, seq<real>>>, ncols: nat)

  /** Blocks exist only from dimension 1 on, every block holds bs * bs
    * entries, and every key is a column number 1..ncols. */
  predicate ValidBlocks(m: BlockMatrix)
  {
    m.bs > 0 &&
    forall irow, key :: 0 <= irow < |m.rows| && key in m.rows[irow] ==>
      1 <= key <= m.ncols && |m.rows[irow][key]| == m.bs * m.bs
  }

  // -----------------------------------------------------------------------
  // Block coordinates.  Quotient, remainder and product by the block size
  // are counted out by recursion, so that the loops below reason by
  // addition only; `QuotIsDiv` and `OffsetIsProduct` tie them to `/`, `%`
  // and `*`.

  /** `a / bs`, by repeated subtraction. */
  function Quot(a: nat, bs: nat): nat
    requires bs > 0
  {
    if a < bs then 0 else Quot(a - bs, bs) + 1
  }

  /** `a % bs`, by repeated subtraction. */
  function Rem(a: nat, bs: nat): nat
    requires bs > 0
  {
    if a < bs then a else Rem(a - bs, bs)
  }

  /** `q * bs`, by repeated addition: where block q starts. */
  function Offset(q: nat, bs: nat): nat
  {
    if q == 0 then 0 else Offset(q - 1, bs) + bs
  }

  /** A position is its block's start plus its place inside the block. */
  lemma {:induction false} QuotRem(a: nat, bs: nat)
    requires bs > 0
    ensures Offset(Quot(a, bs), bs) + Rem(a, bs) == a && Rem(a, bs) < bs
    decreases a
  {
    if a >= bs {
      QuotRem(a - bs, bs);
    }
  }

  /** Block q holds exactly the positions whose quotient is q. */
  lemma {:induction false} QuotUnique(a: nat, bs: nat, q: nat)
    requires bs > 0
    ensures Offset(q, bs) <= a < Offset(q, bs) + bs <==> Quot(a, bs) == q
    decreases a
  {
    if a >= bs && q > 0 {
      QuotUnique(a - bs, bs, q - 1);
    } else if a >= bs {
      QuotRem(a - bs, bs);
    } else if q > 0 {
      OffsetGrows(q, bs);
    }
  }

  lemma {:induction false} OffsetGrows(q: nat, bs: nat)
    requires q > 0
    ensures Offset(q, bs) >= bs
  {
    if q > 1 {
      OffsetGrows(q - 1, bs);
    }
  }

  /** Place r of block q has quotient q and remainder r. */
  lemma QuotRemOf(q: nat, r: nat, bs: nat)
    requires r < bs
    ensures Quot(Offset(q, bs) + r, bs) == q && Rem(Offset(q, bs) + r, bs) == r
  {
    QuotUnique(Offset(q, bs) + r, bs, q);
    QuotRem(Offset(q, bs) + r, bs);
  }

  /** The counted-out quotient and remainder are Dafny's `/` and `%`. */
  lemma QuotIsDiv(a: nat, bs: nat)
    requires bs > 0
    ensures Quot(a, bs) == a / bs && Rem(a, bs) == a % bs
  {
    QuotRem(a, bs);
    OffsetIsProduct(Quot(a, bs), bs);
    DivUnique(a, bs, Quot(a, bs), Rem(a, bs));
  }

  /** Quotient and remainder are unique. */
  lemma DivUnique(a: nat, bs: nat, q: nat, r: nat)
    requires bs > 0 && a == q * bs + r && r < bs
    ensures q == a / bs && r == a % bs
  {
    DivModParts(a, bs);
    ProductGap(q, a / bs, bs);
    ProductGap(a / bs, q, bs);
  }

  /** Multiples of bs by distinct factors are at least bs apart. */
  lemma ProductGap(lo: nat, hi: nat, bs: nat)
    ensures lo < hi ==> lo * bs + bs <= hi * bs
  {
    if lo < hi {
      assert (lo + 1) * bs == lo * bs + bs;
      MulLe(lo + 1, hi, bs);
    }
  }

  lemma {:induction false} OffsetIsProduct(q: nat, bs: nat)
    ensures Offset(q, bs) == q * bs
  {
    if q > 0 {
      OffsetIsProduct(q - 1, bs);
    }
  }

  /** Blocks 0..n-1 end at `Offset(n, bs)`. */
  lemma {:induction false} OffsetMonotone(q: nat, n: nat, bs: nat)
    requires q <= n
    ensures Offset(q, bs) <= Offset(n, bs)
    decreases n
  {
    if q < n {
      OffsetMonotone(q, n - 1, bs);
    }
  }

  // -----------------------------------------------------------------------
  // Where the block entries land.

  /** The flat position p lies in a stored block: its block row
    * `p.0 / bs` exists and its block column `p.1 / bs + 1` is a key of
    * that row. */
  predicate Covered(m: BlockMatrix, p: (nat, nat))
  {
    m.bs > 0 && Quot(p.0, m.bs) < |m.rows| && Quot(p.1, m.bs) + 1 in m.rows[Quot(p.0, m.bs)]
  }

  /** The entry of the stored block at a covered flat position: entry
    * `(p.0 % bs + 1, p.1 % bs + 1)` of that block. */
  function FlatValue(m: BlockMatrix, p: (nat, nat)): real
    requires ValidBlocks(m) && Covered(m, p)
  {
    var bs := m.bs;
    var blk := m.rows[Quot(p.0, bs)][Quot(p.1, bs) + 1];
    QuotRem(p.0, bs);
    QuotRem(p.1, bs);
    MatIndexBound(bs, Rem(p.0, bs) + 1, Rem(p.1, bs) + 1);
    blk[MatIndex(bs, Rem(p.0, bs) + 1, Rem(p.1, bs) + 1)]
  }

  /** Entry (br + 1, bc + 1) of stored block (irow + 1, key) lands at flat
    * position `(irow * bs + br, (key - 1) * bs + bc)`: that position is
    * covered, and the entry is what the flat matrix holds there. */
  lemma BlockEntryLands(m: BlockMatrix, irow: nat, key: nat, br: nat, bc: nat)
    requires ValidBlocks(m) && irow < |m.rows| && key in m.rows[irow] && br < m.bs && bc < m.bs
    ensures Covered(m, (irow * m.bs + br, (key - 1) * m.bs + bc))
    ensures MatEntry(m.rows[irow][key], m.bs, br + 1, bc + 1) == Ok(FlatValue(m, (irow * m.bs + br, (key - 1) * m.bs + bc)))
  {
    OffsetIsProduct(irow, m.bs);
    OffsetIsProduct(key - 1, m.bs);
    QuotRemOf(irow, br, m.bs);
    QuotRemOf(key - 1, bc, m.bs);
  }

  /** Every covered position is the landing place of one block entry: the
    * entry its quotient and remainder by bs name. */
  lemma CoveredDecomposes(m: BlockMatrix, p: (nat, nat))
    requires ValidBlocks(m) && Covered(m, p)
    ensures p.0 / m.bs < |m.rows| && p.1 / m.bs + 1 in m.rows[p.0 / m.bs]
    ensures p == (p.0 / m.bs * m.bs + p.0 % m.bs, (p.1 / m.bs + 1 - 1) * m.bs + p.1 % m.bs)
    ensures MatEntry(m.rows[p.0 / m.bs][p.1 / m.bs + 1], m.bs, p.0 % m.bs + 1, p.1 % m.bs + 1) == Ok(FlatValue(m, p))
  {
    QuotIsDiv(p.0, m.bs);
    QuotIsDiv(p.1, m.bs);
    QuotRem(p.0, m.bs);
    QuotRem(p.1, m.bs);
    DivModParts(p.0, m.bs);
    DivModParts(p.1, m.bs);
    assert p.1 / m.bs + 1 - 1 == p.1 / m.bs;
  }

  lemma DivModParts(a: nat, bs: nat)
    requires bs > 0
    ensures a == a / bs * bs + a % bs
  {
  }

  /** Covered positions lie inside the resized target of `bs * rows` by
    * `bs * cols`. */
  lemma CoveredInBounds(m: BlockMatrix, p: (nat, nat))
    requires ValidBlocks(m) && Covered(m, p)
    ensures p.0 < m.bs * |m.rows| && p.1 < m.bs * m.ncols
  {
    var bs := m.bs;
    var irow, key := Quot(p.0, bs), Quot(p.1, bs) + 1;
    QuotUnique(p.0, bs, irow);
    QuotUnique(p.1, bs, key - 1);
    OffsetMonotone(irow + 1, |m.rows|, bs);
    OffsetMonotone(key, m.ncols, bs);
    OffsetIsProduct(|m.rows|, bs);
    OffsetIsProduct(m.ncols, bs);
  }

  // -----------------------------------------------------------------------
  // What the loops write.

  /** The positions of a block with upper left corner (r0, c0). */
  predicate InRegion(p: (nat, nat), r0: nat, c0: nat, rows: nat, cols: nat)
  {
    r0 <= p.0 < r0 + rows && c0 <= p.1 < c0 + cols
  }

  /** The cells after the innermost loop has written columns 0..bc-1 of
    * block row br of the block `blk` placed at (r0, c0). */
  function RowWrites(cells: map<(nat, nat), real>, blk: seq<real>, bs: nat, r0: nat, c0: nat, br: nat, bc: nat): map<(nat, nat), real>
    requires |blk| == bs * bs && br < bs && bc <= bs
  {
    if bc == 0 then cells
    else
      MatIndexBound(bs, br + 1, bc);
      RowWrites(cells, blk, bs, r0, c0, br, bc - 1)[(r0 + br, c0 + bc - 1) := blk[MatIndex(bs, br + 1, bc)]]
  }

  /** The cells after the block rows 0..br-1 have been written. */
  function BlockWrites(cells: map<(nat, nat), real>, blk: seq<real>, bs: nat, r0: nat, c0: nat, br: nat): map<(nat, nat), real>
    requires |blk| == bs * bs && br <= bs
  {
    if br == 0 then cells
    else RowWrites(BlockWrites(cells, blk, bs, r0, c0, br - 1), blk, bs, r0, c0, br - 1, bs)
  }

  /** The cells after the stored blocks of row irow + 1 with keys in `keys`
    * have been written, in ascending key order as the `std::map` iterator
    * visits them. */
  function KeyWrites(cells: map<(nat, nat), real>, m: BlockMatrix, irow: nat, keys: set<nat>): map<(nat, nat), real>
    requires ValidBlocks(m) && irow < |m.rows| && keys <= m.rows[irow].Keys
    decreases |keys|
  {
    if keys == {} then cells
    else
      var key := SparseRows.MinKey(keys);
      var bs := m.bs;
      KeyWrites(BlockWrites(cells, m.rows[irow][key], bs, Offset(irow, bs), Offset(key - 1, bs), bs), m, irow, keys - {key})
  }

  /** The cells after block rows 1..n have been written, starting from the
    * freshly resized matrix. */
  function MatrixWrites(m: BlockMatrix, n: nat): map<(nat, nat), real>
    requires ValidBlocks(m) && n <= |m.rows|
  {
    if n == 0 then map[]
    else KeyWrites(MatrixWrites(m, n - 1), m, n - 1, m.rows[n - 1].Keys)
  }

  /** Writing columns 0..bc-1 of block row br adds exactly those positions,
    * each with its block entry, and leaves the others alone. */
  lemma {:induction false} RowWritesAt(cells: map<(nat, nat), real>, blk: seq<real>, bs: nat, r0: nat, c0: nat, br: nat, bc: nat, p: (nat, nat))
    requires |blk| == bs * bs && br < bs && bc <= bs
    ensures p in RowWrites(cells, blk, bs, r0, c0, br, bc) <==> p in cells || InRegion(p, r0 + br, c0, 1, bc)
    ensures p in RowWrites(cells, blk, bs, r0, c0, br, bc) ==>
              if InRegion(p, r0 + br, c0, 1, bc)
              then MatEntry(blk, bs, br + 1, p.1 - c0 + 1) == Ok(RowWrites(cells, blk, bs, r0, c0, br, bc)[p])
              else RowWrites(cells, blk, bs, r0, c0, br, bc)[p] == cells[p]
  {
    if bc > 0 {
      RowWritesAt(cells, blk, bs, r0, c0, br, bc - 1, p);
    }
  }

  /** Writing block rows 0..br-1 adds exactly the positions of those rows,
    * each with its block entry. */
  lemma {:induction false} BlockWritesAt(cells: map<(nat, nat), real>, blk: seq<real>, bs: nat, r0: nat, c0: nat, br: nat, p: (nat, nat))
    requires |blk| == bs * bs && br <= bs
    ensures p in BlockWrites(cells, blk, bs, r0, c0, br) <==> p in cells || InRegion(p, r0, c0, br, bs)
    ensures p in BlockWrites(cells, blk, bs, r0, c0, br) ==>
              if InRegion(p, r0, c0, br, bs)
              then MatEntry(blk, bs, p.0 - r0 + 1, p.1 - c0 + 1) == Ok(BlockWrites(cells, blk, bs, r0, c0, br)[p])
              else BlockWrites(cells, blk, bs, r0, c0, br)[p] == cells[p]
  {
    if br > 0 {
      BlockWritesAt(cells, blk, bs, r0, c0, br - 1, p);
      RowWritesAt(BlockWrites(cells, blk, bs, r0, c0, br - 1), blk, bs, r0, c0, br - 1, bs, p);
    }
  }

  /** The positions of stored block (irow + 1, key) are those whose
    * coordinates name it, with the flat values there. */
  lemma BlockRegion(m: BlockMatrix, irow: nat, key: nat, p: (nat, nat))
    requires ValidBlocks(m) && irow < |m.rows| && key in m.rows[irow]
    ensures InRegion(p, Offset(irow, m.bs), Offset(key - 1, m.bs), m.bs, m.bs) <==>
              Quot(p.0, m.bs) == irow && Quot(p.1, m.bs) + 1 == key
    ensures InRegion(p, Offset(irow, m.bs), Offset(key - 1, m.bs), m.bs, m.bs) ==>
              Covered(m, p) &&
              MatEntry(m.rows[irow][key], m.bs, p.0 - Offset(irow, m.bs) + 1, p.1 - Offset(key - 1, m.bs) + 1) == Ok(FlatValue(m, p))
  {
    var bs := m.bs;
    QuotUnique(p.0, bs, irow);
    QuotUnique(p.1, bs, key - 1);
    if InRegion(p, Offset(irow, bs), Offset(key - 1, bs), bs, bs) {
      BlockEntryAt(m, irow, key, p);
    }
  }

  /** Inside the block, the flat value is the block entry at the offset
    * from the block's corner. */
  lemma BlockEntryAt(m: BlockMatrix, irow: nat, key: nat, p: (nat, nat))
    requires ValidBlocks(m) && irow < |m.rows| && key in m.rows[irow]
    requires InRegion(p, Offset(irow, m.bs), Offset(key - 1, m.bs), m.bs, m.bs)
    ensures Covered(m, p)
    ensures MatEntry(m.rows[irow][key], m.bs, p.0 - Offset(irow, m.bs) + 1, p.1 - Offset(key - 1, m.bs) + 1) == Ok(FlatValue(m, p))
  {
    var bs := m.bs;
    QuotRemOf(irow, p.0 - Offset(irow, bs), bs);
    QuotRemOf(key - 1, p.1 - Offset(key - 1, bs), bs);
    FlatValueAt(m, p);
  }

  /** The flat value at a covered position is the block entry its
    * quotients and remainders name. */
  lemma FlatValueAt(m: BlockMatrix, p: (nat, nat))
    requires ValidBlocks(m) && Covered(m, p)
    ensures MatEntry(m.rows[Quot(p.0, m.bs)][Quot(p.1, m.bs) + 1], m.bs, Rem(p.0, m.bs) + 1, Rem(p.1, m.bs) + 1) == Ok(FlatValue(m, p))
  {
    QuotRem(p.0, m.bs);
    QuotRem(p.1, m.bs);
  }

  /** Writing the blocks of row irow + 1 with keys in `keys` adds exactly
    * the positions those blocks cover, with the flat values. */
  lemma {:induction false} KeyWritesAt(cells: map<(nat, nat), real>, m: BlockMatrix, irow: nat, keys: set<nat>, p: (nat, nat))
    requires ValidBlocks(m) && irow < |m.rows| && keys <= m.rows[irow].Keys
    ensures p in KeyWrites(cells, m, irow, keys) <==>
              p in cells || (Quot(p.0, m.bs) == irow && Quot(p.1, m.bs) + 1 in keys)
    ensures p in KeyWrites(cells, m, irow, keys) ==>
              if Quot(p.0, m.bs) == irow && Quot(p.1, m.bs) + 1 in keys
              then Covered(m, p) && KeyWrites(cells, m, irow, keys)[p] == FlatValue(m, p)
              else KeyWrites(cells, m, irow, keys)[p] == cells[p]
    decreases |keys|
  {
    if keys != {} {
      var key := SparseRows.MinKey(keys);
      var bs := m.bs;
      var r0, c0 := Offset(irow, bs), Offset(key - 1, bs);
      var next := BlockWrites(cells, m.rows[irow][key], bs, r0, c0, bs);
      assert KeyWrites(cells, m, irow, keys) == KeyWrites(next, m, irow, keys - {key});
      BlockWritesAt(cells, m.rows[irow][key], bs, r0, c0, bs, p);
      KeyWritesAt(next, m, irow, keys - {key}, p);
      BlockRegion(m, irow, key, p);
    }
  }

  /** The first block written is the one with the least key. */
  lemma KeyWritesStep(cells: map<(nat, nat), real>, m: BlockMatrix, irow: nat, keys: set<nat>)
    requires ValidBlocks(m) && irow < |m.rows| && keys <= m.rows[irow].Keys && keys != {}
    ensures KeyWrites(cells, m, irow, keys) ==
            KeyWrites(BlockWrites(cells, m.rows[irow][SparseRows.MinKey(keys)], m.bs, Offset(irow, m.bs),
                                  Offset(SparseRows.MinKey(keys) - 1, m.bs), m.bs),
                      m, irow, keys - {SparseRows.MinKey(keys)})
  {
  }

  /** After block rows 1..n the matrix holds exactly the covered positions
    * of those rows, each with its block entry. */
  lemma {:induction false} MatrixWritesAt(m: BlockMatrix, n: nat, p: (nat, nat))
    requires ValidBlocks(m) && n <= |m.rows|
    ensures p in MatrixWrites(m, n) <==> Covered(m, p) && Quot(p.0, m.bs) < n
    ensures p in MatrixWrites(m, n) ==> Covered(m, p) && MatrixWrites(m, n)[p] == FlatValue(m, p)
  {
    if n > 0 {
      MatrixWritesAt(m, n - 1, p);
      KeyWritesAt(MatrixWrites(m, n - 1), m, n - 1, m.rows[n - 1].Keys, p);
    }
  }

  /** The flat matrix `operator<=` produces holds exactly the covered
    * positions, each with the entry of the block that covers it. */
  lemma FlattenedMatrix(m: BlockMatrix)
    requires ValidBlocks(m)
    ensures forall p: (nat, nat) :: p in MatrixWrites(m, |m.rows|) <==> Covered(m, p)
    ensures forall p: (nat, nat) :: p in MatrixWrites(m, |m.rows|) ==> MatrixWrites(m, |m.rows|)[p] == FlatValue(m, p)
  {
    forall p: (nat, nat)
      ensures p in MatrixWrites(m, |m.rows|) <==> Covered(m, p)
      ensures p in MatrixWrites(m, |m.rows|) ==> MatrixWrites(m, |m.rows|)[p] == FlatValue(m, p)
    {
      MatrixWritesAt(m, |m.rows|, p);
    }
  }

  // -----------------------------------------------------------------------
  // The matrix binding.

  /** An MTL matrix as far as the binding uses it: its shape after
    * `resize`, and the positions written since, with their values. */
  class FlatMatrix {
    var nrows: nat
    var ncols: nat
    var cells: map<(nat, nat), real>

    constructor ()
      ensures nrows == 0 && ncols == 0 && cells == map[]
    {
      nrows, ncols, cells := 0, 0, map[];
    }

    /** `resize(r, c)`: the new shape, with nothing written yet. */
    method Resize(r: nat, c: nat)
      modifies this
      ensures nrows == r && ncols == c && cells == map[]
    {
      nrows, ncols, cells := r, c, map[];
    }

    /** `mtl_matrix(r, c) = x`. */
    method Put(r: nat, c: nat, x: real)
      modifies this
      ensures nrows == old(nrows) && ncols == old(ncols) && cells == old(cells)[(r, c) := x]
    {
      cells := cells[(r, c) := x];
    }
  }

  /** The two inner loops of the matrix `operator<=` for stored block
    * (irow + 1, key): entry (br + 1, bc + 1) goes to
    * `(irow * bs + br, (key - 1) * bs + bc)`. */
  method WriteBlock(target: FlatMatrix, m: BlockMatrix, irow: nat, key: nat)
    requires ValidBlocks(m) && irow < |m.rows| && key in m.rows[irow]
    modifies target
    ensures target.nrows == old(target.nrows) && target.ncols == old(target.ncols)
    ensures target.cells == BlockWrites(old(target.cells), m.rows[irow][key], m.bs, Offset(irow, m.bs), Offset(key - 1, m.bs), m.bs)
  {
    var bs := m.bs;
    var blk := m.rows[irow][key];
    OffsetIsProduct(irow, bs);
    OffsetIsProduct(key - 1, bs);
    ghost var start := target.cells;
    for br := 0 to bs
      invariant target.nrows == old(target.nrows) && target.ncols == old(target.ncols)
      invariant target.cells == BlockWrites(start, blk, bs, Offset(irow, bs), Offset(key - 1, bs), br)
    {
      for bc := 0 to bs
        invariant target.nrows == old(target.nrows) && target.ncols == old(target.ncols)
        invariant target.cells ==
                    RowWrites(BlockWrites(start, blk, bs, Offset(irow, bs), Offset(key - 1, bs), br),
                              blk, bs, Offset(irow, bs), Offset(key - 1, bs), br, bc)
      {
        MatIndexBound(bs, br + 1, bc + 1);
        target.Put(irow * bs + br, (key - 1) * bs + bc, blk[MatIndex(bs, br + 1, bc + 1)]);
      }
    }
  }

  /** The key loop of the matrix `operator<=` for block row irow + 1: the
    * stored blocks are written in ascending key order. */
  method WriteRow(target: FlatMatrix, m: BlockMatrix, irow: nat)
    requires ValidBlocks(m) && irow < |m.rows|
    modifies target
    ensures target.nrows == old(target.nrows) && target.ncols == old(target.ncols)
    ensures target.cells == KeyWrites(old(target.cells), m, irow, m.rows[irow].Keys)
  {
    var row := m.rows[irow];
    var remaining := row.Keys;
    while remaining != {}
      invariant remaining <= row.Keys
      invariant target.nrows == old(target.nrows) && target.ncols == old(target.ncols)
      invariant KeyWrites(target.cells, m, irow, remaining) == KeyWrites(old(target.cells), m, irow, row.Keys)
      decreases |remaining|
    {
      var key := SparseRows.MinKey(remaining);
      KeyWritesStep(target.cells, m, irow, remaining);
      WriteBlock(target, m, irow, key);
      remaining := remaining - {key};
    }
  }

  /** `mtl_matrix <= daixt_matrix`: the target is resized to `bs * rows` by
    * `bs * cols`, and every entry of every stored block is copied to its
    * flat position, block row by block row and, inside one, in ascending
    * key order; what that gives is `FlattenedMatrix`. */
  method AssignBlockMatrix(target: FlatMatrix, m: BlockMatrix)
    requires ValidBlocks(m)
    modifies target
    ensures target.nrows == m.bs * |m.rows| && target.ncols == m.bs * m.ncols
    ensures target.cells == MatrixWrites(m, |m.rows|)
  {
    var r, c := m.bs * |m.rows|, m.bs * m.ncols;
    target.Resize(r, c);
    for irow := 0 to |m.rows|
      invariant target.nrows == r && target.ncols == c
      invariant target.cells == MatrixWrites(m, irow)
    {
      WriteRow(target, m, irow);
    }
  }

  // -----------------------------------------------------------------------
  // The vector binding.

  /** A `Linalg::Vector` of tiny vectors of dimension bs, every one holding
    * bs entries. */
  predicate ValidBlockVector(v: seq<seq<real>>, bs: nat)
  {
    bs > 0 && forall j :: 0 <= j < |v| ==> |v[j]| == bs
  }

  /** The blocks laid end to end. */
  function Flatten(v: seq<seq<real>>): seq<real>
  {
    if |v| == 0 then [] else Flatten(v[..|v| - 1]) + v[|v| - 1]
  }

  /** The flat vector has `bs * |v|` entries. */
  lemma {:induction false} FlattenLength(v: seq<seq<real>>, bs: nat)
    requires ValidBlockVector(v, bs)
    ensures |Flatten(v)| == Offset(|v|, bs)
  {
    if |v| > 0 {
      FlattenLength(v[..|v| - 1], bs);
    }
  }

  /** Entry `j * bs + jj` of the flat vector is entry `jj + 1` of block
    * `j + 1`. */
  lemma {:induction false} FlattenEntry(v: seq<seq<real>>, bs: nat, j: nat, jj: nat)
    requires ValidBlockVector(v, bs) && j < |v| && jj < bs
    ensures j * bs + jj < |Flatten(v)| && Flatten(v)[j * bs + jj] == v[j][jj]
  {
    var w := v[..|v| - 1];
    FlattenLength(w, bs);
    OffsetIsProduct(|w|, bs);
    assert Flatten(v) == Flatten(w) + v[|v| - 1];
    if j < |v| - 1 {
      FlattenEntry(w, bs, j, jj);
      assert v[j] == w[j];
    }
  }

  /** Every entry of the flat vector comes from one block: entry k is entry
    * `k % bs + 1` of block `k / bs + 1`. */
  lemma FlattenOnto(v: seq<seq<real>>, bs: nat, k: nat)
    requires ValidBlockVector(v, bs) && k < |Flatten(v)|
    ensures |Flatten(v)| == bs * |v|
    ensures k / bs < |v| && Flatten(v)[k] == v[k / bs][k % bs]
  {
    FlattenLength(v, bs);
    OffsetIsProduct(|v|, bs);
    QuotIsDiv(k, bs);
    QuotRem(k, bs);
    var j, jj := Quot(k, bs), Rem(k, bs);
    OffsetIsProduct(j, bs);
    if j >= |v| {
      OffsetMonotone(|v|, j, bs);
    }
    FlattenEntry(v, bs, j, jj);
  }

  /** One more block entry extends the flattened prefix. */
  lemma FlattenStep(v: seq<seq<real>>, j: nat, jj: nat)
    requires j < |v| && jj < |v[j]|
    ensures Flatten(v[..j]) + v[j][..jj] + [v[j][jj]] == Flatten(v[..j]) + v[j][..jj + 1]
    ensures jj + 1 == |v[j]| ==> Flatten(v[..j]) + v[j][..jj + 1] == Flatten(v[..j + 1])
  {
    assert v[j][..jj + 1] == v[j][..jj] + [v[j][jj]];
    assert v[..j + 1][..j] == v[..j];
  }

  /** An MTL vector: its storage after `resize`. */
  class FlatVector {
    var data: array<real>

    constructor ()
      ensures data.Length == 0
    {
      data := new real[0];
    }

    /** `resize(n)`. */
    method Resize(n: nat)
      modifies this
      ensures fresh(data) && data.Length == n
    {
      data := new real[n];
    }
  }

  /** `mtl_vector <= daixt_vector`: the target is resized to `bs * |v|` and
    * entry `j * bs + jj` is set to entry `jj + 1` of block `j + 1`; what
    * that gives is `FlattenEntry` and `FlattenOnto`. */
  method AssignBlockVector(target: FlatVector, v: seq<seq<real>>, bs: nat)
    requires ValidBlockVector(v, bs)
    modifies target
    ensures fresh(target.data) && target.data[..] == Flatten(v)
  {
    FlattenLength(v, bs);
    OffsetIsProduct(|v|, bs);
    target.Resize(bs * |v|);
    var out := target.data;
    ghost var xs: seq<real> := [];
    for j := 0 to |v|
      invariant target.data == out && out.Length == bs * |v|
      invariant xs == Flatten(v[..j]) && |xs| == Offset(j, bs) <= out.Length
      invariant forall k :: 0 <= k < |xs| ==> out[k] == xs[k]
    {
      OffsetMonotone(j + 1, |v|, bs);
      for jj := 0 to bs
        invariant target.data == out
        invariant xs == Flatten(v[..j]) + v[j][..jj] && |xs| == Offset(j, bs) + jj <= out.Length
        invariant forall k :: 0 <= k < |xs| ==> out[k] == xs[k]
      {
        OffsetIsProduct(j, bs);
        FlattenStep(v, j, jj);
        out[j * bs + jj] := v[j][jj];
        xs := xs + [v[j][jj]];
      }
      FlattenStep(v, j, bs - 1);
    }
    assert v[..|v|] == v;
    assert out[..] == xs;
  }
}
