/**
  The abstract view of one block of a block sparsity pattern: its
  dimensions, the set of (row, column) positions it stores, and whether it
  has been compressed. The sub-pattern classes themselves are not part of
  this model; only the queries the block pattern makes of them are.
 */
module SubPatterns {

  datatype SubPattern = SubPattern(nRows: nat, nCols: nat, entries: set<(nat, nat)>, compressed: bool)

  /** Every stored entry lies inside the block's dimensions. */
  predicate WellFormed(p: SubPattern)
  {
    forall e :: e in p.entries ==> e.0 < p.nRows && e.1 < p.nCols
  }

  /** A default-constructed sub-pattern: 0 x 0, nothing stored. */
  const Fresh: SubPattern := SubPattern(0, 0, {}, false)

  /** `reinit(m, n)` of a sub-pattern: the given dimensions, nothing stored. */
  function Sized(m: nat, n: nat): (p: SubPattern)
    ensures WellFormed(p) && p.nRows == m && p.nCols == n && p.entries == {}
  {
    SubPattern(m, n, {}, false)
  }

  /** The diagonal positions `(i, i)`, `i < n`. */
  function Diagonal(n: nat): set<(nat, nat)>
  {
    set i: nat | i < n :: (i, i)
  }

  /** A square block has exactly `n` diagonal positions. */
  lemma {:induction false} DiagonalSize(n: nat)
    ensures |Diagonal(n)| == n
  {
    if n > 0 {
      DiagonalSize(n - 1);
      assert Diagonal(n) == Diagonal(n - 1) + {(n - 1, n - 1)};
    }
  }

  /** The entries a compressed sub-pattern of size `m x n` stores from the
      start: the whole diagonal when the block is square, nothing otherwise. */
  function StoredDiagonal(m: nat, n: nat): (d: set<(nat, nat)>)
    ensures forall e :: e in d <==> m == n && e.0 == e.1 && e.0 < m
  {
    if m == n then Diagonal(m) else {}
  }

  /** `reinit(m, n, row_lengths)` of a compressed sub-pattern: the given
      dimensions, the diagonal stored when square, not yet compressed. */
  function Reserved(m: nat, n: nat): (p: SubPattern)
    ensures WellFormed(p) && p.nRows == m && p.nCols == n && !p.compressed
    ensures forall e :: e in p.entries <==> m == n && e.0 == e.1 && e.0 < m
  {
    SubPattern(m, n, StoredDiagonal(m, n), false)
  }

  /** `copy_from` a dynamic sub-pattern into a compressed one: the same
      dimensions and entries, plus the whole diagonal when square, and
      compressed. */
  function CopyCompressed(p: SubPattern): (q: SubPattern)
    ensures q.compressed && q.nRows == p.nRows && q.nCols == p.nCols
    ensures forall e :: e in q.entries <==> e in p.entries || (p.nRows == p.nCols && e.0 == e.1 && e.0 < p.nRows)
    ensures WellFormed(p) ==> WellFormed(q)
  {
    SubPattern(p.nRows, p.nCols, p.entries + StoredDiagonal(p.nRows, p.nCols), true)
  }

  /** Copying never loses an entry; a rectangular block keeps its count, and
      a square `n x n` block ends up with at least `n` entries. */
  lemma CopyCompressedCount(p: SubPattern)
    ensures NNonzero(p) <= NNonzero(CopyCompressed(p))
    ensures p.nRows != p.nCols ==> NNonzero(CopyCompressed(p)) == NNonzero(p)
    ensures p.nRows == p.nCols ==> p.nRows <= NNonzero(CopyCompressed(p))
  {
    var q := CopyCompressed(p);
    SubsetSize(p.entries, q.entries);
    if p.nRows == p.nCols {
      DiagonalSize(p.nRows);
      SubsetSize(Diagonal(p.nRows), q.entries);
    } else {
      assert q.entries == p.entries;
    }
  }

  lemma {:induction false} SubsetSize(a: set<(nat, nat)>, b: set<(nat, nat)>)
    requires a <= b
    ensures |a| <= |b|
  {
    if a != {} {
      var e :| e in a;
      SubsetSize(a - {e}, b - {e});
    }
  }

  /** `empty()` of a sub-pattern: it has neither rows nor columns. */
  predicate IsEmpty(p: SubPattern)
  {
    p.nRows == 0 && p.nCols == 0
  }

  function NNonzero(p: SubPattern): nat
  {
    |p.entries|
  }

  predicate Exists(p: SubPattern, i: nat, j: nat)
  {
    (i, j) in p.entries
  }

  /** `compress()` of a sub-pattern keeps what is stored and marks it compressed. */
  function Compress(p: SubPattern): (q: SubPattern)
    ensures q.compressed && q.nRows == p.nRows && q.nCols == p.nCols && q.entries == p.entries
  {
    p.(compressed := true)
  }

  /** The columns stored in row `i` of a sub-pattern. */
  function RowEntries(p: SubPattern, i: nat): set<nat>
  {
    set j | 0 <= j < p.nCols && (i, j) in p.entries
  }

  function RowLength(p: SubPattern, i: nat): nat
  {
    |RowEntries(p, i)|
  }

  /** The largest row length among rows `0 .. n - 1`. */
  function MaxRowLengthUpTo(p: SubPattern, n: nat): (m: nat)
    ensures forall i :: 0 <= i < n ==> RowLength(p, i) <= m
    ensures n == 0 ==> m == 0
    ensures n > 0 ==> exists i :: 0 <= i < n && m == RowLength(p, i)
  {
    if n == 0 then 0
    else
      var m := MaxRowLengthUpTo(p, n - 1);
      if RowLength(p, n - 1) > m then RowLength(p, n - 1) else m
  }

  /** `max_entries_per_row()` of a sub-pattern. */
  function MaxEntriesPerRow(p: SubPattern): nat
  {
    MaxRowLengthUpTo(p, p.nRows)
  }

  /** An empty (0 x 0) well-formed sub-pattern stores nothing. */
  lemma EmptyStoresNothing(p: SubPattern)
    requires WellFormed(p) && IsEmpty(p)
    ensures NNonzero(p) == 0 && MaxEntriesPerRow(p) == 0
  {
    if e :| e in p.entries {
      assert false;
    }
  }
}
