/**
  Specification functions over the `block_rows x block_columns` table of
  sub-patterns held by a block sparsity pattern, and the properties the
  block pattern's queries promise about them.
 */
module BlockTables {
  import opened BlockIndices
  import opened SubPatterns

  /** Row-major table of sub-patterns, `t[i][j]` being block `(i, j)`. */
  type Table = seq<seq<SubPattern>>

  predicate Shaped(t: Table, r: nat, c: nat)
  {
    |t| == r && forall i :: 0 <= i < r ==> |t[i]| == c
  }

  predicate WellFormedTable(t: Table)
  {
    forall i, j :: 0 <= i < |t| && 0 <= j < |t[i]| ==> WellFormed(t[i][j])
  }

  /** What `reinit(r, c)` leaves: `r x c` default-constructed sub-patterns. */
  function FreshTable(r: nat, c: nat): Table
  {
    seq(r, _ => seq(c, _ => Fresh))
  }

  /** Row counts of the blocks in the first block column. */
  function FirstColumnRows(t: Table): seq<nat>
    requires forall i :: 0 <= i < |t| ==> |t[i]| > 0
  {
    seq(|t|, i requires 0 <= i < |t| => t[i][0].nRows)
  }

  /** Column counts of the blocks in the first block row. */
  function FirstRowCols(t: Table): seq<nat>
  {
    if |t| == 0 then [] else seq(|t[0]|, j requires 0 <= j < |t[0]| => t[0][j].nCols)
  }

  /** Column counts of the blocks of one block row. */
  function ColWidths(row: seq<SubPattern>): seq<nat>
  {
    seq(|row|, j requires 0 <= j < |row| => row[j].nCols)
  }

  /** All blocks of a block row have as many rows as its first block, and all
      blocks of a block column as many columns as its first block. */
  predicate Consistent(t: Table)
  {
    && (forall i :: 0 <= i < |t| ==> |t[i]| == |t[0]|)
    && (forall i, j {:trigger t[i][j]} :: 0 <= i < |t| && 0 <= j < |t[i]| ==>
          t[i][j].nRows == t[i][0].nRows && t[i][j].nCols == t[0][j].nCols)
  }

  predicate AllEmpty(t: Table)
  {
    forall i, j :: 0 <= i < |t| && 0 <= j < |t[i]| ==> IsEmpty(t[i][j])
  }

  predicate AllCompressed(t: Table)
  {
    forall i, j :: 0 <= i < |t| && 0 <= j < |t[i]| ==> t[i][j].compressed
  }

  /** Every block compressed, nothing else changed. */
  function CompressTable(t: Table): Table
  {
    seq(|t|, i requires 0 <= i < |t| => CompressRow(t[i]))
  }

  /** Every block of one block row compressed. */
  function CompressRow(row: seq<SubPattern>): seq<SubPattern>
  {
    seq(|row|, j requires 0 <= j < |row| => Compress(row[j]))
  }

  // ---------------------------------------------------------------- counts

  /** Stored entries of one block row. */
  function RowNonzero(row: seq<SubPattern>): nat
  {
    if row == [] then 0 else RowNonzero(row[..|row| - 1]) + NNonzero(row[|row| - 1])
  }

  /** Stored entries of the whole table. */
  function TableNonzero(t: Table): nat
  {
    if t == [] then 0 else TableNonzero(t[..|t| - 1]) + RowNonzero(t[|t| - 1])
  }

  /** Sum of the per-block row maxima along one block row. */
  function RowMaxSum(row: seq<SubPattern>): nat
  {
    if row == [] then 0 else RowMaxSum(row[..|row| - 1]) + MaxEntriesPerRow(row[|row| - 1])
  }

  /** The largest of the block rows' sums of row maxima; 0 without block rows. */
  function MaxRowSum(t: Table): (m: nat)
    ensures forall ib :: 0 <= ib < |t| ==> RowMaxSum(t[ib]) <= m
    ensures |t| == 0 ==> m == 0
    ensures |t| > 0 ==> exists ib :: 0 <= ib < |t| && m == RowMaxSum(t[ib])
  {
    if t == [] then 0
    else
      var m := MaxRowSum(t[..|t| - 1]);
      if RowMaxSum(t[|t| - 1]) > m then RowMaxSum(t[|t| - 1]) else m
  }

  lemma {:induction false} RowNonzeroZero(row: seq<SubPattern>)
    ensures RowNonzero(row) == 0 <==> forall j :: 0 <= j < |row| ==> row[j].entries == {}
  {
    if row != [] {
      var front := row[..|row| - 1];
      RowNonzeroZero(front);
      assert forall j :: 0 <= j < |front| ==> front[j] == row[j];
    }
  }

  /** The table stores nothing exactly when no block stores anything. */
  lemma {:induction false} TableNonzeroZero(t: Table)
    ensures TableNonzero(t) == 0 <==> forall i, j :: 0 <= i < |t| && 0 <= j < |t[i]| ==> t[i][j].entries == {}
  {
    if t != [] {
      var front := t[..|t| - 1];
      TableNonzeroZero(front);
      RowNonzeroZero(t[|t| - 1]);
      assert forall i :: 0 <= i < |front| ==> front[i] == t[i];
    }
  }

  /** A table of empty (0 x 0) blocks stores nothing. */
  lemma EmptyTableHasNoNonzeros(t: Table)
    requires WellFormedTable(t) && AllEmpty(t)
    ensures TableNonzero(t) == 0
  {
    forall i: int, j: int | 0 <= i < |t| && 0 <= j < |t[i]|
      ensures t[i][j].entries == {}
    {
      EmptyStoresNothing(t[i][j]);
    }
    TableNonzeroZero(t);
  }

  /** A freshly re-initialised table is empty and stores nothing. */
  lemma FreshTableIsEmpty(r: nat, c: nat)
    ensures Shaped(FreshTable(r, c), r, c) && WellFormedTable(FreshTable(r, c))
    ensures AllEmpty(FreshTable(r, c)) && TableNonzero(FreshTable(r, c)) == 0
  {
    EmptyTableHasNoNonzeros(FreshTable(r, c));
  }

  /** Block `(i, j)` of dimensions `rs[i] x cs[j]`, nothing stored. */
  function SizedTable(rs: seq<nat>, cs: seq<nat>): Table
  {
    seq(|rs|, i requires 0 <= i < |rs| => seq(|cs|, j requires 0 <= j < |cs| => Sized(rs[i], cs[j])))
  }

  /** Blocks sized from two vectors of block sizes agree along block rows and
      columns, and the sizes read back from the first column and row are the
      given vectors. */
  lemma SizedTableSizes(rs: seq<nat>, cs: seq<nat>)
    ensures Shaped(SizedTable(rs, cs), |rs|, |cs|) && WellFormedTable(SizedTable(rs, cs))
    ensures Consistent(SizedTable(rs, cs))
    ensures (|rs| == 0) == (|cs| == 0) ==>
      FirstColumnRows(SizedTable(rs, cs)) == rs && FirstRowCols(SizedTable(rs, cs)) == cs
    ensures TableNonzero(SizedTable(rs, cs)) == 0
  {
    TableNonzeroZero(SizedTable(rs, cs));
  }

  /** Block `(i, j)` of dimensions `rs[i] x cs[j]` as a compressed pattern's
      `reinit` leaves it: the diagonal stored when square. */
  function ReservedTable(rs: seq<nat>, cs: seq<nat>): Table
  {
    seq(|rs|, i requires 0 <= i < |rs| => seq(|cs|, j requires 0 <= j < |cs| => Reserved(rs[i], cs[j])))
  }

  /** Blocks reserved from two vectors of block sizes agree along block rows
      and columns, the sizes read back are the given vectors, and block
      `(i, j)` stores exactly its diagonal when `rs[i] == cs[j]` and nothing
      otherwise. */
  lemma ReservedTableSizes(rs: seq<nat>, cs: seq<nat>)
    ensures Shaped(ReservedTable(rs, cs), |rs|, |cs|) && WellFormedTable(ReservedTable(rs, cs))
    ensures Consistent(ReservedTable(rs, cs))
    ensures (|rs| == 0) == (|cs| == 0) ==>
      FirstColumnRows(ReservedTable(rs, cs)) == rs && FirstRowCols(ReservedTable(rs, cs)) == cs
    ensures forall i, j, e :: 0 <= i < |rs| && 0 <= j < |cs| ==>
      (e in ReservedTable(rs, cs)[i][j].entries <==> rs[i] == cs[j] && e.0 == e.1 && e.0 < rs[i])
  {
    var t := ReservedTable(rs, cs);
    forall i, j | 0 <= i < |rs| && 0 <= j < |cs|
      ensures t[i][j] == Reserved(rs[i], cs[j])
    {
    }
  }

  /** Every block copied into a compressed sub-pattern. */
  function CopyTable(t: Table): Table
  {
    seq(|t|, i requires 0 <= i < |t| => CopyRow(t[i]))
  }

  function CopyRow(row: seq<SubPattern>): seq<SubPattern>
  {
    seq(|row|, j requires 0 <= j < |row| => CopyCompressed(row[j]))
  }

  /** Copying every block into a compressed one keeps the shape and the block
      sizes, loses no entry, and leaves every block compressed. */
  lemma CopyTableKeeps(t: Table)
    ensures |CopyTable(t)| == |t|
    ensures forall i :: 0 <= i < |t| ==> |CopyTable(t)[i]| == |t[i]|
    ensures AllCompressed(CopyTable(t))
    ensures WellFormedTable(t) ==> WellFormedTable(CopyTable(t))
    ensures Consistent(t) ==> Consistent(CopyTable(t))
    ensures TableNonzero(t) <= TableNonzero(CopyTable(t))
  {
    var ct: Table := CopyTable(t);
    forall i: int, j: int | 0 <= i < |t| && 0 <= j < |t[i]|
      ensures |ct[i]| == |t[i]| && ct[i][j].compressed
      ensures ct[i][j].nRows == t[i][j].nRows
      ensures ct[i][j].nCols == t[i][j].nCols
      ensures WellFormed(t[i][j]) ==> WellFormed(ct[i][j])
    {
      assert ct[i][j] == CopyCompressed(t[i][j]);
    }
    CopyTableNonzero(t);
  }

  lemma {:induction false} CopyTableNonzero(t: Table)
    ensures TableNonzero(t) <= TableNonzero(CopyTable(t))
  {
    if t != [] {
      var front := t[..|t| - 1];
      CopyTableNonzero(front);
      assert CopyTable(t)[..|t| - 1] == CopyTable(front);
      CopyRowNonzero(t[|t| - 1]);
    }
  }

  lemma {:induction false} CopyRowNonzero(row: seq<SubPattern>)
    ensures RowNonzero(row) <= RowNonzero(CopyRow(row))
  {
    if row != [] {
      var front := row[..|row| - 1];
      CopyRowNonzero(front);
      assert CopyRow(row)[..|row| - 1] == CopyRow(front);
      CopyCompressedCount(row[|row| - 1]);
    }
  }

  /** Compressing every block keeps the shape, the block sizes and the
      stored entries, and leaves every block compressed. */
  lemma CompressTableKeeps(t: Table)
    ensures |CompressTable(t)| == |t|
    ensures forall i :: 0 <= i < |t| ==> |CompressTable(t)[i]| == |t[i]|
    ensures AllCompressed(CompressTable(t))
    ensures WellFormedTable(t) ==> WellFormedTable(CompressTable(t))
    ensures Consistent(t) ==> Consistent(CompressTable(t))
    ensures TableNonzero(CompressTable(t)) == TableNonzero(t)
  {
    var ct := CompressTable(t);
    forall i | 0 <= i < |t|
      ensures |ct[i]| == |t[i]| && forall j :: 0 <= j < |t[i]| ==> ct[i][j] == Compress(t[i][j])
    {
    }
    CompressTableNonzero(t);
  }

  /** Compressing every block keeps the number of stored entries. */
  lemma {:induction false} CompressTableNonzero(t: Table)
    ensures TableNonzero(CompressTable(t)) == TableNonzero(t)
  {
    if t != [] {
      var front := t[..|t| - 1];
      CompressTableNonzero(front);
      assert CompressTable(t)[..|t| - 1] == CompressTable(front);
      CompressRowKeeps(t[|t| - 1]);
    }
  }

  lemma {:induction false} CompressRowKeeps(row: seq<SubPattern>)
    ensures RowNonzero(CompressRow(row)) == RowNonzero(row)
  {
    if row != [] {
      var front := row[..|row| - 1];
      CompressRowKeeps(front);
      assert CompressRow(row)[..|row| - 1] == CompressRow(front);
    }
  }
}
