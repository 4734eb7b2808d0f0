/**
  The block sparsity pattern: a `block_rows x block_columns` table of
  sub-patterns together with the bookkeeping derived from it (global size,
  row and column block sizes, scratch arrays). One class stands for the
  common base and both of its derived kinds (compressed and dynamic); they
  differ only in the members modelled at the end.
 */
module BlockSparsity {
  import opened BlockIndices
  import opened SubPatterns
  import opened BlockTables
  import opened BlockPrint

  /** `std::vector::resize`: keep the prefix, value-initialise new slots. */
  function Resize(s: seq<nat>, n: nat): (r: seq<nat>)
    ensures |r| == n
    ensures forall k :: 0 <= k < n ==> r[k] == if k < |s| then s[k] else 0
  {
    if n <= |s| then s[..n] else s + seq(n - |s|, _ => 0)
  }

  class BlockSparsityPattern {
    var blockRows: nat
    var blockCols: nat
    /** `sub_objects`: block `(i, j)` is `blocks[i][j]`. */
    var blocks: Table
    /** Global dimensions, as last set by `collect_sizes`. */
    var nRows: nat
    var nCols: nat
    /** Block sizes of `row_indices` and `column_indices`. */
    var rowSizes: seq<nat>
    var colSizes: seq<nat>
    /** Scratch arrays `block_column_indices` and `counter_within_block`. */
    var blockColumnIndices: seq<nat>
    var counterWithinBlock: seq<nat>

    ghost predicate Valid()
      reads this
    {
      Shaped(blocks, blockRows, blockCols) && WellFormedTable(blocks)
    }

    /** Everything `collect_sizes` derives from the blocks. */
    ghost function Bookkeeping(): (nat, nat, seq<nat>, seq<nat>, seq<nat>, seq<nat>)
      reads this
    {
      (nRows, nCols, rowSizes, colSizes, blockColumnIndices, counterWithinBlock)
    }

    /** The state `collect_sizes` establishes. */
    ghost predicate SizesCollected()
      reads this
      requires Valid()
    {
      && (blockRows == 0) == (blockCols == 0)
      && rowSizes == FirstColumnRows(blocks)
      && colSizes == FirstRowCols(blocks)
      && nRows == Sum(rowSizes)
      && nCols == Sum(colSizes)
      && |blockColumnIndices| == blockCols
      && |counterWithinBlock| == blockCols
    }

    /** The default constructor: no blocks. */
    constructor Init()
      ensures Valid() && blockRows == 0 && blockCols == 0 && blocks == []
      ensures Bookkeeping() == (0, 0, [], [], [], [])
    {
      blockRows, blockCols, blocks := 0, 0, [];
      nRows, nCols := 0, 0;
      rowSizes, colSizes := [], [];
      blockColumnIndices, counterWithinBlock := [], [];
    }

    /** Construct with `r x c` default sub-patterns. */
    constructor Create(r: nat, c: nat)
      ensures Valid() && blockRows == r && blockCols == c && blocks == FreshTable(r, c)
      ensures Bookkeeping() == (0, 0, [], [], [], [])
    {
      blockRows, blockCols, blocks := 0, 0, [];
      nRows, nCols := 0, 0;
      rowSizes, colSizes := [], [];
      blockColumnIndices, counterWithinBlock := [], [];
      new;
      Reinit(r, c);
    }

    /** Discard all blocks and set up `r x c` default-constructed ones. The
        derived sizes are left as they were until `collect_sizes`. */
    method Reinit(r: nat, c: nat)
      modifies this
      ensures Valid() && blockRows == r && blockCols == c
      ensures blocks == FreshTable(r, c)
      ensures Bookkeeping() == old(Bookkeeping())
    {
      blocks := [];
      blockRows, blockCols := r, c;
      var table: Table := [];
      for i := 0 to r
        invariant table == FreshTable(i, c)
      {
        var row: seq<SubPattern> := [];
        for j := 0 to c
          invariant row == seq(j, _ => Fresh)
        {
          row := row + [Fresh];
        }
        table := table + [row];
      }
      blocks := table;
    }

    /** Sum of the row counts of the blocks in the first block column. */
    method ComputeNRows() returns (count: nat)
      requires Valid()
      requires blockRows == 0 || blockCols > 0
      ensures count == Sum(FirstColumnRows(blocks))
    {
      count := 0;
      for r := 0 to blockRows
        invariant count == Sum(FirstColumnRows(blocks)[..r])
      {
        StartStep(FirstColumnRows(blocks), r);
        count := count + blocks[r][0].nRows;
      }
      assert FirstColumnRows(blocks)[..blockRows] == FirstColumnRows(blocks);
    }

    /** Sum of the column counts of the blocks in the first block row. */
    method ComputeNCols() returns (count: nat)
      requires Valid()
      requires blockCols == 0 || blockRows > 0
      ensures count == Sum(FirstRowCols(blocks))
    {
      count := 0;
      for c := 0 to blockCols
        invariant count == Sum(FirstRowCols(blocks)[..c])
      {
        StartStep(FirstRowCols(blocks), c);
        count := count + blocks[0][c].nCols;
      }
      assert FirstRowCols(blocks)[..blockCols] == FirstRowCols(blocks);
    }

    /** The row count of every block of the first block column. */
    method ComputeRowSizes() returns (rs: seq<nat>)
      requires Valid()
      requires blockRows == 0 || blockCols > 0
      ensures rs == FirstColumnRows(blocks)
    {
      rs := seq(blockRows, _ => 0);
      for r := 0 to blockRows
        invariant |rs| == blockRows
        invariant forall k :: 0 <= k < r ==> rs[k] == blocks[k][0].nRows
      {
        rs := rs[r := blocks[r][0].nRows];
      }
    }

    /** The column count of every block of the first block row. */
    method ComputeColSizes() returns (cs: seq<nat>)
      requires Valid()
      requires blockCols == 0 || blockRows > 0
      ensures cs == FirstRowCols(blocks)
    {
      cs := seq(blockCols, _ => 0);
      for c := 0 to blockCols
        invariant |cs| == blockCols
        invariant forall k :: 0 <= k < c ==> cs[k] == blocks[0][k].nCols
      {
        cs := cs[c := blocks[0][c].nCols];
      }
    }

    /** Derive the global size and the block sizes from the blocks. All
        blocks of a block row must agree in rows, all blocks of a block
        column in columns. */
    method CollectSizes()
      requires Valid()
      requires (blockRows == 0) == (blockCols == 0)
      requires Consistent(blocks)
      modifies this
      ensures Valid() && blockRows == old(blockRows) && blockCols == old(blockCols) && blocks == old(blocks)
      ensures SizesCollected()
      ensures blockColumnIndices == Resize(old(blockColumnIndices), blockCols)
      ensures counterWithinBlock == Resize(old(counterWithinBlock), blockCols)
    {
      var nr := ComputeNRows();
      var nc := ComputeNCols();
      var rs := ComputeRowSizes();
      var cs := ComputeColSizes();
      nRows, nCols := nr, nc;
      rowSizes, colSizes := rs, cs;
      blockColumnIndices := Resize(blockColumnIndices, blockCols);
      counterWithinBlock := Resize(counterWithinBlock, blockCols);
    }

    /** `operator=`: copy every block of a pattern with the same block
        dimensions, then collect sizes. */
    method Assign(other: BlockSparsityPattern)
      requires Valid() && other.Valid()
      requires blockRows == other.blockRows && blockCols == other.blockCols
      requires (blockRows == 0) == (blockCols == 0)
      requires Consistent(other.blocks)
      modifies this
      ensures Valid() && blockRows == old(blockRows) && blockCols == old(blockCols)
      ensures blocks == old(other.blocks)
      ensures SizesCollected()
      ensures blockColumnIndices == Resize(old(blockColumnIndices), blockCols)
      ensures counterWithinBlock == Resize(old(counterWithinBlock), blockCols)
    {
      var source := other.blocks;
      for i := 0 to blockRows
        invariant blockRows == old(blockRows) && blockCols == old(blockCols)
        invariant Shaped(blocks, blockRows, blockCols) && WellFormedTable(blocks)
        invariant Bookkeeping() == old(Bookkeeping())
        invariant forall k :: 0 <= k < i ==> blocks[k] == source[k]
      {
        for j := 0 to blockCols
          invariant blockRows == old(blockRows) && blockCols == old(blockCols)
          invariant Shaped(blocks, blockRows, blockCols) && WellFormedTable(blocks)
          invariant Bookkeeping() == old(Bookkeeping())
          invariant forall k :: 0 <= k < i ==> blocks[k] == source[k]
          invariant forall m :: 0 <= m < j ==> blocks[i][m] == source[i][m]
        {
          blocks := blocks[i := blocks[i][j := source[i][j]]];
        }
        assert blocks[i] == source[i];
      }
      assert blocks == source;
      CollectSizes();
    }

    /** Compress every block. */
    method Compress()
      requires Valid()
      modifies this
      ensures Valid() && blockRows == old(blockRows) && blockCols == old(blockCols)
      ensures blocks == CompressTable(old(blocks))
      ensures Bookkeeping() == old(Bookkeeping())
    {
      ghost var before := blocks;
      for i := 0 to blockRows
        invariant blockRows == old(blockRows) && blockCols == old(blockCols)
        invariant Shaped(blocks, blockRows, blockCols) && WellFormedTable(blocks)
        invariant Bookkeeping() == old(Bookkeeping())
        invariant forall k :: 0 <= k < i ==> blocks[k] == CompressTable(before)[k]
        invariant forall k :: i <= k < blockRows ==> blocks[k] == before[k]
      {
        for j := 0 to blockCols
          invariant blockRows == old(blockRows) && blockCols == old(blockCols)
          invariant Shaped(blocks, blockRows, blockCols) && WellFormedTable(blocks)
          invariant Bookkeeping() == old(Bookkeeping())
          invariant forall k :: 0 <= k < i ==> blocks[k] == CompressTable(before)[k]
          invariant forall k :: i < k < blockRows ==> blocks[k] == before[k]
          invariant forall m :: 0 <= m < j ==> blocks[i][m] == SubPatterns.Compress(before[i][m])
          invariant forall m :: j <= m < blockCols ==> blocks[i][m] == before[i][m]
        {
          blocks := blocks[i := blocks[i][j := SubPatterns.Compress(blocks[i][j])]];
        }
        assert blocks[i] == CompressTable(before)[i];
      }
      assert blocks == CompressTable(before);
    }

    /** `empty()`: true exactly when every block is empty. */
    method Empty() returns (e: bool)
      requires Valid()
      ensures e <==> AllEmpty(blocks)
    {
      for i := 0 to blockRows
        invariant forall k, m :: 0 <= k < i && 0 <= m < blockCols ==> IsEmpty(blocks[k][m])
      {
        for j := 0 to blockCols
          invariant forall m :: 0 <= m < j ==> IsEmpty(blocks[i][m])
          invariant forall k, m :: 0 <= k < i && 0 <= m < blockCols ==> IsEmpty(blocks[k][m])
        {
          if !IsEmpty(blocks[i][j]) {
            return false;
          }
        }
      }
      return true;
    }

    /** The largest, over the block rows, of the sum of the blocks' own
        `max_entries_per_row`; 0 when there are no block rows. */
    method MaxEntriesPerRow() returns (maxEntries: nat)
      requires Valid()
      ensures forall r :: 0 <= r < blockRows ==> RowMaxSum(blocks[r]) <= maxEntries
      ensures blockRows == 0 ==> maxEntries == 0
      ensures blockRows > 0 ==> exists r :: 0 <= r < blockRows && maxEntries == RowMaxSum(blocks[r])
      ensures maxEntries == MaxRowSum(blocks)
    {
      maxEntries := 0;
      ghost var argMax := 0;
      for blockRow := 0 to blockRows
        invariant forall r :: 0 <= r < blockRow ==> RowMaxSum(blocks[r]) <= maxEntries
        invariant blockRow == 0 ==> maxEntries == 0 && argMax == 0
        invariant blockRow > 0 ==> argMax < blockRow && maxEntries == RowMaxSum(blocks[argMax])
      {
        var thisRow := BlockRowMax(blocks[blockRow]);
        if thisRow > maxEntries {
          maxEntries := thisRow;
          argMax := blockRow;
        }
      }
      if blockRows > 0 {
        var top :| 0 <= top < |blocks| && MaxRowSum(blocks) == RowMaxSum(blocks[top]);
        assert RowMaxSum(blocks[top]) <= maxEntries && RowMaxSum(blocks[argMax]) <= MaxRowSum(blocks);
      }
    }

    /** The inner loop of `max_entries_per_row`: the per-block row maxima
        of one block row added up. */
    static method BlockRowMax(row: seq<SubPattern>) returns (thisRow: nat)
      ensures thisRow == RowMaxSum(row)
    {
      thisRow := 0;
      for c := 0 to |row|
        invariant thisRow == RowMaxSum(row[..c])
      {
        assert row[..c + 1][..c] == row[..c];
        thisRow := thisRow + SubPatterns.MaxEntriesPerRow(row[c]);
      }
      assert row[..|row|] == row;
    }

    /** Total number of stored entries over all blocks. */
    method NNonzeroElements() returns (count: nat)
      requires Valid()
      ensures count == TableNonzero(blocks)
    {
      count := 0;
      for i := 0 to blockRows
        invariant count == TableNonzero(blocks[..i])
      {
        for j := 0 to blockCols
          invariant count == TableNonzero(blocks[..i]) + RowNonzero(blocks[i][..j])
        {
          assert blocks[i][..j + 1][..j] == blocks[i][..j];
          count := count + NNonzero(blocks[i][j]);
        }
        assert blocks[i][..blockCols] == blocks[i];
        assert blocks[..i + 1][..i] == blocks[..i];
      }
      assert blocks[..blockRows] == blocks;
    }

    /** `is_compressed()`: true exactly when every block is compressed. */
    method IsCompressed() returns (b: bool)
      requires Valid()
      ensures b <==> AllCompressed(blocks)
    {
      for i := 0 to blockRows
        invariant forall k, m :: 0 <= k < i && 0 <= m < blockCols ==> blocks[k][m].compressed
      {
        for j := 0 to blockCols
          invariant forall m :: 0 <= m < j ==> blocks[i][m].compressed
          invariant forall k, m :: 0 <= k < i && 0 <= m < blockCols ==> blocks[k][m].compressed
        {
          if !blocks[i][j].compressed {
            return false;
          }
        }
      }
      return true;
    }

    /** `copy_from` a dynamic block pattern: take its block dimensions, copy
        every block into a compressed one (which also stores the diagonal of
        a square block), then collect sizes. */
    method CopyFrom(dsp: BlockSparsityPattern)
      requires dsp != this && dsp.Valid()
      requires (dsp.blockRows == 0) == (dsp.blockCols == 0)
      requires Consistent(dsp.blocks)
      modifies this
      ensures Valid() && blockRows == dsp.blockRows && blockCols == dsp.blockCols
      ensures blocks == CopyTable(dsp.blocks)
      ensures SizesCollected()
      ensures blockColumnIndices == Resize(old(blockColumnIndices), blockCols)
      ensures counterWithinBlock == Resize(old(counterWithinBlock), blockCols)
    {
      Reinit(dsp.blockRows, dsp.blockCols);
      var source := dsp.blocks;
      for i := 0 to blockRows
        invariant blockRows == dsp.blockRows && blockCols == dsp.blockCols
        invariant Shaped(blocks, blockRows, blockCols)
        invariant Bookkeeping() == old(Bookkeeping())
        invariant forall k :: 0 <= k < i ==> blocks[k] == CopyTable(source)[k]
      {
        for j := 0 to blockCols
          invariant blockRows == dsp.blockRows && blockCols == dsp.blockCols
          invariant Shaped(blocks, blockRows, blockCols)
          invariant Bookkeeping() == old(Bookkeeping())
          invariant forall k :: 0 <= k < i ==> blocks[k] == CopyTable(source)[k]
          invariant forall m :: 0 <= m < j ==> blocks[i][m] == CopyCompressed(source[i][m])
        {
          blocks := blocks[i := blocks[i][j := CopyCompressed(source[i][j])]];
        }
        assert blocks[i] == CopyTable(source)[i];
      }
      assert blocks == CopyTable(source);
      CopyTableKeeps(source);
      CollectSizes();
    }

    /** Give block `(i, j)` the dimensions `rs[i] x cs[j]` with nothing stored. */
    method SizeBlocks(rs: seq<nat>, cs: seq<nat>)
      requires Valid() && blockRows == |rs| && blockCols == |cs|
      modifies this
      ensures Valid() && blockRows == old(blockRows) && blockCols == old(blockCols)
      ensures blocks == SizedTable(rs, cs)
      ensures Bookkeeping() == old(Bookkeeping())
    {
      for i := 0 to |rs|
        invariant blockRows == |rs| && blockCols == |cs|
        invariant Shaped(blocks, blockRows, blockCols)
        invariant Bookkeeping() == old(Bookkeeping())
        invariant forall k :: 0 <= k < i ==> blocks[k] == SizedTable(rs, cs)[k]
      {
        for j := 0 to |cs|
          invariant blockRows == |rs| && blockCols == |cs|
          invariant Shaped(blocks, blockRows, blockCols)
          invariant Bookkeeping() == old(Bookkeeping())
          invariant forall k :: 0 <= k < i ==> blocks[k] == SizedTable(rs, cs)[k]
          invariant forall m :: 0 <= m < j ==> blocks[i][m] == Sized(rs[i], cs[m])
        {
          blocks := blocks[i := blocks[i][j := Sized(rs[i], cs[j])]];
        }
        assert blocks[i] == SizedTable(rs, cs)[i];
      }
      assert blocks == SizedTable(rs, cs);
      SizedTableSizes(rs, cs);
    }

    /** Dynamic pattern `reinit(row_block_sizes, col_block_sizes)` (and the
        `BlockIndices` overload, whose block sizes are these vectors). */
    method ReinitBlockSizes(rs: seq<nat>, cs: seq<nat>)
      requires (|rs| == 0) == (|cs| == 0)
      modifies this
      ensures Valid() && blockRows == |rs| && blockCols == |cs|
      ensures blocks == SizedTable(rs, cs)
      ensures SizesCollected() && rowSizes == rs && colSizes == cs
      ensures nRows == Sum(rs) && nCols == Sum(cs)
      ensures blockColumnIndices == Resize(old(blockColumnIndices), |cs|)
      ensures counterWithinBlock == Resize(old(counterWithinBlock), |cs|)
    {
      Reinit(|rs|, |cs|);
      SizeBlocks(rs, cs);
      SizedTableSizes(rs, cs);
      CollectSizes();
    }

    /** The dynamic pattern's constructor from two vectors of block sizes. */
    constructor WithBlockSizes(rs: seq<nat>, cs: seq<nat>)
      requires (|rs| == 0) == (|cs| == 0)
      ensures Valid() && blockRows == |rs| && blockCols == |cs|
      ensures blocks == SizedTable(rs, cs)
      ensures SizesCollected() && rowSizes == rs && colSizes == cs
      ensures nRows == Sum(rs) && nCols == Sum(cs)
    {
      blockRows, blockCols, blocks := 0, 0, [];
      nRows, nCols := 0, 0;
      rowSizes, colSizes := [], [];
      blockColumnIndices, counterWithinBlock := [], [];
      new;
      ReinitBlockSizes(rs, cs);
    }

    /** Compressed pattern `reinit(rows, cols, row_lengths)`: block `(i, j)`
        gets `rows[i] x cols[j]` with its diagonal stored when square;
        `row_lengths[j]` either holds one length
        for all rows or one length per global row (capacities only). */
    method ReinitWithBlockIndices(rows: seq<nat>, cols: seq<nat>, rowLengths: seq<seq<nat>>)
      requires |rowLengths| == |cols|
      requires (|rows| == 0) == (|cols| == 0)
      requires forall i, j :: 0 <= i < |rows| && 0 <= j < |cols| && |rowLengths[j]| != 1 ==>
        LocalToGlobal(rows, i, rows[i]) <= |rowLengths[j]|
      modifies this
      ensures Valid() && blockRows == |rows| && blockCols == |cols|
      ensures blocks == ReservedTable(rows, cols)
      ensures SizesCollected() && rowSizes == rows && colSizes == cols
      ensures blockColumnIndices == Resize(old(blockColumnIndices), |cols|)
      ensures counterWithinBlock == Resize(old(counterWithinBlock), |cols|)
    {
      Reinit(|rows|, |cols|);
      for j := 0 to |cols|
        invariant blockRows == |rows| && blockCols == |cols|
        invariant Shaped(blocks, blockRows, blockCols)
        invariant Bookkeeping() == old(Bookkeeping())
        invariant forall k, m :: 0 <= k < |rows| && 0 <= m < j ==> blocks[k][m] == Reserved(rows[k], cols[m])
      {
        for i := 0 to |rows|
          invariant blockRows == |rows| && blockCols == |cols|
          invariant Shaped(blocks, blockRows, blockCols)
          invariant Bookkeeping() == old(Bookkeeping())
          invariant forall k, m :: 0 <= k < |rows| && 0 <= m < j ==> blocks[k][m] == Reserved(rows[k], cols[m])
          invariant forall k :: 0 <= k < i ==> blocks[k][j] == Reserved(rows[k], cols[j])
        {
          blocks := blocks[i := blocks[i][j := Reserved(rows[i], cols[j])]];
        }
      }
      forall k | 0 <= k < |rows|
        ensures blocks[k] == ReservedTable(rows, cols)[k]
      {
      }
      assert blocks == ReservedTable(rows, cols);
      ReservedTableSizes(rows, cols);
      CollectSizes();
    }

    /** `print`: one line per global row with the global columns of its
        entries; global indices are local ones plus running offsets. */
    method Print() returns (lines: seq<Line>)
      requires Valid() && Consistent(blocks)
      requires blockRows == 0 || blockCols > 0
      ensures lines == PrintedLines(blocks)
    {
      lines := [];
      var k := 0;
      for ib := 0 to blockRows
        invariant lines == PrintedLines(blocks[..ib])
        invariant k == Sum(FirstColumnRows(blocks[..ib]))
      {
        var row := blocks[ib];
        var rowLines := PrintBlockRow(row, k);
        lines := lines + rowLines;
        assert blocks[..ib + 1][..ib] == blocks[..ib];
        FirstColumnRowsPrefix(blocks[..ib + 1], ib);
        StartStep(FirstColumnRows(blocks[..ib + 1]), ib);
        StartFull(FirstColumnRows(blocks[..ib + 1]));
        k := k + row[0].nRows;
      }
      assert blocks[..blockRows] == blocks;
    }

    /** The lines `print` writes for one block row whose first global row
        is `k`. */
    static method PrintBlockRow(row: seq<SubPattern>, k: nat) returns (rowLines: seq<Line>)
      requires |row| > 0
      ensures rowLines == BlockRowLines(row, k)
    {
      rowLines := [];
      for i := 0 to row[0].nRows
        invariant rowLines == BlockRowLines(row, k)[..i]
      {
        var cols := PrintRow(row, i);
        rowLines := rowLines + [Line(i + k, cols)];
      }
    }

    /** The inner loops of `print` for local row `i` of one block row: the
        column offset `l` grows by each block's width. */
    static method PrintRow(row: seq<SubPattern>, i: nat) returns (cols: seq<nat>)
      ensures cols == RowColumns(row, i)
    {
      cols := [];
      var l := 0;
      for jb := 0 to |row|
        invariant cols == RowColumns(row[..jb], i)
        invariant l == Sum(ColWidths(row[..jb]))
      {
        var b := row[jb];
        assert row[..jb + 1][..jb] == row[..jb];
        for j := 0 to b.nCols
          invariant cols == RowColumns(row[..jb], i) + BlockHits(b, i, l, j)
        {
          if (i, j) in b.entries {
            cols := cols + [l + j];
          }
        }
        assert ColWidths(row[..jb + 1]) == ColWidths(row[..jb]) + [b.nCols];
        StartStep(ColWidths(row[..jb + 1]), jb);
        StartFull(ColWidths(row[..jb + 1]));
        l := l + b.nCols;
      }
      assert row[..|row|] == row;
    }
  }
}
