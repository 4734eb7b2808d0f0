/**
  What `print` of a block sparsity pattern writes: one line per global row,
  `[g,c1,c2,...]`, where `g` is the global row index and `c1, c2, ...` are
  the global column indices of the entries stored in that row. Each line is
  modelled as a `Line(row, cols)` value instead of text.
 */
module BlockPrint {
  import opened BlockIndices
  import opened SubPatterns
  import opened BlockTables

  datatype Line = Line(row: nat, cols: seq<nat>)

  /** Columns `l + j`, `j < n`, for which block `b` stores `(i, j)`, in increasing `j`. */
  function BlockHits(b: SubPattern, i: nat, l: nat, n: nat): seq<nat>
  {
    if n == 0 then [] else BlockHits(b, i, l, n - 1) + (if (i, n - 1) in b.entries then [l + n - 1] else [])
  }

  /** The global columns printed for local row `i` of a block row: the blocks
      from left to right, each shifted by the width of the blocks before it. */
  function RowColumns(row: seq<SubPattern>, i: nat): seq<nat>
  {
    if row == [] then []
    else
      var front := row[..|row| - 1];
      RowColumns(front, i) + BlockHits(row[|row| - 1], i, Sum(ColWidths(front)), row[|row| - 1].nCols)
  }

  /** The lines of one block row whose first global row is `k`. */
  function BlockRowLines(row: seq<SubPattern>, k: nat): seq<Line>
    requires |row| > 0
  {
    seq(row[0].nRows, i requires 0 <= i < row[0].nRows => Line(k + i, RowColumns(row, i)))
  }

  /** Everything `print` writes, block row after block row. */
  function PrintedLines(t: Table): seq<Line>
    requires forall i :: 0 <= i < |t| ==> |t[i]| > 0
  {
    if t == [] then []
    else
      var front := t[..|t| - 1];
      PrintedLines(front) + BlockRowLines(t[|t| - 1], Sum(FirstColumnRows(front)))
  }

  predicate StrictlyIncreasing(s: seq<nat>)
  {
    forall a, b :: 0 <= a < b < |s| ==> s[a] < s[b]
  }

  // ------------------------------------------------------------ block hits

  /** A column is printed for block `b` exactly when the block stores it. */
  lemma {:induction false} BlockHitsMembers(b: SubPattern, i: nat, l: nat, n: nat)
    ensures forall c :: c in BlockHits(b, i, l, n) <==> l <= c < l + n && (i, c - l) in b.entries
    ensures StrictlyIncreasing(BlockHits(b, i, l, n))
  {
    if n > 0 {
      BlockHitsMembers(b, i, l, n - 1);
      var a := BlockHits(b, i, l, n - 1);
      assert forall x :: x in a ==> x < l + n - 1;
      if (i, n - 1) in b.entries {
        var s := a + [l + n - 1];
        forall p, q | 0 <= p < q < |s|
          ensures s[p] < s[q]
        {
          if q < |a| {
          } else {
            assert a[p] in a;
          }
        }
      } else {
        assert BlockHits(b, i, l, n) == a;
      }
    }
  }

  /** The number of printed columns of a block is its row length. */
  lemma {:induction false} BlockHitsCount(b: SubPattern, i: nat, l: nat, n: nat)
    requires n <= b.nCols
    ensures |BlockHits(b, i, l, n)| == |set j | 0 <= j < n && (i, j) in b.entries|
  {
    if n > 0 {
      BlockHitsCount(b, i, l, n - 1);
      var before := set j | 0 <= j < n - 1 && (i, j) in b.entries;
      var now := set j | 0 <= j < n && (i, j) in b.entries;
      if (i, n - 1) in b.entries {
        assert now == before + {n - 1};
      } else {
        assert now == before;
      }
    }
  }

  // ----------------------------------------------------------- row columns

  lemma ColWidthsPrefix(row: seq<SubPattern>, k: nat)
    requires k <= |row|
    ensures ColWidths(row[..k]) == ColWidths(row)[..k]
  {
  }

  /** Column `c` of the block row is local column `j` of block `jb` and that
      block stores `(i, j)`. */
  predicate PrintedAt(row: seq<SubPattern>, i: nat, c: nat, jb: nat, j: nat)
  {
    0 <= jb < |row| && 0 <= j < row[jb].nCols && (i, j) in row[jb].entries &&
    c == Start(ColWidths(row), jb) + j
  }

  /** Soundness and completeness of one printed row: `c` is printed exactly
      when some block `jb` stores `(i, j)` and `c` is `j` shifted by the
      width of the blocks left of `jb`. */
  lemma RowColumnsMembers(row: seq<SubPattern>, i: nat, c: nat)
    ensures c in RowColumns(row, i) <==> exists jb: nat, j: nat :: PrintedAt(row, i, c, jb, j)
  {
    if c in RowColumns(row, i) {
      RowColumnsSound(row, i, c);
    } else {
      RowColumnsComplete(row, i, c);
    }
  }

  /** Every printed column comes from an entry of some block. */
  lemma {:induction false} RowColumnsSound(row: seq<SubPattern>, i: nat, c: nat)
    requires c in RowColumns(row, i)
    ensures exists jb: nat, j: nat :: PrintedAt(row, i, c, jb, j)
  {
    var front := row[..|row| - 1];
    var last := |row| - 1;
    var w := ColWidths(row);
    var l := Sum(ColWidths(front));
    ColWidthsPrefix(row, last);
    assert Start(w, last) == l;
    if c in RowColumns(front, i) {
      RowColumnsSound(front, i, c);
      var jb: nat, j: nat :| PrintedAt(front, i, c, jb, j);
      SameStart(row, front, w, jb);
      assert PrintedAt(row, i, c, jb, j);
    } else {
      BlockHitsMembers(row[last], i, l, row[last].nCols);
      assert PrintedAt(row, i, c, last, c - l);
    }
  }

  /** Every entry of every block is printed at its shifted column. */
  lemma {:induction false} RowColumnsComplete(row: seq<SubPattern>, i: nat, c: nat)
    ensures (exists jb: nat, j: nat :: PrintedAt(row, i, c, jb, j)) ==> c in RowColumns(row, i)
  {
    if exists jb: nat, j: nat :: PrintedAt(row, i, c, jb, j) {
      var jb: nat, j: nat :| PrintedAt(row, i, c, jb, j);
      var front := row[..|row| - 1];
      var last := |row| - 1;
      var w := ColWidths(row);
      var l := Sum(ColWidths(front));
      if jb < last {
        SameStart(row, front, w, jb);
        assert PrintedAt(front, i, c, jb, j);
        RowColumnsComplete(front, i, c);
      } else {
        ColWidthsPrefix(row, last);
        assert Start(w, last) == l;
        BlockHitsMembers(row[last], i, l, row[last].nCols);
        assert c in BlockHits(row[last], i, l, row[last].nCols);
      }
    }
  }

  /** A block left of the last one starts at the same column in the block
      row as in the block row without its last block. */
  lemma SameStart(row: seq<SubPattern>, front: seq<SubPattern>, w: seq<nat>, jb: nat)
    requires row != [] && front == row[..|row| - 1] && w == ColWidths(row) && jb < |front|
    ensures Start(ColWidths(front), jb) == Start(w, jb)
  {
    ColWidthsPrefix(row, |row| - 1);
    assert ColWidths(front)[..jb] == w[..jb];
  }

  /** Every printed column lies below the width of the block row, and the
      columns of a line are strictly increasing (no repeats). */
  lemma {:induction false} RowColumnsOrdered(row: seq<SubPattern>, i: nat)
    ensures forall c :: c in RowColumns(row, i) ==> c < Sum(ColWidths(row))
    ensures StrictlyIncreasing(RowColumns(row, i))
  {
    if row != [] {
      var front := row[..|row| - 1];
      var last := |row| - 1;
      var l := Sum(ColWidths(front));
      RowColumnsOrdered(front, i);
      BlockHitsMembers(row[last], i, l, row[last].nCols);
      ColWidthsPrefix(row, last);
      StartStep(ColWidths(row), last);
      StartFull(ColWidths(row));
      var a := RowColumns(front, i);
      var b := BlockHits(row[last], i, l, row[last].nCols);
      assert RowColumns(row, i) == a + b;
      assert forall x :: x in a ==> x < l;
      assert forall y :: y in b ==> l <= y;
      var s := a + b;
      forall p, q | 0 <= p < q < |s|
        ensures s[p] < s[q]
      {
        if q < |a| {
        } else if p < |a| {
          assert a[p] in a && b[q - |a|] in b;
        } else {
        }
      }
    }
  }

  /** The length of a printed row is the sum of the row's lengths in the
      blocks of its block row. */
  function RowLengthSum(row: seq<SubPattern>, i: nat): nat
  {
    if row == [] then 0 else RowLengthSum(row[..|row| - 1], i) + RowLength(row[|row| - 1], i)
  }

  lemma {:induction false} RowColumnsCount(row: seq<SubPattern>, i: nat)
    ensures |RowColumns(row, i)| == RowLengthSum(row, i)
  {
    if row != [] {
      var last := row[|row| - 1];
      RowColumnsCount(row[..|row| - 1], i);
      BlockHitsCount(last, i, Sum(ColWidths(row[..|row| - 1])), last.nCols);
      assert (set j | 0 <= j < last.nCols && (i, j) in last.entries) == RowEntries(last, i);
    }
  }

  /** A printed row never holds more entries than the sum of the per-block
      maxima of its block row, provided the row exists in every block. */
  lemma {:induction false} RowLengthSumBound(row: seq<SubPattern>, i: nat)
    requires forall jb :: 0 <= jb < |row| ==> i < row[jb].nRows
    ensures RowLengthSum(row, i) <= RowMaxSum(row)
  {
    if row != [] {
      RowLengthSumBound(row[..|row| - 1], i);
    }
  }

  // ---------------------------------------------------------------- lines

  lemma FirstColumnRowsPrefix(t: Table, k: nat)
    requires k <= |t| && forall i :: 0 <= i < |t| ==> |t[i]| > 0
    ensures FirstColumnRows(t[..k]) == FirstColumnRows(t)[..k]
  {
  }

  /** `print` writes exactly one line per global row, in increasing order,
      each headed by its global row index. */
  lemma {:induction false} PrintedLinesRows(t: Table)
    requires forall i :: 0 <= i < |t| ==> |t[i]| > 0
    ensures |PrintedLines(t)| == Sum(FirstColumnRows(t))
    ensures forall g :: 0 <= g < |PrintedLines(t)| ==> PrintedLines(t)[g].row == g
  {
    if t != [] {
      var front := t[..|t| - 1];
      PrintedLinesRows(front);
      FirstColumnRowsPrefix(t, |t| - 1);
      StartStep(FirstColumnRows(t), |t| - 1);
      StartFull(FirstColumnRows(t));
    }
  }

  /** Where line `g` comes from: a block row `ib` and a local row `i` of it,
      with `g == Start(FirstColumnRows(t), ib) + i`. */
  lemma {:induction false} PrintedLineOrigin(t: Table, g: nat)
    requires forall i :: 0 <= i < |t| ==> |t[i]| > 0
    requires g < |PrintedLines(t)|
    ensures exists ib, i :: (0 <= ib < |t| && 0 <= i < t[ib][0].nRows &&
      g == Start(FirstColumnRows(t), ib) + i && PrintedLines(t)[g].cols == RowColumns(t[ib], i))
  {
    var front := t[..|t| - 1];
    var ib := |t| - 1;
    PrintedLinesRows(front);
    FirstColumnRowsPrefix(t, ib);
    if g < |PrintedLines(front)| {
      PrintedLineOrigin(front, g);
      var ib', i :| 0 <= ib' < |front| && 0 <= i < front[ib'][0].nRows &&
        g == Start(FirstColumnRows(front), ib') + i && PrintedLines(front)[g].cols == RowColumns(front[ib'], i);
      assert FirstColumnRows(front)[..ib'] == FirstColumnRows(t)[..ib'];
      assert PrintedLines(t)[g] == PrintedLines(front)[g];
    } else {
      var i := g - |PrintedLines(front)|;
      assert PrintedLines(t)[g] == BlockRowLines(t[ib], Sum(FirstColumnRows(front)))[i];
    }
  }

  /** With consistent block sizes, every printed column index is below the
      total number of columns, the columns of each line are strictly
      increasing, and a line holds at most `RowMaxSum` of the block row it
      comes from, hence at most `max_entries_per_row` (`MaxRowSum`). */
  lemma PrintedColumnsBounded(t: Table, g: nat)
    requires |t| > 0 && forall i :: 0 <= i < |t| ==> |t[i]| > 0
    requires Consistent(t)
    requires g < |PrintedLines(t)|
    ensures forall c :: c in PrintedLines(t)[g].cols ==> c < Sum(FirstRowCols(t))
    ensures StrictlyIncreasing(PrintedLines(t)[g].cols)
    ensures forall ib :: 0 <= ib < |t| && Start(FirstColumnRows(t), ib) <= g < Start(FirstColumnRows(t), ib) + t[ib][0].nRows ==>
      |PrintedLines(t)[g].cols| <= RowMaxSum(t[ib])
    ensures |PrintedLines(t)[g].cols| <= MaxRowSum(t)
  {
    PrintedLineOrigin(t, g);
    var ib, i :| 0 <= ib < |t| && 0 <= i < t[ib][0].nRows &&
      g == Start(FirstColumnRows(t), ib) + i && PrintedLines(t)[g].cols == RowColumns(t[ib], i);
    RowColumnsOrdered(t[ib], i);
    ConsistentWidths(t, ib);
    RowColumnsCount(t[ib], i);
    forall jb | 0 <= jb < |t[ib]|
      ensures i < t[ib][jb].nRows
    {
    }
    RowLengthSumBound(t[ib], i);
    forall ib' | 0 <= ib' < |t| && Start(FirstColumnRows(t), ib') <= g < Start(FirstColumnRows(t), ib') + t[ib'][0].nRows
      ensures ib' == ib
    {
      OneBlockRowPerLine(FirstColumnRows(t), g, ib, ib');
    }
  }

  /** A global row lies in exactly one block: two blocks whose index ranges
      both hold `g` are the same block. */
  lemma OneBlockRowPerLine(s: seq<nat>, g: nat, b: nat, b': nat)
    requires b < |s| && Start(s, b) <= g < Start(s, b) + s[b]
    requires b' < |s| && Start(s, b') <= g < Start(s, b') + s[b']
    ensures b == b'
  {
    if b < b' {
      LocalToGlobalOrdered(s, b, g - Start(s, b), b', g - Start(s, b'));
    } else if b' < b {
      LocalToGlobalOrdered(s, b', g - Start(s, b'), b, g - Start(s, b));
    }
  }

  /** With consistent block sizes every block row has the widths of the first. */
  lemma ConsistentWidths(t: Table, ib: nat)
    requires ib < |t| && Consistent(t)
    ensures ColWidths(t[ib]) == FirstRowCols(t)
  {
  }
}
