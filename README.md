# Block sparsity patterns and matrix-free shape index tables

A Dafny model of two pieces of integer and index bookkeeping in deal.II.

**Block sparsity pattern** (`source/lac/block_sparsity_pattern.cc`)

- The class `BlockSparsityPattern` stands for `BlockSparsityPatternBase` and its compressed and dynamic derived classes.
- It holds a `block_rows x block_columns` table of sub-patterns as a `seq<seq<SubPattern>>` field. Its methods update that table in place.
- A sub-pattern is the record `SubPattern(nRows, nCols, entries, compressed)`. Its own classes are not modelled, only the queries the block pattern makes of it.
- `BlockIndices` is a prefix-sum table over a vector of block sizes (`Sum`, `Start`, `LocalToGlobal`).
- `collect_sizes` derives the global size and the row and column block sizes from the first block column and the first block row.
- `print` writes `Line(row, cols)` values instead of text.
- The counting queries (`n_nonzero_elements`, `max_entries_per_row`, `empty`, `is_compressed`) are loops. Each is proved against a specification function on the table.

**Matrix-free shape information** (`include/deal.II/matrix_free/shape_info.templates.h`)

- `compute_orientation_table` fills an `8 x n^2` array. Row `o` is proved to be a permutation of the grid `0 .. n^2 - 1`, with an inverse row.
- `face_to_cell_index_nodal` and `face_to_cell_index_hermite` are filled in arrays by the source's loops. Each row of the nodal table is proved to list exactly the cell nodes on its face, each once. The Hermite table pairs each such node with its neighbour one layer into the cell.
- The counts of `reinit` are functions: `n_dofs_1d`, `n_q_points`, `n_q_points_face`, `dofs_per_component_on_face`, the simplex face count and the Raviart-Thomas counts.
- The renumbering of `get_element_type_specific_information`:
  - it chooses a scalar numbering per kind of element;
  - for a system element, it fills `lexicographic` at the system index of every (component, local index) pair;
  - it then inverts that into `lexicographic_numbering`.
  - The result is proved to place the system index of component `c`'s lexicographic degree of freedom `q` at position `n * c + q`. It is also proved one-to-one.
- The Raviart-Thomas `lex_normal` and `lex_tangent` are built by `push_back` loops.

The element type of the base element becomes a parameter, `ElementKind`. The source finds it with `dynamic_cast`. The system element's `component_to_system_index` becomes the parameter `systemIndex`, together with the facts the system element guarantees about it (`ComponentTable`).

## Model

| member | source | states |
|---|---|---|
| `BlockSparsity.Resize` | source/lac/block_sparsity_pattern.cc:160-161 | `std::vector::resize` to `n` keeps the old prefix and value-initialises (0) the new slots |
| `BlockSparsity.BlockSparsityPattern.Init` | source/lac/block_sparsity_pattern.cc:23-27 | the default pattern has no block rows, no block columns and empty bookkeeping |
| `BlockSparsity.BlockSparsityPattern.Create` | source/lac/block_sparsity_pattern.cc:30-38 | constructing with `(r, c)` yields `r x c` default sub-patterns |
| `BlockSparsity.BlockSparsityPattern.Reinit` | source/lac/block_sparsity_pattern.cc:56-71 | afterwards there are exactly `r` block rows and `c` block columns of default (0 x 0, nothing stored) sub-patterns; the old blocks are gone; the derived sizes are untouched |
| `BlockTables.FreshTableIsEmpty` | source/lac/block_sparsity_pattern.cc:56-71 | a freshly re-initialised table has shape `r x c`, every block empty, and no stored entries |
| `BlockSparsity.BlockSparsityPattern.ComputeNRows` | source/lac/block_sparsity_pattern.cc:93-104 | the global row count is the sum of the row counts of the blocks `(r, 0)` of the first block column |
| `BlockSparsity.BlockSparsityPattern.ComputeNCols` | source/lac/block_sparsity_pattern.cc:107-118 | the global column count is the sum of the column counts of the blocks `(0, c)` of the first block row |
| `BlockSparsity.BlockSparsityPattern.ComputeRowSizes` | source/lac/block_sparsity_pattern.cc:132-133 | the row block sizes are the row counts of the first block column, in order |
| `BlockSparsity.BlockSparsityPattern.ComputeColSizes` | source/lac/block_sparsity_pattern.cc:148-149 | the column block sizes are the column counts of the first block row, in order |
| `BlockSparsity.BlockSparsityPattern.CollectSizes` | source/lac/block_sparsity_pattern.cc:121-162 | requires every block of a block row to match block `(r, 0)` in rows and of a block column to match `(0, c)` in columns; afterwards the block sizes are exactly those, the global size is their sum, both scratch arrays have `n_block_cols` entries, and the blocks are unchanged |
| `BlockTables.SizedTableSizes` | source/lac/block_sparsity_pattern.cc:487-498 | blocks sized from two size vectors agree along block rows and columns, store nothing, and the sizes read back from the first column and row are the given vectors |
| `BlockSparsity.BlockSparsityPattern.Assign` | source/lac/block_sparsity_pattern.cc:74-89 | requires equal block dimensions; afterwards every block equals the source's block and the sizes are collected |
| `BlockSparsity.BlockSparsityPattern.Compress` | source/lac/block_sparsity_pattern.cc:166-173 | every block is replaced by its compressed form; block dimensions and bookkeeping are unchanged |
| `BlockTables.CompressTableKeeps` | source/lac/block_sparsity_pattern.cc:166-173 | compressing every block keeps the table's shape, well-formedness, block-size consistency and number of stored entries, and leaves every block compressed |
| `BlockTables.CompressTableNonzero` | source/lac/block_sparsity_pattern.cc:166-173 | compressing the whole table keeps its number of stored entries |
| `BlockTables.CompressRowKeeps` | source/lac/block_sparsity_pattern.cc:171-172 | compressing the blocks of one block row keeps that row's number of stored entries |
| `SubPatterns.Compress` | source/lac/block_sparsity_pattern.cc:172 | a compressed sub-pattern keeps its dimensions and entries and is marked compressed |
| `BlockSparsity.BlockSparsityPattern.Empty` | source/lac/block_sparsity_pattern.cc:177-186 | `empty()` is true if and only if every block is empty |
| `SubPatterns.EmptyStoresNothing` | source/lac/block_sparsity_pattern.cc:183 | an empty (0 x 0) well-formed sub-pattern stores no entry and has row maximum 0 |
| `BlockTables.EmptyTableHasNoNonzeros` | source/lac/block_sparsity_pattern.cc:177-218 | when `empty()` holds, `n_nonzero_elements()` is 0 |
| `BlockSparsity.BlockSparsityPattern.MaxEntriesPerRow` | source/lac/block_sparsity_pattern.cc:190-205 | the result is at least every block row's sum of per-block maxima, equals one of those sums, and is 0 when there are no block rows; so it is `MaxRowSum` of the blocks |
| `BlockTables.MaxRowSum` | source/lac/block_sparsity_pattern.cc:190-205 | the largest block-row sum of per-block maxima: an upper bound of every block row's sum, attained by one of them, 0 without block rows |
| `BlockSparsity.BlockSparsityPattern.BlockRowMax` | source/lac/block_sparsity_pattern.cc:197-199 | the inner loop adds up the per-block row maxima of one block row |
| `SubPatterns.MaxRowLengthUpTo` | source/lac/block_sparsity_pattern.cc:199 | a sub-pattern's row maximum bounds every row length and is attained by some row (0 with no rows) |
| `BlockSparsity.BlockSparsityPattern.NNonzeroElements` | source/lac/block_sparsity_pattern.cc:209-218 | the count is the total of the blocks' stored-entry counts |
| `BlockTables.TableNonzeroZero` | source/lac/block_sparsity_pattern.cc:209-218 | the total count is 0 if and only if no block stores an entry |
| `BlockTables.RowNonzeroZero` | source/lac/block_sparsity_pattern.cc:214-216 | one block row's count is 0 if and only if none of its blocks stores an entry |
| `BlockSparsity.BlockSparsityPattern.Print` | source/lac/block_sparsity_pattern.cc:222-245 | requires the block sizes to be consistent, since every block of a block row is asked about the rows of its first block; the lines written are exactly `PrintedLines` of the blocks (row offsets `k` accumulated over block rows) |
| `BlockSparsity.BlockSparsityPattern.PrintBlockRow` | source/lac/block_sparsity_pattern.cc:229-242 | the lines of one block row are headed `i + k` for each local row `i` of its first block |
| `BlockSparsity.BlockSparsityPattern.PrintRow` | source/lac/block_sparsity_pattern.cc:232-240 | the columns of one line are each block's stored columns shifted by the running width `l` of the blocks left of it |
| `BlockPrint.PrintedLinesRows` | source/lac/block_sparsity_pattern.cc:224-245 | exactly one line per global row, in increasing order, line `g` headed by `g` |
| `BlockPrint.PrintedLineOrigin` | source/lac/block_sparsity_pattern.cc:224-245 | line `g` is local row `i` of some block row `ib` with `g == Start(row sizes, ib) + i`, and prints that local row's columns |
| `BlockPrint.PrintedColumnsBounded` | source/lac/block_sparsity_pattern.cc:222-245 | with consistent block sizes every printed column is below the total column count, the columns of a line strictly increase, and line `g` has at most the sum of per-block maxima of the block row whose rows hold `g`, hence at most `MaxRowSum`, the value `max_entries_per_row` returns |
| `BlockPrint.OneBlockRowPerLine` | source/lac/block_sparsity_pattern.cc:224-243 | a global row lies in the index range of exactly one block row |
| `BlockPrint.ConsistentWidths` | source/lac/block_sparsity_pattern.cc:150-153 | with consistent block sizes every block row has the column widths of the first |
| `BlockPrint.BlockHitsMembers` | source/lac/block_sparsity_pattern.cc:236-238 | a column `c` is printed for a block exactly when `l <= c < l + n_cols` and the block stores `(i, c - l)`; the block's columns come in increasing order |
| `BlockPrint.BlockHitsCount` | source/lac/block_sparsity_pattern.cc:236-238 | a block prints as many columns for row `i` as it stores in that row |
| `BlockPrint.RowColumnsMembers` | source/lac/block_sparsity_pattern.cc:231-241 | a column is printed for local row `i` if and only if some block `jb` stores `(i, j)` and the column is `j` plus the width of the blocks left of `jb` |
| `BlockPrint.RowColumnsSound` | source/lac/block_sparsity_pattern.cc:231-241 | every printed column comes from an entry of some block |
| `BlockPrint.RowColumnsComplete` | source/lac/block_sparsity_pattern.cc:231-241 | every entry of every block of the block row is printed at its shifted column |
| `BlockPrint.RowColumnsOrdered` | source/lac/block_sparsity_pattern.cc:231-241 | printed columns are below the block row's total width and strictly increasing |
| `BlockPrint.RowColumnsCount` | source/lac/block_sparsity_pattern.cc:231-241 | a line has as many columns as the row's lengths in the blocks add up to |
| `BlockPrint.RowLengthSumBound` | source/lac/block_sparsity_pattern.cc:190-205 | a row's total length is bounded by its block row's sum of per-block maxima |
| `BlockSparsity.BlockSparsityPattern.IsCompressed` | source/lac/block_sparsity_pattern.cc:410-418 | `is_compressed()` is true if and only if every block is compressed |
| `BlockSparsity.BlockSparsityPattern.CopyFrom` | source/lac/block_sparsity_pattern.cc:422-437 | takes the source's block dimensions; every block is `CopyCompressed` of the source block (its entries plus, when square, its whole diagonal, compressed); sizes are collected |
| `SubPatterns.CopyCompressed` | source/lac/block_sparsity_pattern.cc:432 | a compressed copy of a dynamic sub-pattern has the same dimensions, is compressed, and stores exactly the source's entries together with the diagonal of a square block |
| `SubPatterns.CopyCompressedCount` | source/lac/block_sparsity_pattern.cc:432 | copying loses no entry; a rectangular block keeps its count; a square `n x n` block ends with at least `n` entries |
| `SubPatterns.DiagonalSize` | source/lac/block_sparsity_pattern.cc:432 | an `n x n` block has `n` diagonal positions |
| `BlockTables.CopyTableKeeps` | source/lac/block_sparsity_pattern.cc:429-432 | copying every block keeps the table's shape, well-formedness and block-size consistency, leaves every block compressed, and loses no stored entry |
| `BlockTables.CopyTableNonzero` | source/lac/block_sparsity_pattern.cc:429-432 | the copied table stores at least as many entries as the source table |
| `BlockTables.CopyRowNonzero` | source/lac/block_sparsity_pattern.cc:431-432 | the same for one block row |
| `BlockSparsity.BlockSparsityPattern.SizeBlocks` | source/lac/block_sparsity_pattern.cc:494-496 | block `(i, j)` gets dimensions `rs[i] x cs[j]` with nothing stored |
| `SubPatterns.Sized` | source/lac/block_sparsity_pattern.cc:496 | re-initialising a sub-pattern to `m x n` gives those dimensions and no entries |
| `BlockSparsity.BlockSparsityPattern.ReinitBlockSizes` | source/lac/block_sparsity_pattern.cc:487-498 | block `(i, j)` is `rs[i] x cs[j]` and empty; the block sizes are `rs` and `cs` and the global size their sums |
| `BlockSparsity.BlockSparsityPattern.WithBlockSizes` | source/lac/block_sparsity_pattern.cc:449-459 | the constructor from two size vectors gives the same state as `reinit` from them |
| `BlockSparsity.BlockSparsityPattern.ReinitWithBlockIndices` | source/lac/block_sparsity_pattern.cc:372-407 | block `(i, j)` is `Reserved(rows[i], cols[j])`; afterwards the row and column block sizes equal `rows` and `cols` (the closing assertions) |
| `SubPatterns.Reserved` | source/lac/block_sparsity_pattern.cc:388-403 | a compressed sub-pattern re-initialised to `m x n` has those dimensions, is not compressed, and stores exactly the diagonal when `m == n` and nothing otherwise |
| `BlockTables.ReservedTableSizes` | source/lac/block_sparsity_pattern.cc:372-407 | blocks reserved from two size vectors agree along block rows and columns, read back as those vectors, and block `(i, j)` stores exactly its diagonal when `rows[i] == cols[j]` |
| `BlockIndices.StartStep` | source/lac/block_sparsity_pattern.cc:239-243 | the offset of block `b + 1` is the offset of block `b` plus its size |
| `BlockIndices.StartFull` | source/lac/block_sparsity_pattern.cc:239-243 | the offset after the last block is the total size |
| `BlockIndices.StartMonotone` | source/lac/block_sparsity_pattern.cc:239-243 | offsets never decrease, step by at least the block's size, and never pass the total |
| `BlockIndices.LocalToGlobalBound` | source/lac/block_sparsity_pattern.cc:384-385 | a local index inside its block maps below the total size |
| `BlockIndices.LocalToGlobalOrdered` | source/lac/block_sparsity_pattern.cc:384-385 | indices of an earlier block map below those of a later block, so distinct pairs map apart |
| `ShapeCounts.CountsDefined` | include/deal.II/matrix_free/shape_info.templates.h:605-631 | the counts are set exactly when there are degrees of freedom and quadrature points; then `n_dofs_1d = min(n_dofs_per_cell, degree + 1)` and the cell count is `n_dofs_per_cell` |
| `ShapeCounts.FaceTimesLine` | include/deal.II/matrix_free/shape_info.templates.h:626-631 | `n_q_points = n_q_points_face * q1d` and `(degree + 1)^dim = dofs_per_component_on_face * (degree + 1)`, all positive (1 on the faces of 1d) |
| `ShapeCounts.FullTensorElement` | include/deal.II/matrix_free/shape_info.templates.h:608-631 | for an element with `(degree + 1)^dim` dofs, `n_dofs_1d = degree + 1`, the cell count is `n_dofs_1d^dim` and the face count `n_dofs_1d^(dim - 1)` |
| `ShapeCounts.SimplexFaceIsTriangle` | include/deal.II/matrix_free/shape_info.templates.h:497-501 | the 3d simplex face count `(degree + 1)(degree + 2) / 2` is the number of nodes of a degree-`degree` triangle |
| `ShapeCounts.EvenProduct` | include/deal.II/matrix_free/shape_info.templates.h:500-501 | the division by 2 in the simplex face count is exact |
| `FaceOrientation.ComputeOrientationTable` | include/deal.II/matrix_free/shape_info.templates.h:1290-1315 | returns a fresh `8 x n^2` table whose entry `(o, i)` is where orientation `o` sends grid point `i = j * n + k` |
| `FaceOrientation.WriteEntry` | include/deal.II/matrix_free/shape_info.templates.h:1296-1313 | one loop iteration writes column `i = j * n + k` of all eight rows and no other entry |
| `FaceOrientation.SourceFormulas` | include/deal.II/matrix_free/shape_info.templates.h:1298-1312 | the eight index expressions of the source are the grid points `Orient(n, o, j, k)` |
| `FaceOrientation.EntryAt` | include/deal.II/matrix_free/shape_info.templates.h:1294-1295 | the running counter `i` equals `j * n + k`, inside the grid, and splits back into `(j, k)` |
| `FaceOrientation.OrientRow` | include/deal.II/matrix_free/shape_info.templates.h:1298-1312 | the target grid row of every orientation is inside the grid |
| `FaceOrientation.OrientCol` | include/deal.II/matrix_free/shape_info.templates.h:1298-1312 | the target grid column of every orientation is inside the grid |
| `FaceOrientation.OrientGridPoint` | include/deal.II/matrix_free/shape_info.templates.h:1298-1312 | every entry is the lexicographic index of the grid point `(OrientRow, OrientCol)` |
| `FaceOrientation.IdentityRow` | include/deal.II/matrix_free/shape_info.templates.h:1298 | row 0 is the identity `i -> i` |
| `FaceOrientation.EntryBound` | include/deal.II/matrix_free/shape_info.templates.h:1294-1313 | every entry is below `n^2` |
| `FaceOrientation.InverseUndoes` | include/deal.II/matrix_free/shape_info.templates.h:1298-1312 | applying row `o` and then its inverse row (2 and 6 swap, every other row undoes itself) gives back every index |
| `FaceOrientation.GridPointInverse` | include/deal.II/matrix_free/shape_info.templates.h:1298-1312 | on grid points, the inverse orientation sends the target `(row, col)` back to `(j, k)` |
| `FaceOrientation.RowIsPermutation` | include/deal.II/matrix_free/shape_info.templates.h:1294-1313 | every row maps the grid into itself, is one-to-one, and reaches every index (a permutation of `0 .. n^2 - 1`) |
| `FaceOrientation.TransposeRow` | include/deal.II/matrix_free/shape_info.templates.h:1299-1300 | row 1 maps `(j, k)` to `(k, j)` and is its own inverse |
| `FaceTables.NodalFaceTable` | include/deal.II/matrix_free/shape_info.templates.h:734-762 | returns a fresh `2 dim x dofs_per_component_on_face` table whose row `f` lists the layer of cell nodes at face `f`'s coordinate, in the face's own numbering |
| `FaceTables.FaceShift` | include/deal.II/matrix_free/shape_info.templates.h:741-743 | the loop computes `shift = (degree + 1)^direction` |
| `FaceTables.SwappedFaceFill` | include/deal.II/matrix_free/shape_info.templates.h:753-761 | the double loop on faces 2 and 3 in 3d fills row `f` with the face's nodes (z before x) and nothing else |
| `FaceTables.SwappedColumnFill` | include/deal.II/matrix_free/shape_info.templates.h:754-761 | the inner loop for `j` fills positions `i * (degree + 1) + j` and leaves the rest alone |
| `FaceTables.SwappedSplit` | include/deal.II/matrix_free/shape_info.templates.h:759 | every position of a swapped face row is `i * (degree + 1) + j` for exactly the quotient and remainder |
| `FaceTables.SwappedPosition` | include/deal.II/matrix_free/shape_info.templates.h:756-760 | position `i * (degree + 1) + j` is in the row and holds `offset + j * dofs_per_component_on_face + i` |
| `FaceTables.LayerNodeBound` | include/deal.II/matrix_free/shape_info.templates.h:756-758 | every table entry is below `dofs_per_component_on_cell = (degree + 1)^dim` (the `AssertIndexRange` holds) |
| `FaceTables.LowLayerBound` | include/deal.II/matrix_free/shape_info.templates.h:746-748 | entries of faces in direction 0 are cell nodes |
| `FaceTables.HighLayerBound` | include/deal.II/matrix_free/shape_info.templates.h:746-748 | entries of faces in direction `dim - 1` are cell nodes |
| `FaceTables.MiddleLayerBound` | include/deal.II/matrix_free/shape_info.templates.h:753-760 | entries of faces 2 and 3 in 3d are cell nodes |
| `FaceTables.LowLayerDigits` | include/deal.II/matrix_free/shape_info.templates.h:746-748 | in direction 0 the layer is the low base-`(degree + 1)` digit and the face position the high one |
| `FaceTables.HighLayerDigits` | include/deal.II/matrix_free/shape_info.templates.h:746-748 | in direction `dim - 1` the face position is the low digit and the layer the high one |
| `FaceTables.MiddleLayerDigits` | include/deal.II/matrix_free/shape_info.templates.h:753-760 | on faces 2 and 3 in 3d the x index, the layer and the z index are the three base-`(degree + 1)` digits |
| `FaceTables.LayerNodeCoordinate` | include/deal.II/matrix_free/shape_info.templates.h:734-762 | every node of a face row has the face's coordinate in the face's direction |
| `FaceTables.LowLayerCoordinate` | include/deal.II/matrix_free/shape_info.templates.h:746-748 | the same for faces in direction 0 |
| `FaceTables.HighLayerCoordinate` | include/deal.II/matrix_free/shape_info.templates.h:746-748 | the same for faces in direction `dim - 1` |
| `FaceTables.MiddleLayerCoordinate` | include/deal.II/matrix_free/shape_info.templates.h:753-760 | the same for faces 2 and 3 in 3d |
| `FaceTables.LayerNodeInjective` | include/deal.II/matrix_free/shape_info.templates.h:734-762 | distinct positions of a face row hold distinct nodes |
| `FaceTables.MiddleLayerInjective` | include/deal.II/matrix_free/shape_info.templates.h:753-760 | the same for faces 2 and 3 in 3d |
| `FaceTables.LayerNodeOnto` | include/deal.II/matrix_free/shape_info.templates.h:734-762 | every cell node with the face's coordinate appears in the face row |
| `FaceTables.LowLayerOnto` | include/deal.II/matrix_free/shape_info.templates.h:746-748 | the same for faces in direction 0, with the position as witness |
| `FaceTables.HighLayerOnto` | include/deal.II/matrix_free/shape_info.templates.h:746-748 | the same for faces in direction `dim - 1` |
| `FaceTables.MiddleLayerOnto` | include/deal.II/matrix_free/shape_info.templates.h:753-760 | the same for faces 2 and 3 in 3d |
| `FaceTables.NodalRowIsFace` | include/deal.II/matrix_free/shape_info.templates.h:734-762 | row `f` of the nodal table lists exactly the cell nodes on face `f`, each once |
| `FaceTables.LayerStep` | include/deal.II/matrix_free/shape_info.templates.h:741-744 | one layer further in the face's direction is `(degree + 1)^(f / 2)` further in the cell numbering |
| `FaceTables.OppositeFaces` | include/deal.II/matrix_free/shape_info.templates.h:744 | face `2d + 1` is face `2d` shifted by `degree * (degree + 1)^d` at every position |
| `FaceTables.ArithmeticFaces` | include/deal.II/matrix_free/shape_info.templates.h:746-748 | faces in directions 0 and `dim - 1` are arithmetic sequences `offset + l * stride` |
| `FaceTables.HermiteFaceTable` | include/deal.II/matrix_free/shape_info.templates.h:778-816 | returns a fresh `2 dim x 2 dofs_per_component_on_face` table whose entry `2l` is face node `l` and entry `2l + 1` its neighbour one layer in |
| `FaceTables.HermitePair` | include/deal.II/matrix_free/shape_info.templates.h:790-799 | entry `2l` follows the nodal formula, entry `2l + 1` is entry `2l` plus `(degree + 1)^d` on even faces and minus it on odd faces |
| `FaceTables.HermiteArithmeticFill` | include/deal.II/matrix_free/shape_info.templates.h:794-800 | the loop on faces in directions 0 and `dim - 1` fills row `f` with the Hermite entries and nothing else |
| `FaceTables.HermiteSwappedFill` | include/deal.II/matrix_free/shape_info.templates.h:805-814 | the double loop on faces 2 and 3 in 3d fills row `f` with the Hermite entries and nothing else |
| `FaceTables.HermiteSwappedColumn` | include/deal.II/matrix_free/shape_info.templates.h:806-814 | the inner loop for `j` sets both entries of every face node with z index `j` and leaves the rest alone |
| `FaceTables.SwappedHermiteValues` | include/deal.II/matrix_free/shape_info.templates.h:808-813 | `ind` and `ind + shift` are the Hermite entries at positions `2l` and `2l + 1`, `l = i * (degree + 1) + j` |
| `FaceTables.HermiteEntryNode` | include/deal.II/matrix_free/shape_info.templates.h:778-816 | every Hermite entry is a cell node; even entries lie on the face, odd ones in the next layer into the cell |
| `RaviartThomas.CountsMeaning` | include/deal.II/matrix_free/shape_info.templates.h:260-268 | `n_q_points = n_q_points_face * q1d`; each component gets the largest equal share of the cell's dofs; the normal face count is the face count; with `degree^(dim - 1)` dofs per face the tangential count is `(degree + 1) degree^(dim - 2)` |
| `RaviartThomas.LexNumberings` | include/deal.II/matrix_free/shape_info.templates.h:275-284 | `lex_tangent` is `0 .. degree - 1`; `lex_normal` has length `degree + 1`, starts with 0, ends with `dofs_per_face_normal` and holds the consecutive run from `2 dim dofs_per_face_normal` between |
| `RaviartThomas.NormalNumberingDistinct` | include/deal.II/matrix_free/shape_info.templates.h:279-284 | `lex_normal` names distinct dofs, all below the face dofs plus the interior ones |
| `Renumbering.ScalarNumbering` | include/deal.II/matrix_free/shape_info.templates.h:96-136 | simplex-like elements get the identity and `tensor_none`; tensor polynomial spaces their numbering inverse; DGP the identity and `truncated_tensor`; `FE_Q_DG0` its numbering inverse and `tensor_symmetric_plus_dg0`; an element without dofs nothing; any other element an error |
| `Renumbering.IdentityNumbering` | include/deal.II/matrix_free/shape_info.templates.h:104-106 | the loop fills `i` at every position `i` |
| `Renumbering.IdentityIsPermutation` | include/deal.II/matrix_free/shape_info.templates.h:120-122 | the identity numbering is a permutation |
| `Renumbering.Identity` | include/deal.II/matrix_free/shape_info.templates.h:104-106 | the identity numbering has length `n` and is a permutation |
| `Renumbering.PermutationOnto` | include/deal.II/matrix_free/shape_info.templates.h:145-146 | a permutation reaches every index below its length |
| `Renumbering.ImageSize` | include/deal.II/matrix_free/shape_info.templates.h:145-146 | a one-to-one sequence takes `k` distinct values on its first `k` positions |
| `Renumbering.InvertPermutation` | include/deal.II/matrix_free/shape_info.templates.h:145-146 | the inverse is a permutation with `q[p[i]] == i` and `p[q[v]] == v` |
| `Renumbering.Components` | include/deal.II/matrix_free/shape_info.templates.h:150-157 | the system indices of components `components_before + c`, `c < multiplicity` |
| `Renumbering.ResizeFill` | include/deal.II/matrix_free/shape_info.templates.h:162-165 | `resize(n, v)` keeps the prefix and fills new slots with `v` |
| `Renumbering.FillLexicographic` | include/deal.II/matrix_free/shape_info.templates.h:147-158 | every pair's system index holds its lexicographic position `n * comp + scalar_inv[i]`; every written entry is at some pair's system index; the rest stay invalid |
| `Renumbering.FillComponent` | include/deal.II/matrix_free/shape_info.templates.h:155-158 | the inner loop writes component `comp` and keeps the earlier components' entries |
| `Renumbering.FillStep` | include/deal.II/matrix_free/shape_info.templates.h:156-158 | one write keeps every earlier write, because system indices of distinct pairs differ |
| `Renumbering.FillDone` | include/deal.II/matrix_free/shape_info.templates.h:152-158 | after the inner loop component `comp` is complete and every write belongs to the first `comp + 1` components |
| `Renumbering.WrittenSlots` | include/deal.II/matrix_free/shape_info.templates.h:166-171 | written entries are below `multiplicity * n` (the `AssertIndexRange` holds) and pairwise distinct |
| `Renumbering.InvertLexicographic` | include/deal.II/matrix_free/shape_info.templates.h:162-172 | for every written `i`, `lexicographic_numbering[lexicographic[i]] == i`; so every pair's system index sits at its lexicographic position |
| `Renumbering.PairsInverted` | include/deal.II/matrix_free/shape_info.templates.h:166-172 | once every written entry is inverted, every pair's system index is at its position |
| `Renumbering.PairInverted` | include/deal.II/matrix_free/shape_info.templates.h:166-172 | the same for one pair |
| `Renumbering.ComponentNumbering` | include/deal.II/matrix_free/shape_info.templates.h:145-172 | the result has length `multiplicity * n` and position `n * c + q` holds the system index of component `c`'s dof at lexicographic position `q` |
| `Renumbering.ComponentNumberingDistinct` | include/deal.II/matrix_free/shape_info.templates.h:145-172 | that numbering is one-to-one and names system dofs only |
| `Renumbering.SlotOf` | include/deal.II/matrix_free/shape_info.templates.h:158 | every position below `multiplicity * n` is `n * c + q` for a component `c` and an index `q < n` |
| `Renumbering.SlotBounds` | include/deal.II/matrix_free/shape_info.templates.h:158 | every pair's position is below `multiplicity * n` |
| `Renumbering.SlotBound` | include/deal.II/matrix_free/shape_info.templates.h:158 | one pair's position is below `multiplicity * n` |
| `Renumbering.PairSlotsDistinct` | include/deal.II/matrix_free/shape_info.templates.h:158 | distinct pairs get distinct positions `n * comp + scalar_inv[i]` |
| `Renumbering.SlotUnique` | include/deal.II/matrix_free/shape_info.templates.h:158 | a position `n * c + q` with `q < n` determines `c` and `q` |
| `Renumbering.ElementTypeSpecificInformation` | include/deal.II/matrix_free/shape_info.templates.h:88-174 | fails exactly for an unsupported element with dofs; otherwise the scalar numbering is a permutation (the identity for simplex and DGP elements); with one component the numbering is the scalar one unchanged; with several, it is one-to-one, of length `multiplicity * n`, names system dofs and puts component `c`'s dof at lexicographic position `q` at `n * c + q` |

## Left out

- Floating point is not modelled: shape function evaluation, collocation, the symmetry tests and even-odd conversion are numerics. The `nodal_at_cell_boundaries` and Hermite detection are tolerance tests. The model builds the nodal table for any degree and the Hermite table when `n_dofs_1d > 2`, i.e. `degree >= 2` for a full tensor element; the tolerance tests that decide whether a real element gets these tables are not modelled.
- The `dynamic_cast` dispatch on the element type becomes the parameter `ElementKind`. `component_to_system_index`, `element_multiplicity` and `n_dofs_per_cell` of the system element become parameters. The facts a system element guarantees about them are requirements: `ComponentTable` says each component's local-to-system map is one-to-one and in range.
- `Utilities::invert_permutation` is not part of this model's source; `InvertPermutation` states its documented contract.
- `create_fe`, `is_supported`, `FE_RaviartThomas::get_lexicographic_numbering` (the Raviart-Thomas branch's `lexicographic_numbering`, include/deal.II/matrix_free/shape_info.templates.h:270-272), the simplex face table, `memory_consumption`, `print_svg`, `print_gnuplot` and the Trilinos/MPI constructors and `reinit`s are not modelled. They are foreign calls, stream formatting or distributed plumbing.
- The dynamic pattern's `print` specialisation (source/lac/block_sparsity_pattern.cc:251-277) is not modelled. It skips rows outside a block's row index set, and index sets are not modelled. For the same reason, the `IndexSet` partitioning constructor and `reinit` are not modelled.
- The copy constructor only accepts an empty pattern, after which it equals the default constructor. It is not modelled separately.
- The sub-pattern classes are not part of this model. The block pattern relies on two of their behaviours: a compressed sub-pattern stores the whole diagonal of a square block from `reinit(m, n, row_lengths)` and `copy_from` on (`SubPatterns.Reserved`, `SubPatterns.CopyCompressed`), and a dynamic one stores nothing after `reinit(m, n)` (`SubPatterns.Sized`).
- Sub-pattern row-length capacities are not modelled. `ReinitWithBlockIndices` checks the `row_lengths` index bound the source asserts, but gives every block the same contents whatever capacities are passed. `max_entries_per_row` of a sub-pattern is its longest stored row.
- `BlockSparsity.BlockSparsityPattern.CollectSizes`, `Assign`, `CopyFrom`, `ReinitBlockSizes`, `WithBlockSizes` and `ReinitWithBlockIndices` require block rows and block columns to be both zero or both nonzero (the last three because they end in `collect_sizes`); `Print`, `ComputeNRows` and `ComputeNCols` require the same where they read block `(r, 0)` or `(0, c)`. With block rows but no block columns the source would read a block that does not exist.
- Integer widths are unbounded, except where a bound decides behaviour. The 32-bit wrap of `n * n`, of the shift `int` and of table entries is not modelled.
- `Renumbering.ComponentNumbering` and `Renumbering.ElementTypeSpecificInformation` require `multiplicity * n_dofs_per_cell <= invalid_unsigned_int`. The positions are `unsigned int` values compared with that marker, so a larger numbering could not be stored.
- `Renumbering.ElementTypeSpecificInformation` does not state that slots no pair reaches stay `invalid_unsigned_int`. Under `ComponentTable` every one of the `multiplicity * n` slots is reached, so there are none.
- `Renumbering.ScalarNumbering`: for an element without dofs the source leaves `scalar_lexicographic` as the caller passed it. The one caller in `reinit` passes a fresh empty vector, so the model returns the empty numbering.
- The orientation table is computed for any `n`. `reinit` stores it only in 3d and keeps a `1 x 1` table otherwise; that choice is not modelled.
- `RaviartThomas.LexNumberings` requires `degree >= 1`. A Raviart-Thomas element has degree at least 1, and with degree 0 the source's `fe.degree - 1` bound would wrap around.
