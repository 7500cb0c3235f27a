# Persistent homology over GF(2): filtration, boundary matrix, reduction, barcode

This project models the persistence pipeline of the `topological_persistence`
C++ program and of its Python companions:

1. A filtration file is read. Each line is `val dim v0 ... v_dim`, and the
   kept records are sorted.
2. The boundary matrix is built. Entry (i, j) is 1 when simplex i is a facet
   of simplex j.
3. The matrix is reduced column by column over GF(2) with the standard
   persistence algorithm. While an earlier column owns the current column's
   lowest 1, that column is added in.
4. The barcode is written. Each nonzero reduced column gives a finite
   interval, born at the value of its low row and dying at its own value.
   Each zero column that is no column's low gives an infinite interval.

The model covers the C++ versions and the Python versions:

- C++: the dense byte-matrix reducer and the sparse row-list reducer, the
  four boundary builders, the dense, entry-list and column-list barcode
  writers, the reader, and `run_barcode`.
- Python: the `td4` reader, its set-based `SparseMatrix`, its reduction and
  barcode builder, the dense `boundary_matrix`, and the index pairing of
  `python/barcode.py`.

Every reducer, whether dense, sparse or set-based, is proved equal to one
functional reference, `GaussianElimination.Reduce`. The properties of the
reduced form are proved about that function: distinct lows, the same column
count, idempotence, rows kept above the diagonal, and dimensions kept
graded. Every writer is proved equal to one functional barcode,
`Barcode.BarcodeOf`, whose contents, order and size are proved as lemmas.
Two end-to-end theorems close the model:

- On a simplicial complex, `run_barcode` writes the barcode of the reduced
  subset-scan boundary matrix.
- The `td4` pipeline produces the same intervals in sorted order when
  `matrix.cols()` is visited in ascending order (`Td4Pipeline.Td4MainSorted`).
  Visited in the order CPython iterates that set, it can return a different
  list (see "## Findings").

Modelling decisions:

- Filtration values are `real`. They are only compared and copied.
- A vertex set (`std::set<int>` or Python `set`) is its strictly ascending
  enumeration as a `seq<int>`.
- The C++ dense matrices are `array2<bv8>` (`uint8_t`).
- The C++ `NONE` (`SIZE_MAX` in the dense code, -1 in the sparse code) is -1.
- A file is `Option<seq<Line>>`, with `None` for a file that cannot be
  opened. A line is `Blank`, or a value token followed by integer tokens.
- Writers return the sequence of `(dim, birth, death)` intervals that they
  would print.
- Hash maps and `std::map` indexes are Dafny `map`s.

Properties of the code worth knowing:

- On a reduced matrix whose lows all have zero columns, each finite
  interval uses two indices (its low and its column) and each infinite one
  uses one. So `2 * finite + infinite == n`, and the barcode has
  n − (number of nonzero columns) intervals (`Barcode.BarcodeCount`).
- The two readers sort by different keys: `(val, dim, vert)` in C++ and
  `(val, vert, dim)` in Python. They also keep different lines (see
  `Td4ReadFiltration.ReadersDisagreeOnShortLine`).

## Model

| member | source | states |
|---|---|---|
| Ordered.SetOf | topological_persistence/cpp/src/main.cpp:48-51 | inserting values into a `std::set` gives an ascending list holding exactly the inserted values, no longer than the input |
| Ordered.Sort | topological_persistence/cpp/src/main.cpp:57-58 | the sort of a total preorder is sorted, is a permutation of its input, and keeps its length |
| Ordered.SortedUnique | topological_persistence/cpp/src/main.cpp:57-58 | two sorted permutations of one multiset under an antisymmetric total preorder are equal, so the result of `std::sort` with a total key is determined |
| Ordered.SortInts | topological_persistence/cpp/src/boundary_matrix.cpp:126 | `std::sort` on a vector of int gives a non-decreasing permutation of the same length |
| Ordered.SortIntsDistinct | topological_persistence/cpp/src/boundary_matrix.cpp:126 | sorting duplicate-free ints gives a strictly ascending list with the same elements |
| Filtration.CppParse | topological_persistence/cpp/src/main.cpp:45-53 | a line is kept iff its dimension field is read and is not -1; the record takes that dimension and the value; its vertex set is the set of the dim+1 tokens after the dimension, with unread tokens standing for the indeterminate `f` |
| Filtration.CppParseComplete | topological_persistence/cpp/src/main.cpp:47-51 | when enough tokens exist, the vertex set is exactly the dim+1 tokens after the dimension, with duplicates collapsed (at most dim+1 vertices) |
| Filtration.KeptCpp | topological_persistence/cpp/src/main.cpp:44-54 | at most one record per line, each with an ascending vertex list |
| Filtration.KeptCppMembers | topological_persistence/cpp/src/main.cpp:44-54 | a record is kept iff some line parses to it |
| Filtration.CppLessStrictTotal | topological_persistence/cpp/src/main.cpp:57-58 | the `std::tie(val, dim, vert)` comparator is irreflexive, total, asymmetric and transitive |
| Filtration.CppLeOrder | topological_persistence/cpp/src/main.cpp:57-58 | "not greater" under that comparator is an antisymmetric total preorder |
| Filtration.SortCpp | topological_persistence/cpp/src/main.cpp:57-58 | the sorted filtration is ordered by `(val, dim, vert)` and is a permutation of the input |
| Filtration.SortCppUnique | topological_persistence/cpp/src/main.cpp:57-58 | every sorted permutation of the records is that one result |
| Filtration.ReadVertices | topological_persistence/cpp/src/main.cpp:48-51 | the vertex loop builds the set of the dim+1 tokens it extracts |
| Filtration.ReadFiltration | topological_persistence/cpp/src/main.cpp:35-60 | the result is the sorted list of the kept records, a permutation of them; a file that cannot be opened gives the empty filtration |
| GaussianElimination.SymDiffMembers | topological_persistence/cpp/src/gaussian_elimination.cpp:50-63 | on strictly ascending inputs, a row is in the merge iff it is in exactly one input |
| GaussianElimination.SymDiffAscending | topological_persistence/cpp/src/gaussian_elimination.cpp:55-61 | the merge of two strictly ascending lists is strictly ascending |
| GaussianElimination.SymDiffCorrect | topological_persistence/cpp/src/gaussian_elimination.cpp:50-63 | the merge is ascending and its element set is the symmetric difference of the inputs' sets |
| GaussianElimination.SymDiffBounds | topological_persistence/cpp/src/gaussian_elimination.cpp:53 | the merge has at most \|a\|+\|b\| rows, all taken from the inputs |
| GaussianElimination.SymDiffEmpty | topological_persistence/cpp/src/gaussian_elimination.cpp:60-61 | merging with an empty list returns the other list |
| GaussianElimination.SymDiffSelf | topological_persistence/cpp/src/gaussian_elimination.cpp:58 | merging a list with itself gives the empty list |
| GaussianElimination.SymDiffCommutes | topological_persistence/cpp/src/gaussian_elimination.cpp:50-63 | on ascending inputs the merge is commutative |
| GaussianElimination.SymDiffSelfInverse | topological_persistence/cpp/src/gaussian_elimination.cpp:50-63 | on ascending inputs, merging with b twice gives back a |
| GaussianElimination.SymDiffFromSuffixes | topological_persistence/cpp/src/gaussian_elimination.cpp:54-61 | the merge from positions (i, j) is the merge of the two suffixes; this is the two-index loop's invariant |
| GaussianElimination.Symdiff | topological_persistence/cpp/src/gaussian_elimination.cpp:50-63 | the two-index loop computes the merge of a and b, of length at most \|a\|+\|b\| |
| GaussianElimination.SymDiffLowers | topological_persistence/cpp/src/gaussian_elimination.cpp:81-86 | adding a column with the same low into a column strictly lowers its low or empties it, and keeps it ascending and in range; this is the termination argument of the inner loop |
| GaussianElimination.ReduceColumn | topological_persistence/cpp/src/gaussian_elimination.cpp:80-86 | the reduced column is ascending and in range, has no row above the original low, and its low, if any, is a row no earlier column owns |
| GaussianElimination.StepKeepsPivots | topological_persistence/cpp/src/gaussian_elimination.cpp:87 | after column j is replaced by its reduction and its low is registered, `pivot_of_row` describes the first j+1 columns |
| GaussianElimination.PivotsGiveDistinctLows | topological_persistence/cpp/src/gaussian_elimination.cpp:73-88 | a pivot table that describes all columns implies pairwise distinct lows of the nonzero columns |
| GaussianElimination.ReduceFromStep | topological_persistence/cpp/src/gaussian_elimination.cpp:75-88 | one turn of the outer loop advances the reduction by one column and keeps the pivot table valid |
| GaussianElimination.ReduceFromLength | topological_persistence/cpp/src/gaussian_elimination.cpp:75-88 | reduction keeps the number of columns |
| GaussianElimination.ReduceFromWellFormed | topological_persistence/cpp/src/gaussian_elimination.cpp:76-84 | reduced columns stay strictly ascending with rows in [0, n), so `back()` is the largest row |
| GaussianElimination.ReduceFromPrefix | topological_persistence/cpp/src/gaussian_elimination.cpp:75-88 | columns already processed are never changed again |
| GaussianElimination.ReduceFromDistinct | topological_persistence/cpp/src/gaussian_elimination.cpp:75-88 | the result has pairwise distinct lows |
| GaussianElimination.ReduceFromBelowLow | topological_persistence/cpp/src/gaussian_elimination.cpp:81-86 | no reduced column has a row above its original low |
| GaussianElimination.ReduceProperties | topological_persistence/cpp/src/gaussian_elimination.cpp:66-91 | the reduction keeps the column count, gives ascending in-range columns with distinct lows and no row above the original low, and returns the empty matrix as is |
| GaussianElimination.ReduceFromReduced | topological_persistence/cpp/src/gaussian_elimination.cpp:81-83 | a matrix whose lows are already distinct is not changed |
| GaussianElimination.ReduceIdempotent | topological_persistence/cpp/src/gaussian_elimination.cpp:66-91 | reducing a reduced matrix changes nothing |
| GaussianElimination.ReduceKeepsUpperTriangular | topological_persistence/cpp/src/gaussian_elimination.cpp:84 | if every row index is below its column, this stays true after reduction, because only earlier columns are added in |
| GaussianElimination.SymDiffLevel | topological_persistence/cpp/src/gaussian_elimination.cpp:84 | the merge of two columns whose rows all lie one dimension below a level lies one dimension below that level too |
| GaussianElimination.ReduceColumnGraded | topological_persistence/cpp/src/gaussian_elimination.cpp:81-86 | reducing a column whose rows all have dimension `level - 1`, against graded earlier columns, keeps that property |
| GaussianElimination.ReduceFromGraded | topological_persistence/cpp/src/gaussian_elimination.cpp:75-88 | a graded matrix (each row one dimension below its column) stays graded through the outer loop |
| GaussianElimination.ReduceGraded | topological_persistence/cpp/src/gaussian_elimination.cpp:66-91 | the reduction of a graded boundary matrix is graded |
| GaussianElimination.ReduceSparseColumn | topological_persistence/cpp/src/gaussian_elimination.cpp:80-86 | the while loop computes the reduced column |
| GaussianElimination.GaussianElimSparse | topological_persistence/cpp/src/gaussian_elimination.cpp:66-91 | the sparse reducer returns `Reduce(cols)`: same column count, well-formed, distinct lows |
| GaussianElimination.NonzeroRowsSpec | topological_persistence/cpp/src/gaussian_elimination.cpp:17-22 | the sparse view of a dense column is ascending and lists exactly its nonzero rows |
| GaussianElimination.RowListsWellFormed | topological_persistence/cpp/src/gaussian_elimination.cpp:24-29 | the column view of a square byte matrix is a well-formed sparse matrix |
| GaussianElimination.XorBit | topological_persistence/cpp/src/gaussian_elimination.cpp:14 | xor of two 0/1 bytes is a 0/1 byte, nonzero iff exactly one is nonzero |
| GaussianElimination.XorIsSymDiff | topological_persistence/cpp/src/gaussian_elimination.cpp:11-15 | xoring two 0/1 columns is the symmetric difference of their sparse views |
| GaussianElimination.LowestOne | topological_persistence/cpp/src/gaussian_elimination.cpp:17-22 | returns the largest row with a nonzero byte in column j, or NONE iff the column is all zero; this agrees with the sparse low |
| GaussianElimination.LowIsLastNonzero | topological_persistence/cpp/src/gaussian_elimination.cpp:20 | the last nonzero row of a column is the low of its sparse view |
| GaussianElimination.ColXor | topological_persistence/cpp/src/gaussian_elimination.cpp:11-15 | each byte of column dst becomes its xor with column src, and every other column is unchanged |
| GaussianElimination.ColXorStep | topological_persistence/cpp/src/gaussian_elimination.cpp:37 | after `col_xor`, the sparse view changes only in column dst, which becomes the merge of dst and src |
| GaussianElimination.DenseStep | topological_persistence/cpp/src/gaussian_elimination.cpp:34-39 | one inner-loop step lowers column j's low, leaves the other columns alone, and does not change what the column reduces to |
| GaussianElimination.DenseColumnDone | topological_persistence/cpp/src/gaussian_elimination.cpp:36-41 | when the inner loop stops, column j is the reference reduction of the original column |
| GaussianElimination.ColumnTurn | topological_persistence/cpp/src/gaussian_elimination.cpp:35-38 | one turn of the dense inner loop adds the pivot's column into column j, keeps the matrix 0/1 and the other columns unchanged, keeps the column's reduction, and lowers its low |
| GaussianElimination.ReduceDenseColumn | topological_persistence/cpp/src/gaussian_elimination.cpp:32-39 | the dense inner loop replaces column j by its reduction, leaves the other columns as they were, and returns the new low |
| GaussianElimination.ReduceDenseStep | topological_persistence/cpp/src/gaussian_elimination.cpp:30-41 | one turn of the dense outer loop reduces column j and records its low as a pivot, keeping the first j+1 columns reduced and the remaining reduction equal to that of the original matrix |
| GaussianElimination.GaussianElimDense | topological_persistence/cpp/src/gaussian_elimination.cpp:24-43 | the in-place dense reducer leaves a 0/1 matrix whose column view is `Reduce` of the original column view |
| BoundaryMatrix.IsSubsetEq | topological_persistence/cpp/src/boundary_matrix.cpp:11-13 | `std::includes` on ascending vertex lists holds iff every vertex of a is in b |
| BoundaryMatrix.EntryRows | topological_persistence/cpp/src/boundary_matrix.cpp:15-27 | the facet rows of column j, ascending, exactly the i < k with an entry |
| BoundaryMatrix.BoundaryColumns | topological_persistence/cpp/src/boundary_matrix.cpp:15-27 | the n columns of the subset-scan relation, each the ascending list of its facet rows |
| BoundaryMatrix.BoundaryColumnsWellFormed | topological_persistence/cpp/src/boundary_matrix.cpp:15-27 | the subset-scan columns are well-formed and strictly above the diagonal |
| BoundaryMatrix.BoundaryMatrixDense | topological_persistence/cpp/src/boundary_matrix.cpp:15-27 | a fresh n×n byte matrix with 1 at (i, j) iff i < j, dim_i + 1 == dim_j and vert_i ⊆ vert_j, and 0 elsewhere, so the diagonal and below are 0 |
| BoundaryMatrix.DenseIsBoundaryColumns | topological_persistence/cpp/src/boundary_matrix.cpp:15-27 | the dense builder's matrix is 0/1 and its column view is the subset-scan columns |
| BoundaryMatrix.BoundaryMatrixSparse | topological_persistence/cpp/src/boundary_matrix.cpp:80-94 | the entry list holds exactly the pairs where the dense builder writes 1, without duplicates and in lexicographic order |
| BoundaryMatrix.RemoveAtProperties | topological_persistence/cpp/src/boundary_matrix.cpp:114-120 | removing the r-th vertex gives an ascending list one shorter, holding every vertex except that one |
| BoundaryMatrix.FacesDistinct | topological_persistence/cpp/src/boundary_matrix.cpp:114-120 | removing different vertices gives different faces |
| BoundaryMatrix.SubsetIsFace | topological_persistence/cpp/src/boundary_matrix.cpp:114-120 | a subset with one vertex fewer is one of the enumerated faces |
| BoundaryMatrix.FaceIffSubset | topological_persistence/cpp/src/boundary_matrix.cpp:114-120 | being an enumerated face is equivalent to being a subset with exactly one vertex fewer |
| BoundaryMatrix.LastIndexSpec | topological_persistence/cpp/src/boundary_matrix.cpp:103-105 | after `index[vert_i] = i` for every i, each vertex set is a key, mapped to the last position holding it |
| BoundaryMatrix.FirstIndexSpec | topological_persistence/cpp/src/boundary_matrix.cpp:47-54 | after `emplace` for every i, each vertex set is a key, mapped to the first position holding it |
| BoundaryMatrix.LastIndexLookup | topological_persistence/cpp/src/boundary_matrix.cpp:121-122 | a face is found at i iff i is the last position with that vertex set |
| BoundaryMatrix.FirstIndexLookup | topological_persistence/cpp/src/boundary_matrix.cpp:68-69 | a face is found at i iff i is the first position with that vertex set |
| BoundaryMatrix.BuildLastIndex | topological_persistence/cpp/src/boundary_matrix.cpp:103-105 | the overwriting loop builds the last-position map |
| BoundaryMatrix.BuildFirstIndex | topological_persistence/cpp/src/boundary_matrix.cpp:47-54 | the non-overwriting loop builds the first-position map |
| BoundaryMatrix.FaceHits | topological_persistence/cpp/src/boundary_matrix.cpp:114-125 | the rows pushed for a column are exactly the map values of its faces found in the map, and there are at most as many rows as faces |
| BoundaryMatrix.FaceHitsDistinct | topological_persistence/cpp/src/boundary_matrix.cpp:114-125 | with an injective map, no row is pushed twice |
| BoundaryMatrix.SparseFastColumnSpec | topological_persistence/cpp/src/boundary_matrix.cpp:108-126 | each fast column is ascending, has at most \|vert_j\| rows, and holds exactly the last positions of the faces of vert_j; faces missing from the filtration are skipped |
| BoundaryMatrix.BuildFace | topological_persistence/cpp/src/boundary_matrix.cpp:115-120 | the copy loop that skips index r builds vert minus its r-th vertex |
| BoundaryMatrix.FaceColumn | topological_persistence/cpp/src/boundary_matrix.cpp:114-126 | the face loop followed by `std::sort` gives the sorted list of face hits |
| BoundaryMatrix.SparseFastColumnsProperties | topological_persistence/cpp/src/boundary_matrix.cpp:96-130 | the fast columns are well-formed; a simplex with at most one vertex has an empty column; each column has at most \|vert_j\| rows, exactly its fast entries |
| BoundaryMatrix.BoundaryMatrixSparseFast | topological_persistence/cpp/src/boundary_matrix.cpp:96-130 | the fast sparse builder returns those columns, with the same properties |
| BoundaryMatrix.MarkFaces | topological_persistence/cpp/src/boundary_matrix.cpp:64-73 | the face loop of column j writes 1 exactly at the rows of the faces found, and leaves the other columns unchanged |
| BoundaryMatrix.DenseFastColumnSpec | topological_persistence/cpp/src/boundary_matrix.cpp:57-73 | for dim_j > 0 the rows marked are exactly the first positions of the faces of vert_j; there is no i < j check |
| BoundaryMatrix.BoundaryMatrixDenseFast | topological_persistence/cpp/src/boundary_matrix.cpp:42-76 | a fresh n×n matrix with 1 exactly at the dense-fast entries and 0 elsewhere |
| BoundaryMatrix.FastEntriesAreEntries | topological_persistence/cpp/src/boundary_matrix.cpp:15-27 | on a simplicial-complex filtration (distinct vertex sets, dim = \|vert\| − 1, faces first, nonempty) both fast relations are the subset-scan relation |
| BoundaryMatrix.SparseFastIsBoundary | topological_persistence/cpp/src/boundary_matrix.cpp:96-130 | on such a filtration the fast sparse columns are the subset-scan columns |
| BoundaryMatrix.DenseFastIsBoundary | topological_persistence/cpp/src/boundary_matrix.cpp:42-76 | on such a filtration the dense-fast entries are the subset-scan entries |
| BoundaryMatrix.DuplicateVertexSets | topological_persistence/cpp/src/boundary_matrix.cpp:49-54 | with a repeated vertex set, the sparse-fast builder uses the last copy, the dense-fast builder the first, and the subset scan both |
| BoundaryMatrix.FacetAfterCofacet | topological_persistence/cpp/src/boundary_matrix.cpp:57-73 | when a face comes after its cofacet, both fast builders mark an entry below the diagonal that the subset scan does not |
| Barcode.WellFormedWritable | topological_persistence/cpp/src/main.cpp:174-177 | the low of every nonzero well-formed column indexes `dim`, `val` and `row_used_as_pivot` |
| Barcode.LowsBelowMembers | topological_persistence/cpp/src/main.cpp:174-183 | after the first loop has seen k columns, a row is flagged iff it is the low of a nonzero column below k |
| Barcode.FinitesMembers | topological_persistence/cpp/src/main.cpp:174-183 | the first loop's intervals are exactly `(dim[j] − 1, val[low j], val[j])` for the nonzero columns, all finite |
| Barcode.InfinitesMembers | topological_persistence/cpp/src/main.cpp:186-191 | the second loop's intervals are exactly `(dim[j], val[j], inf)` for the zero columns that no column has as its low |
| Barcode.BarcodeMembers | topological_persistence/cpp/src/main.cpp:158-193 | the barcode holds exactly those finite and infinite intervals, and every infinite interval comes after every finite one |
| Barcode.FinitesDependOnLows | topological_persistence/cpp/src/main.cpp:174-183 | the finite intervals and the flagged rows depend only on which columns are zero and on their lows |
| Barcode.InfinitesDependOnLows | topological_persistence/cpp/src/main.cpp:186-191 | the infinite intervals depend only on which columns are zero and on the set of lows |
| Barcode.BarcodeDependsOnLows | topological_persistence/cpp/src/main.cpp:158-193 | two matrices with the same zero columns and the same lows have the same barcode |
| Barcode.BirthBeforeDeath | topological_persistence/cpp/src/main.cpp:174-183 | with rows above the diagonal and values non-decreasing, every finite interval is born no later than it dies |
| Barcode.FinitesCount | topological_persistence/cpp/src/main.cpp:174-183 | one finite interval per nonzero column |
| Barcode.InfinitesCount | topological_persistence/cpp/src/main.cpp:186-191 | one infinite interval per unclaimed index |
| Barcode.LowsCount | topological_persistence/cpp/src/main.cpp:174-183 | with distinct lows, there are as many flagged rows as nonzero columns |
| Barcode.IndicesSplit | topological_persistence/cpp/src/main.cpp:174-191 | when every low row has a zero column, each index is exactly one of: a nonzero column, an unclaimed index, a low |
| Barcode.BarcodeCount | topological_persistence/cpp/src/barcode.cpp:36-50 | with distinct lows whose rows have zero columns, 2·finite + infinite == n, so the barcode has n − (nonzero columns) intervals |
| Barcode.EdgeBarcode | topological_persistence/cpp/src/main.cpp:158-193 | for two vertices and the edge between them, the barcode is the finite interval (0, 2, 3) followed by the infinite interval (0, 1, inf) |
| Barcode.WriteBarcodeColumns | topological_persistence/cpp/src/main.cpp:158-193 | the column-based writer emits `BarcodeOf(cols)`: the finite intervals in column order, then the infinite ones in index order, and nothing when n == 0 |
| Barcode.ColumnLow | topological_persistence/cpp/src/barcode.cpp:12-18 | `lowest_one` returns the low of the column's sparse view (the largest nonzero row), or NONE |
| Barcode.DenseView | topological_persistence/cpp/src/barcode.cpp:20-52 | every square byte matrix has a column view whose lows are its `lowest_one` and which is writable |
| Barcode.DenseViewBarcode | topological_persistence/cpp/src/barcode.cpp:36-50 | the barcode of any such view is the barcode of the matrix's column view |
| Barcode.WriteBarcodeDense | topological_persistence/cpp/src/barcode.cpp:20-52 | the dense writer emits the barcode of the matrix's column view, and nothing when n == 0 |
| Barcode.InferredSizeSpec | topological_persistence/cpp/src/barcode.cpp:66-67 | the inferred n is above every index of every entry, and reached by some entry when there is one |
| Barcode.EntryRows | topological_persistence/cpp/src/barcode.cpp:71 | the rows pushed into column j are exactly the entries' rows in that column |
| Barcode.SizedColumns | topological_persistence/cpp/src/barcode.cpp:70-72 | n columns, each the sorted list of its entries' rows |
| Barcode.SizedColumnsSpec | topological_persistence/cpp/src/barcode.cpp:70-72 | the rebuilt columns hold exactly the entries' rows, sorted, so `back()` is the largest row |
| Barcode.GatherColumns | topological_persistence/cpp/src/barcode.cpp:70-71 | the push loop builds, for each column, the list of its entries' rows |
| Barcode.SortColumns | topological_persistence/cpp/src/barcode.cpp:72 | each column is replaced by its sorted version |
| Barcode.WriteBarcodeEntriesSized | topological_persistence/cpp/src/barcode.cpp:69-97 | with n given, the entries writer emits the barcode of the rebuilt columns |
| Barcode.WriteBarcodeEntries | topological_persistence/cpp/src/barcode.cpp:58-97 | the entries writer as written, with n inferred from the entries |
| Barcode.SizedColumnsAgree | topological_persistence/cpp/src/barcode.cpp:70-95 | when the entries are exactly the nonzero positions of a reduced matrix with n columns, the entries writer given n emits that matrix's barcode |
| Barcode.EntriesAgreeWithColumns | topological_persistence/cpp/src/barcode.cpp:58-97 | the entries writer as written emits the matrix's barcode when the inferred n equals the column count |
| Barcode.EntriesDropTrailingSimplex | topological_persistence/cpp/src/barcode.cpp:66-67 | for an edge followed by a lone vertex, the inferred n is 3, and the entries writer omits the vertex's infinite interval that the column writer emits |
| Barcode.EntriesDropLoneVertex | topological_persistence/cpp/src/barcode.cpp:63 | for a single vertex there are no entries, so the entries writer emits nothing, where the barcode has one infinite interval |
| Barcode.EdgeEntries | topological_persistence/cpp/src/barcode.cpp:66-71 | the entries of one edge infer n == 3 and are exactly the nonzero positions of the edge's reduced columns |
| Barcode.EdgeEntriesBarcode | topological_persistence/cpp/src/barcode.cpp:58-97 | for those entries the writer emits the edge's finite interval and one infinite interval |
| Barcode.TrailingVertexBarcode | topological_persistence/cpp/src/main.cpp:158-193 | with a fourth simplex that is a vertex, the column writer emits three intervals, the last `(0, 4, inf)` |
| Pipeline.ReadResultValid | topological_persistence/cpp/src/main.cpp:35-60 | every record returned by the reader has an ascending vertex list |
| Pipeline.PipelineWritable | topological_persistence/cpp/src/main.cpp:214-222 | the fast columns of the filtration and their reduction are well-formed n-column matrices that the writer can index with `dims` and `vals` |
| Pipeline.RunBarcode | topological_persistence/cpp/src/main.cpp:198-225 | `run_barcode` copies `dims[i] = F[i].dim` and `vals[i] = F[i].val` from the sorted filtration, writes the barcode of the reduced fast boundary matrix, and returns 0 |
| Pipeline.PipelineUnopenable | topological_persistence/cpp/src/main.cpp:42-56 | a file that cannot be opened gives an empty barcode |
| Pipeline.PipelineOnComplex | topological_persistence/cpp/src/main.cpp:198-225 | on a simplicial complex, `run_barcode` writes the barcode of the reduced subset-scan boundary matrix |
| Pipeline.ReducedAboveDiagonal | topological_persistence/cpp/src/main.cpp:214-218 | on a complex, the reduced fast columns keep every row above the diagonal |
| Pipeline.PipelineBirthBeforeDeath | topological_persistence/cpp/src/main.cpp:198-225 | on a sorted complex, every finite interval written is born no later than it dies |
| PythonBoundaryMatrix.BoundaryMatrixOf | topological_persistence/python/boundary_matrix.py:1-12 | a fresh n×n matrix with 1 at (i, j) iff i < j, vert_i ⊆ vert_j and dim_i + 1 == dim_j, and 0 elsewhere; this is `build_dense_boundary_matrix` of td4 |
| PythonBarcode.LowFromSpec | topological_persistence/python/barcode.py:9-14 | the reversed scan finds the largest nonzero row below k, or -1 iff the column is zero there |
| PythonBarcode.LowList | topological_persistence/python/barcode.py:9-14 | `low[j]` is the largest i with a nonzero entry in column j, or -1 |
| PythonBarcode.LowListRange | topological_persistence/python/barcode.py:9-14 | every low lies in [-1, n) |
| PythonBarcode.PairedBelowMembers | topological_persistence/python/barcode.py:16-19 | `paired` holds exactly the lows other than -1 of the columns seen |
| PythonBarcode.PyBarcode | topological_persistence/python/barcode.py:4-23 | the two loops compute the pairing from the low list |
| PythonBarcode.PairBarsShape | topological_persistence/python/barcode.py:16-19 | every pair is `(low[j], j)` with low[j] ≠ -1 |
| PythonBarcode.UnpairedBarsShape | topological_persistence/python/barcode.py:20-22 | every `(i, None)` has i in range and not in `paired` |
| PythonBarcode.PairBarsMembers | topological_persistence/python/barcode.py:16-19 | `(i, j)` is emitted iff low[j] == i ≠ -1 |
| PythonBarcode.PairBarsAscending | topological_persistence/python/barcode.py:16-19 | the pairs come in ascending j |
| PythonBarcode.UnpairedBarsMembers | topological_persistence/python/barcode.py:20-22 | `(i, None)` is emitted iff i < n and i is not in `paired` |
| PythonBarcode.UnpairedBarsAscending | topological_persistence/python/barcode.py:20-22 | the unpaired bars come in ascending i |
| PythonBarcode.PyBarsMembers | topological_persistence/python/barcode.py:4-23 | `(i, j)` is a bar iff low[j] == i ≠ -1; `(i, None)` is a bar iff i is no column's low, whether or not column i is zero; no pair follows an unpaired bar |
| PythonBarcode.PyBarsOrder | topological_persistence/python/barcode.py:16-22 | pairs come first in ascending j, then unpaired bars in ascending i |
| PythonBarcode.PairBarsCount | topological_persistence/python/barcode.py:16-19 | one pair per column with a low |
| PythonBarcode.UnpairedBarsCount | topological_persistence/python/barcode.py:20-22 | the unpaired bars and `paired` together account for every index |
| PythonBarcode.PairedBelowRange | topological_persistence/python/barcode.py:16-19 | every member of `paired` is an index in [0, n) |
| PythonBarcode.PyBarsCount | topological_persistence/python/barcode.py:16-22 | there are (nonzero columns) + n − (distinct lows) bars |
| PythonBarcode.SpuriousInfiniteAt | topological_persistence/python/barcode.py:20-22 | for the reduced matrix of an edge, the bars are the pair (1, 2), then (0, None), then a spurious (2, None) for the edge's own nonzero column |
| PythonBarcode.SpuriousInfinite | topological_persistence/python/barcode.py:20-22 | for that matrix column 2 is nonzero, yet (2, None) is emitted |
| PythonBarcode.UnpairedUnclaimedAgree | topological_persistence/python/barcode.py:20-22 | when every nonzero column's index is a low, the unpaired loop emits only unclaimed zero columns |
| PythonBarcode.PyBarsCorrectWhenNonzeroColumnsPaired | topological_persistence/python/barcode.py:4-23 | if every nonzero column's index is some column's low (is in `paired`), the pairing as written is the corrected pairing |
| PythonBarcode.Intervals | topological_persistence/python/barcode.py:18-22 | one interval per index bar, turning indices into values as the C++ writers do |
| PythonBarcode.PairedBelowIsLowsBelow | topological_persistence/python/barcode.py:16-19 | the `paired` set is the C++ writer's set of flagged rows |
| PythonBarcode.PairsAreFinites | topological_persistence/python/barcode.py:16-19 | the pairs, with values attached, are the C++ finite intervals |
| PythonBarcode.UnclaimedBarsShape | topological_persistence/python/barcode.py:20-22 | each bar of the corrected second loop is unpaired and in range |
| PythonBarcode.UnclaimedAreInfinites | topological_persistence/python/barcode.py:20-22 | the corrected second loop, with values attached, gives the C++ infinite intervals |
| PythonBarcode.CorrectedBarsMatchBarcode | topological_persistence/python/barcode.py:4-23 | the corrected pairing, with values attached, is exactly the C++ barcode of the same reduced columns |
| PythonBarcode.CorrectedEdge | topological_persistence/python/barcode.py:20-22 | the same, on the literal matrix |
| Td4ReadFiltration.SliceBound | td4/read_filtration.py:38 | a slice end is clamped to [0, len] and is unchanged when in range |
| Td4ReadFiltration.PyParse | td4/read_filtration.py:23-39 | a line is kept iff it is not blank, has at least 2 tokens, its dimension is not -1 and it has at least dim+3 tokens; the record takes that dimension and value, and its vertices are the set of the tokens of `parts[2:2+dim+1]` |
| Td4ReadFiltration.PyParseVertices | td4/read_filtration.py:34-38 | with dim ≥ 0 and enough tokens, the vertex set is exactly the dim+1 tokens after the dimension, and later tokens are ignored |
| Td4ReadFiltration.PyParseNegativeDimension | td4/read_filtration.py:34-39 | a dimension below -1 is kept, and the slice end then counts from the end of the line |
| Td4ReadFiltration.ReadersDisagreeOnShortLine | td4/read_filtration.py:34-37 | a line with too few vertex tokens is kept by the C++ reader and dropped by this one |
| Td4ReadFiltration.KeptPy | td4/read_filtration.py:22-39 | at most one record per line, each with an ascending vertex list |
| Td4ReadFiltration.KeptPyMembers | td4/read_filtration.py:22-39 | a record is kept iff some line parses to it |
| Td4ReadFiltration.PyLessStrictTotal | td4/read_filtration.py:42 | the key `(val, list(vert), dim)` orders records strictly and totally |
| Td4ReadFiltration.PyLeOrder | td4/read_filtration.py:42 | "not greater" under that key is an antisymmetric total preorder |
| Td4ReadFiltration.SortPy | td4/read_filtration.py:42 | the sorted list is ordered by that key and is a permutation of the input |
| Td4ReadFiltration.SortKeysDiffer | td4/read_filtration.py:42 | the two readers order some pair of records differently, because vertices come before dimension here |
| Td4ReadFiltration.SimplexEqProperties | td4/read_filtration.py:15-16 | two simplices are equal iff their vertex sets are; this is an equivalence that ignores dimension and value |
| Td4ReadFiltration.ReadFiltration | td4/read_filtration.py:18-43 | the result is the sorted list of the kept records, a permutation of them; an `OSError` gives the empty list |
| Td4BoundaryMatrix.PairXor | td4/boundary_matrix.py:33-34 | a pair is in the symmetric difference iff it is in exactly one operand |
| Td4BoundaryMatrix.PairXorLaws | td4/reduction.py:23-25 | the symmetric difference is commutative and self-inverse, with the empty set as unit |
| Td4BoundaryMatrix.SparseMatrix.constructor | td4/boundary_matrix.py:6-8 | the matrix holds the given pairs and the declared size m |
| Td4BoundaryMatrix.SparseMatrix.Cols | td4/boundary_matrix.py:10-11 | a column index is reported iff some pair lies in that column |
| Td4BoundaryMatrix.SparseMatrix.Lines | td4/boundary_matrix.py:12-13 | a row index is reported iff some pair lies in that row |
| Td4BoundaryMatrix.SparseMatrix.Column | td4/boundary_matrix.py:18-19 | the pairs of column j whose row is in [0, m) |
| Td4BoundaryMatrix.SparseMatrix.Line | td4/boundary_matrix.py:15-16 | the pairs of row i whose column is in [0, m) |
| Td4BoundaryMatrix.SparseMatrix.Add | td4/boundary_matrix.py:31-32 | inserts one pair; adding a pair already present changes nothing |
| Td4BoundaryMatrix.SparseMatrix.SymmetricDifference | td4/boundary_matrix.py:33-34 | a fresh matrix of symmetric-difference pairs, with the same declared size |
| Td4BoundaryMatrix.BoundaryPairs | td4/boundary_matrix.py:50-59 | the facet pairs, exactly the (i, j) with an entry, all with 0 ≤ i < j < m |
| Td4BoundaryMatrix.DenseOf | td4/boundary_matrix.py:66-70 | the m×m 0/1 matrix with 1 exactly at the given pairs |
| Td4BoundaryMatrix.EntryMatrix | td4/boundary_matrix.py:39-48 | the m×m matrix with 1 at (i, j) iff i < j, dim_j == dim_i + 1 and vert_j ⊇ vert_i, and 0 on and below the diagonal |
| Td4BoundaryMatrix.SparseToDenseAgrees | td4/boundary_matrix.py:66-70 | `sparse_to_dense(build_sparse_boundary_matrix(F)) == build_dense_boundary_matrix(F)` |
| Td4BoundaryMatrix.EntryMatrixColumns | td4/boundary_matrix.py:39-48 | column j of that matrix holds exactly the rows of C++ subset-scan column j |
| Td4BoundaryMatrix.BuildDenseBoundaryMatrix | td4/boundary_matrix.py:39-48 | the nested loops build that matrix |
| Td4BoundaryMatrix.BuildSparseBoundaryMatrix | td4/boundary_matrix.py:50-59 | a fresh matrix of declared size m whose pairs are exactly the facet pairs |
| Td4BoundaryMatrix.SparseToDense | td4/boundary_matrix.py:66-70 | writing the pairs in any order gives the 0/1 matrix of those pairs |
| Td4Reduction.LastNonzeroSpec | td4/reduction.py:10-12 | the forward scan remembers the last nonzero row, or -1 if there is none |
| Td4Reduction.DenseLowOf | td4/reduction.py:7-13 | `dense_low` is 0 for a zero column, else the largest nonzero row |
| Td4Reduction.DenseLow | td4/reduction.py:7-13 | the scan loop computes that value |
| Td4Reduction.DenseLowConflates | td4/reduction.py:8 | `dense_low` returns 0 exactly when no row other than 0 is nonzero, so a zero column and a column with low 0 look the same |
| Td4Reduction.SetLowSpec | td4/reduction.py:29-34 | the largest row in column j, or -1 when the column is empty |
| Td4Reduction.SetLowSame | td4/reduction.py:29-34 | the low depends only on column j's pairs |
| Td4Reduction.SparseLow | td4/reduction.py:29-34 | `sparse_low` is -1 iff `column(j)` is empty, else the largest row of `column(j)` |
| Td4Reduction.SparseAddMod2 | td4/reduction.py:23-25 | a fresh matrix of size m holding the symmetric difference |
| Td4Reduction.FirstBelow | td4/reduction.py:37-41 | the first element of an iteration order that is below `val`, every earlier one being at least `val`; None iff no element is below `val` |
| Td4Reduction.ValueThatIsLower | td4/reduction.py:37-41 | for the order in which `for el in tab` visits the set, returns that first element below `val`, which is a member below `val`; None iff no member is below `val` |
| Td4Reduction.RowList | td4/reduction.py:29-34 | column j of a pair set as an ascending row list |
| Td4Reduction.ColumnsOf | td4/reduction.py:44-69 | the pair set as m well-formed sparse columns |
| Td4Reduction.RowListLow | td4/reduction.py:29-34 | the low of the row list is `sparse_low` |
| Td4Reduction.RowListSame | td4/reduction.py:29-34 | the row list depends only on column j's pairs |
| Td4Reduction.BoundaryPairsStrictlyUpper | td4/boundary_matrix.py:55-58 | the builder's pairs are strictly above the diagonal |
| Td4Reduction.InitLowToCol | td4/reduction.py:45-48 | after the first loop every column is in the slot of its low, and each slot holds only such columns; a low of -1 lands in the last slot |
| Td4Reduction.LowToColMove | td4/reduction.py:66-67 | moving column j from the slot of its old low to the slot of its new low keeps that invariant |
| Td4Reduction.AddColumnEffect | td4/reduction.py:58 | adding the rows of column i < j into column j changes only column j, to the merge of the two, keeps the pairs above the diagonal, and lowers j's low when the lows are equal |
| Td4Reduction.AddColumn | td4/reduction.py:58 | the update builds that matrix |
| Td4Reduction.PivotSlot | td4/reduction.py:53-54 | the slot of j's low holds no earlier column except the pivot column of that row, and holds that column whenever it exists |
| Td4Reduction.SlotMember | td4/reduction.py:53-54 | every column in the slot of a low has that low |
| Td4Reduction.AddStep | td4/reduction.py:54-58 | adding the earlier column found in the slot does not change what column j reduces to |
| Td4Reduction.StopStep | td4/reduction.py:51-61 | when the loop breaks, column j is already reduced |
| Td4Reduction.EliminateOf | td4/reduction.py:51-67 | the `while True` loop for column j as a function of the entries and of the slot iteration orders: the matrix stays strictly upper, only column j changes, and column j ends zero or with a low no earlier column has |
| Td4Reduction.EliminateStops | td4/reduction.py:53-61 | when the loop breaks at once (no low, a slot of one column, or no lower column in the slot), the matrix is left as it is |
| Td4Reduction.EliminateAdvance | td4/reduction.py:53-58 | adding the first lower column of the slot does not change where the loop ends |
| Td4Reduction.MoveToSlot | td4/reduction.py:66-67 | moving j from the slot of its old low to the slot of its new low gives exactly the slot table of the new matrix |
| Td4Reduction.EliminationStep | td4/reduction.py:52-67 | one turn of the `while True` loop: either it breaks with the matrix unchanged and column j reduced, or it lowers j's low without changing what j reduces to; it keeps the slot invariant and where the loop ends |
| Td4Reduction.EliminateColumn | td4/reduction.py:51-67 | the while loop, for any slot iteration orders, ends at EliminateOf of its input, changing only column j; when the earlier columns are reduced, column j becomes its reference reduction against them |
| Td4Reduction.CatchUp | td4/reduction.py:50 | empty columns skipped by `cols()` are already reduced |
| Td4Reduction.SimStep | td4/reduction.py:50-67 | eliminating the next column advances the reference reduction by one column |
| Td4Reduction.GapIsZero | td4/reduction.py:50 | in ascending order, the columns between two visited ones are empty |
| Td4Reduction.VisitStep | td4/reduction.py:50-67 | visiting column j after empty columns advances the reference reduction to j + 1 |
| Td4Reduction.VisitColumn | td4/reduction.py:50-67 | one turn of the outer loop keeps the loop invariant |
| Td4Reduction.VisitEnd | td4/reduction.py:50-69 | at the end, columns never visited are unchanged and, when visited in ascending order, the matrix is the reference reduction |
| Td4Reduction.ColsInRange | td4/boundary_matrix.py:10-11 | on a strictly upper matrix, `cols()` is within [0, m) and covers every pair |
| Td4Reduction.ReduceInOrder | td4/reduction.py:50-67 | the columns of a visiting order eliminated one after the other: the matrix stays strictly upper and columns outside the order keep their pairs |
| Td4Reduction.ReduceInOrderStep | td4/reduction.py:50 | eliminating the t-th column of the order and then the rest is eliminating the order from t on |
| Td4Reduction.VisitNext | td4/reduction.py:50-67 | one turn of the outer loop: it eliminates the next column of the order, keeps the slot table right, and advances both the loop invariant and the ReduceInOrder position by one |
| Td4Reduction.SparseGaussianReduction | td4/reduction.py:44-69 | for the order in which `cols()` is iterated and any slot orders, returns ReduceInOrder of the input; keeps the size and the pairs above the diagonal, leaves absent columns alone, and when the order is ascending returns `Reduce` of the input columns |
| Td4Reduction.OutOfOrderResult | td4/reduction.py:50-67 | visiting the columns 6-9 of the boundary matrix of a triangle on three of six vertices in the order 8, 9, 6, 7 gives one fixed matrix, whatever the slot orders |
| Td4Reduction.AfterSevenNotReduced | td4/reduction.py:50-67 | in that matrix columns 7 and 8 have the same low, so it is not `Reduce` of the boundary matrix |
| Td4Reduction.InOrderResult | td4/reduction.py:50-67 | visiting the triangle matrix's columns in the order 6, 7, 8, 9 adds column 6 to 7 and then 7 to 8, which becomes zero, for every slot order |
| Td4Reduction.OutOfOrderVisit | td4/reduction.py:50 | in the order 8, 9, 6, 7 the reduction leaves columns 7 and 8 both with low 1 and is not `Reduce` of the boundary matrix, for every slot order |
| Td4Barcode.IntervalLeOrder | td4/reduction.py:102 | Python's tuple order on `(dim, birth, death)` with `inf` last is an antisymmetric total preorder, so `sorted` has one result |
| Td4Barcode.Table | td4/reduction.py:94-100 | for each index, the tuple the builder appends for it: finite for a nonzero column, infinite otherwise |
| Td4Barcode.Nonzero | td4/reduction.py:94 | the indices of the nonzero columns |
| Td4Barcode.Sides | td4/reduction.py:92-99 | the indices that are neither a nonzero column nor a low |
| Td4Barcode.UnsortedMembers | td4/reduction.py:94-100 | before sorting, the tuples are exactly one finite tuple per nonzero column and one infinite tuple per unclaimed index |
| Td4Barcode.Td4BarcodeMembers | td4/reduction.py:90-102 | the builder's result is sorted, has one tuple per nonzero column plus one per unclaimed index, and holds exactly those tuples |
| Td4Barcode.ColumnsFit | td4/reduction.py:94-95 | on a strictly upper matrix the columns in `cols()` are the nonzero ones and `sparse_low` is their low |
| Td4Barcode.PairingStep | td4/reduction.py:94-97 | one turn of the first loop keeps its invariant: `sides` loses the column and its low, the column joins the visited ones, and the tuple is appended |
| Td4Barcode.PairingStart | td4/reduction.py:91-93 | the invariant holds before the first loop |
| Td4Barcode.PairingEnd | td4/reduction.py:94-99 | after the first loop the visited columns are the nonzero ones and `sides` is the set of unclaimed indices |
| Td4Barcode.VisitPaired | td4/reduction.py:95-97 | one turn of the first loop keeps the pairing invariant and removes one column from those still to visit |
| Td4Barcode.PairedTuples | td4/reduction.py:91-97 | the first loop appends the finite tuple of every nonzero column, each once, and leaves the unclaimed indices in `sides` |
| Td4Barcode.UnpairedTuples | td4/reduction.py:99-100 | the second loop appends the infinite tuple of every index in `sides`, each once |
| Td4Barcode.BuilderPermutation | td4/reduction.py:94-100 | the appended tuples, in any visit order, are a permutation of the ascending-order tuples |
| Td4Barcode.SparseBarcodeBuilder | td4/reduction.py:90-102 | `sparse_barcode_builder` returns the sorted tuples of the nonzero columns and the unclaimed indices, whatever order the sets are visited in |
| Td4Pipeline.BoundaryPairsColumns | td4/boundary_matrix.py:50-59 | the columns of the td4 sparse matrix are the C++ subset-scan columns |
| Td4Pipeline.BoundaryColumnsGraded | td4/boundary_matrix.py:57 | in the boundary matrix each row is one dimension below its column |
| Td4Pipeline.FinitesAgree | td4/reduction.py:94-97 | on a graded matrix, the td4 finite tuples `(dim_i, val_i, val_j)` are the C++ finite intervals `(dim_j − 1, val_i, val_j)` |
| Td4Pipeline.InfinitesAgree | td4/reduction.py:99-100 | the td4 infinite tuples are the C++ infinite intervals |
| Td4Pipeline.Td4AgreesWithColumnWriter | td4/reduction.py:90-102 | on a graded matrix, the td4 builder's result is the C++ column writer's barcode, sorted |
| Td4Pipeline.SortedColumnBarcode | td4/reduction.py:102 | the sorted barcode of the reduced subset-scan matrix is sorted |
| Td4Pipeline.Td4MatchesRunBarcode | td4/reduction.py:108-135 | on a simplicial complex, the sorted barcode of the reduced boundary matrix is that of `run_barcode`, sorted |
| Td4Pipeline.ReducedTd4Barcode | td4/reduction.py:90-102 | the builder's result on the reduced boundary matrix is the sorted column-writer barcode of it |
| Td4Pipeline.SparseCols | td4/boundary_matrix.py:10-11 | `cols()` of the boundary matrix holds exactly the columns with an entry, all within [0, n) |
| Td4Pipeline.Td4Main | td4/reduction.py:108-135 | reading, building, reducing with `cols()` visited in the order given, and building the barcode returns the builder's result on ReduceInOrder of the boundary matrix; when that order is ascending it is the sorted barcode of the reduced boundary matrix of the filtration read |
| Td4Pipeline.Td4MainSorted | td4/reduction.py:108-135 | with `cols()` visited in sorted order, the pipeline returns the sorted barcode of the reduced boundary matrix, for any slot orders |
| Td4ReadFiltration.KeptPyAll | td4/read_filtration.py:22-39 | when every line parses, the records are those of the lines, in file order |
| Td4ReadFiltration.PyParseExact | td4/read_filtration.py:34-39 | a line with exactly dim+1 ascending vertex tokens parses to the record with those vertices |
| Td4Pipeline.TriangleRead | td4/read_filtration.py:18-43 | reading the ten-line triangle file gives its ten records in file order |
| Td4Pipeline.TriangleBoundary | td4/boundary_matrix.py:50-59 | the boundary matrix of that filtration is the triangle matrix |
| Td4Pipeline.TriangleCols | td4/boundary_matrix.py:10-11 | its `cols()` is {6, 7, 8, 9} |
| Td4Pipeline.AfterSevenBuild | td4/reduction.py:90-102 | on the matrix left by the order 8, 9, 6, 7, the builder reports columns 6-9 as finite tuples and 0, 3, 4, 5 as infinite ones: eight tuples, among them (0, 0.0, 3.0) |
| Td4Pipeline.TriangleFile | td4/reduction.py:115-120 | from the triangle file, `__main__` reads that filtration and builds that matrix, and 8, 9, 6, 7 enumerates its `cols()` |
| Td4Pipeline.TriangleOutOfOrder | td4/reduction.py:108-135 | on the triangle file with `cols()` visited in the order 8, 9, 6, 7, `__main__` returns eight tuples, among them (0, 0.0, 3.0), which is not in the sorted barcode of the reduced boundary matrix; so the result is not that barcode |
| Td4Pipeline.TriangleInOrder | td4/reduction.py:108-135 | on a file that reads as the triangle filtration, with `cols()` visited in ascending order, `__main__` returns the sorted barcode of the reduced boundary matrix: seven tuples, (0, 0.0, 1.0), (0, 0.0, 2.0), (1, 3.0, 4.0) and (0, 0.0, inf), without (0, 0.0, 3.0) |
| Td4Pipeline.InOrderBars | td4/reduction.py:90-102 | the builder on the triangle matrix reduced in the order 6, 7, 8, 9 gives exactly those seven tuples |
| Td4Pipeline.ReducedTuples | td4/reduction.py:90-102 | on the columns of the reduced triangle matrix (6, 7 and 9 nonzero with lows 2, 1 and 8), the builder gives seven tuples, exactly those listed |

## Left out

- Files, streams and printing are out. This covers `ifstream`/`ofstream`, the `sprintf` into a 100-byte buffer, precision settings, the "Done." messages, `print_text_barcode`, `SparseMatrix.print`, `print_dense_boundary_matrix`, the `sparse_to_dense` print in the td4 `__main__`, and the verbose dumps and `print` of the td4 reduction. Readers take already-tokenised lines, and writers return their intervals.
- Turning tokens into numbers is out (`stream >>`, `int()`, `float()` and their exceptions). A line is already a value and a list of integers.
- Filtration values are `real`, not `float`. They are only compared and copied, so rounding and NaN are out.
- An unread vertex token in the C++ reader leaves `f` indeterminate. The model takes that value as the parameter `unread`.
- `VecHash` and the hash tables are out. The `unordered_map` and `std::map` indexes are Dafny maps keyed by the ascending vertex list.
- `main` of `main.cpp` and of `barcode.cpp` are out: they only parse arguments and call the steps. `Pipeline.RunBarcode` models `run_barcode`.
- The `main.cpp` copies of `boundary_matrix_sparse_fast`, `symdiff` and `gaussian_elim_sparse` have the same text as the copies in `boundary_matrix.cpp` and `gaussian_elimination.cpp`. The same members model them.
- `topological_persistence/python/gaussian_elimination.py` is not part of this model: it never returns a matrix. `python/barcode.py` is modelled from a given reduced matrix.
- `dense_addMod2` and `dense_gaussian_reduction` of `td4/reduction.py` are out. The first returns nothing, and the second selects a row where it means a column.
- `tqdm`, `td4/experiments.py`, the viewers, the plots and `clustering_with_mode_seeking` are out.
- Td4Pipeline.Td4Main: the order in which CPython iterates the set `matrix.cols()` (hash-slot order) is not computed. It is a parameter, so the model does not capture which result CPython's order gives on a particular file. The result is proved to be the sorted barcode of the reduced boundary matrix only for the ascending order. For other orders, the model shows only one file on which the result differs: on the triangle file, the order 8, 9, 6, 7 gives eight tuples, and the sorted barcode has seven (`Td4Pipeline.TriangleOutOfOrder`, `Td4Pipeline.TriangleInOrder`, see "## Findings").
- Td4Reduction.SparseGaussianReduction: the order in which `value_that_is_lower` visits a slot of `low_to_col` is a parameter `ord`. It is a function of the entries, the column and the slot, and it is constrained only to enumerate the slot. Every contract holds for every such order, but CPython's actual slot order is not computed.
- In `sparse_barcode_builder`, the loops visit the sets in an unspecified order (`:|`). The sorted result is proved the same for every order.
- Td4ReadFiltration.PyLess: `list(s.vert)` is modelled as the ascending list of the vertices. CPython iterates a set of small integers in hash-slot order, which is not always ascending (for example `{1, 8}`).
- Td4ReadFiltration.SortPy: sorts by the key of PyLess, so where CPython lists a vertex set out of ascending order (`list({1, 8})` is `[8, 1]`), the order of records with equal value can differ from the model's.
- Td4ReadFiltration.ReadFiltration: returns SortPy of the kept records, so its output order carries the same caveat. The records kept and the permutation do not depend on it.
- C++ fixed-width integers are out: `int` and `size_t` are unbounded integers in the model. Overflow is not modelled, for example `dim + 1` at topological_persistence/cpp/src/boundary_matrix.cpp:20, or `i++` in `while (i <= s.dim)` at topological_persistence/cpp/src/main.cpp:48 when `dim` is `INT_MAX`. Indices and dimensions of real filtrations stay far below these bounds.
- GaussianElimination.GaussianElimDense requires every byte to be 0 or 1. The builders only write 0 and 1, and for other bytes `^` would not be GF(2) addition of the sparse views.
- BoundaryMatrix.BoundaryMatrixDenseFast requires a nonempty vertex set when dim > 0. For an empty set, `face.reserve(v.size() - 1)` would wrap around to SIZE_MAX and throw. Neither reader produces such a record.
- Td4Reduction.SparseGaussianReduction requires the matrix to be strictly upper triangular, with rows and columns in [0, m), as the builder's matrix is. On other input, Python's `low_to_col[-1]` aliases the last slot with rows that do not exist.
- Td4Barcode.SparseBarcodeBuilder requires a strictly upper triangular matrix, for the same reason. A zero column in `cols()` would index `filtration[-1]`.
- Td4BoundaryMatrix.SparseToDense requires every pair to be in [0, m). A larger index raises, and a negative one writes from the end of the list.
- Td4BoundaryMatrix.SparseMatrix.Len has no contract beyond its body, which is the declared size m. The fact that `len` is m, not the number of pairs, is carried by the contracts of SymmetricDifference and of the builders.
- Td4Pipeline.Td4AgreesWithColumnWriter requires the matrix to be graded. td4 writes the dimension of the low row and C++ writes the column's dimension minus one, and these agree only on graded matrices. Boundary matrices and their reductions are graded (`GaussianElimination.ReduceGraded`).
- Td4Barcode.IntervalLe does not distinguish a float `inf` death read from a file from Python's `math.inf`. A finite death and an infinite one are different constructors.

## Findings

| source | as written | input that shows it | evidently intended | confidence | as-written member | corrected member |
|---|---|---|---|---|---|---|
| topological_persistence/cpp/src/barcode.cpp:63-67 | the entries writer infers n as one more than the largest index in any entry, and writes nothing for an empty list | a filtration whose last simplex is a vertex that is no face of anything, e.g. vertices 0, 1, the edge 01, then vertex 3: the entries are (0,2), (1,2), so n is 3 and the infinite interval of the trailing vertex is lost; a lone vertex gives no entries and no intervals | n is the number of simplices, passed in, so every trailing simplex is written | not executed | Barcode.EntriesDropTrailingSimplex | Barcode.SizedColumnsAgree |
| td4/reduction.py:50 | `for j in tqdm(matrix.cols())` visits the columns in the iteration order of a Python set, which is not ascending. A column is then reduced against earlier columns that are not yet reduced, and this can leave two columns with the same low | the file with the six vertex lines `0.0 0 k` for k = 0 to 5, then `1.0 1 1 2`, `2.0 1 0 2`, `3.0 1 0 1` and `4.0 2 0 1 2`. `cols()` is {6, 7, 8, 9}, which CPython visits as 8, 9, 6, 7 (hash slot j mod 8). Columns 7 and 8 end with the same low 1, and the builder returns eight tuples, among them (0, 0.0, 3.0). The sorted barcode of the reduced boundary matrix has seven tuples, (0, 0.0, 1.0), (0, 0.0, 2.0), (1, 3.0, 4.0) and four (0, 0.0, inf), so that tuple is spurious | `for j in sorted(matrix.cols())`, so each column is reduced against columns already reduced | not executed | Td4Pipeline.TriangleOutOfOrder | Td4Pipeline.Td4MainSorted |
| topological_persistence/python/barcode.py:20-22 | `(i, None)` is emitted for every index that is no column's low, including indices whose own column is nonzero | the reduced matrix of one edge, [[0,0,1],[0,0,1],[0,0,0]]: column 2 is nonzero with low 1, yet `(2, None)` is emitted beside the pair (1, 2) | emit `(i, None)` only for zero columns that are no column's low, as the C++ writers do | not executed | PythonBarcode.SpuriousInfinite | PythonBarcode.CorrectedBarsMatchBarcode |
