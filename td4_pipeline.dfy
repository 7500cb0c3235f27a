/** The `__main__` block of td4/reduction.py: read the filtration, build the
    set-based boundary matrix, reduce it, build the sorted barcode. The file
    contents are a parameter and the barcode is returned instead of
    printed. Where the Python tuples and the C++ lines are the same is
    proved here too. */
module Td4Pipeline {
  import opened Ordered
  import opened Wrappers
  import opened Filtration
  import opened GaussianElimination
  import opened BoundaryMatrix
  import opened Barcode
  import opened Pipeline
  import opened Td4ReadFiltration
  import opened Td4BoundaryMatrix
  import opened Td4Reduction
  import opened Td4Barcode

  /** The columns of `build_sparse_boundary_matrix` are those of the C++
      subset-scan builder. */
  lemma BoundaryPairsColumns(F: seq<Simplex>)
    ensures ColumnsOf(BoundaryPairs(F), |F|) == BoundaryColumns(F)
  {
    var A, B := ColumnsOf(BoundaryPairs(F), |F|), BoundaryColumns(F);
    forall j | 0 <= j < |F| ensures A[j] == B[j] {
      AscendingUnique(A[j], B[j]);
    }
  }

  /** The boundary matrix is graded by dimension: every facet sits one
      dimension below its coface. */
  lemma BoundaryColumnsGraded(F: seq<Simplex>)
    ensures Graded(BoundaryColumns(F), Dims(F))
  {
    var C := BoundaryColumns(F);
    forall j, x | 0 <= j < |C| && x in C[j] && 0 <= x < |F| ensures Dims(F)[x] + 1 == Dims(F)[j] {
      assert Entry(F, x, j);
    }
  }

  /** On graded columns the tuple of a nonzero column is the C++ finite
      interval: the low's dimension is the column's minus one. */
  lemma {:induction false} FinitesAgree(C: seq<seq<int>>, F: seq<Simplex>, k: nat)
    requires Fits(C, F) && Graded(C, Dims(F)) && k <= |C|
    ensures Writable(C, Dims(F), Vals(F))
    ensures Pick(Table(C, F), Below(Nonzero(C), k)) == Finites(C, Dims(F), Vals(F), k)
  {
    if k > 0 {
      FinitesAgree(C, F, k - 1);
      if C[k - 1] != [] {
        var T := Table(C, F);
        var x := Last(C[k - 1]);
        assert x in C[k - 1] && 0 <= x < |C|;
        assert Dims(F)[x] + 1 == Dims(F)[k - 1];
        assert F[x].dim == F[k - 1].dim - 1;
        assert T[k - 1] == FiniteOf(C, Dims(F), Vals(F), k - 1);
        PickSnoc(T, Below(Nonzero(C), k - 1), k - 1);
      }
    }
  }

  /** The tuple of an index left in `sides` is the C++ infinite interval. */
  lemma {:induction false} InfinitesAgree(C: seq<seq<int>>, F: seq<Simplex>, k: nat)
    requires Fits(C, F) && k <= |C|
    ensures Writable(C, Dims(F), Vals(F))
    ensures Pick(Table(C, F), Below(Sides(C), k)) == Infinites(C, Dims(F), Vals(F), k)
  {
    if k > 0 {
      InfinitesAgree(C, F, k - 1);
      if Unclaimed(C, k - 1) {
        var T := Table(C, F);
        assert T[k - 1] == InfiniteOf(Dims(F), Vals(F), k - 1);
        PickSnoc(T, Below(Sides(C), k - 1), k - 1);
      }
    }
  }

  /** On graded columns `sparse_barcode_builder` returns the intervals of
      the C++ column writer, sorted. */
  lemma Td4AgreesWithColumnWriter(C: seq<seq<int>>, F: seq<Simplex>)
    requires Fits(C, F) && Graded(C, Dims(F))
    ensures Writable(C, Dims(F), Vals(F))
    ensures Td4BarcodeOf(C, F) == Sort(BarcodeOf(C, Dims(F), Vals(F)), IntervalLe)
  {
    FinitesAgree(C, F, |C|);
    InfinitesAgree(C, F, |C|);
  }

  /** The filtration td4/read_filtration.py returns for a file. */
  function Td4ReadResult(file: Option<seq<Line>>): seq<Simplex> {
    SortPy(KeptPy(LinesOf(file)))
  }

  /** The sorted intervals of the reduced subset-scan boundary matrix. */
  function SortedColumnBarcode(F: seq<Simplex>): (bars: seq<Interval>)
    ensures SortedBy(bars, IntervalLe)
  {
    BoundaryColumnsWellFormed(F);
    ReduceProperties(BoundaryColumns(F));
    WellFormedWritable(Reduce(BoundaryColumns(F)), Dims(F), Vals(F));
    IntervalLeOrder();
    Sort(BarcodeOf(Reduce(BoundaryColumns(F)), Dims(F), Vals(F)), IntervalLe)
  }

  /** On a filtration of a simplicial complex the Python pipeline returns the
      sorted barcode `run_barcode` writes for the same filtration. */
  lemma Td4MatchesRunBarcode(F: seq<Simplex>)
    requires Complex(F)
    ensures SortedColumnBarcode(F) == Sort(PipelineBarcode(F), IntervalLe)
  {
    PipelineOnComplex(F);
  }

  /** The builder's barcode of the reduced boundary matrix is its sorted
      barcode. */
  lemma ReducedTd4Barcode(F: seq<Simplex>)
    requires Fits(Reduce(BoundaryColumns(F)), F)
    ensures Td4BarcodeOf(Reduce(BoundaryColumns(F)), F) == SortedColumnBarcode(F)
  {
    BoundaryColumnsWellFormed(F);
    BoundaryColumnsGraded(F);
    ReduceGraded(BoundaryColumns(F), Dims(F));
    Td4AgreesWithColumnWriter(Reduce(BoundaryColumns(F)), F);
  }

  /** The columns `matrix.cols()` holds for the filtration F. */
  function SparseCols(F: seq<Simplex>): (cols: set<int>)
    ensures forall j :: j in cols <==> exists i :: (i, j) in BoundaryPairs(F)
    ensures forall j :: j in cols ==> 0 <= j < |F|
  {
    set p | p in BoundaryPairs(F) :: p.1
  }

  /** The `__main__` block as written: read, `build_sparse_boundary_matrix`,
      `sparse_gaussian_reduction`, `sparse_barcode_builder`. The reduction
      visits `matrix.cols()` in the order `order` in which Python iterates
      that set, and the slots of `low_to_col` in the orders `ord`. The
      result is the builder's barcode of the matrix reduced in that order;
      when the order is ascending it is the sorted barcode of the reduced
      boundary matrix, and otherwise it need not be (OutOfOrderVisit). */
  method Td4Main(file: Option<seq<Line>>, order: seq<int>, ord: SetOrder) returns (bars: seq<Interval>)
    requires Enumerates(ord)
    requires forall j :: j in order <==> j in SparseCols(Td4ReadResult(file))
    ensures StrictlyUpper(BoundaryPairs(Td4ReadResult(file)), |Td4ReadResult(file)|)
    ensures InRange(order, |Td4ReadResult(file)|)
    ensures var F := Td4ReadResult(file);
      Fits(ColumnsOf(ReduceInOrder(BoundaryPairs(F), |F|, order, ord), |F|), F) &&
      bars == Td4BarcodeOf(ColumnsOf(ReduceInOrder(BoundaryPairs(F), |F|, order, ord), |F|), F)
    ensures Ascending(order) ==> bars == SortedColumnBarcode(Td4ReadResult(file))
  {
    var F := Td4ReadFiltration.ReadFiltration(file);
    var M := BuildSparseBoundaryMatrix(F);
    BoundaryPairsStrictlyUpper(F);
    assert M.Cols() == SparseCols(F);
    var R := SparseGaussianReduction(M, order, ord);
    bars := SparseBarcodeBuilder(R, F);
    if Ascending(order) {
      BoundaryPairsColumns(F);
      ReducedTd4Barcode(F);
    }
  }

  /** The `__main__` block with `for j in sorted(matrix.cols())` on line 50:
      the reduction is `Reduce`, whatever the orders `ord` of the slots, and
      the result is the sorted barcode of the reduced boundary matrix. */
  method Td4MainSorted(file: Option<seq<Line>>, ord: SetOrder) returns (bars: seq<Interval>)
    requires Enumerates(ord)
    ensures bars == SortedColumnBarcode(Td4ReadResult(file))
  {
    var F := Td4ReadFiltration.ReadFiltration(file);
    var M := BuildSparseBoundaryMatrix(F);
    BoundaryPairsStrictlyUpper(F);
    ColsInRange(M);
    var order := Below(M.Cols(), M.m);
    var R := SparseGaussianReduction(M, order, ord);
    bars := SparseBarcodeBuilder(R, F);
    BoundaryPairsColumns(F);
    ReducedTd4Barcode(F);
  }

  // ---------------------------------------------------------------------
  // The file behind TriangleMatrix.

  /** Six vertices at 0.0, the edges {1, 2}, {0, 2}, {0, 1} at 1.0, 2.0 and
      3.0, and the triangle {0, 1, 2} at 4.0. */
  function TriangleLines(): seq<Line> {
    [ Fields(0.0, [0, 0]), Fields(0.0, [0, 1]), Fields(0.0, [0, 2]),
      Fields(0.0, [0, 3]), Fields(0.0, [0, 4]), Fields(0.0, [0, 5]),
      Fields(1.0, [1, 1, 2]), Fields(2.0, [1, 0, 2]), Fields(3.0, [1, 0, 1]),
      Fields(4.0, [2, 0, 1, 2]) ]
  }

  /** The records of TriangleLines, in file order. */
  function TriangleFiltration(): seq<Simplex> {
    [ Simplex(0, 0.0, [0]), Simplex(0, 0.0, [1]), Simplex(0, 0.0, [2]),
      Simplex(0, 0.0, [3]), Simplex(0, 0.0, [4]), Simplex(0, 0.0, [5]),
      Simplex(1, 1.0, [1, 2]), Simplex(1, 2.0, [0, 2]), Simplex(1, 3.0, [0, 1]),
      Simplex(2, 4.0, [0, 1, 2]) ]
  }

  /** A vertex line `val 0 v` parses to the vertex v. */
  lemma VertexLineParses(val: real, v: int)
    ensures PyParse(Fields(val, [0, v])) == Some(Simplex(0, val, [v]))
  {
    PyParseExact(Fields(val, [0, v]));
  }

  /** An edge line `val 1 a b` with a < b parses to the edge [a, b]. */
  lemma EdgeLineParses(val: real, a: int, b: int)
    requires a < b
    ensures PyParse(Fields(val, [1, a, b])) == Some(Simplex(1, val, [a, b]))
  {
    PyParseExact(Fields(val, [1, a, b]));
  }

  /** A triangle line `val 2 a b c` with a < b < c parses to [a, b, c]. */
  lemma TriangleLineParses(val: real, a: int, b: int, c: int)
    requires a < b < c
    ensures PyParse(Fields(val, [2, a, b, c])) == Some(Simplex(2, val, [a, b, c]))
  {
    PyParseExact(Fields(val, [2, a, b, c]));
  }

  /** The vertex lines of TriangleLines parse to the vertex records. */
  lemma TriangleVerticesParse(k: int)
    requires 0 <= k < 6
    ensures PyParse(TriangleLines()[k]) == Some(TriangleFiltration()[k])
  {
    VertexLineParses(0.0, k);
  }

  /** The other lines of TriangleLines parse to the records of the edges
      and of the triangle. */
  lemma TriangleFacesParse(k: int)
    requires 6 <= k < 10
    ensures PyParse(TriangleLines()[k]) == Some(TriangleFiltration()[k])
  {
    if k == 6 {
      EdgeLineParses(1.0, 1, 2);
    } else if k == 7 {
      EdgeLineParses(2.0, 0, 2);
    } else if k == 8 {
      EdgeLineParses(3.0, 0, 1);
    } else {
      TriangleLineParses(4.0, 0, 1, 2);
    }
  }

  /** Every line of TriangleLines parses to the record in the same place. */
  lemma TriangleLinesParse()
    ensures forall k :: 0 <= k < 10 ==> PyParse(TriangleLines()[k]) == Some(TriangleFiltration()[k])
  {
    forall k | 0 <= k < 10
      ensures PyParse(TriangleLines()[k]) == Some(TriangleFiltration()[k])
    {
      if k < 6 {
        TriangleVerticesParse(k);
      } else {
        TriangleFacesParse(k);
      }
    }
  }

  /** Every line of TriangleLines is kept, as the record in the same place. */
  lemma TriangleKept()
    ensures KeptPy(TriangleLines()) == TriangleFiltration()
  {
    TriangleLinesParse();
    KeptPyAll(TriangleLines(), TriangleFiltration());
  }

  /** TriangleFiltration is already in the order of the key
      `(val, vert, dim)`. */
  lemma TriangleSorted()
    ensures SortedBy(TriangleFiltration(), PyLe)
  {
    var F := TriangleFiltration();
    forall i, j | 0 <= i < j < 10 ensures PyLe(F[i], F[j]) {
      TriangleRecord(i);
      TriangleRecord(j);
      if j < 6 {
        assert !LexLess([j], [i]);
      }
    }
  }

  /** The value of record k of TriangleFiltration, and the vertex of a
      vertex record. */
  lemma TriangleRecord(k: int)
    requires 0 <= k < 10
    ensures TriangleFiltration()[k].val == if k < 6 then 0.0 else (k - 5) as real
    ensures k < 6 ==> TriangleFiltration()[k].vert == [k]
  {
  }

  /** Reading TriangleLines gives TriangleFiltration. */
  lemma TriangleRead()
    ensures Td4ReadResult(Some(TriangleLines())) == TriangleFiltration()
  {
    TriangleKept();
    TriangleSorted();
    PyLeOrder();
    SortedUnique(SortPy(TriangleFiltration()), TriangleFiltration(), PyLe);
  }

  /** The faces TriangleFiltration records: a vertex i below an edge j
      lies on it, and every edge lies on the triangle. */
  lemma TriangleEntries(i: int, j: int)
    ensures Entry(TriangleFiltration(), i, j) <==> (i, j) in TriangleMatrix()
  {
    var F := TriangleFiltration();
    if 0 <= i < j < 10 && F[i].dim + 1 == F[j].dim {
      assert F[i].vert[0] in F[i].vert;
      if j < 9 {
        assert i < 6 && F[i].vert == [i];
      } else {
        assert 6 <= i < 9;
      }
    }
  }

  /** The boundary matrix `build_sparse_boundary_matrix` builds for
      TriangleFiltration is TriangleMatrix. */
  lemma TriangleBoundary()
    ensures BoundaryPairs(TriangleFiltration()) == TriangleMatrix()
  {
    forall i, j ensures (i, j) in BoundaryPairs(TriangleFiltration()) <==> (i, j) in TriangleMatrix() {
      TriangleEntries(i, j);
    }
  }

  /** The rows of column q of TriangleAfterSeven. */
  function AfterSevenRows(q: int): seq<int> {
    if q == 6 then [1, 2] else if q == 7 || q == 8 then [0, 1] else if q == 9 then [6, 7, 8] else []
  }

  /** The columns of TriangleAfterSeven: 0-5 are zero. */
  lemma AfterSevenColumn(R: set<(int, int)>, q: int)
    requires R == TriangleAfterSeven() && 0 <= q < 10
    ensures ColumnsOf(R, 10)[q] == AfterSevenRows(q)
  {
    RowListIs(R, q, 10, AfterSevenRows(q));
  }

  /** All the columns of TriangleAfterSeven. */
  lemma AfterSevenColumns(R: set<(int, int)>)
    requires R == TriangleAfterSeven()
    ensures forall q :: 0 <= q < 10 ==> ColumnsOf(R, 10)[q] == AfterSevenRows(q)
  {
    forall q | 0 <= q < 10 ensures ColumnsOf(R, 10)[q] == AfterSevenRows(q) {
      AfterSevenColumn(R, q);
    }
  }

  /** Four distinct integers make a set of four. */
  lemma CardFour(a: int, b: int, c: int, d: int)
    requires a < b < c < d
    ensures |{a, b, c, d}| == 4
  {
    assert {a, b, c, d} == {a, b, c} + {d};
    assert {a, b, c} == {a, b} + {c};
  }

  /** The builder on columns with the rows of TriangleAfterSeven. */
  lemma AfterSevenTuples(C: seq<seq<int>>, F: seq<Simplex>)
    requires |C| == 10 && F == TriangleFiltration()
    requires forall q :: 0 <= q < 10 ==> C[q] == AfterSevenRows(q)
    ensures Fits(C, F)
    ensures Nonzero(C) == {6, 7, 8, 9} && Sides(C) == {0, 3, 4, 5}
    ensures |Td4BarcodeOf(C, F)| == 8 && Interval(0, 0.0, Finite(3.0)) in Td4BarcodeOf(C, F)
  {
    assert C[6] == [1, 2] && C[7] == [0, 1] && C[8] == [0, 1] && C[9] == [6, 7, 8];
    forall x ensures x in Lows(C) <==> x == 1 || x == 2 || x == 8 {
      LowsBelowMembers(C, 10, x);
      if x == 1 {
        assert C[7] != [] && Last(C[7]) == x;
      } else if x == 2 {
        assert C[6] != [] && Last(C[6]) == x;
      } else if x == 8 {
        assert C[9] != [] && Last(C[9]) == x;
      }
    }
    assert Nonzero(C) == {6, 7, 8, 9};
    assert Sides(C) == {0, 3, 4, 5};
    Td4BarcodeMembers(C, F);
    CardFour(6, 7, 8, 9);
    CardFour(0, 3, 4, 5);
    assert FiniteBar(C, F, 8) == Interval(0, 0.0, Finite(3.0));
  }

  /** The builder on TriangleAfterSeven. */
  lemma AfterSevenBuild(R: set<(int, int)>, F: seq<Simplex>)
    requires R == TriangleAfterSeven() && F == TriangleFiltration()
    ensures var C := ColumnsOf(R, 10);
      && Fits(C, F) && Nonzero(C) == {6, 7, 8, 9} && Sides(C) == {0, 3, 4, 5}
      && |Td4BarcodeOf(C, F)| == 8 && Interval(0, 0.0, Finite(3.0)) in Td4BarcodeOf(C, F)
  {
    AfterSevenColumns(R);
    AfterSevenTuples(ColumnsOf(R, 10), F);
  }

  /** The rows of column q of TriangleReduced. */
  function ReducedRows(q: int): seq<int> {
    if q == 6 then [1, 2] else if q == 7 then [0, 1] else if q == 9 then [6, 7, 8] else []
  }

  /** The columns of TriangleReduced: 0-5 and 8 are zero. */
  lemma ReducedColumn(R: set<(int, int)>, q: int)
    requires R == TriangleReduced() && 0 <= q < 10
    ensures ColumnsOf(R, 10)[q] == ReducedRows(q)
  {
    RowListIs(R, q, 10, ReducedRows(q));
  }

  /** All the columns of TriangleReduced. */
  lemma ReducedColumns(R: set<(int, int)>)
    requires R == TriangleReduced()
    ensures forall q :: 0 <= q < 10 ==> ColumnsOf(R, 10)[q] == ReducedRows(q)
  {
    forall q | 0 <= q < 10 ensures ColumnsOf(R, 10)[q] == ReducedRows(q) {
      ReducedColumn(R, q);
    }
  }

  /** The tuples of the sorted barcode of TriangleFiltration: a component
      born at 0.0 dies at 1.0 and one at 2.0, the loop born at 3.0 is
      filled at 4.0, and three components never die. */
  function TriangleBars(): set<Interval> {
    {Interval(0, 0.0, Finite(1.0)), Interval(0, 0.0, Finite(2.0)), Interval(1, 3.0, Finite(4.0)), Interval(0, 0.0, Inf)}
  }

  /** Columns with the rows of TriangleReduced: 6, 7 and 9 are nonzero with
      lows 2, 1 and 8, and 0, 3, 4 and 5 are left in `sides`. */
  lemma ReducedShape(C: seq<seq<int>>, F: seq<Simplex>)
    requires |C| == 10 && F == TriangleFiltration()
    requires forall q :: 0 <= q < 10 ==> C[q] == ReducedRows(q)
    ensures Fits(C, F)
    ensures Nonzero(C) == {6, 7, 9} && Sides(C) == {0, 3, 4, 5}
    ensures FiniteBar(C, F, 6) == Interval(0, 0.0, Finite(1.0))
    ensures FiniteBar(C, F, 7) == Interval(0, 0.0, Finite(2.0))
    ensures FiniteBar(C, F, 9) == Interval(1, 3.0, Finite(4.0))
  {
    assert C[6] == [1, 2] && C[7] == [0, 1] && C[8] == [] && C[9] == [6, 7, 8];
    forall x ensures x in Lows(C) <==> x == 1 || x == 2 || x == 8 {
      LowsBelowMembers(C, 10, x);
      if x == 1 {
        assert C[7] != [] && Last(C[7]) == x;
      } else if x == 2 {
        assert C[6] != [] && Last(C[6]) == x;
      } else if x == 8 {
        assert C[9] != [] && Last(C[9]) == x;
      }
    }
    assert Nonzero(C) == {6, 7, 9};
    assert Sides(C) == {0, 3, 4, 5};
  }

  /** Three nonzero columns and four indices in `sides` make seven tuples. */
  lemma ReducedCount(C: seq<seq<int>>, F: seq<Simplex>)
    requires Fits(C, F) && Nonzero(C) == {6, 7, 9} && Sides(C) == {0, 3, 4, 5}
    ensures |Td4BarcodeOf(C, F)| == 7
  {
    Td4BarcodeMembers(C, F);
    assert {6, 7, 9} == {6, 7} + {9};
    CardFour(0, 3, 4, 5);
  }

  /** The tuples of those columns are TriangleBars. */
  lemma ReducedMembers(C: seq<seq<int>>, F: seq<Simplex>)
    requires |C| == 10 && F == TriangleFiltration()
    requires Fits(C, F) && Nonzero(C) == {6, 7, 9} && Sides(C) == {0, 3, 4, 5}
    requires FiniteBar(C, F, 6) == Interval(0, 0.0, Finite(1.0))
    requires FiniteBar(C, F, 7) == Interval(0, 0.0, Finite(2.0))
    requires FiniteBar(C, F, 9) == Interval(1, 3.0, Finite(4.0))
    ensures forall t :: t in Td4BarcodeOf(C, F) <==> t in TriangleBars()
  {
    ReducedComplete(C, F);
    ReducedSound(C, F);
  }

  /** Every tuple of TriangleBars is one of those columns. */
  lemma ReducedComplete(C: seq<seq<int>>, F: seq<Simplex>)
    requires |C| == 10 && F == TriangleFiltration()
    requires Fits(C, F) && Nonzero(C) == {6, 7, 9} && Sides(C) == {0, 3, 4, 5}
    requires FiniteBar(C, F, 6) == Interval(0, 0.0, Finite(1.0))
    requires FiniteBar(C, F, 7) == Interval(0, 0.0, Finite(2.0))
    requires FiniteBar(C, F, 9) == Interval(1, 3.0, Finite(4.0))
    ensures forall t :: t in TriangleBars() ==> t in Td4BarcodeOf(C, F)
  {
    Td4BarcodeMembers(C, F);
    assert 0 in Sides(C) && 6 in Nonzero(C) && 7 in Nonzero(C) && 9 in Nonzero(C);
    TriangleVertex(F, 0);
    assert InfiniteBar(F, 0) in Td4BarcodeOf(C, F);
    assert FiniteBar(C, F, 6) in Td4BarcodeOf(C, F) && FiniteBar(C, F, 7) in Td4BarcodeOf(C, F);
    assert FiniteBar(C, F, 9) in Td4BarcodeOf(C, F);
  }

  /** Every tuple of those columns is in TriangleBars. */
  lemma ReducedSound(C: seq<seq<int>>, F: seq<Simplex>)
    requires |C| == 10 && F == TriangleFiltration()
    requires Fits(C, F) && Nonzero(C) == {6, 7, 9} && Sides(C) == {0, 3, 4, 5}
    requires FiniteBar(C, F, 6) == Interval(0, 0.0, Finite(1.0))
    requires FiniteBar(C, F, 7) == Interval(0, 0.0, Finite(2.0))
    requires FiniteBar(C, F, 9) == Interval(1, 3.0, Finite(4.0))
    ensures forall t :: t in Td4BarcodeOf(C, F) ==> t in TriangleBars()
  {
    Td4BarcodeMembers(C, F);
    forall j | 0 <= j < |C| && C[j] != [] ensures FiniteBar(C, F, j) in TriangleBars() {
      ReducedFinite(C, F, j);
    }
    forall i | 0 <= i < |C| && Unclaimed(C, i) ensures InfiniteBar(F, i) in TriangleBars() {
      ReducedInfinite(C, F, i);
    }
  }


  /** The tuple of a nonzero column of those columns is in TriangleBars. */
  lemma ReducedFinite(C: seq<seq<int>>, F: seq<Simplex>, j: int)
    requires Fits(C, F) && Nonzero(C) == {6, 7, 9}
    requires FiniteBar(C, F, 6) == Interval(0, 0.0, Finite(1.0))
    requires FiniteBar(C, F, 7) == Interval(0, 0.0, Finite(2.0))
    requires FiniteBar(C, F, 9) == Interval(1, 3.0, Finite(4.0))
    requires 0 <= j < |C| && C[j] != []
    ensures FiniteBar(C, F, j) in TriangleBars()
  {
    assert j in Nonzero(C);
  }

  /** The tuple of an index of those columns left in `sides` is in
      TriangleBars. */
  lemma ReducedInfinite(C: seq<seq<int>>, F: seq<Simplex>, i: int)
    requires F == TriangleFiltration() && Sides(C) == {0, 3, 4, 5}
    requires 0 <= i < |C| && Unclaimed(C, i)
    ensures 0 <= i < |F| && InfiniteBar(F, i) in TriangleBars()
  {
    assert i in Sides(C);
  }

  /** The first six records of TriangleFiltration are vertices at 0.0. */
  lemma TriangleVertex(F: seq<Simplex>, i: int)
    requires F == TriangleFiltration() && 0 <= i < 6
    ensures InfiniteBar(F, i) == Interval(0, 0.0, Inf)
  {
  }

  /** The builder on columns with the rows of TriangleReduced: seven
      tuples, those of TriangleBars. */
  lemma ReducedTuples(C: seq<seq<int>>, F: seq<Simplex>)
    requires |C| == 10 && F == TriangleFiltration()
    requires forall q :: 0 <= q < 10 ==> C[q] == ReducedRows(q)
    ensures Fits(C, F) && |Td4BarcodeOf(C, F)| == 7
    ensures forall t :: t in Td4BarcodeOf(C, F) <==> t in TriangleBars()
  {
    ReducedShape(C, F);
    ReducedCount(C, F);
    ReducedMembers(C, F);
  }

  /** (0, 0.0, 3.0) is none of the tuples of TriangleBars. */
  lemma SpuriousNotInTriangleBars()
    ensures Interval(0, 0.0, Finite(3.0)) !in TriangleBars()
  {
  }

  /** The order 6, 7, 8, 9 is ascending. */
  lemma InOrderAscending()
    ensures Ascending([6, 7, 8, 9])
  {
  }

  /** The builder on TriangleReduced. */
  lemma ReducedBuild(R: set<(int, int)>, F: seq<Simplex>)
    requires R == TriangleReduced() && F == TriangleFiltration()
    ensures var C := ColumnsOf(R, 10);
      && Fits(C, F) && |Td4BarcodeOf(C, F)| == 7
      && forall t :: t in Td4BarcodeOf(C, F) <==> t in TriangleBars()
  {
    ReducedColumns(R);
    ReducedTuples(ColumnsOf(R, 10), F);
  }
  /** The builder's tuples of TriangleFiltration's boundary matrix reduced
      in the order 6, 7, 8, 9 are seven, those of TriangleBars, without
      (0, 0.0, 3.0). */
  lemma InOrderBars(bars: seq<Interval>, F: seq<Simplex>, ord: SetOrder)
    requires Enumerates(ord) && F == TriangleFiltration()
    requires StrictlyUpper(BoundaryPairs(F), |F|) && InRange([6, 7, 8, 9], |F|)
    requires var R := ReduceInOrder(BoundaryPairs(F), |F|, [6, 7, 8, 9], ord);
      Fits(ColumnsOf(R, |F|), F) && bars == Td4BarcodeOf(ColumnsOf(R, |F|), F)
    ensures |bars| == 7 && forall t :: t in bars <==> t in TriangleBars()
    ensures Interval(0, 0.0, Finite(3.0)) !in bars
  {
    TriangleBoundary();
    InOrderResult(ord);
    ReducedBuild(ReduceInOrder(TriangleMatrix(), 10, [6, 7, 8, 9], ord), F);
    SpuriousNotInTriangleBars();
  }



  /** The columns of TriangleMatrix with an entry are 6-9. */
  lemma TriangleCols()
    ensures SparseCols(TriangleFiltration()) == {6, 7, 8, 9}
    ensures forall j :: j in [8, 9, 6, 7] <==> j in SparseCols(TriangleFiltration())
    ensures forall j :: j in [6, 7, 8, 9] <==> j in SparseCols(TriangleFiltration())
  {
    TriangleBoundary();
    var F := TriangleFiltration();
    assert (1, 6) in BoundaryPairs(F) && (0, 7) in BoundaryPairs(F);
    assert (0, 8) in BoundaryPairs(F) && (6, 9) in BoundaryPairs(F);
  }

  /** What the pipeline reads and builds from TriangleLines, and an order
      that enumerates its `cols()`. */
  lemma TriangleFile()
    ensures Td4ReadResult(Some(TriangleLines())) == TriangleFiltration()
    ensures BoundaryPairs(Td4ReadResult(Some(TriangleLines()))) == TriangleMatrix()
    ensures forall j :: j in [8, 9, 6, 7] <==> j in SparseCols(Td4ReadResult(Some(TriangleLines())))
  {
    TriangleRead();
    TriangleBuilt(Td4ReadResult(Some(TriangleLines())));
  }

  /** The boundary matrix and `cols()` of TriangleFiltration. */
  lemma TriangleBuilt(F: seq<Simplex>)
    requires F == TriangleFiltration()
    ensures BoundaryPairs(F) == TriangleMatrix()
    ensures forall j :: j in [8, 9, 6, 7] <==> j in SparseCols(F)
  {
    TriangleBoundary();
    TriangleCols();
  }

  /** The boundary matrix of TriangleFiltration, and `cols()` in ascending
      order. */
  lemma TriangleBuiltInOrder(F: seq<Simplex>)
    requires F == TriangleFiltration()
    ensures BoundaryPairs(F) == TriangleMatrix()
    ensures forall j :: j in [6, 7, 8, 9] <==> j in SparseCols(F)
  {
    TriangleBoundary();
    TriangleCols();
  }

  /** The `__main__` block as written on the file TriangleLines, with
      `matrix.cols()` visited in CPython's order 8, 9, 6, 7: whatever the
      orders of the slots, it returns eight tuples, among them the spurious
      (0, 0.0, 3.0). Four finite tuples and four infinite ones account for
      2 * 4 + 4 = 12 of the ten indices, where the barcode of a reduced
      matrix accounts for each index once (BarcodeCount). The sorted barcode
      of the reduced boundary matrix has seven tuples and not that one
      (TriangleInOrder). */
  method TriangleOutOfOrder(ord: SetOrder) returns (bars: seq<Interval>)
    requires Enumerates(ord)
    ensures |bars| == 8 && Interval(0, 0.0, Finite(3.0)) in bars
    ensures Interval(0, 0.0, Finite(3.0)) !in SortedColumnBarcode(Td4ReadResult(Some(TriangleLines())))
    ensures bars != SortedColumnBarcode(Td4ReadResult(Some(TriangleLines())))
  {
    TriangleFile();
    bars := Td4Main(Some(TriangleLines()), [8, 9, 6, 7], ord);
    OutOfOrderResult(ord);
    AfterSevenBuild(ReduceInOrder(TriangleMatrix(), 10, [8, 9, 6, 7], ord), TriangleFiltration());
    var sorted := TriangleInOrder(Some(TriangleLines()), ord);
  }

  /** The `__main__` block on a file that reads as TriangleFiltration, such
      as TriangleLines, with `matrix.cols()` visited in ascending order,
      whatever the orders of the slots: the sorted barcode of the reduced
      boundary matrix, whose seven tuples are those of TriangleBars, without
      (0, 0.0, 3.0). */
  method TriangleInOrder(file: Option<seq<Line>>, ord: SetOrder) returns (bars: seq<Interval>)
    requires Enumerates(ord) && Td4ReadResult(file) == TriangleFiltration()
    ensures bars == SortedColumnBarcode(Td4ReadResult(file))
    ensures |bars| == 7 && forall t :: t in bars <==> t in TriangleBars()
    ensures Interval(0, 0.0, Finite(3.0)) !in bars
  {
    InOrderAscending();
    TriangleBuiltInOrder(Td4ReadResult(file));
    bars := Td4Main(file, [6, 7, 8, 9], ord);
    InOrderBars(bars, Td4ReadResult(file), ord);
  }

}
