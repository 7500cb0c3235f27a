/** `run_barcode` of main.cpp: read the filtration, copy out dimensions and
    values, build the fast sparse boundary matrix, reduce it, write the
    column barcode. The file contents are a parameter and the barcode is
    returned instead of written. */
module Pipeline {
  import opened Ordered
  import opened Wrappers
  import opened Filtration
  import opened GaussianElimination
  import opened BoundaryMatrix
  import opened Barcode

  /** `dims[i] = F[i].dim` for every i. */
  function Dims(F: seq<Simplex>): (d: seq<int>)
    ensures |d| == |F|
  {
    seq(|F|, i requires 0 <= i < |F| => F[i].dim)
  }

  /** `vals[i] = F[i].val` for every i. */
  function Vals(F: seq<Simplex>): (v: seq<real>)
    ensures |v| == |F|
  {
    seq(|F|, i requires 0 <= i < |F| => F[i].val)
  }

  /** The filtration `read_filtration` returns for a file. */
  function ReadResult(file: Option<seq<Line>>, unread: int): seq<Simplex> {
    SortCpp(KeptCpp(LinesOf(file), unread))
  }

  /** Every record the reader returns has an ascending vertex list. */
  lemma ReadResultValid(file: Option<seq<Line>>, unread: int)
    ensures ValidVerts(ReadResult(file, unread))
  {
    var K := KeptCpp(LinesOf(file), unread);
    var F := ReadResult(file, unread);
    forall k | 0 <= k < |F| ensures Ascending(F[k].vert) {
      assert F[k] in multiset(F);
      assert F[k] in multiset(K);
    }
  }

  /** The reduced fast columns of F are writable with F's dimensions and
      values. */
  lemma PipelineWritable(F: seq<Simplex>)
    requires ValidVerts(F)
    ensures WellFormed(SparseFastColumns(F)) && |SparseFastColumns(F)| == |F|
    ensures WellFormed(Reduce(SparseFastColumns(F))) && |Reduce(SparseFastColumns(F))| == |F|
    ensures Writable(Reduce(SparseFastColumns(F)), Dims(F), Vals(F))
  {
    SparseFastColumnsProperties(F);
    ReduceProperties(SparseFastColumns(F));
    WellFormedWritable(Reduce(SparseFastColumns(F)), Dims(F), Vals(F));
  }

  /** The barcode `run_barcode` writes for the filtration F. */
  function PipelineBarcode(F: seq<Simplex>): seq<Interval>
    requires ValidVerts(F)
  {
    PipelineWritable(F);
    BarcodeOf(Reduce(SparseFastColumns(F)), Dims(F), Vals(F))
  }

  /** `run_barcode`: the four steps in order; the result code is 0. */
  method RunBarcode(file: Option<seq<Line>>, unread: int) returns (code: int, bars: seq<Interval>)
    ensures ValidVerts(ReadResult(file, unread))
    ensures code == 0
    ensures bars == PipelineBarcode(ReadResult(file, unread))
  {
    var F := ReadFiltration(file, unread);
    var n := |F|;
    var dims := seq(n, _ => 0);
    var vals := seq(n, _ => 0.0);
    for i := 0 to n
      invariant |dims| == n && |vals| == n
      invariant forall q :: 0 <= q < i ==> dims[q] == F[q].dim && vals[q] == F[q].val
    {
      dims := dims[i := F[i].dim];
      vals := vals[i := F[i].val];
    }
    assert dims == Dims(F) && vals == Vals(F);
    ReadResultValid(file, unread);
    var B := BoundaryMatrixSparseFast(F);
    var R := GaussianElimSparse(B);
    PipelineWritable(F);
    bars := WriteBarcodeColumns(R, dims, vals);
    code := 0;
  }

  /** A file that cannot be opened gives no intervals. */
  lemma PipelineUnopenable(unread: int)
    ensures ValidVerts(ReadResult(None, unread))
    ensures PipelineBarcode(ReadResult(None, unread)) == []
  {
    ReadResultValid(None, unread);
    assert ReadResult(None, unread) == [];
    PipelineWritable([]);
  }

  /** On a filtration of a simplicial complex the pipeline writes the
      barcode of the reduced subset-scan boundary matrix. */
  lemma PipelineOnComplex(F: seq<Simplex>)
    requires Complex(F)
    ensures Writable(Reduce(BoundaryColumns(F)), Dims(F), Vals(F))
    ensures PipelineBarcode(F) == BarcodeOf(Reduce(BoundaryColumns(F)), Dims(F), Vals(F))
  {
    SparseFastIsBoundary(F);
    PipelineWritable(F);
  }

  /** On a complex the reduced fast columns stay strictly above the
      diagonal: each row is a facet's index, and facets come first. */
  lemma ReducedAboveDiagonal(F: seq<Simplex>)
    requires Complex(F)
    ensures WellFormed(SparseFastColumns(F))
    ensures forall j, x :: 0 <= j < |Reduce(SparseFastColumns(F))| && x in Reduce(SparseFastColumns(F))[j] ==> x < j
  {
    var C := SparseFastColumns(F);
    SparseFastColumnsProperties(F);
    forall j, x | 0 <= j < |C| && x in C[j] ensures x < j {
      FastEntriesAreEntries(F, x, j);
    }
    ReduceKeepsUpperTriangular(C);
  }

  /** On a sorted filtration of a complex every finite interval is born no
      later than it dies: the reduced columns keep their rows above the
      diagonal, and values do not decrease along the filtration. */
  lemma PipelineBirthBeforeDeath(F: seq<Simplex>)
    requires Complex(F) && SortedBy(F, CppLe)
    ensures forall t :: t in PipelineBarcode(F) && t.death.Finite? ==> t.birth <= t.death.at
  {
    PipelineWritable(F);
    ReducedAboveDiagonal(F);
    var val := Vals(F);
    forall i, j | 0 <= i < j < |val| ensures val[i] <= val[j] {
      assert CppLe(F[i], F[j]);
    }
    BirthBeforeDeath(Reduce(SparseFastColumns(F)), Dims(F), val);
  }
}
