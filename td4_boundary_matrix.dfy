/** The set-based sparse matrix of td4/boundary_matrix.py and the two
    subset-scan builders, with the dense conversion. A matrix is a set of
    (row, column) pairs together with a declared size m; `len` returns m,
    not the number of pairs. */
module Td4BoundaryMatrix {
  import opened Filtration
  import opened BoundaryMatrix

  /** Symmetric difference of two sets of pairs. */
  function PairXor(a: set<(int, int)>, b: set<(int, int)>): (r: set<(int, int)>)
    ensures forall p :: p in r <==> (p in a) != (p in b)
  {
    (a - b) + (b - a)
  }

  /** The symmetric difference commutes, undoes itself and has {} as unit. */
  lemma PairXorLaws(a: set<(int, int)>, b: set<(int, int)>)
    ensures PairXor(a, b) == PairXor(b, a)
    ensures PairXor(PairXor(a, b), b) == a
    ensures PairXor(a, {}) == a && PairXor(a, a) == {}
  {
  }

  /** `SparseMatrix(set)`: the entries are the set's elements, m the size. */
  class SparseMatrix {
    var entries: set<(int, int)>
    const m: nat

    constructor (ens: set<(int, int)>, m: nat)
      ensures entries == ens && this.m == m
    {
      entries := ens;
      this.m := m;
    }

    /** `cols`: the columns that hold an entry. */
    function Cols(): (r: set<int>)
      reads this
      ensures forall j :: j in r <==> exists i :: (i, j) in entries
    {
      var r := set p | p in entries :: p.1;
      assert forall i, j :: (i, j) in entries ==> j in r by {
        forall i, j | (i, j) in entries ensures j in r {
          var p := (i, j);
          assert p.1 == j;
        }
      }
      assert forall j :: j in r ==> exists i :: (i, j) in entries by {
        forall j | j in r ensures exists i :: (i, j) in entries {
          var p :| p in entries && p.1 == j;
          var i := p.0;
          assert (i, j) in entries;
        }
      }
      r
    }

    /** `lines`: the rows that hold an entry. */
    function Lines(): (r: set<int>)
      reads this
      ensures forall i :: i in r <==> exists j :: (i, j) in entries
    {
      var r := set p | p in entries :: p.0;
      assert forall i, j :: (i, j) in entries ==> i in r by {
        forall i, j | (i, j) in entries ensures i in r {
          var p := (i, j);
          assert p.0 == i;
        }
      }
      assert forall i :: i in r ==> exists j :: (i, j) in entries by {
        forall i | i in r ensures exists j :: (i, j) in entries {
          var p :| p in entries && p.0 == i;
          var j := p.1;
          assert (i, j) in entries;
        }
      }
      r
    }

    /** `column(j)`: the entries of column j whose row is one of the m
        indices `range(len(self))`. */
    function Column(j: int): (r: set<(int, int)>)
      reads this
      ensures r <= entries
      ensures forall i :: (i, j) in r <==> (i, j) in entries && 0 <= i < m
      ensures forall p :: p in r ==> p.1 == j
    {
      set p | p in entries && p.1 == j && 0 <= p.0 < m
    }

    /** `line(i)`: the entries of row i whose column is below m. */
    function Line(i: int): (r: set<(int, int)>)
      reads this
      ensures r <= entries
      ensures forall j :: (i, j) in r <==> (i, j) in entries && 0 <= j < m
      ensures forall p :: p in r ==> p.0 == i
    {
      set p | p in entries && p.0 == i && 0 <= p.1 < m
    }

    /** `__len__`: the declared size. */
    function Len(): nat
      reads this
    {
      m
    }

    /** `add`: inserts one pair; adding a pair already present changes
        nothing. */
    method Add(e: (int, int))
      modifies this
      ensures entries == old(entries) + {e}
      ensures e in old(entries) ==> entries == old(entries)
    {
      entries := entries + {e};
    }

    /** `symmetric_difference`: a new matrix of the same declared size. */
    method SymmetricDifference(s: set<(int, int)>) returns (r: SparseMatrix)
      ensures fresh(r)
      ensures r.entries == PairXor(entries, s)
      ensures r.Len() == Len()
    {
      r := new SparseMatrix(PairXor(entries, s), m);
    }
  }

  // ---------------------------------------------------------------------
  // What the builders compute.

  /** The pairs both builders mark: row i is a facet of column j. */
  function BoundaryPairs(F: seq<Simplex>): (S: set<(int, int)>)
    ensures forall i, j :: (i, j) in S <==> Entry(F, i, j)
    ensures forall p :: p in S ==> 0 <= p.0 < p.1 < |F|
  {
    set i, j | 0 <= i < |F| && 0 <= j < |F| && Entry(F, i, j) :: (i, j)
  }

  /** The m x m 0/1 matrix with a 1 exactly at the pairs of S. */
  function DenseOf(S: set<(int, int)>, m: nat): (D: seq<seq<int>>)
    ensures |D| == m && forall i :: 0 <= i < m ==> |D[i]| == m
    ensures forall i, j :: 0 <= i < m && 0 <= j < m ==> (D[i][j] == 1 <==> (i, j) in S)
    ensures forall i, j :: 0 <= i < m && 0 <= j < m ==> (D[i][j] == 0 <==> (i, j) !in S)
  {
    seq(m, i => seq(m, j => if (i, j) in S then 1 else 0))
  }

  /** The dense boundary matrix: a 1 at (i, j) iff row i is a facet of
      column j, so the diagonal and everything below it are 0. */
  function EntryMatrix(F: seq<Simplex>): (D: seq<seq<int>>)
    ensures |D| == |F| && forall i :: 0 <= i < |F| ==> |D[i]| == |F|
    ensures forall i, j :: 0 <= i < |F| && 0 <= j < |F| ==> (D[i][j] == 1 <==> Entry(F, i, j))
    ensures forall i, j :: 0 <= i < |F| && 0 <= j < |F| ==> (D[i][j] == 0 <==> !Entry(F, i, j))
    ensures forall i, j :: 0 <= j <= i < |F| ==> D[i][j] == 0
  {
    seq(|F|, i => seq(|F|, j => if Entry(F, i, j) then 1 else 0))
  }

  /** `sparse_to_dense(build_sparse_boundary_matrix(F))` equals
      `build_dense_boundary_matrix(F)`. */
  lemma SparseToDenseAgrees(F: seq<Simplex>)
    ensures DenseOf(BoundaryPairs(F), |F|) == EntryMatrix(F)
  {
    var A := DenseOf(BoundaryPairs(F), |F|);
    var B := EntryMatrix(F);
    forall i | 0 <= i < |F| ensures A[i] == B[i] {
      forall j | 0 <= j < |F| ensures A[i][j] == B[i][j] {
        assert (i, j) in BoundaryPairs(F) <==> Entry(F, i, j);
      }
    }
  }

  /** Column j of the dense matrix holds exactly the rows of the boundary
      column the C++ builders produce. */
  lemma EntryMatrixColumns(F: seq<Simplex>)
    ensures forall i, j :: 0 <= i < |F| && 0 <= j < |F| ==>
      (EntryMatrix(F)[i][j] == 1 <==> i in BoundaryColumns(F)[j])
  {
  }

  // ---------------------------------------------------------------------
  // The builders.

  /** `build_dense_boundary_matrix`: an m x m list of zero rows, then a 1
      written at every (i, j), j > i, where the dimension goes up by one and
      the vertex set of j contains that of i. */
  method BuildDenseBoundaryMatrix(F: seq<Simplex>) returns (D: seq<seq<int>>)
    ensures D == EntryMatrix(F)
  {
    var m := |F|;
    D := seq(m, _ => seq(m, _ => 0));
    for i := 0 to m
      invariant |D| == m && forall p :: 0 <= p < m ==> |D[p]| == m
      invariant forall p, q :: 0 <= p < m && 0 <= q < m ==> D[p][q] == if p < i && Entry(F, p, q) then 1 else 0
    {
      for j := i + 1 to m
        invariant |D| == m && forall p :: 0 <= p < m ==> |D[p]| == m
        invariant forall p, q :: 0 <= p < m && 0 <= q < m ==>
          D[p][q] == if (p < i || (p == i && q < j)) && Entry(F, p, q) then 1 else 0
      {
        if F[j].dim == F[i].dim + 1 && Subset(F[i].vert, F[j].vert) {
          D := D[i := D[i][j := 1]];
        }
      }
    }
    assert forall p :: 0 <= p < m ==> D[p] == EntryMatrix(F)[p];
  }

  /** `build_sparse_boundary_matrix`: the same scan, adding the pairs to an
      empty matrix of size m. */
  method BuildSparseBoundaryMatrix(F: seq<Simplex>) returns (M: SparseMatrix)
    ensures fresh(M)
    ensures M.entries == BoundaryPairs(F) && M.m == |F|
  {
    var m := |F|;
    M := new SparseMatrix({}, m);
    for i := 0 to m
      invariant M.m == m
      invariant forall p :: p in M.entries <==> p in BoundaryPairs(F) && p.0 < i
    {
      for j := i + 1 to m
        invariant M.m == m
        invariant forall p :: p in M.entries <==> p in BoundaryPairs(F) && (p.0 < i || (p.0 == i && p.1 < j))
      {
        if F[j].dim == F[i].dim + 1 && Subset(F[i].vert, F[j].vert) {
          M.Add((i, j));
        }
      }
    }
  }

  /** `sparse_to_dense`: an m x m list of zero rows, then a 1 written at
      every entry, visited in any order. Rows and columns must be in
      [0, m): a larger index raises and a negative one counts from the end. */
  method SparseToDense(M: SparseMatrix) returns (D: seq<seq<int>>)
    requires forall p :: p in M.entries ==> 0 <= p.0 < M.m && 0 <= p.1 < M.m
    ensures D == DenseOf(M.entries, M.m)
  {
    var m := M.m;
    D := seq(m, _ => seq(m, _ => 0));
    var rest := M.entries;
    while rest != {}
      invariant rest <= M.entries
      invariant |D| == m && forall p :: 0 <= p < m ==> |D[p]| == m
      invariant forall p, q :: 0 <= p < m && 0 <= q < m ==> D[p][q] == if (p, q) in M.entries - rest then 1 else 0
      decreases |rest|
    {
      var e :| e in rest;
      D := D[e.0 := D[e.0][e.1 := 1]];
      rest := rest - {e};
    }
    assert forall p :: 0 <= p < m ==> D[p] == DenseOf(M.entries, m)[p];
  }
}
