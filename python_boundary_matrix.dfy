/** `boundary_matrix` of topological_persistence/python/boundary_matrix.py:
    a fresh n x n list of zero rows, then a 1 written at every (i, j),
    j > i, where the vertex set of i is contained in that of j and the
    dimension goes up by one. The preallocated list of lists is modelled
    as a fresh two-dimensional array, the input as a value. */
module PythonBoundaryMatrix {
  import opened Filtration
  import opened BoundaryMatrix
  import opened Td4BoundaryMatrix

  /** The rows of an array, as a list of lists. */
  function Rows(M: array2<int>): (D: seq<seq<int>>)
    reads M
    ensures |D| == M.Length0
    ensures forall i :: 0 <= i < M.Length0 ==> |D[i]| == M.Length1
    ensures forall i, j :: 0 <= i < M.Length0 && 0 <= j < M.Length1 ==> D[i][j] == M[i, j]
  {
    seq(M.Length0, i requires 0 <= i < M.Length0 reads M =>
      seq(M.Length1, j requires 0 <= j < M.Length1 reads M => M[i, j]))
  }

  /** `boundary_matrix(l_simplex)`: the result is a new matrix holding the
      dense boundary relation. */
  method BoundaryMatrixOf(F: seq<Simplex>) returns (matrix: array2<int>)
    ensures fresh(matrix)
    ensures matrix.Length0 == |F| && matrix.Length1 == |F|
    ensures Rows(matrix) == EntryMatrix(F)
  {
    var n := |F|;
    matrix := new int[n, n]((_, _) => 0);
    for i := 0 to n
      invariant forall p, q :: 0 <= p < n && 0 <= q < n ==> matrix[p, q] == if p < i && Entry(F, p, q) then 1 else 0
    {
      for j := i + 1 to n
        invariant forall p, q :: 0 <= p < n && 0 <= q < n ==>
          matrix[p, q] == if (p < i || (p == i && q < j)) && Entry(F, p, q) then 1 else 0
      {
        if Subset(F[i].vert, F[j].vert) && F[i].dim + 1 == F[j].dim {
          matrix[i, j] := 1;
        }
      }
    }
    assert forall p :: 0 <= p < n ==> Rows(matrix)[p] == EntryMatrix(F)[p];
  }
}
