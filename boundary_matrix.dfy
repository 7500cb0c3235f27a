/** Boundary matrices of a filtration (topological_persistence/cpp/src/boundary_matrix.cpp;
    main.cpp holds an identical copy of `boundary_matrix_sparse_fast`).

    Entry (i, j) is 1 when simplex i is a facet of simplex j. The subset-scan
    builders test `i < j`, `dim_i + 1 == dim_j` and `vert_i ⊆ vert_j`; the
    face-enumeration builders remove one vertex at a time from `vert_j` and
    look the face up in a vertex-set → index map. The two agree on
    filtrations whose vertex sets are distinct, whose dimensions are the
    vertex count minus one and which list every facet before its cofacets
    (`SparseFastIsBoundary`, `DenseFastIsBoundary`). */
module BoundaryMatrix {
  import opened Ordered
  import opened Filtration
  import opened GaussianElimination

  /** Every vertex list is ascending (a `std::set<int>`). */
  predicate ValidVerts(F: seq<Simplex>) {
    forall k :: 0 <= k < |F| ==> Ascending(F[k].vert)
  }

  predicate Subset(a: seq<int>, b: seq<int>) {
    forall x :: x in a ==> x in b
  }

  /** `is_subset_eq(a, b)`, that is `std::includes(b, a)`: walk b, and fail
      at the first element of a that b has skipped past or run out before. */
  function IsSubsetEq(a: seq<int>, b: seq<int>): (r: bool)
    requires Ascending(a) && Ascending(b)
    ensures r <==> Subset(a, b)
    decreases |a| + |b|
  {
    if a == [] then true
    else if b == [] then
      assert a[0] in a;
      false
    else
      HeadBelow(a);
      HeadBelow(b);
      assert a[0] in a;
      if a[0] < b[0] then false
      else if b[0] < a[0] then IsSubsetEq(a, b[1..])
      else
        assert forall x :: x in a <==> x == a[0] || x in a[1..];
        assert forall x :: x in b <==> x == b[0] || x in b[1..];
        IsSubsetEq(a[1..], b[1..])
  }

  /** The boundary relation of the subset-scan builders. */
  predicate Entry(F: seq<Simplex>, i: int, j: int) {
    0 <= i < j < |F| && F[i].dim + 1 == F[j].dim && Subset(F[i].vert, F[j].vert)
  }

  /** The rows i < k with an entry in column j, ascending. */
  function EntryRows(F: seq<Simplex>, j: int, k: nat): (r: seq<int>)
    requires k <= |F|
    ensures Ascending(r)
    ensures forall x :: x in r <==> 0 <= x < k && Entry(F, x, j)
  {
    if k == 0 then []
    else
      var t := EntryRows(F, j, k - 1);
      if Entry(F, k - 1, j) then
        ConsAscendingRight(t, k - 1);
        t + [k - 1]
      else t
  }

  /** Appending an element above everything keeps a sequence ascending. */
  lemma ConsAscendingRight(t: seq<int>, x: int)
    requires Ascending(t) && forall y :: y in t ==> y < x
    ensures Ascending(t + [x])
  {
    var s := t + [x];
    forall a, b | 0 <= a < b < |s| ensures s[a] < s[b] {
      if b == |t| {
        assert s[a] in t;
      }
    }
  }

  /** The boundary matrix as sparse columns. */
  function BoundaryColumns(F: seq<Simplex>): (C: seq<seq<int>>)
    ensures |C| == |F|
    ensures forall j :: 0 <= j < |F| ==> C[j] == EntryRows(F, j, |F|)
  {
    seq(|F|, j => EntryRows(F, j, |F|))
  }

  /** The sparse columns are a valid input of the reducers and upper
      triangular: every row of column j is below j. */
  lemma BoundaryColumnsWellFormed(F: seq<Simplex>)
    ensures WellFormed(BoundaryColumns(F))
    ensures forall j, x :: 0 <= j < |F| && x in BoundaryColumns(F)[j] ==> x < j
  {
  }

  // ---------------------------------------------------------------------
  // The subset-scan builders.

  /** `boundary_matrix_dense`: an n x n byte matrix with a 1 exactly at the
      entries; the diagonal and everything below it are 0. */
  method BoundaryMatrixDense(F: seq<Simplex>) returns (M: array2<bv8>)
    requires ValidVerts(F)
    ensures fresh(M) && M.Length0 == |F| && M.Length1 == |F|
    ensures forall i, j :: 0 <= i < |F| && 0 <= j < |F| ==> M[i, j] == if Entry(F, i, j) then 1 else 0
    ensures forall i, j :: 0 <= j <= i < |F| ==> M[i, j] == 0
  {
    var n := |F|;
    M := new bv8[n, n]((i, j) => 0);
    for i := 0 to n
      invariant forall p, q :: 0 <= p < n && 0 <= q < n ==> M[p, q] == if p < i && Entry(F, p, q) then 1 else 0
    {
      for j := i + 1 to n
        invariant forall p, q :: 0 <= p < n && 0 <= q < n ==>
          M[p, q] == if (p < i || (p == i && q < j)) && Entry(F, p, q) then 1 else 0
      {
        if F[i].dim + 1 == F[j].dim && IsSubsetEq(F[i].vert, F[j].vert) {
          M[i, j] := 1;
        }
      }
    }
  }

  /** The dense matrix read as sparse columns is BoundaryColumns, with 0/1
      bytes: what `gaussian_elim_dense` may be given. */
  lemma DenseIsBoundaryColumns(F: seq<Simplex>, M: array2<bv8>)
    requires M.Length0 == |F| && M.Length1 == |F|
    requires forall i, j :: 0 <= i < |F| && 0 <= j < |F| ==> M[i, j] == if Entry(F, i, j) then 1 else 0
    ensures Binary(Bits(M))
    ensures DenseColumns(M) == BoundaryColumns(F)
  {
    var B := Bits(M);
    BitsEntries(M);
    forall j | 0 <= j < |F| ensures RowLists(B)[j] == BoundaryColumns(F)[j] {
      NonzeroRowsSpec(B[j]);
      AscendingUnique(RowLists(B)[j], BoundaryColumns(F)[j]);
    }
  }

  /** Strict lexicographic order on index pairs. */
  predicate PairLess(p: (int, int), q: (int, int)) {
    p.0 < q.0 || (p.0 == q.0 && p.1 < q.1)
  }

  /** `boundary_matrix_sparse`: the list of the entries (i, j), each once,
      in lexicographic order. */
  method BoundaryMatrixSparse(F: seq<Simplex>) returns (entries: seq<(int, int)>)
    requires ValidVerts(F)
    ensures forall p :: p in entries <==> Entry(F, p.0, p.1)
    ensures forall a, b :: 0 <= a < b < |entries| ==> PairLess(entries[a], entries[b])
  {
    entries := [];
    var n := |F|;
    for i := 0 to n
      invariant forall p :: p in entries <==> p.0 < i && Entry(F, p.0, p.1)
      invariant forall a, b :: 0 <= a < b < |entries| ==> PairLess(entries[a], entries[b])
      invariant forall p :: p in entries ==> p.0 < i
    {
      for j := i + 1 to n
        invariant forall p :: p in entries <==> (p.0 < i || (p.0 == i && p.1 < j)) && Entry(F, p.0, p.1)
        invariant forall a, b :: 0 <= a < b < |entries| ==> PairLess(entries[a], entries[b])
        invariant forall p :: p in entries ==> p.0 < i || (p.0 == i && p.1 < j)
      {
        if F[i].dim + 1 == F[j].dim && IsSubsetEq(F[i].vert, F[j].vert) {
          ghost var old_entries := entries;
          entries := entries + [(i, j)];
          assert forall a :: 0 <= a < |old_entries| ==> old_entries[a] in old_entries;
        }
      }
    }
  }

  // ---------------------------------------------------------------------
  // Faces and vertex-set indices.

  /** The vertex list without its r-th vertex. */
  function RemoveAt(v: seq<int>, r: int): seq<int>
    requires 0 <= r < |v|
  {
    v[..r] + v[r + 1..]
  }

  /** Removing the r-th vertex of an ascending list leaves an ascending list
      with exactly the other vertices. */
  lemma RemoveAtProperties(v: seq<int>, r: int)
    requires Ascending(v) && 0 <= r < |v|
    ensures Ascending(RemoveAt(v, r)) && |RemoveAt(v, r)| == |v| - 1
    ensures forall x :: x in RemoveAt(v, r) <==> x in v && x != v[r]
  {
    var f := RemoveAt(v, r);
    forall a | 0 <= a < |f| ensures f[a] == if a < r then v[a] else v[a + 1] {
    }
    forall x | x in v && x != v[r] ensures x in f {
      var k :| 0 <= k < |v| && v[k] == x;
      if k < r {
        assert f[k] == x;
      } else {
        assert f[k - 1] == x;
      }
    }
  }

  /** Different positions give different faces. */
  lemma FacesDistinct(v: seq<int>, r1: int, r2: int)
    requires Ascending(v) && 0 <= r1 < |v| && 0 <= r2 < |v| && r1 != r2
    ensures RemoveAt(v, r1) != RemoveAt(v, r2)
  {
    RemoveAtProperties(v, r1);
    RemoveAtProperties(v, r2);
    assert v[r1] in RemoveAt(v, r2);
  }

  /** a is a facet of b: b with one vertex removed. */
  predicate IsFace(a: seq<int>, b: seq<int>) {
    exists r :: 0 <= r < |b| && a == RemoveAt(b, r)
  }

  /** One vertex more and containing a: b minus the vertex a lacks is a. */
  lemma SubsetIsFace(a: seq<int>, b: seq<int>)
    requires Ascending(a) && Ascending(b)
    requires Subset(a, b) && |a| + 1 == |b|
    ensures IsFace(a, b)
  {
    AscendingCard(a);
    AscendingCard(b);
    var A, B := Elems(a), Elems(b);
    assert A <= B;
    assert |B - A| == 1;
    var x :| x in B - A;
    var r :| 0 <= r < |b| && b[r] == x;
    RemoveAtProperties(b, r);
    var f := RemoveAt(b, r);
    AscendingCard(f);
    var Fs := Elems(f);
    assert A <= Fs;
    assert |Fs - A| == 0;
    assert Fs == A;
    AscendingUnique(a, f);
  }

  /** For vertex sets, being a facet is being a subset with one vertex fewer. */
  lemma FaceIffSubset(a: seq<int>, b: seq<int>)
    requires Ascending(a) && Ascending(b)
    ensures IsFace(a, b) <==> Subset(a, b) && |a| + 1 == |b|
  {
    if IsFace(a, b) {
      var r :| 0 <= r < |b| && a == RemoveAt(b, r);
      RemoveAtProperties(b, r);
    }
    if Subset(a, b) && |a| + 1 == |b| {
      SubsetIsFace(a, b);
    }
  }

  /** i is the first / the last position holding its vertex set. */
  predicate FirstWith(F: seq<Simplex>, i: int) {
    0 <= i < |F| && forall k :: 0 <= k < i ==> F[k].vert != F[i].vert
  }

  predicate LastWith(F: seq<Simplex>, i: int) {
    0 <= i < |F| && forall k :: i < k < |F| ==> F[k].vert != F[i].vert
  }

  /** `index[simplices[i].vert] = i` in increasing i (`std::map` assignment). */
  function LastIndex(F: seq<Simplex>): map<seq<int>, int> {
    if F == [] then map[]
    else LastIndex(F[..|F| - 1])[F[|F| - 1].vert := |F| - 1]
  }

  /** Every vertex set is a key of LastIndex, mapped to the LAST position
      holding it. */
  lemma {:induction false} LastIndexSpec(F: seq<Simplex>)
    ensures forall k :: 0 <= k < |F| ==> F[k].vert in LastIndex(F)
    ensures forall v :: v in LastIndex(F) ==> LastWith(F, LastIndex(F)[v]) && F[LastIndex(F)[v]].vert == v
  {
    if F != [] {
      var n := |F| - 1;
      LastIndexSpec(F[..n]);
      assert forall k :: 0 <= k < n ==> F[..n][k] == F[k];
    }
  }

  /** `idx_of.emplace(v, i)` in increasing i (`unordered_map::emplace` does
      not overwrite an existing key). */
  function FirstIndex(F: seq<Simplex>): map<seq<int>, int> {
    if F == [] then map[]
    else
      var m := FirstIndex(F[..|F| - 1]);
      if F[|F| - 1].vert in m then m else m[F[|F| - 1].vert := |F| - 1]
  }

  /** Every vertex set is a key of FirstIndex, mapped to the FIRST position
      holding it. */
  lemma {:induction false} FirstIndexSpec(F: seq<Simplex>)
    ensures forall k :: 0 <= k < |F| ==> F[k].vert in FirstIndex(F)
    ensures forall v :: v in FirstIndex(F) ==> FirstWith(F, FirstIndex(F)[v]) && F[FirstIndex(F)[v]].vert == v
  {
    if F != [] {
      var n := |F| - 1;
      FirstIndexSpec(F[..n]);
      assert forall k :: 0 <= k < n ==> F[..n][k] == F[k];
    }
  }

  /** A lookup in the last-wins map finds i iff i is the last position of its set. */
  lemma LastIndexLookup(F: seq<Simplex>, face: seq<int>, i: int)
    ensures (face in LastIndex(F) && LastIndex(F)[face] == i) <==> (LastWith(F, i) && F[i].vert == face)
  {
    LastIndexSpec(F);
    if LastWith(F, i) && F[i].vert == face {
      assert face in LastIndex(F);
    }
  }

  lemma FirstIndexLookup(F: seq<Simplex>, face: seq<int>, i: int)
    ensures (face in FirstIndex(F) && FirstIndex(F)[face] == i) <==> (FirstWith(F, i) && F[i].vert == face)
  {
    FirstIndexSpec(F);
    if FirstWith(F, i) && F[i].vert == face {
      assert face in FirstIndex(F);
    }
  }

  /** The forward scans that fill the two maps. */
  method BuildLastIndex(F: seq<Simplex>) returns (index: map<seq<int>, int>)
    ensures index == LastIndex(F)
  {
    index := map[];
    for i := 0 to |F|
      invariant index == LastIndex(F[..i])
    {
      assert F[..i + 1][..i] == F[..i];
      index := index[F[i].vert := i];
    }
    assert F[..|F|] == F;
  }

  method BuildFirstIndex(F: seq<Simplex>) returns (index: map<seq<int>, int>)
    ensures index == FirstIndex(F)
  {
    index := map[];
    for i := 0 to |F|
      invariant index == FirstIndex(F[..i])
    {
      assert F[..i + 1][..i] == F[..i];
      var v := F[i].vert;
      if v !in index {
        index := index[v := i];
      }
    }
    assert F[..|F|] == F;
  }

  // ---------------------------------------------------------------------
  // `boundary_matrix_sparse_fast`.

  /** The indices pushed back for the faces r' < r of v that the map holds. */
  function FaceHits(index: map<seq<int>, int>, v: seq<int>, r: nat): (h: seq<int>)
    requires r <= |v|
    ensures |h| <= r
    ensures forall x :: x in h <==> exists r' :: 0 <= r' < r && RemoveAt(v, r') in index && index[RemoveAt(v, r')] == x
  {
    if r == 0 then []
    else
      var h := FaceHits(index, v, r - 1);
      var f := RemoveAt(v, r - 1);
      if f in index then h + [index[f]] else h
  }

  /** Faces of distinct positions hit distinct indices when the map is
      injective (as LastIndex and FirstIndex are). */
  lemma {:induction false} FaceHitsDistinct(index: map<seq<int>, int>, v: seq<int>, r: nat)
    requires Ascending(v) && r <= |v|
    requires forall a, b :: a in index && b in index && index[a] == index[b] ==> a == b
    ensures forall a, b :: 0 <= a < b < |FaceHits(index, v, r)| ==> FaceHits(index, v, r)[a] != FaceHits(index, v, r)[b]
  {
    if r > 0 {
      FaceHitsDistinct(index, v, r - 1);
      var h := FaceHits(index, v, r - 1);
      var f := RemoveAt(v, r - 1);
      if f in index {
        forall x | x in h ensures x != index[f] {
          var r' :| 0 <= r' < r - 1 && RemoveAt(v, r') in index && index[RemoveAt(v, r')] == x;
          FacesDistinct(v, r', r - 1);
        }
        var h' := h + [index[f]];
        forall a, b | 0 <= a < b < |h'| ensures h'[a] != h'[b] {
          if b == |h| {
            assert h'[a] in h;
          }
        }
      }
    }
  }

  /** Column j of `boundary_matrix_sparse_fast`: empty for a simplex with at
      most one vertex, else the sorted indices of the faces found in the map. */
  function SparseFastColumn(F: seq<Simplex>, j: int): seq<int>
    requires 0 <= j < |F|
  {
    var v := F[j].vert;
    if |v| <= 1 then [] else SortInts(FaceHits(LastIndex(F), v, |v|))
  }

  function SparseFastColumns(F: seq<Simplex>): (C: seq<seq<int>>)
    ensures |C| == |F|
    ensures forall j :: 0 <= j < |F| ==> C[j] == SparseFastColumn(F, j)
  {
    seq(|F|, j requires 0 <= j < |F| => SparseFastColumn(F, j))
  }

  /** The entry relation of the fast sparse builder: i is the last position
      holding a facet of simplex j, which has at least two vertices. There is
      no i < j test and a facet missing from F is skipped. */
  predicate SparseFastEntry(F: seq<Simplex>, i: int, j: int) {
    0 <= j < |F| && |F[j].vert| > 1 && LastWith(F, i) && IsFace(F[i].vert, F[j].vert)
  }

  /** Each column is ascending with at most |vert_j| rows, exactly the
      SparseFastEntry rows. */
  lemma SparseFastColumnSpec(F: seq<Simplex>, j: int)
    requires ValidVerts(F) && 0 <= j < |F|
    ensures Ascending(SparseFastColumn(F, j))
    ensures |SparseFastColumn(F, j)| <= |F[j].vert|
    ensures forall x :: x in SparseFastColumn(F, j) <==> SparseFastEntry(F, x, j)
  {
    var v := F[j].vert;
    var index := LastIndex(F);
    if |v| > 1 {
      var h := FaceHits(index, v, |v|);
      LastIndexSpec(F);
      forall a, b | a in index && b in index && index[a] == index[b] ensures a == b {
      }
      FaceHitsDistinct(index, v, |v|);
      SortIntsDistinct(h);
      forall x ensures x in SparseFastColumn(F, j) <==> SparseFastEntry(F, x, j) {
        assert x in SparseFastColumn(F, j) <==> x in h;
        if x in h {
          var r :| 0 <= r < |v| && RemoveAt(v, r) in index && index[RemoveAt(v, r)] == x;
          LastIndexLookup(F, RemoveAt(v, r), x);
        }
        if SparseFastEntry(F, x, j) {
          var r :| 0 <= r < |v| && F[x].vert == RemoveAt(v, r);
          LastIndexLookup(F, RemoveAt(v, r), x);
        }
      }
    }
  }

  /** `face` built by inserting every vertex but the r-th into a `std::set`. */
  method BuildFace(vert: seq<int>, r: int) returns (face: seq<int>)
    requires Ascending(vert) && 0 <= r < |vert|
    ensures face == RemoveAt(vert, r)
  {
    face := [];
    var k := 0;
    for t := 0 to |vert|
      invariant k == t
      invariant Ascending(face)
      invariant forall x :: x in face <==> exists t' :: 0 <= t' < t && t' != r && vert[t'] == x
    {
      if k != r {
        face := Insert(face, vert[t]);
      }
      k := k + 1;
    }
    RemoveAtProperties(vert, r);
    forall x ensures x in face <==> x in RemoveAt(vert, r) {
      if x in vert && x != vert[r] {
        var t' :| 0 <= t' < |vert| && vert[t'] == x;
      }
    }
    AscendingUnique(face, RemoveAt(vert, r));
  }

  /** The face loop of one column, then `std::sort` of the column. */
  method FaceColumn(vert: seq<int>, index: map<seq<int>, int>) returns (col: seq<int>)
    requires Ascending(vert)
    ensures col == SortInts(FaceHits(index, vert, |vert|))
  {
    col := [];
    for r := 0 to |vert|
      invariant col == FaceHits(index, vert, r)
    {
      var face := BuildFace(vert, r);
      var found := face in index;
      if found {
        col := col + [index[face]];
      }
    }
    col := SortInts(col);
  }

  /** The fast sparse columns are a valid reducer input, with at most
      |vert_j| rows in column j and none when simplex j has at most one vertex. */
  lemma SparseFastColumnsProperties(F: seq<Simplex>)
    requires ValidVerts(F)
    ensures WellFormed(SparseFastColumns(F))
    ensures forall j :: 0 <= j < |F| ==>
      |SparseFastColumns(F)[j]| <= |F[j].vert| && (|F[j].vert| <= 1 ==> SparseFastColumns(F)[j] == [])
    ensures forall j, x :: 0 <= j < |F| ==> (x in SparseFastColumns(F)[j] <==> SparseFastEntry(F, x, j))
  {
    var C := SparseFastColumns(F);
    forall j | 0 <= j < |F|
      ensures Ascending(C[j]) && InRange(C[j], |F|) && |C[j]| <= |F[j].vert|
      ensures forall x :: x in C[j] <==> SparseFastEntry(F, x, j)
    {
      SparseFastColumnSpec(F, j);
    }
  }

  /** `boundary_matrix_sparse_fast` (boundary_matrix.cpp and main.cpp). */
  method BoundaryMatrixSparseFast(F: seq<Simplex>) returns (B: seq<seq<int>>)
    requires ValidVerts(F)
    ensures B == SparseFastColumns(F)
    ensures WellFormed(B)
    ensures forall j :: 0 <= j < |F| ==> |B[j]| <= |F[j].vert| && (|F[j].vert| <= 1 ==> B[j] == [])
    ensures forall j, x :: 0 <= j < |F| ==> (x in B[j] <==> SparseFastEntry(F, x, j))
  {
    var n := |F|;
    B := seq(n, _ => []);
    var index := BuildLastIndex(F);
    for j := 0 to n
      invariant |B| == n
      invariant forall q :: 0 <= q < j ==> B[q] == SparseFastColumn(F, q)
      invariant forall q :: j <= q < n ==> B[q] == []
    {
      var vert := F[j].vert;
      if |vert| <= 1 {
        continue;
      }
      var col := FaceColumn(vert, index);
      B := B[j := col];
    }
    SparseFastColumnsProperties(F);
  }

  // ---------------------------------------------------------------------
  // `boundary_matrix_dense_fast`.

  /** The entry relation of the fast dense builder: i is the FIRST position
      holding a facet of simplex j, whose dimension is positive. */
  predicate DenseFastEntry(F: seq<Simplex>, i: int, j: int) {
    0 <= j < |F| && F[j].dim > 0 && FirstWith(F, i) && IsFace(F[i].vert, F[j].vert)
  }

  /** The face loop of one column of `boundary_matrix_dense_fast`: a 1 at
      the row of every face found in the map, the other columns untouched. */
  method MarkFaces(M: array2<bv8>, idx: map<seq<int>, int>, v: seq<int>, j: int)
    requires 0 <= j < M.Length1
    requires forall f :: f in idx ==> 0 <= idx[f] < M.Length0
    requires forall p :: 0 <= p < M.Length0 ==> M[p, j] == 0
    modifies M
    ensures forall p, q :: 0 <= p < M.Length0 && 0 <= q < M.Length1 ==>
      M[p, q] == if q == j then (if p in FaceHits(idx, v, |v|) then 1 else 0) else old(M[p, q])
  {
    for r := 0 to |v|
      invariant forall p, q :: 0 <= p < M.Length0 && 0 <= q < M.Length1 ==>
        M[p, q] == if q == j then (if p in FaceHits(idx, v, r) then 1 else 0) else old(M[p, q])
    {
      var face := v[..r] + v[r + 1..];
      if face in idx {
        M[idx[face], j] := 1;
      }
    }
  }

  /** The rows marked in column j are the DenseFastEntry rows. */
  lemma DenseFastColumnSpec(F: seq<Simplex>, j: int)
    requires 0 <= j < |F| && F[j].dim > 0
    ensures forall p :: p in FaceHits(FirstIndex(F), F[j].vert, |F[j].vert|) <==> DenseFastEntry(F, p, j)
  {
    var v := F[j].vert;
    var idx := FirstIndex(F);
    forall p ensures p in FaceHits(idx, v, |v|) <==> DenseFastEntry(F, p, j) {
      if DenseFastEntry(F, p, j) {
        var r :| 0 <= r < |v| && F[p].vert == RemoveAt(v, r);
        FirstIndexLookup(F, RemoveAt(v, r), p);
      }
      if p in FaceHits(idx, v, |v|) {
        var r :| 0 <= r < |v| && RemoveAt(v, r) in idx && idx[RemoveAt(v, r)] == p;
        FirstIndexLookup(F, RemoveAt(v, r), p);
      }
    }
  }

  /** `boundary_matrix_dense_fast`. A simplex of positive dimension needs a
      vertex: `face.reserve(v.size() - 1)` throws on an empty one. */
  method BoundaryMatrixDenseFast(F: seq<Simplex>) returns (M: array2<bv8>)
    requires forall j :: 0 <= j < |F| && F[j].dim > 0 ==> F[j].vert != []
    ensures fresh(M) && M.Length0 == |F| && M.Length1 == |F|
    ensures forall i, j :: 0 <= i < |F| && 0 <= j < |F| ==> M[i, j] == if DenseFastEntry(F, i, j) then 1 else 0
  {
    var n := |F|;
    M := new bv8[n, n]((i, j) => 0);
    var idx := BuildFirstIndex(F);
    assert forall f :: f in idx ==> 0 <= idx[f] < n by {
      FirstIndexSpec(F);
    }
    for j := 0 to n
      invariant forall p, q :: 0 <= p < n && 0 <= q < n ==> M[p, q] == if q < j && DenseFastEntry(F, p, q) then 1 else 0
    {
      var sj := F[j];
      if sj.dim <= 0 {
        continue;
      }
      MarkFaces(M, idx, sj.vert, j);
      DenseFastColumnSpec(F, j);
    }
  }

  // ---------------------------------------------------------------------
  // When the builders agree.

  /** A filtration of a simplicial complex as the builders expect it:
      ascending and pairwise distinct vertex sets, nonempty ones, dimension
      = vertex count - 1, and every facet listed before its cofacets. */
  predicate Complex(F: seq<Simplex>) {
    && ValidVerts(F)
    && (forall i, k :: 0 <= i < k < |F| ==> F[i].vert != F[k].vert)
    && (forall k :: 0 <= k < |F| ==> F[k].vert != [] && F[k].dim == |F[k].vert| - 1)
    && (forall i, j :: 0 <= i < |F| && 0 <= j < |F| && Subset(F[i].vert, F[j].vert) && |F[i].vert| + 1 == |F[j].vert| ==> i < j)
  }

  /** On such a filtration both fast relations are the subset-scan relation. */
  lemma FastEntriesAreEntries(F: seq<Simplex>, i: int, j: int)
    requires Complex(F)
    ensures SparseFastEntry(F, i, j) <==> Entry(F, i, j)
    ensures DenseFastEntry(F, i, j) <==> Entry(F, i, j)
  {
    if 0 <= i < |F| && 0 <= j < |F| {
      FaceIffSubset(F[i].vert, F[j].vert);
      assert FirstWith(F, i) && LastWith(F, i);
    }
  }

  /** `boundary_matrix_sparse_fast` then lists, in each column j, exactly
      the rows i with dense entry M[i][j] == 1, ascending. */
  lemma SparseFastIsBoundary(F: seq<Simplex>)
    requires Complex(F)
    ensures SparseFastColumns(F) == BoundaryColumns(F)
  {
    forall j | 0 <= j < |F| ensures SparseFastColumn(F, j) == EntryRows(F, j, |F|) {
      SparseFastColumnSpec(F, j);
      forall x ensures x in SparseFastColumn(F, j) <==> x in EntryRows(F, j, |F|) {
        FastEntriesAreEntries(F, x, j);
      }
      AscendingUnique(SparseFastColumn(F, j), EntryRows(F, j, |F|));
    }
  }

  /** The fast dense builder, too, computes the dense boundary matrix there. */
  lemma DenseFastIsBoundary(F: seq<Simplex>)
    requires Complex(F)
    ensures forall i, j :: 0 <= i < |F| && 0 <= j < |F| ==> (DenseFastEntry(F, i, j) <==> Entry(F, i, j))
  {
    forall i, j | 0 <= i < |F| && 0 <= j < |F| ensures DenseFastEntry(F, i, j) <==> Entry(F, i, j) {
      FastEntriesAreEntries(F, i, j);
    }
  }

  /** Where the hypotheses fail the builders differ. With a repeated vertex
      set {0}, the sparse builder takes its last position and the dense fast
      builder its first, while the subset scan takes both. */
  lemma DuplicateVertexSets()
    ensures var F := [Simplex(0, 0.0, [0]), Simplex(0, 1.0, [0]), Simplex(0, 0.0, [1]), Simplex(1, 2.0, [0, 1])];
      && SparseFastEntry(F, 1, 3) && !SparseFastEntry(F, 0, 3)
      && DenseFastEntry(F, 0, 3) && !DenseFastEntry(F, 1, 3)
      && Entry(F, 0, 3) && Entry(F, 1, 3)
  {
    var F := [Simplex(0, 0.0, [0]), Simplex(0, 1.0, [0]), Simplex(0, 0.0, [1]), Simplex(1, 2.0, [0, 1])];
    assert RemoveAt([0, 1], 1) == [0];
    assert F[1].vert == F[0].vert;
  }

  /** A facet listed after its cofacet: the fast builders, with no i < j
      test, still record it; the subset scan does not. */
  lemma FacetAfterCofacet()
    ensures var F := [Simplex(1, 0.0, [0, 1]), Simplex(0, 0.0, [0])];
      && SparseFastEntry(F, 1, 0) && DenseFastEntry(F, 1, 0) && !Entry(F, 1, 0)
  {
    var F := [Simplex(1, 0.0, [0, 1]), Simplex(0, 0.0, [0])];
    assert RemoveAt([0, 1], 1) == [0];
  }
}
