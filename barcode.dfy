/** Barcode extraction from a reduced boundary matrix: the writers of
    barcode.cpp and main.cpp, modelled as returning the sequence of
    intervals they would write, one per output line.

    A nonzero reduced column j pairs its low row i with j and gives the
    finite interval (dim[j] - 1, val[i], val[j]); a zero column j that is no
    column's low gives the infinite interval (dim[j], val[j], inf). All the
    finite intervals come first, in column order, then the infinite ones. */
module Barcode {
  import opened Ordered
  import opened GaussianElimination

  /** The third field of an output line: a value or `inf`. */
  datatype Death = Finite(at: real) | Inf

  /** One output line `k birth death`. */
  datatype Interval = Interval(dim: int, birth: real, death: Death)

  /** What the writers read without bounds checks: a dimension and a value
      per column, and every nonzero column's low row is a column index. */
  predicate Writable(C: seq<seq<int>>, dim: seq<int>, val: seq<real>) {
    && |dim| >= |C| && |val| >= |C|
    && forall j :: 0 <= j < |C| && C[j] != [] ==> 0 <= Last(C[j]) < |C|
  }

  lemma WellFormedWritable(C: seq<seq<int>>, dim: seq<int>, val: seq<real>)
    requires WellFormed(C) && |dim| >= |C| && |val| >= |C|
    ensures Writable(C, dim, val)
  {
    forall j | 0 <= j < |C| && C[j] != [] ensures 0 <= Last(C[j]) < |C| {
      assert Last(C[j]) in C[j];
    }
  }

  // ---------------------------------------------------------------------
  // The barcode as a function of the reduced columns.

  /** The rows flagged in `row_used_as_pivot` after the first k columns. */
  function LowsBelow(C: seq<seq<int>>, k: nat): set<int>
    requires k <= |C|
  {
    if k == 0 then {}
    else LowsBelow(C, k - 1) + (if C[k - 1] != [] then {Last(C[k - 1])} else {})
  }

  /** The rows that are some column's low. */
  function Lows(C: seq<seq<int>>): set<int> {
    LowsBelow(C, |C|)
  }

  /** A row is flagged iff it is the low of a nonzero column below k. */
  lemma {:induction false} LowsBelowMembers(C: seq<seq<int>>, k: nat, x: int)
    requires k <= |C|
    ensures x in LowsBelow(C, k) <==> exists j :: 0 <= j < k && C[j] != [] && Last(C[j]) == x
  {
    if k > 0 {
      LowsBelowMembers(C, k - 1, x);
    }
  }

  /** The interval a nonzero column j gives. */
  function FiniteOf(C: seq<seq<int>>, dim: seq<int>, val: seq<real>, j: int): Interval
    requires Writable(C, dim, val) && 0 <= j < |C| && C[j] != []
  {
    Interval(dim[j] - 1, val[Last(C[j])], Finite(val[j]))
  }

  /** The interval an unclaimed zero column j gives. */
  function InfiniteOf(dim: seq<int>, val: seq<real>, j: int): Interval
    requires 0 <= j < |dim| && j < |val|
  {
    Interval(dim[j], val[j], Inf)
  }

  /** An index whose column is zero and which is no column's low. */
  predicate Unclaimed(C: seq<seq<int>>, j: int)
    requires 0 <= j < |C|
  {
    C[j] == [] && j !in Lows(C)
  }

  /** The lines of the first loop, for the columns below k. */
  function Finites(C: seq<seq<int>>, dim: seq<int>, val: seq<real>, k: nat): seq<Interval>
    requires Writable(C, dim, val) && k <= |C|
  {
    if k == 0 then []
    else Finites(C, dim, val, k - 1) + (if C[k - 1] != [] then [FiniteOf(C, dim, val, k - 1)] else [])
  }

  /** The lines of the second loop, for the indices below k. */
  function Infinites(C: seq<seq<int>>, dim: seq<int>, val: seq<real>, k: nat): seq<Interval>
    requires Writable(C, dim, val) && k <= |C|
  {
    if k == 0 then []
    else Infinites(C, dim, val, k - 1) + (if Unclaimed(C, k - 1) then [InfiniteOf(dim, val, k - 1)] else [])
  }

  /** The barcode of reduced columns C: the finite intervals in column order,
      then the infinite ones in index order. */
  function BarcodeOf(C: seq<seq<int>>, dim: seq<int>, val: seq<real>): seq<Interval>
    requires Writable(C, dim, val)
  {
    Finites(C, dim, val, |C|) + Infinites(C, dim, val, |C|)
  }

  // ---------------------------------------------------------------------
  // What the barcode contains.

  /** One finite interval per nonzero column, and nothing else. */
  lemma {:induction false} FinitesMembers(C: seq<seq<int>>, dim: seq<int>, val: seq<real>, k: nat)
    requires Writable(C, dim, val) && k <= |C|
    ensures forall t :: t in Finites(C, dim, val, k) <==>
      exists j :: 0 <= j < k && C[j] != [] && t == FiniteOf(C, dim, val, j)
    ensures forall t :: t in Finites(C, dim, val, k) ==> t.death.Finite?
  {
    if k > 0 {
      FinitesMembers(C, dim, val, k - 1);
    }
  }

  /** One infinite interval per unclaimed index, and nothing else. */
  lemma {:induction false} InfinitesMembers(C: seq<seq<int>>, dim: seq<int>, val: seq<real>, k: nat)
    requires Writable(C, dim, val) && k <= |C|
    ensures forall t :: t in Infinites(C, dim, val, k) <==>
      exists j :: 0 <= j < k && Unclaimed(C, j) && t == InfiniteOf(dim, val, j)
    ensures forall t :: t in Infinites(C, dim, val, k) ==> t.death == Inf
  {
    if k > 0 {
      InfinitesMembers(C, dim, val, k - 1);
    }
  }

  /** The barcode holds exactly the intervals of the nonzero columns and of
      the unclaimed zero columns, and every finite interval comes before
      every infinite one. */
  lemma BarcodeMembers(C: seq<seq<int>>, dim: seq<int>, val: seq<real>)
    requires Writable(C, dim, val)
    ensures forall t :: t in BarcodeOf(C, dim, val) <==>
      || (exists j :: 0 <= j < |C| && C[j] != [] && t == FiniteOf(C, dim, val, j))
      || (exists j :: 0 <= j < |C| && Unclaimed(C, j) && t == InfiniteOf(dim, val, j))
    ensures forall p, q :: 0 <= p < q < |BarcodeOf(C, dim, val)| && BarcodeOf(C, dim, val)[p].death == Inf ==>
      BarcodeOf(C, dim, val)[q].death == Inf
  {
    var F := Finites(C, dim, val, |C|);
    var I := Infinites(C, dim, val, |C|);
    FinitesMembers(C, dim, val, |C|);
    InfinitesMembers(C, dim, val, |C|);
    var B := BarcodeOf(C, dim, val);
    assert forall p :: 0 <= p < |F| ==> B[p] == F[p] && F[p] in F;
    forall p, q | 0 <= p < q < |B| && B[p].death == Inf ensures B[q].death == Inf {
      assert B[q] == I[q - |F|];
    }
  }

  /** The barcode depends on the reduced columns only through which of them
      are zero and what their lows are. */
  lemma {:induction false} FinitesDependOnLows(C: seq<seq<int>>, D: seq<seq<int>>, dim: seq<int>, val: seq<real>, k: nat)
    requires Writable(C, dim, val) && Writable(D, dim, val) && |C| == |D| && k <= |C|
    requires forall j :: 0 <= j < |C| ==> (C[j] == []) == (D[j] == [])
    requires forall j :: 0 <= j < |C| && C[j] != [] ==> Last(C[j]) == Last(D[j])
    ensures Finites(C, dim, val, k) == Finites(D, dim, val, k)
    ensures LowsBelow(C, k) == LowsBelow(D, k)
  {
    if k > 0 {
      FinitesDependOnLows(C, D, dim, val, k - 1);
    }
  }

  lemma {:induction false} InfinitesDependOnLows(C: seq<seq<int>>, D: seq<seq<int>>, dim: seq<int>, val: seq<real>, k: nat)
    requires Writable(C, dim, val) && Writable(D, dim, val) && |C| == |D| && k <= |C|
    requires forall j :: 0 <= j < |C| ==> (C[j] == []) == (D[j] == [])
    requires Lows(C) == Lows(D)
    ensures Infinites(C, dim, val, k) == Infinites(D, dim, val, k)
  {
    if k > 0 {
      InfinitesDependOnLows(C, D, dim, val, k - 1);
    }
  }

  lemma BarcodeDependsOnLows(C: seq<seq<int>>, D: seq<seq<int>>, dim: seq<int>, val: seq<real>)
    requires Writable(C, dim, val) && Writable(D, dim, val) && |C| == |D|
    requires forall j :: 0 <= j < |C| ==> (C[j] == []) == (D[j] == [])
    requires forall j :: 0 <= j < |C| && C[j] != [] ==> Last(C[j]) == Last(D[j])
    ensures BarcodeOf(C, dim, val) == BarcodeOf(D, dim, val)
  {
    FinitesDependOnLows(C, D, dim, val, |C|);
    InfinitesDependOnLows(C, D, dim, val, |C|);
  }

  /** When every column's rows lie above the diagonal and the values do not
      decrease with the index, every finite interval is born no later than
      it dies, since its birth row comes before its column. */
  lemma BirthBeforeDeath(C: seq<seq<int>>, dim: seq<int>, val: seq<real>)
    requires Writable(C, dim, val)
    requires forall j, x :: 0 <= j < |C| && x in C[j] ==> x < j
    requires forall i, j :: 0 <= i < j < |C| ==> val[i] <= val[j]
    ensures forall t :: t in BarcodeOf(C, dim, val) && t.death.Finite? ==> t.birth <= t.death.at
  {
    BarcodeMembers(C, dim, val);
    forall t | t in BarcodeOf(C, dim, val) && t.death.Finite? ensures t.birth <= t.death.at {
      if exists j :: 0 <= j < |C| && C[j] != [] && t == FiniteOf(C, dim, val, j) {
        var j :| 0 <= j < |C| && C[j] != [] && t == FiniteOf(C, dim, val, j);
        assert Last(C[j]) < j;
      }
    }
  }

  // ---------------------------------------------------------------------
  // How many intervals.

  /** The number of nonzero columns below k. */
  function NonzeroCount(C: seq<seq<int>>, k: nat): nat
    requires k <= |C|
  {
    if k == 0 then 0 else NonzeroCount(C, k - 1) + (if C[k - 1] != [] then 1 else 0)
  }

  /** The number of unclaimed indices below k. */
  function UnclaimedCount(C: seq<seq<int>>, k: nat): nat
    requires k <= |C|
  {
    if k == 0 then 0 else UnclaimedCount(C, k - 1) + (if Unclaimed(C, k - 1) then 1 else 0)
  }

  /** The number of members of S below k. */
  function CountIn(S: set<int>, k: nat): nat {
    if k == 0 then 0 else CountIn(S, k - 1) + (if k - 1 in S then 1 else 0)
  }

  lemma {:induction false} FinitesCount(C: seq<seq<int>>, dim: seq<int>, val: seq<real>, k: nat)
    requires Writable(C, dim, val) && k <= |C|
    ensures |Finites(C, dim, val, k)| == NonzeroCount(C, k)
  {
    if k > 0 {
      FinitesCount(C, dim, val, k - 1);
    }
  }

  lemma {:induction false} InfinitesCount(C: seq<seq<int>>, dim: seq<int>, val: seq<real>, k: nat)
    requires Writable(C, dim, val) && k <= |C|
    ensures |Infinites(C, dim, val, k)| == UnclaimedCount(C, k)
  {
    if k > 0 {
      InfinitesCount(C, dim, val, k - 1);
    }
  }

  lemma {:induction false} CountInSame(S: set<int>, T: set<int>, k: nat)
    requires forall x :: 0 <= x < k ==> (x in S <==> x in T)
    ensures CountIn(S, k) == CountIn(T, k)
  {
    if k > 0 {
      CountInSame(S, T, k - 1);
    }
  }

  /** A set of indices below k has CountIn(S, k) members. */
  lemma {:induction false} CountInCard(S: set<int>, k: nat)
    requires forall x :: x in S ==> 0 <= x < k
    ensures |S| == CountIn(S, k)
  {
    if k > 0 {
      var S' := S - {k - 1};
      CountInCard(S', k - 1);
      CountInSame(S, S', k - 1);
      if k - 1 in S {
        assert S == S' + {k - 1};
      } else {
        assert S == S';
      }
    } else {
      assert forall x :: x !in S;
      assert S == {};
    }
  }

  /** With distinct lows, there are as many low rows as nonzero columns. */
  lemma {:induction false} LowsCount(C: seq<seq<int>>, k: nat)
    requires DistinctLows(C) && k <= |C|
    ensures |LowsBelow(C, k)| == NonzeroCount(C, k)
  {
    if k > 0 {
      LowsCount(C, k - 1);
      if C[k - 1] != [] {
        var x := Last(C[k - 1]);
        forall j | 0 <= j < k - 1 && C[j] != [] ensures Last(C[j]) != x {
        }
        LowsBelowMembers(C, k - 1, x);
        assert x !in LowsBelow(C, k - 1);
        assert LowsBelow(C, k) == LowsBelow(C, k - 1) + {x};
      } else {
        assert LowsBelow(C, k) == LowsBelow(C, k - 1);
      }
    }
  }

  /** When low rows have zero columns, every index is exactly one of: a
      nonzero column, an unclaimed zero column, a low row. */
  lemma {:induction false} IndicesSplit(C: seq<seq<int>>, k: nat)
    requires k <= |C|
    requires forall j :: 0 <= j < |C| && C[j] != [] && 0 <= Last(C[j]) < |C| ==> C[Last(C[j])] == []
    requires forall j :: 0 <= j < |C| && C[j] != [] ==> 0 <= Last(C[j]) < |C|
    ensures NonzeroCount(C, k) + UnclaimedCount(C, k) + CountIn(Lows(C), k) == k
  {
    if k > 0 {
      IndicesSplit(C, k - 1);
      if C[k - 1] != [] {
        LowsBelowMembers(C, |C|, k - 1);
        if k - 1 in Lows(C) {
          var j :| 0 <= j < |C| && C[j] != [] && Last(C[j]) == k - 1;
        }
      }
    }
  }

  /** The interval count of a reduced matrix in which every low row's own
      column is zero (as in the reduced boundary matrix of a complex): each
      finite interval uses two indices, each infinite one uses one, so the
      barcode has n minus the number of finite intervals, which is fewer
      than n as soon as one column is nonzero. */
  lemma BarcodeCount(C: seq<seq<int>>, dim: seq<int>, val: seq<real>)
    requires Writable(C, dim, val) && DistinctLows(C)
    requires forall j :: 0 <= j < |C| && C[j] != [] ==> C[Last(C[j])] == []
    ensures 2 * |Finites(C, dim, val, |C|)| + |Infinites(C, dim, val, |C|)| == |C|
    ensures |BarcodeOf(C, dim, val)| == |C| - NonzeroCount(C, |C|)
  {
    var n := |C|;
    FinitesCount(C, dim, val, n);
    InfinitesCount(C, dim, val, n);
    LowsCount(C, n);
    IndicesSplit(C, n);
    forall x | x in Lows(C) ensures 0 <= x < n {
      LowsBelowMembers(C, n, x);
    }
    CountInCard(Lows(C), n);
  }

  /** Two vertices joined by an edge: one finite and one infinite interval,
      two lines for three simplices. */
  lemma EdgeBarcode(dim: seq<int>, val: seq<real>)
    requires |dim| >= 3 && |val| >= 3
    requires dim[0] == 0 && dim[1] == 0 && dim[2] == 1
    requires val[0] == 1.0 && val[1] == 2.0 && val[2] == 3.0
    ensures Writable([[], [], [0, 1]], dim, val)
    ensures BarcodeOf([[], [], [0, 1]], dim, val) ==
      [Interval(0, 2.0, Finite(3.0)), Interval(0, 1.0, Inf)]
  {
    var C: seq<seq<int>> := [[], [], [0, 1]];
    assert Last(C[2]) == 1;
    assert Writable(C, dim, val);
    assert LowsBelow(C, 2) == LowsBelow(C, 1) == {};
    assert Lows(C) == {1};
    assert Finites(C, dim, val, 1) == Finites(C, dim, val, 0) == [];
    assert Finites(C, dim, val, 2) == Finites(C, dim, val, 1);
    assert Finites(C, dim, val, 3) == [Interval(0, 2.0, Finite(3.0))];
    assert Unclaimed(C, 0) && !Unclaimed(C, 1) && !Unclaimed(C, 2);
    assert Infinites(C, dim, val, 1) == [Interval(0, 1.0, Inf)];
    assert Infinites(C, dim, val, 2) == Infinites(C, dim, val, 1);
    assert Infinites(C, dim, val, 3) == Infinites(C, dim, val, 2);
  }

  // ---------------------------------------------------------------------
  // The writers.

  /** `write_barcode_from_reduced_sparse` of main.cpp, over reduced columns:
      the first loop flags `row_used_as_pivot` at each nonzero column's
      `back()` and writes its finite interval, the second writes an
      infinite interval per zero, unflagged column. */
  method WriteBarcodeColumns(cols: seq<seq<int>>, dim: seq<int>, val: seq<real>) returns (bars: seq<Interval>)
    requires Writable(cols, dim, val)
    ensures bars == BarcodeOf(cols, dim, val)
  {
    var n := |cols|;
    if n == 0 {
      return [];
    }
    var used := seq(n, _ => false);
    bars := [];
    for j := 0 to n
      invariant |used| == n
      invariant forall r :: 0 <= r < n ==> (used[r] <==> r in LowsBelow(cols, j))
      invariant bars == Finites(cols, dim, val, j)
    {
      if cols[j] != [] {
        var i := Last(cols[j]);
        used := used[i := true];
        var k := dim[j] - 1;
        bars := bars + [Interval(k, val[i], Finite(val[j]))];
      }
    }
    ghost var fin := bars;
    for j := 0 to n
      invariant forall r :: 0 <= r < n ==> (used[r] <==> r in Lows(cols))
      invariant bars == fin + Infinites(cols, dim, val, j)
    {
      if cols[j] == [] && !used[j] {
        var k := dim[j];
        bars := bars + [Interval(k, val[j], Inf)];
      }
    }
  }

  /** Columns `C` have, column by column, the lows of the byte matrix. */
  ghost predicate LowsMatch(M: array2<bv8>, C: seq<seq<int>>)
    reads M
  {
    && |C| <= M.Length1
    && forall j {:trigger NonzeroRows(Bits(M)[j])} :: 0 <= j < |C| ==> Low(C[j]) == Low(NonzeroRows(Bits(M)[j]))
  }

  /** `lowest_one` of barcode.cpp, the same scan as
      GaussianElimination.LowestOne: the low of column j, stated on any
      columns with the matrix's lows. */
  method ColumnLow(M: array2<bv8>, j: int, ghost C: seq<seq<int>>) returns (i: int)
    requires 0 <= j < |C| && LowsMatch(M, C)
    ensures i == Low(C[j])
  {
    i := LowestOne(M, j);
  }

  /** The sparse view of a square matrix, linked to the bytes through the
      lows only. */
  lemma DenseView(M: array2<bv8>, dim: seq<int>, val: seq<real>) returns (C: seq<seq<int>>)
    requires M.Length0 == M.Length1 && |dim| >= M.Length0 && |val| >= M.Length0
    ensures |C| == M.Length0 && Writable(C, dim, val) && LowsMatch(M, C)
  {
    C := DenseColumns(M);
    WellFormedWritable(C, dim, val);
  }

  /** Columns with the matrix's lows have the matrix's barcode. */
  lemma DenseViewBarcode(M: array2<bv8>, C: seq<seq<int>>, dim: seq<int>, val: seq<real>)
    requires M.Length0 == M.Length1
    requires |C| == M.Length0 && Writable(C, dim, val) && LowsMatch(M, C)
    ensures Writable(DenseColumns(M), dim, val)
    ensures BarcodeOf(C, dim, val) == BarcodeOf(DenseColumns(M), dim, val)
  {
    var D := DenseColumns(M);
    WellFormedWritable(D, dim, val);
    forall j | 0 <= j < |C| ensures (C[j] == []) == (D[j] == []) && (C[j] != [] ==> Last(C[j]) == Last(D[j])) {
      assert D[j] == NonzeroRows(Bits(M)[j]);
    }
    BarcodeDependsOnLows(C, D, dim, val);
  }

  /** `write_barcode_from_reduced_dense` of barcode.cpp over a square byte
      matrix, with `lowest_one` called in both loops. */
  method WriteBarcodeDense(M: array2<bv8>, dim: seq<int>, val: seq<real>) returns (bars: seq<Interval>)
    requires M.Length0 == M.Length1 && |dim| >= M.Length0 && |val| >= M.Length0
    ensures Writable(DenseColumns(M), dim, val)
    ensures bars == BarcodeOf(DenseColumns(M), dim, val)
  {
    ghost var C := DenseView(M, dim, val);
    var n := M.Length0;
    if n == 0 {
      DenseViewBarcode(M, C, dim, val);
      return [];
    }
    var used := seq(n, _ => false);
    bars := [];
    for j := 0 to n
      invariant |used| == n
      invariant forall r :: 0 <= r < n ==> (used[r] <==> r in LowsBelow(C, j))
      invariant bars == Finites(C, dim, val, j)
    {
      var i := ColumnLow(M, j, C);
      if i != NONE {
        used := used[i := true];
        var k := dim[j] - 1;
        bars := bars + [Interval(k, val[i], Finite(val[j]))];
      }
    }
    assert |C| == n;
    ghost var fin := bars;
    for j := 0 to n
      invariant forall r :: 0 <= r < n ==> (used[r] <==> r in Lows(C))
      invariant bars == fin + Infinites(C, dim, val, j)
    {
      var i := ColumnLow(M, j, C);
      if i == NONE && !used[j] {
        var k := dim[j];
        bars := bars + [Interval(k, val[j], Inf)];
      }
    }
    DenseViewBarcode(M, C, dim, val);
  }

  // ---------------------------------------------------------------------
  // The entries-based writer of barcode.cpp.

  /** `n` after the inference loop: one more than the largest index in any
      entry, or 0 for no entries. */
  function InferredSize(entries: seq<(int, int)>): (n: nat)
    requires forall k :: 0 <= k < |entries| ==> entries[k].0 >= 0 && entries[k].1 >= 0
  {
    if entries == [] then 0
    else
      var e := entries[|entries| - 1];
      var m := InferredSize(entries[..|entries| - 1]);
      var top := (if e.0 < e.1 then e.1 else e.0) + 1;
      if m < top then top else m
  }

  /** Every entry lies inside the inferred size, and the size is attained. */
  lemma {:induction false} InferredSizeSpec(entries: seq<(int, int)>)
    requires forall k :: 0 <= k < |entries| ==> entries[k].0 >= 0 && entries[k].1 >= 0
    ensures forall k :: 0 <= k < |entries| ==> entries[k].0 < InferredSize(entries) && entries[k].1 < InferredSize(entries)
    ensures entries != [] ==>
      exists k :: 0 <= k < |entries| && (entries[k].0 + 1 == InferredSize(entries) || entries[k].1 + 1 == InferredSize(entries))
  {
    if entries != [] {
      var init := entries[..|entries| - 1];
      InferredSizeSpec(init);
      assert forall k :: 0 <= k < |init| ==> init[k] == entries[k];
    }
  }

  /** The rows `push_back`ed into `cols[j]`, in entry order. */
  function EntryRows(entries: seq<(int, int)>, j: int): (rows: seq<int>)
    ensures forall x :: x in rows <==> (x, j) in entries
  {
    if entries == [] then []
    else
      var init := entries[..|entries| - 1];
      var e := entries[|entries| - 1];
      assert entries == init + [e];
      EntryRows(init, j) + (if e.1 == j then [e.0] else [])
  }

  /** The per-column row lists an n-column writer rebuilds from entries,
      each sorted. */
  function SizedColumns(entries: seq<(int, int)>, n: nat): (C: seq<seq<int>>)
    ensures |C| == n
    ensures forall j :: 0 <= j < n ==> C[j] == SortInts(EntryRows(entries, j))
  {
    seq(n, j requires 0 <= j < n => SortInts(EntryRows(entries, j)))
  }

  /** Entries that are row/column indices below n. */
  predicate EntriesBelow(entries: seq<(int, int)>, n: int) {
    forall k :: 0 <= k < |entries| ==> 0 <= entries[k].0 < n && 0 <= entries[k].1 < n
  }

  /** Rebuilt columns are sorted, hold exactly the entries' rows, and have
      their largest row last. */
  lemma SizedColumnsSpec(entries: seq<(int, int)>, n: nat, dim: seq<int>, val: seq<real>)
    requires EntriesBelow(entries, n) && |dim| >= n && |val| >= n
    ensures forall j, x :: 0 <= j < n ==> (x in SizedColumns(entries, n)[j] <==> (x, j) in entries)
    ensures forall j :: 0 <= j < n ==> NonDecreasing(SizedColumns(entries, n)[j])
    ensures Writable(SizedColumns(entries, n), dim, val)
  {
    var C := SizedColumns(entries, n);
    forall j, x | 0 <= j < n ensures x in C[j] <==> (x, j) in entries {
      assert x in C[j] <==> x in multiset(C[j]);
      assert x in EntryRows(entries, j) <==> x in multiset(EntryRows(entries, j));
    }
    forall j | 0 <= j < n && C[j] != [] ensures 0 <= Last(C[j]) < n {
      assert (Last(C[j]), j) in entries;
    }
  }

  /** `cols[e[1]].push_back(e[0])` for every entry, in entry order. */
  method GatherColumns(entries: seq<(int, int)>, n: nat) returns (cols: seq<seq<int>>)
    requires EntriesBelow(entries, n)
    ensures |cols| == n
    ensures forall j :: 0 <= j < n ==> cols[j] == EntryRows(entries, j)
  {
    cols := seq(n, _ => []);
    for k := 0 to |entries|
      invariant |cols| == n
      invariant forall j :: 0 <= j < n ==> cols[j] == EntryRows(entries[..k], j)
    {
      var e := entries[k];
      assert entries[..k + 1] == entries[..k] + [e];
      assert entries[..k + 1][..k] == entries[..k];
      cols := cols[e.1 := cols[e.1] + [e.0]];
    }
    assert entries[..|entries|] == entries;
  }

  /** `std::sort` on every column list. */
  method SortColumns(cols: seq<seq<int>>) returns (sorted: seq<seq<int>>)
    ensures |sorted| == |cols|
    ensures forall j :: 0 <= j < |cols| ==> sorted[j] == SortInts(cols[j])
  {
    sorted := cols;
    for j := 0 to |cols|
      invariant |sorted| == |cols|
      invariant forall q :: 0 <= q < j ==> sorted[q] == SortInts(cols[q])
      invariant forall q :: j <= q < |cols| ==> sorted[q] == cols[q]
    {
      sorted := sorted[j := SortInts(sorted[j])];
    }
  }

  /** The writer with the size given, as the loops after the inference
      step use it (barcode.cpp:70-96): build the column lists by
      `push_back`, sort each, then the two loops of the column writer. */
  method WriteBarcodeEntriesSized(entries: seq<(int, int)>, n: nat, dim: seq<int>, val: seq<real>) returns (bars: seq<Interval>)
    requires EntriesBelow(entries, n) && |dim| >= n && |val| >= n
    ensures Writable(SizedColumns(entries, n), dim, val)
    ensures bars == BarcodeOf(SizedColumns(entries, n), dim, val)
  {
    var cols := GatherColumns(entries, n);
    cols := SortColumns(cols);
    assert cols == SizedColumns(entries, n);
    SizedColumnsSpec(entries, n, dim, val);
    bars := WriteBarcodeColumns(cols, dim, val);
  }

  /** The barcode the entries writer writes: nothing for no entries, else
      the barcode of the columns rebuilt at the inferred size. */
  function EntriesBarcode(entries: seq<(int, int)>, dim: seq<int>, val: seq<real>): seq<Interval>
    requires forall k :: 0 <= k < |entries| ==> entries[k].0 >= 0 && entries[k].1 >= 0
    requires |dim| >= InferredSize(entries) && |val| >= InferredSize(entries)
  {
    InferredSizeSpec(entries);
    SizedColumnsSpec(entries, InferredSize(entries), dim, val);
    if entries == [] then [] else BarcodeOf(SizedColumns(entries, InferredSize(entries)), dim, val)
  }

  /** `write_barcode_from_reduced_sparse` of barcode.cpp: returns at once
      for no entries, otherwise infers n and writes the rebuilt columns'
      barcode. */
  method WriteBarcodeEntries(entries: seq<(int, int)>, dim: seq<int>, val: seq<real>) returns (bars: seq<Interval>)
    requires forall k :: 0 <= k < |entries| ==> entries[k].0 >= 0 && entries[k].1 >= 0
    requires |dim| >= InferredSize(entries) && |val| >= InferredSize(entries)
    ensures bars == EntriesBarcode(entries, dim, val)
  {
    if entries == [] {
      return [];
    }
    var n := 0;
    for k := 0 to |entries|
      invariant n == InferredSize(entries[..k])
    {
      var e := entries[k];
      assert entries[..k + 1][..k] == entries[..k];
      var top := (if e.0 < e.1 then e.1 else e.0) + 1;
      if n < top {
        n := top;
      }
    }
    assert entries[..|entries|] == entries;
    InferredSizeSpec(entries);
    bars := WriteBarcodeEntriesSized(entries, n, dim, val);
  }

  /** Given the number of simplices as the size, the rebuilt columns of
      the entries of reduced columns C give C's barcode, trailing simplices
      included. */
  lemma SizedColumnsAgree(entries: seq<(int, int)>, C: seq<seq<int>>, dim: seq<int>, val: seq<real>)
    requires WellFormed(C) && |dim| >= |C| && |val| >= |C|
    requires EntriesBelow(entries, |C|)
    requires forall x, j :: (x, j) in entries <==> 0 <= j < |C| && x in C[j]
    ensures Writable(C, dim, val) && Writable(SizedColumns(entries, |C|), dim, val)
    ensures BarcodeOf(SizedColumns(entries, |C|), dim, val) == BarcodeOf(C, dim, val)
  {
    var n := |C|;
    var D := SizedColumns(entries, n);
    WellFormedWritable(C, dim, val);
    SizedColumnsSpec(entries, n, dim, val);
    forall j | 0 <= j < n ensures (D[j] == []) == (C[j] == []) && (D[j] != [] ==> Last(D[j]) == Last(C[j])) {
      assert forall x :: x in D[j] <==> x in C[j];
      if D[j] != [] {
        assert Last(C[j]) in D[j] && Last(D[j]) in C[j];
        LastIsMax(D[j]);
        AscendingNonDecreasing(C[j]);
        LastIsMax(C[j]);
      }
    }
    BarcodeDependsOnLows(D, C, dim, val);
  }

  lemma AscendingNonDecreasing(s: seq<int>)
    requires Ascending(s)
    ensures NonDecreasing(s)
  {
  }

  /** When the inferred size is the number of columns, the entries writer
      writes the barcode of the columns the entries list. */
  lemma EntriesAgreeWithColumns(entries: seq<(int, int)>, C: seq<seq<int>>, dim: seq<int>, val: seq<real>)
    requires WellFormed(C) && |dim| >= |C| && |val| >= |C|
    requires forall k :: 0 <= k < |entries| ==> entries[k].0 >= 0 && entries[k].1 >= 0
    requires forall x, j :: (x, j) in entries <==> 0 <= j < |C| && x in C[j]
    requires InferredSize(entries) == |C|
    ensures Writable(C, dim, val)
    ensures EntriesBarcode(entries, dim, val) == BarcodeOf(C, dim, val)
  {
    InferredSizeSpec(entries);
    SizedColumnsAgree(entries, C, dim, val);
  }

  /** The inferred size drops trailing simplices that are in no entry: for
      two vertices, the edge between them and a third vertex, the third
      vertex's infinite interval is not written. */
  lemma EntriesDropTrailingSimplex()
    ensures InferredSize([(0, 2), (1, 2)]) == 3
    ensures Writable([[], [], [0, 1], []], [0, 0, 1, 0], [1.0, 2.0, 3.0, 4.0])
    ensures EntriesBarcode([(0, 2), (1, 2)], [0, 0, 1, 0], [1.0, 2.0, 3.0, 4.0]) ==
      [Interval(0, 2.0, Finite(3.0)), Interval(0, 1.0, Inf)]
    ensures BarcodeOf([[], [], [0, 1], []], [0, 0, 1, 0], [1.0, 2.0, 3.0, 4.0]) ==
      [Interval(0, 2.0, Finite(3.0)), Interval(0, 1.0, Inf), Interval(0, 4.0, Inf)]
  {
    EdgeEntriesBarcode();
    TrailingVertexBarcode();
  }

  /** A filtration of one vertex has no entries, so the entries writer
      writes nothing, where its barcode is one infinite interval. */
  lemma EntriesDropLoneVertex()
    ensures Writable([[]], [0], [1.0])
    ensures EntriesBarcode([], [0], [1.0]) == []
    ensures BarcodeOf([[]], [0], [1.0]) == [Interval(0, 1.0, Inf)]
  {
    var E: seq<seq<int>> := [[]];
    assert Lows(E) == {};
    assert Infinites(E, [0], [1.0], 1) == [Interval(0, 1.0, Inf)];
  }

  /** The entries of the reduced edge filtration list the columns
      [[], [], [0, 1]]. */
  lemma EdgeEntries()
    ensures InferredSize([(0, 2), (1, 2)]) == 3
    ensures WellFormed([[], [], [0, 1]])
    ensures forall x, j :: (x, j) in [(0, 2), (1, 2)] <==> 0 <= j < 3 && x in [[], [], [0, 1]][j]
  {
    var entries: seq<(int, int)> := [(0, 2), (1, 2)];
    var C: seq<seq<int>> := [[], [], [0, 1]];
    assert entries[..1] == [(0, 2)];
    assert InferredSize(entries[..1]) == 3;
    assert Ascending(C[2]);
    forall x, j ensures (x, j) in entries <==> 0 <= j < 3 && x in C[j] {
      assert (x, j) in entries <==> (x == 0 || x == 1) && j == 2;
    }
  }

  lemma EdgeEntriesBarcodeAt(E: seq<(int, int)>, C: seq<seq<int>>, dim: seq<int>, val: seq<real>)
    requires E == [(0, 2), (1, 2)] && C == [[], [], [0, 1]]
    requires dim == [0, 0, 1, 0] && val == [1.0, 2.0, 3.0, 4.0]
    ensures InferredSize(E) == 3
    ensures EntriesBarcode(E, dim, val) == [Interval(0, 2.0, Finite(3.0)), Interval(0, 1.0, Inf)]
  {
    EdgeEntries();
    EntriesAgreeWithColumns(E, C, dim, val);
    EdgeBarcode(dim, val);
  }

  lemma EdgeEntriesBarcode()
    ensures InferredSize([(0, 2), (1, 2)]) == 3
    ensures EntriesBarcode([(0, 2), (1, 2)], [0, 0, 1, 0], [1.0, 2.0, 3.0, 4.0]) ==
      [Interval(0, 2.0, Finite(3.0)), Interval(0, 1.0, Inf)]
  {
    EdgeEntriesBarcodeAt([(0, 2), (1, 2)], [[], [], [0, 1]], [0, 0, 1, 0], [1.0, 2.0, 3.0, 4.0]);
  }

  lemma TrailingVertexBarcode()
    ensures Writable([[], [], [0, 1], []], [0, 0, 1, 0], [1.0, 2.0, 3.0, 4.0])
    ensures BarcodeOf([[], [], [0, 1], []], [0, 0, 1, 0], [1.0, 2.0, 3.0, 4.0]) ==
      [Interval(0, 2.0, Finite(3.0)), Interval(0, 1.0, Inf), Interval(0, 4.0, Inf)]
  {
    var D: seq<seq<int>> := [[], [], [0, 1], []];
    var dim, val := [0, 0, 1, 0], [1.0, 2.0, 3.0, 4.0];
    assert Last(D[2]) == 1;
    assert Writable(D, dim, val);
    assert LowsBelow(D, 2) == LowsBelow(D, 1) == {};
    assert LowsBelow(D, 3) == {1};
    assert Lows(D) == {1};
    assert Finites(D, dim, val, 1) == Finites(D, dim, val, 0) == [];
    assert Finites(D, dim, val, 2) == Finites(D, dim, val, 1);
    assert Finites(D, dim, val, 3) == [Interval(0, 2.0, Finite(3.0))];
    assert Finites(D, dim, val, 4) == Finites(D, dim, val, 3);
    assert Unclaimed(D, 0) && !Unclaimed(D, 1) && !Unclaimed(D, 2) && Unclaimed(D, 3);
    assert Infinites(D, dim, val, 1) == [Interval(0, 1.0, Inf)];
    assert Infinites(D, dim, val, 2) == Infinites(D, dim, val, 1);
    assert Infinites(D, dim, val, 3) == Infinites(D, dim, val, 2);
  }
}
