/** The reduction of td4/reduction.py on the set-based sparse matrix:
    `dense_low`, `sparse_low`, `sparse_addMod2`, `value_that_is_lower`,
    `sparse_gaussian_reduction` and `sparse_barcode_builder`.

    The reduction visits the columns in the order in which Python iterates
    the set `matrix.cols()`; that order is the parameter `order`. When it is
    ascending the reduced matrix is exactly `Reduce`, the reduction of the
    C++ reducers. */
module Td4Reduction {
  import opened Ordered
  import opened Wrappers
  import opened Filtration
  import opened GaussianElimination
  import opened BoundaryMatrix
  import opened Td4BoundaryMatrix

  // ---------------------------------------------------------------------
  // `dense_low`.

  /** The last row below k with a nonzero entry in column j, or -1. */
  function LastNonzero(E: seq<seq<int>>, j: int, k: nat): (r: int)
    requires k <= |E| && 0 <= j && forall i :: 0 <= i < |E| ==> j < |E[i]|
    ensures -1 <= r < k
  {
    if k == 0 then -1
    else if E[k - 1][j] != 0 then k - 1
    else LastNonzero(E, j, k - 1)
  }

  lemma {:induction false} LastNonzeroSpec(E: seq<seq<int>>, j: int, k: nat)
    requires k <= |E| && 0 <= j && forall i :: 0 <= i < |E| ==> j < |E[i]|
    ensures LastNonzero(E, j, k) == -1 <==> forall i :: 0 <= i < k ==> E[i][j] == 0
    ensures LastNonzero(E, j, k) != -1 ==>
      && E[LastNonzero(E, j, k)][j] != 0
      && forall i :: LastNonzero(E, j, k) < i < k ==> E[i][j] == 0
  {
    if k > 0 {
      LastNonzeroSpec(E, j, k - 1);
    }
  }

  /** What `dense_low` returns: the last nonzero row of column j, or 0 for a
      zero column. */
  function DenseLowOf(E: seq<seq<int>>, j: int): (r: nat)
    requires 0 <= j && forall i :: 0 <= i < |E| ==> j < |E[i]|
    ensures (forall i :: 0 <= i < |E| ==> E[i][j] == 0) ==> r == 0
    ensures (exists i :: 0 <= i < |E| && E[i][j] != 0) ==>
      r < |E| && E[r][j] != 0 && forall i :: r < i < |E| ==> E[i][j] == 0
  {
    LastNonzeroSpec(E, j, |E|);
    var l := LastNonzero(E, j, |E|);
    if l == -1 then 0 else l
  }

  /** `dense_low`: the forward scan that remembers the last nonzero row. */
  method DenseLow(E: seq<seq<int>>, j: int) returns (low: int)
    requires 0 <= j && forall i :: 0 <= i < |E| ==> j < |E[i]|
    ensures low == DenseLowOf(E, j)
  {
    low := 0;
    for i := 0 to |E|
      invariant low == if LastNonzero(E, j, i) == -1 then 0 else LastNonzero(E, j, i)
    {
      if E[i][j] != 0 {
        low := i;
      }
    }
  }

  /** The value 0 does not tell a zero column from one whose only nonzero
      entry is in row 0: it only says that rows 1 and up are zero. */
  lemma DenseLowConflates(E: seq<seq<int>>, j: int)
    requires |E| > 0 && 0 <= j && forall i :: 0 <= i < |E| ==> j < |E[i]|
    ensures DenseLowOf(E, j) == 0 <==> forall i :: 0 < i < |E| ==> E[i][j] == 0
  {
    LastNonzeroSpec(E, j, |E|);
  }

  // ---------------------------------------------------------------------
  // `sparse_low`, `sparse_addMod2`, `value_that_is_lower`.

  /** The largest row i < k with (i, j) in S, or -1. */
  function SetLow(S: set<(int, int)>, j: int, k: nat): (r: int)
    ensures -1 <= r < k
  {
    if k == 0 then -1
    else if (k - 1, j) in S then k - 1
    else SetLow(S, j, k - 1)
  }

  lemma {:induction false} SetLowSpec(S: set<(int, int)>, j: int, k: nat)
    ensures SetLow(S, j, k) == -1 <==> forall i :: 0 <= i < k ==> (i, j) !in S
    ensures SetLow(S, j, k) != -1 ==>
      && (SetLow(S, j, k), j) in S
      && forall i :: SetLow(S, j, k) < i < k ==> (i, j) !in S
  {
    if k > 0 {
      SetLowSpec(S, j, k - 1);
    }
  }

  /** Two sets that agree on column j have the same low there. */
  lemma {:induction false} SetLowSame(S: set<(int, int)>, T: set<(int, int)>, j: int, k: nat)
    requires forall x :: (x, j) in S <==> (x, j) in T
    ensures SetLow(S, j, k) == SetLow(T, j, k)
  {
    if k > 0 {
      SetLowSame(S, T, j, k - 1);
    }
  }

  /** `sparse_low`: -1 for an empty `column(j)`, else the largest row in it. */
  function SparseLow(M: SparseMatrix, j: int): (r: int)
    reads M
    ensures r == -1 <==> M.Column(j) == {}
    ensures r != -1 ==> (r, j) in M.Column(j) && forall p :: p in M.Column(j) ==> p.0 <= r
  {
    SetLowSpec(M.entries, j, M.m);
    var r := SetLow(M.entries, j, M.m);
    assert forall p :: p in M.Column(j) ==> 0 <= p.0 < M.m && (p.0, j) in M.entries by {
      forall p | p in M.Column(j) ensures 0 <= p.0 < M.m && (p.0, j) in M.entries {
        assert (p.0, j) == p;
      }
    }
    r
  }

  /** `sparse_addMod2`: the symmetric difference, as a new matrix of the
      same size. PairXorLaws states that it commutes and undoes itself. */
  method SparseAddMod2(tab1: SparseMatrix, tab2: set<(int, int)>) returns (diff: SparseMatrix)
    ensures fresh(diff)
    ensures diff.entries == PairXor(tab1.entries, tab2) && diff.m == tab1.m
  {
    diff := tab1.SymmetricDifference(tab2);
  }

  /** A nonempty set has a member; a compiled `:|` over a set of integers
      is given this one as its witness. */
  lemma SomeMember<T>(s: set<T>) returns (x: T)
    requires s != {}
    ensures x in s
  {
    x :| x in s;
  }

  /** The first element of the iteration order `it` below `val`, or None. */
  function FirstBelow(it: seq<int>, val: int): (r: Option<int>)
    ensures r.Some? ==>
      exists k :: 0 <= k < |it| && it[k] == r.value < val && forall x :: x in it[..k] ==> x >= val
    ensures r.None? <==> forall x :: x in it ==> x >= val
  {
    if it == [] then None
    else if it[0] < val then
      assert it[..0] == [];
      assert it[0] in it;
      Some(it[0])
    else
      var r := FirstBelow(it[1..], val);
      assert forall x :: x in it <==> x == it[0] || x in it[1..];
      if r.Some? then
        var k :| 0 <= k < |it[1..]| && it[1..][k] == r.value < val && forall x :: x in it[1..][..k] ==> x >= val;
        assert it[..k + 1] == [it[0]] + it[1..][..k];
        assert it[k + 1] == r.value;
        r
      else r
  }

  /** `value_that_is_lower`: `for el in tab` visits the set in the order
      `it`, and the first element below `val` is returned; None when there
      is none. */
  method ValueThatIsLower(tab: set<int>, val: int, it: seq<int>) returns (r: Option<int>)
    requires forall x :: x in it <==> x in tab
    ensures r == FirstBelow(it, val)
    ensures r.Some? ==> r.value in tab && r.value < val
    ensures r.None? <==> forall x :: x in tab ==> x >= val
  {
    for k := 0 to |it|
      invariant FirstBelow(it[k..], val) == FirstBelow(it, val)
    {
      if it[k] < val {
        return Some(it[k]);
      }
      assert it[k..][1..] == it[k + 1..];
    }
    return None;
  }

  /** The order in which `for el in tab` visits a slot `tab` of
      `low_to_col` while column j is processed on the entries S. CPython
      fixes it from the history of the set; within one run no pair (S, j)
      comes back, so it is a function of them. */
  type SetOrder = (set<(int, int)>, int, set<int>) -> seq<int>

  /** Each order visits exactly the members of its set. */
  ghost predicate Enumerates(ord: SetOrder) {
    forall S, j, tab, x :: x in ord(S, j, tab) <==> x in tab
  }

  // ---------------------------------------------------------------------
  // The matrix as sparse columns.

  /** The rows i < k of column j of S, ascending. */
  function RowList(S: set<(int, int)>, j: int, k: nat): (r: seq<int>)
    ensures Ascending(r)
    ensures forall x :: x in r <==> 0 <= x < k && (x, j) in S
  {
    if k == 0 then []
    else
      var t := RowList(S, j, k - 1);
      if (k - 1, j) in S then
        ConsAscendingRight(t, k - 1);
        t + [k - 1]
      else t
  }

  /** The ascending list of the rows below k of column j is RowList. */
  lemma RowListIs(S: set<(int, int)>, j: int, k: nat, c: seq<int>)
    requires Ascending(c) && forall x :: x in c <==> 0 <= x < k && (x, j) in S
    ensures RowList(S, j, k) == c
  {
    AscendingUnique(RowList(S, j, k), c);
  }

  /** The m columns of S restricted to rows below m. */
  function ColumnsOf(S: set<(int, int)>, m: nat): (C: seq<seq<int>>)
    ensures |C| == m && WellFormed(C)
    ensures forall j :: 0 <= j < m ==> C[j] == RowList(S, j, m)
  {
    seq(m, j => RowList(S, j, m))
  }

  /** The low of a row list is SetLow. */
  lemma {:induction false} RowListLow(S: set<(int, int)>, j: int, k: nat)
    ensures Low(RowList(S, j, k)) == SetLow(S, j, k)
  {
    if k > 0 {
      RowListLow(S, j, k - 1);
    }
  }

  /** Two sets that agree on column j have the same row list there. */
  lemma RowListSame(S: set<(int, int)>, T: set<(int, int)>, j: int, k: nat)
    requires forall x :: (x, j) in S <==> (x, j) in T
    ensures RowList(S, j, k) == RowList(T, j, k)
  {
    AscendingUnique(RowList(S, j, k), RowList(T, j, k));
  }

  /** Every entry lies strictly above the diagonal of an m x m matrix, as
      in what `build_sparse_boundary_matrix` returns. */
  predicate StrictlyUpper(S: set<(int, int)>, m: nat) {
    forall p :: p in S ==> 0 <= p.0 < p.1 < m
  }

  /** The builder's matrix is strictly upper triangular. */
  lemma BoundaryPairsStrictlyUpper(F: seq<Simplex>)
    ensures StrictlyUpper(BoundaryPairs(F), |F|)
  {
  }

  // ---------------------------------------------------------------------
  // `low_to_col`.

  /** The list index `sparse_low` lands on: Python reads index -1 as the
      last slot. */
  function Slot(l: int, m: nat): int {
    if l == -1 then m - 1 else l
  }

  /** Slot r of `low_to_col` holds exactly the columns whose low lands on r. */
  ghost predicate LowToCol(L: seq<set<int>>, S: set<(int, int)>, m: nat) {
    && |L| == m
    && (forall r, k :: 0 <= r < m && k in L[r] ==> 0 <= k < m)
    && (forall r, k :: 0 <= r < m && k in L[r] ==> Slot(SetLow(S, k, m), m) == r)
    && (forall k :: 0 <= k < m ==> k in L[Slot(SetLow(S, k, m), m)])
  }

  /** `low_to_col` as the matrix determines it: slot r holds the columns
      whose low lands on r. */
  function Slots(S: set<(int, int)>, m: nat): (L: seq<set<int>>)
    ensures |L| == m
    ensures forall r, k :: 0 <= r < m ==> (k in L[r] <==> 0 <= k < m && Slot(SetLow(S, k, m), m) == r)
  {
    seq(m, r => set k | 0 <= k < m && Slot(SetLow(S, k, m), m) == r)
  }

  /** A table that is right for S is Slots(S, m), and Slots(S, m) is right. */
  lemma LowToColIsSlots(L: seq<set<int>>, S: set<(int, int)>, m: nat)
    ensures LowToCol(Slots(S, m), S, m)
    ensures LowToCol(L, S, m) ==> L == Slots(S, m)
  {
    var A := Slots(S, m);
    forall k | 0 <= k < m ensures 0 <= Slot(SetLow(S, k, m), m) < m {
    }
    if LowToCol(L, S, m) {
      forall r | 0 <= r < m ensures L[r] == A[r] {
        forall k | k in A[r] ensures k in L[r] {
          assert k in L[Slot(SetLow(S, k, m), m)];
        }
      }
    }
  }

  /** The loop of lines 47-48: every column is added to the slot of its low. */
  method InitLowToCol(M: SparseMatrix) returns (L: seq<set<int>>)
    ensures LowToCol(L, M.entries, M.m)
  {
    var m := M.m;
    L := seq(m, _ => {});
    for j := 0 to m
      invariant |L| == m
      invariant forall r, k :: 0 <= r < m && k in L[r] ==> 0 <= k < j
      invariant forall r, k :: 0 <= r < m && k in L[r] ==> Slot(SetLow(M.entries, k, m), m) == r
      invariant forall k :: 0 <= k < j ==> k in L[Slot(SetLow(M.entries, k, m), m)]
    {
      assert SparseLow(M, j) == SetLow(M.entries, j, m);
      var s := Slot(SparseLow(M, j), m);
      L := L[s := L[s] + {j}];
    }
  }

  /** Moving column j from the slot of its old low to the slot of its new
      low keeps `low_to_col` right when only column j changed. */
  lemma LowToColMove(L: seq<set<int>>, S: set<(int, int)>, T: set<(int, int)>, m: nat, j: int)
    requires LowToCol(L, S, m) && 0 <= j < m
    requires forall x, q :: q != j ==> ((x, q) in S <==> (x, q) in T)
    ensures var a := Slot(SetLow(S, j, m), m);
      var b := Slot(SetLow(T, j, m), m);
      var L1 := L[a := L[a] - {j}];
      LowToCol(L1[b := L1[b] + {j}], T, m)
  {
    var a := Slot(SetLow(S, j, m), m);
    var b := Slot(SetLow(T, j, m), m);
    var L1 := L[a := L[a] - {j}];
    var L2 := L1[b := L1[b] + {j}];
    forall k | 0 <= k < m && k != j ensures SetLow(S, k, m) == SetLow(T, k, m) {
      SetLowSame(S, T, k, m);
    }
    assert forall r :: 0 <= r < m ==> j !in L1[r];
    forall r, k | 0 <= r < m ensures k in L2[r] <==> if k == j then r == b else k in L[r] {
      if r == b {
        assert L2[r] == L1[r] + {j};
      } else {
        assert L2[r] == L1[r];
      }
    }
    forall r, k | 0 <= r < m && k in L2[r] ensures Slot(SetLow(T, k, m), m) == r {
      if k != j {
        assert k in L[r];
      }
    }
    forall k | 0 <= k < m ensures k in L2[Slot(SetLow(T, k, m), m)] {
      if k != j {
        assert k in L[Slot(SetLow(S, k, m), m)];
      }
    }
  }

  // ---------------------------------------------------------------------
  // One column.

  /** Adding into column j the set T of the rows of column i, moved to
      column j: only column j changes, it becomes the symmetric difference of
      the two row lists, and when the columns share their low it goes down. */
  lemma AddColumnEffect(S: set<(int, int)>, T: set<(int, int)>, m: nat, i: int, j: int)
    requires StrictlyUpper(S, m) && 0 <= i < j < m
    requires forall x, q :: (x, q) in T <==> q == j && (x, i) in S && 0 <= x < m
    ensures StrictlyUpper(PairXor(S, T), m)
    ensures SameOffColumn(PairXor(S, T), S, j)
    ensures RowList(PairXor(S, T), j, m) == SymDiff(RowList(S, j, m), RowList(S, i, m))
    ensures 0 <= SetLow(S, i, m) == SetLow(S, j, m) ==> SetLow(PairXor(S, T), j, m) < SetLow(S, j, m)
  {
    var R := PairXor(S, T);
    forall p | p in R ensures 0 <= p.0 < p.1 < m {
      if p in T {
        var x, q := p.0, p.1;
        assert (x, q) == p;
        assert (x, i) in S;
      }
    }
    var a, b := RowList(S, j, m), RowList(S, i, m);
    SymDiffCorrect(a, b);
    AscendingUnique(RowList(R, j, m), SymDiff(a, b));
    if 0 <= SetLow(S, i, m) == SetLow(S, j, m) {
      RowListLow(S, j, m);
      RowListLow(S, i, m);
      RowListLow(R, j, m);
      SymDiffLowers(a, b, m);
    }
  }

  /** The set `{(k, j) for (k, _) in matrix.column(i)}` of line 58: the
      rows of column i below m, moved to column j. */
  function Moved(S: set<(int, int)>, i: int, j: int, m: nat): (T: set<(int, int)>)
    ensures forall x, q :: (x, q) in T <==> q == j && (x, i) in S && 0 <= x < m
  {
    var T := set p | p in S && p.1 == i && 0 <= p.0 < m :: (p.0, j);
    assert forall x, q :: (x, q) in T ==> q == j && (x, i) in S && 0 <= x < m by {
      forall x, q | (x, q) in T ensures q == j && (x, i) in S && 0 <= x < m {
        var p :| p in S && p.1 == i && 0 <= p.0 < m && (p.0, j) == (x, q);
        assert (x, i) == p;
      }
    }
    assert forall x :: (x, i) in S && 0 <= x < m ==> (x, j) in T by {
      forall x | (x, i) in S && 0 <= x < m ensures (x, j) in T {
        var p := (x, i);
        assert p.0 == x && p.1 == i;
      }
    }
    T
  }

  /** Line 58: the rows of column i are added into column j, giving a new
      matrix. Only column j changes; it becomes the symmetric difference of
      the two row lists, and when the two columns share their low, that low
      goes down. */
  method AddColumn(M: SparseMatrix, i: int, j: int) returns (R: SparseMatrix)
    requires StrictlyUpper(M.entries, M.m) && 0 <= i < j < M.m
    ensures R.entries == PairXor(M.entries, Moved(M.entries, i, j, M.m))
    ensures R.m == M.m && StrictlyUpper(R.entries, M.m)
    ensures SameOffColumn(R.entries, M.entries, j)
    ensures RowList(R.entries, j, M.m) == SymDiff(RowList(M.entries, j, M.m), RowList(M.entries, i, M.m))
    ensures 0 <= SetLow(M.entries, i, M.m) == SetLow(M.entries, j, M.m) ==>
      SetLow(R.entries, j, M.m) < SetLow(M.entries, j, M.m)
  {
    var T := set p | p in M.Column(i) :: (p.0, j);
    ghost var S, m := M.entries, M.m;
    assert forall x, q :: (x, q) in T <==> q == j && (x, i) in S && 0 <= x < m by {
      forall x, q | (x, q) in T ensures q == j && (x, i) in S && 0 <= x < m {
        var p :| p in M.Column(i) && (p.0, j) == (x, q);
        assert (x, i) == p;
      }
      forall x | (x, i) in S && 0 <= x < m ensures (x, j) in T {
        assert (x, i) in M.Column(i);
      }
    }
    assert T == Moved(S, i, j, m);
    AddColumnEffect(S, T, m, i, j);
    R := SparseAddMod2(M, T);
  }

  /** The columns of S and S0 agree except at column j. */
  ghost predicate SameOffColumn(S: set<(int, int)>, S0: set<(int, int)>, j: int) {
    forall x, q :: q != j ==> ((x, q) in S <==> (x, q) in S0)
  }

  /** While column j is processed after all earlier columns, with `piv` the
      pivot table of the earlier columns: a column below j in the slot of
      j's low is the one `piv` registers there, and when `piv` registers one
      the slot holds it besides j. */
  lemma PivotSlot(S: set<(int, int)>, S0: set<(int, int)>, L: seq<set<int>>, m: nat, j: int, piv: seq<int>, l: int)
    requires StrictlyUpper(S, m) && LowToCol(L, S, m) && 0 <= j < m
    requires SameOffColumn(S, S0, j)
    requires |piv| == m && PivotsOf(ColumnsOf(S0, m)[..j], piv)
    requires l == SetLow(S, j, m) && l >= 0
    ensures forall i :: i in L[l] && i < j ==> i == piv[l]
    ensures piv[l] != NONE ==> piv[l] in L[l] && piv[l] < j && |L[l]| > 1
  {
    var done := ColumnsOf(S0, m)[..j];
    SetLowSpec(S, j, m);
    assert l < j && l != m - 1;
    assert Slot(SetLow(S, j, m), m) == l;
    assert j in L[l];
    forall i | 0 <= i < j ensures done[i] == RowList(S, i, m) && Low(done[i]) == SetLow(S, i, m) {
      RowListSame(S, S0, i, m);
      RowListLow(S, i, m);
    }
    forall i | i in L[l] && i < j ensures i == piv[l] {
      assert Slot(SetLow(S, i, m), m) == l;
    }
    if piv[l] != NONE {
      var k := piv[l];
      assert Low(done[k]) == l;
      assert k in L[l];
      assert k in L[l] - {j};
      assert L[l] == (L[l] - {j}) + {j};
    }
  }

  /** A column in the slot of a low l >= 0 has low l: the slot -1 shares
      with the last one is never a real low, since column m - 1 cannot be
      above the diagonal of any column. */
  lemma SlotMember(S: set<(int, int)>, L: seq<set<int>>, m: nat, j: int, l: int, i: int)
    requires StrictlyUpper(S, m) && LowToCol(L, S, m) && 0 <= j < m
    requires l == SetLow(S, j, m) && l >= 0 && i in L[l]
    ensures 0 <= i < m && SetLow(S, i, m) == l
  {
    SetLowSpec(S, j, m);
    assert Slot(SetLow(S, i, m), m) == l;
  }

  /** Adding the registered column lower down does not change what
      ReduceColumn makes of column j. */
  lemma AddStep(S: set<(int, int)>, S0: set<(int, int)>, T: set<(int, int)>, L: seq<set<int>>,
                m: nat, j: int, piv: seq<int>, l: int, i: int)
    requires StrictlyUpper(S, m) && LowToCol(L, S, m) && 0 <= j < m && SameOffColumn(S, S0, j)
    requires |piv| == m && PivotsOf(ColumnsOf(S0, m)[..j], piv)
    requires l == SetLow(S, j, m) && l >= 0 && i in L[l] && i < j
    requires RowList(T, j, m) == SymDiff(RowList(S, j, m), RowList(S, i, m))
    ensures ReduceColumn(ColumnsOf(S0, m)[..j], piv, RowList(T, j, m))
         == ReduceColumn(ColumnsOf(S0, m)[..j], piv, RowList(S, j, m))
  {
    PivotSlot(S, S0, L, m, j, piv, l);
    RowListLow(S, j, m);
    RowListSame(S, S0, i, m);
  }

  /** When the loop stops, column j is what ReduceColumn makes of it: it is
      empty, or no column below j is registered at its low. */
  lemma StopStep(S: set<(int, int)>, S0: set<(int, int)>, L: seq<set<int>>,
                 m: nat, j: int, piv: seq<int>, l: int)
    requires StrictlyUpper(S, m) && LowToCol(L, S, m) && 0 <= j < m && SameOffColumn(S, S0, j)
    requires |piv| == m && PivotsOf(ColumnsOf(S0, m)[..j], piv)
    requires l == SetLow(S, j, m)
    requires l == -1 || |L[l]| <= 1 || forall x :: x in L[l] ==> x >= j
    ensures ReduceColumn(ColumnsOf(S0, m)[..j], piv, RowList(S, j, m)) == RowList(S, j, m)
  {
    RowListLow(S, j, m);
    if l >= 0 {
      PivotSlot(S, S0, L, m, j, piv, l);
    }
  }

  /** The members of a set with at most one element are all equal. */
  lemma AtMostOneMember(s: set<int>)
    ensures |s| <= 1 ==> forall a, b :: a in s && b in s ==> a == b
  {
    forall a, b | a in s && b in s && |s| <= 1 ensures a == b {
      var t := s - {a};
      assert s == t + {a};
    }
  }

  /** The `while True` loop of lines 51-67 for column j, as a function.
      The iteration order `ord` decides which lower column of the slot is
      added. Column j ends with no lower column sharing its low, and no
      other column changes. */
  function EliminateOf(S: set<(int, int)>, m: nat, j: int, ord: SetOrder): (r: set<(int, int)>)
    requires StrictlyUpper(S, m) && 0 <= j < m && Enumerates(ord)
    ensures StrictlyUpper(r, m) && SameOffColumn(r, S, j)
    ensures SetLow(r, j, m) == -1 || forall i :: 0 <= i < j ==> SetLow(r, i, m) != SetLow(r, j, m)
    decreases SetLow(S, j, m) + 1
  {
    var l := SetLow(S, j, m);
    var L := Slots(S, m);
    LowToColIsSlots(L, S, m);
    if l < 0 || |L[l]| <= 1 then
      if l >= 0 then
        assert j in L[l];
        AtMostOneMember(L[l]);
        S
      else
        S
    else
      var it := ord(S, j, L[l]);
      assert forall x :: x in it <==> x in L[l];
      var c := FirstBelow(it, j);
      if c.None? then
        S
      else
        SlotMember(S, L, m, j, l, c.value);
        var T := Moved(S, c.value, j, m);
        AddColumnEffect(S, T, m, c.value, j);
        EliminateOf(PairXor(S, T), m, j, ord)
  }

  /** EliminateOf leaves S alone when the loop of lines 51-67 breaks at once. */
  lemma EliminateStops(S: set<(int, int)>, m: nat, j: int, ord: SetOrder)
    requires StrictlyUpper(S, m) && 0 <= j < m && Enumerates(ord)
    requires SetLow(S, j, m) < 0 || |Slots(S, m)[SetLow(S, j, m)]| <= 1
      || FirstBelow(ord(S, j, Slots(S, m)[SetLow(S, j, m)]), j).None?
    ensures EliminateOf(S, m, j, ord) == S
  {
  }

  /** One turn of the loop of lines 51-67 does not change where it ends. */
  lemma EliminateAdvance(S: set<(int, int)>, m: nat, j: int, ord: SetOrder, c: int)
    requires StrictlyUpper(S, m) && 0 <= j < m && Enumerates(ord)
    requires SetLow(S, j, m) >= 0 && |Slots(S, m)[SetLow(S, j, m)]| > 1
    requires FirstBelow(ord(S, j, Slots(S, m)[SetLow(S, j, m)]), j) == Some(c)
    requires StrictlyUpper(PairXor(S, Moved(S, c, j, m)), m)
    ensures EliminateOf(PairXor(S, Moved(S, c, j, m)), m, j, ord) == EliminateOf(S, m, j, ord)
  {
  }

  /** Lines 66-67: column j leaves slot l, the slot of its low before the
      addition, for the slot of its new low; `low_to_col` is then again the
      slot table of the new matrix. */
  method MoveToSlot(L: seq<set<int>>, ghost S: set<(int, int)>, next: SparseMatrix, j: int, l: int)
    returns (L': seq<set<int>>)
    requires LowToCol(L, S, next.m) && 0 <= j < next.m && 0 <= l == SetLow(S, j, next.m)
    requires forall x, q :: q != j ==> ((x, q) in S <==> (x, q) in next.entries)
    ensures LowToCol(L', next.entries, next.m) && L' == Slots(next.entries, next.m)
  {
    LowToColMove(L, S, next.entries, next.m, j);
    L' := L[l := L[l] - {j}];
    var s := Slot(SparseLow(next, j), next.m);
    L' := L'[s := L'[s] + {j}];
    LowToColIsSlots(L', next.entries, next.m);
  }

  /** One pass of the body of the `while True` loop, lines 52-67: either
      it breaks, changing nothing, or it adds a lower column with the same
      low into column j, lowering its low, and moves j to its new slot. In
      the second case ReduceColumn makes the same of column j as before; in
      the first, column j is already what ReduceColumn makes of it. */
  method EliminationStep(matrix: SparseMatrix, L: seq<set<int>>, j: int, ord: SetOrder,
                         ghost S0: set<(int, int)>, ghost piv: seq<int>)
    returns (stop: bool, next: SparseMatrix, L': seq<set<int>>)
    requires StrictlyUpper(matrix.entries, matrix.m) && LowToCol(L, matrix.entries, matrix.m) && 0 <= j < matrix.m
    requires SameOffColumn(matrix.entries, S0, j) && Enumerates(ord)
    ensures next.m == matrix.m && StrictlyUpper(next.entries, matrix.m) && LowToCol(L', next.entries, matrix.m)
    ensures SameOffColumn(next.entries, matrix.entries, j)
    ensures stop ==> next == matrix && L' == L
    ensures !stop ==> SetLow(next.entries, j, matrix.m) < SetLow(matrix.entries, j, matrix.m)
    ensures stop && |piv| == matrix.m && PivotsOf(ColumnsOf(S0, matrix.m)[..j], piv) ==>
      ReduceColumn(ColumnsOf(S0, matrix.m)[..j], piv, RowList(matrix.entries, j, matrix.m)) == RowList(matrix.entries, j, matrix.m)
    ensures !stop && |piv| == matrix.m && PivotsOf(ColumnsOf(S0, matrix.m)[..j], piv) ==>
      ReduceColumn(ColumnsOf(S0, matrix.m)[..j], piv, RowList(next.entries, j, matrix.m))
        == ReduceColumn(ColumnsOf(S0, matrix.m)[..j], piv, RowList(matrix.entries, j, matrix.m))
    ensures stop ==> EliminateOf(matrix.entries, matrix.m, j, ord) == matrix.entries
    ensures EliminateOf(next.entries, matrix.m, j, ord) == EliminateOf(matrix.entries, matrix.m, j, ord)
  {
    var m := matrix.m;
    ghost var S := matrix.entries;
    ghost var sim := |piv| == m && PivotsOf(ColumnsOf(S0, m)[..j], piv);
    stop, next, L' := true, matrix, L;
    LowToColIsSlots(L, S, m);
    var l := SparseLow(matrix, j);
    if l >= 0 && |L[l]| > 1 {
      var i := ValueThatIsLower(L[l], j, ord(matrix.entries, j, L[l]));
      if i.None? {
        EliminateStops(S, m, j, ord);
        if sim {
          StopStep(S, S0, L, m, j, piv, l);
        }
        return;
      }
      SlotMember(S, L, m, j, l, i.value);
      next := AddColumn(matrix, i.value, j);
      EliminateAdvance(S, m, j, ord, i.value);
      if sim {
        AddStep(S, S0, next.entries, L, m, j, piv, l, i.value);
      }
    } else {
      EliminateStops(S, m, j, ord);
      if sim {
        StopStep(S, S0, L, m, j, piv, l);
      }
      return;
    }
    L' := MoveToSlot(L, S, next, j, l);
    stop := false;
  }

  /** The `while True` loop of lines 51-67 for column j. Only column j
      changes, and `low_to_col` stays right. When all earlier columns are
      done and `piv` is their pivot table, column j ends as ReduceColumn,
      the inner loop of the C++ reducers, makes it. */
  method EliminateColumn(M: SparseMatrix, L0: seq<set<int>>, j: int, ord: SetOrder, ghost piv: seq<int>)
    returns (matrix: SparseMatrix, L: seq<set<int>>)
    requires StrictlyUpper(M.entries, M.m) && LowToCol(L0, M.entries, M.m) && 0 <= j < M.m
    requires Enumerates(ord)
    ensures matrix.entries == EliminateOf(M.entries, M.m, j, ord)
    ensures matrix.m == M.m && StrictlyUpper(matrix.entries, M.m) && LowToCol(L, matrix.entries, M.m)
    ensures SameOffColumn(matrix.entries, M.entries, j)
    ensures |piv| == M.m && PivotsOf(ColumnsOf(M.entries, M.m)[..j], piv) ==>
      RowList(matrix.entries, j, M.m) == ReduceColumn(ColumnsOf(M.entries, M.m)[..j], piv, RowList(M.entries, j, M.m))
  {
    var m := M.m;
    matrix, L := M, L0;
    ghost var S0 := M.entries;
    ghost var sim := |piv| == m && PivotsOf(ColumnsOf(S0, m)[..j], piv);
    ghost var target := if sim then ReduceColumn(ColumnsOf(S0, m)[..j], piv, RowList(S0, j, m)) else [];
    while true
      invariant matrix.m == m && StrictlyUpper(matrix.entries, m) && LowToCol(L, matrix.entries, m)
      invariant SameOffColumn(matrix.entries, S0, j)
      invariant sim ==> ReduceColumn(ColumnsOf(S0, m)[..j], piv, RowList(matrix.entries, j, m)) == target
      invariant EliminateOf(matrix.entries, m, j, ord) == EliminateOf(S0, m, j, ord)
      decreases SetLow(matrix.entries, j, m) + 1
    {
      var stop: bool;
      stop, matrix, L := EliminationStep(matrix, L, j, ord, S0, piv);
      if stop {
        break;
      }
    }
  }

  // ---------------------------------------------------------------------
  // `sparse_gaussian_reduction`.

  /** The entries S, after the columns before g are processed with pivot
      table piv, reduce to `target` under ReduceFrom. */
  ghost predicate Sim(S: set<(int, int)>, m: nat, piv: seq<int>, g: nat, target: seq<seq<int>>) {
    |piv| == m && g <= m && PivotsOf(ColumnsOf(S, m)[..g], piv) && ReduceFrom(ColumnsOf(S, m), piv, g) == target
  }

  /** A column with no entry has the empty row list. */
  lemma {:induction false} RowListEmpty(S: set<(int, int)>, j: int, k: nat)
    requires forall x :: (x, j) !in S
    ensures RowList(S, j, k) == []
  {
    if k > 0 {
      RowListEmpty(S, j, k - 1);
    }
  }

  /** Zero columns from g to h are passed over by ReduceFrom unchanged. */
  lemma {:induction false} CatchUp(S: set<(int, int)>, m: nat, piv: seq<int>, g: nat, h: nat, target: seq<seq<int>>)
    requires Sim(S, m, piv, g, target) && g <= h <= m
    requires forall q, x :: g <= q < h ==> (x, q) !in S
    ensures Sim(S, m, piv, h, target)
    decreases h - g
  {
    if g < h {
      var C := ColumnsOf(S, m);
      RowListEmpty(S, g, m);
      ReduceFromStep(C, piv, g);
      assert C[g := []] == C;
      CatchUp(S, m, piv, g + 1, h, target);
    }
  }

  /** Replacing column j by what ReduceColumn makes of it, and nothing
      else, is one step of ReduceFrom. */
  lemma SimStep(S: set<(int, int)>, T: set<(int, int)>, m: nat, piv: seq<int>, j: nat, target: seq<seq<int>>)
    returns (piv': seq<int>)
    requires Sim(S, m, piv, j, target) && j < m
    requires SameOffColumn(T, S, j)
    requires RowList(T, j, m) == ReduceColumn(ColumnsOf(S, m)[..j], piv, RowList(S, j, m))
    ensures Sim(T, m, piv', j + 1, target)
  {
    var C := ColumnsOf(S, m);
    var c := ReduceColumn(C[..j], piv, C[j]);
    forall q | 0 <= q < m && q != j ensures ColumnsOf(T, m)[q] == C[q] {
      RowListSame(T, S, q, m);
    }
    assert ColumnsOf(T, m) == C[j := c];
    ReduceFromStep(C, piv, j);
    piv' := if c == [] then piv else piv[Last(c) := j];
  }

  /** In an ascending visiting order the columns from g, one past the
      last visited column, up to the next one to visit are zero. */
  lemma GapIsZero(S0: set<(int, int)>, S: set<(int, int)>, order: seq<int>, t: nat, g: nat)
    requires Ascending(order) && t < |order|
    requires forall q, x :: q !in order ==> (x, q) !in S0
    requires forall x, q :: q !in order[..t] ==> ((x, q) in S <==> (x, q) in S0)
    requires forall k :: 0 <= k < t ==> order[k] < g
    ensures forall q, x :: g <= q < order[t] ==> (x, q) !in S
  {
    forall q, x | g <= q < order[t] ensures (x, q) !in S {
      assert q !in order;
    }
  }

  /** The zero columns from g up to j are passed over, then the
      elimination of column j is one ReduceFrom step. */
  lemma VisitStep(S: set<(int, int)>, T: set<(int, int)>, m: nat, piv: seq<int>, g: nat, j: nat, target: seq<seq<int>>)
    returns (piv': seq<int>)
    requires Sim(S, m, piv, g, target) && g <= j < m
    requires forall q, x :: g <= q < j ==> (x, q) !in S
    requires SameOffColumn(T, S, j)
    requires |piv| == m && PivotsOf(ColumnsOf(S, m)[..j], piv) ==>
      RowList(T, j, m) == ReduceColumn(ColumnsOf(S, m)[..j], piv, RowList(S, j, m))
    ensures Sim(T, m, piv', j + 1, target)
  {
    CatchUp(S, m, piv, g, j, target);
    piv' := SimStep(S, T, m, piv, j, target);
  }

  /** What holds after the first t columns of the visiting order: the
      other columns are as in S0, and for an ascending order the matrix is
      ReduceFrom's state once every column before g is done. */
  ghost predicate Visited(S0: set<(int, int)>, S: set<(int, int)>, m: nat, order: seq<int>, t: nat,
                          piv: seq<int>, g: nat, target: seq<seq<int>>) {
    && t <= |order|
    && (forall x, q :: q !in order[..t] ==> ((x, q) in S <==> (x, q) in S0))
    && (Ascending(order) ==>
          && Sim(S, m, piv, g, target)
          && (forall k :: 0 <= k < t ==> order[k] < g)
          && (forall k :: t <= k < |order| ==> g <= order[k]))
  }

  /** Eliminating column order[t] extends Visited by one column. */
  lemma VisitColumn(S0: set<(int, int)>, S: set<(int, int)>, T: set<(int, int)>, m: nat, order: seq<int>, t: nat,
                    piv: seq<int>, g: nat, target: seq<seq<int>>)
    returns (piv': seq<int>, g': nat)
    requires Visited(S0, S, m, order, t, piv, g, target) && t < |order| && 0 <= order[t] < m
    requires forall q, x :: q !in order ==> (x, q) !in S0
    requires SameOffColumn(T, S, order[t])
    requires |piv| == m && PivotsOf(ColumnsOf(S, m)[..order[t]], piv) ==>
      RowList(T, order[t], m) == ReduceColumn(ColumnsOf(S, m)[..order[t]], piv, RowList(S, order[t], m))
    ensures Visited(S0, T, m, order, t + 1, piv', g', target)
  {
    var j := order[t];
    assert order[..t + 1] == order[..t] + [j];
    piv', g' := piv, g;
    if Ascending(order) {
      GapIsZero(S0, S, order, t, g);
      piv' := VisitStep(S, T, m, piv, g, j, target);
      assert forall k :: 0 <= k <= t ==> order[k] <= j;
      assert forall k :: t < k < |order| ==> j < order[k];
      g' := j + 1;
    }
  }

  /** After the whole visiting order the columns outside it are as in S0,
      and for an ascending order the remaining columns are zero, so the
      matrix is the target. */
  lemma VisitEnd(S0: set<(int, int)>, S: set<(int, int)>, m: nat, order: seq<int>,
                 piv: seq<int>, g: nat, target: seq<seq<int>>)
    requires Visited(S0, S, m, order, |order|, piv, g, target)
    requires forall q, x :: q !in order ==> (x, q) !in S0
    ensures forall x, q :: q !in order ==> ((x, q) in S <==> (x, q) in S0)
    ensures Ascending(order) ==> ColumnsOf(S, m) == target
  {
    assert order[..|order|] == order;
    if Ascending(order) {
      assert forall q, x :: g <= q < m ==> (x, q) !in S;
      CatchUp(S, m, piv, g, m, target);
    }
  }

  /** The builder's input to the reduction: every column of the matrix lies
      in [0, m), and a column outside `cols()` has no entry. */
  lemma ColsInRange(M: SparseMatrix)
    requires StrictlyUpper(M.entries, M.m)
    ensures forall j :: j in M.Cols() ==> 0 <= j < M.m
    ensures forall q, x :: q !in M.Cols() ==> (x, q) !in M.entries
  {
    forall j | j in M.Cols() ensures 0 <= j < M.m {
      var x :| (x, j) in M.entries;
    }
  }

  /** Lines 50-67 as a function: the columns of `order` are eliminated one
      after the other, each against the matrix as the earlier ones left it.
      Columns outside `order` do not change. */
  function ReduceInOrder(S: set<(int, int)>, m: nat, order: seq<int>, ord: SetOrder): (r: set<(int, int)>)
    requires StrictlyUpper(S, m) && Enumerates(ord)
    requires InRange(order, m)
    ensures StrictlyUpper(r, m)
    ensures forall x, q :: q !in order ==> ((x, q) in r <==> (x, q) in S)
    decreases |order|
  {
    if order == [] then S
    else
      assert order[0] in order;
      assert forall x :: x in order[1..] ==> x in order;
      var r := ReduceInOrder(EliminateOf(S, m, order[0], ord), m, order[1..], ord);
      assert forall q :: q !in order ==> q != order[0] && q !in order[1..];
      r
  }

  /** Visiting `order[t]` and then the rest is visiting `order[t..]`. */
  lemma ReduceInOrderStep(S: set<(int, int)>, m: nat, order: seq<int>, t: nat, ord: SetOrder)
    requires StrictlyUpper(S, m) && Enumerates(ord) && t < |order| && InRange(order, m)
    ensures 0 <= order[t] < m && InRange(order[t..], m) && InRange(order[t + 1..], m)
    ensures ReduceInOrder(EliminateOf(S, m, order[t], ord), m, order[t + 1..], ord)
      == ReduceInOrder(S, m, order[t..], ord)
  {
    assert order[t] in order;
    assert forall x :: x in order[t..] ==> x in order;
    var rest := order[t + 1..];
    forall x | x in rest ensures 0 <= x < m {
      assert x in order;
    }
    assert order[t..][0] == order[t];
    assert order[t..][1..] == order[t + 1..];
  }

  /** One turn of the loop of line 50: column order[t] is eliminated, and
      the loop's invariant moves on to t + 1. */
  method VisitNext(ghost S0: set<(int, int)>, R: SparseMatrix, L: seq<set<int>>, order: seq<int>, t: nat,
                   ord: SetOrder, ghost piv: seq<int>, ghost g: nat, ghost target: seq<seq<int>>)
    returns (R': SparseMatrix, L': seq<set<int>>, ghost piv': seq<int>, ghost g': nat)
    requires StrictlyUpper(R.entries, R.m) && LowToCol(L, R.entries, R.m) && Enumerates(ord)
    requires t < |order| && InRange(order, R.m)
    requires forall q, x :: q !in order ==> (x, q) !in S0
    requires Visited(S0, R.entries, R.m, order, t, piv, g, target)
    ensures R'.m == R.m && StrictlyUpper(R'.entries, R.m) && LowToCol(L', R'.entries, R.m)
    ensures Visited(S0, R'.entries, R.m, order, t + 1, piv', g', target)
    ensures InRange(order[t..], R.m) && InRange(order[t + 1..], R.m)
    ensures ReduceInOrder(R'.entries, R.m, order[t + 1..], ord) == ReduceInOrder(R.entries, R.m, order[t..], ord)
  {
    ReduceInOrderStep(R.entries, R.m, order, t, ord);
    R', L' := EliminateColumn(R, L, order[t], ord, piv);
    piv', g' := VisitColumn(S0, R.entries, R'.entries, R.m, order, t, piv, g, target);
  }

  /** `sparse_gaussian_reduction`: `low_to_col` is built (lines 45-48), then
      every column of `matrix.cols()`, in the order `order` in which the set
      is iterated, is eliminated. The reduction only touches those columns,
      and when the order is ascending it is the reduction `Reduce`. */
  method SparseGaussianReduction(matrix: SparseMatrix, order: seq<int>, ord: SetOrder) returns (R: SparseMatrix)
    requires StrictlyUpper(matrix.entries, matrix.m) && Enumerates(ord)
    requires forall j :: j in order <==> j in matrix.Cols()
    ensures R.m == matrix.m && StrictlyUpper(R.entries, R.m)
    ensures (forall k :: 0 <= k < |order| ==> 0 <= order[k] < matrix.m) &&
      R.entries == ReduceInOrder(matrix.entries, matrix.m, order, ord)
    ensures forall x, q :: q !in matrix.Cols() ==> ((x, q) in R.entries <==> (x, q) in matrix.entries)
    ensures Ascending(order) ==> ColumnsOf(R.entries, R.m) == Reduce(ColumnsOf(matrix.entries, matrix.m))
  {
    var m := matrix.m;
    var L := InitLowToCol(matrix);
    R := matrix;
    ghost var S0 := matrix.entries;
    ghost var target := Reduce(ColumnsOf(S0, m));
    ghost var piv := NoPivots(m);
    ghost var g: nat := 0;
    assert ReduceFrom(ColumnsOf(S0, m), piv, 0) == target;
    ColsInRange(matrix);
    assert forall k :: 0 <= k < |order| ==> 0 <= order[k] < m by {
      forall k | 0 <= k < |order| ensures 0 <= order[k] < m {
        assert order[k] in order;
      }
    }
    assert Visited(S0, R.entries, m, order, 0, piv, g, target);
    for t := 0 to |order|
      invariant R.m == m && StrictlyUpper(R.entries, m) && LowToCol(L, R.entries, m)
      invariant Visited(S0, R.entries, m, order, t, piv, g, target)
      invariant ReduceInOrder(R.entries, m, order[t..], ord) == ReduceInOrder(S0, m, order, ord)
    {
      R, L, piv, g := VisitNext(S0, R, L, order, t, ord, piv, g, target);
    }
    assert order[|order|..] == [];
    VisitEnd(S0, R.entries, m, order, piv, g, target);
  }

  // ---------------------------------------------------------------------
  // Visiting `matrix.cols()` out of ascending order.

  /** The boundary matrix of six vertices 0-5, the edges 6 = {1, 2},
      7 = {0, 2}, 8 = {0, 1} and the triangle 9 = {0, 1, 2}. */
  function TriangleMatrix(): set<(int, int)>
  {
    {(1, 6), (2, 6), (0, 7), (2, 7), (0, 8), (1, 8), (6, 9), (7, 9), (8, 9)}
  }

  /** TriangleMatrix with column 7 reduced by column 6: 7 = {0, 1}. */
  function TriangleAfterSeven(): set<(int, int)>
  {
    {(1, 6), (2, 6), (0, 7), (1, 7), (0, 8), (1, 8), (6, 9), (7, 9), (8, 9)}
  }

  /** Both matrices are strictly upper triangular. */
  lemma TriangleUpper()
    ensures StrictlyUpper(TriangleMatrix(), 10) && StrictlyUpper(TriangleAfterSeven(), 10)
  {
  }

  /** SetLow(S, j, k) is l when (l, j) is the last entry of column j. */
  lemma SetLowIs(S: set<(int, int)>, j: int, k: nat, l: int)
    requires 0 <= l < k && (l, j) in S && forall i :: l < i < k ==> (i, j) !in S
    ensures SetLow(S, j, k) == l
  {
    SetLowSpec(S, j, k);
  }

  /** The lows of TriangleMatrix: the vertex columns are zero. */
  lemma TriangleLows()
    ensures forall k :: 0 <= k < 6 ==> SetLow(TriangleMatrix(), k, 10) == -1
    ensures SetLow(TriangleMatrix(), 6, 10) == 2 && SetLow(TriangleMatrix(), 7, 10) == 2
    ensures SetLow(TriangleMatrix(), 8, 10) == 1 && SetLow(TriangleMatrix(), 9, 10) == 8
  {
    var S := TriangleMatrix();
    forall k | 0 <= k < 6 ensures SetLow(S, k, 10) == -1 {
      SetLowSpec(S, k, 10);
    }
    SetLowIs(S, 6, 10, 2);
    SetLowIs(S, 7, 10, 2);
    SetLowIs(S, 8, 10, 1);
    SetLowIs(S, 9, 10, 8);
  }

  /** The lows of TriangleAfterSeven: column 7 now has low 1. */
  lemma AfterSevenLows()
    ensures forall k :: 0 <= k < 6 ==> SetLow(TriangleAfterSeven(), k, 10) == -1
    ensures SetLow(TriangleAfterSeven(), 6, 10) == 2 && SetLow(TriangleAfterSeven(), 7, 10) == 1
    ensures SetLow(TriangleAfterSeven(), 8, 10) == 1 && SetLow(TriangleAfterSeven(), 9, 10) == 8
  {
    var S := TriangleAfterSeven();
    forall k | 0 <= k < 6 ensures SetLow(S, k, 10) == -1 {
      SetLowSpec(S, k, 10);
    }
    SetLowIs(S, 6, 10, 2);
    SetLowIs(S, 7, 10, 1);
    SetLowIs(S, 8, 10, 1);
    SetLowIs(S, 9, 10, 8);
  }

  /** The slots of `low_to_col` that the visits of columns 8, 9, 6 and 7
      look at. */
  lemma TriangleSlots()
    ensures Slots(TriangleMatrix(), 10)[1] == {8}
    ensures Slots(TriangleMatrix(), 10)[8] == {9}
    ensures Slots(TriangleMatrix(), 10)[2] == {6, 7}
    ensures Slots(TriangleAfterSeven(), 10)[1] == {7, 8}
  {
    TriangleLows();
    AfterSevenLows();
    var L, L' := Slots(TriangleMatrix(), 10), Slots(TriangleAfterSeven(), 10);
    assert forall k :: k in L[1] <==> k == 8;
    assert forall k :: k in L[8] <==> k == 9;
    assert forall k :: k in L[2] <==> k == 6 || k == 7;
    assert forall k :: k in L'[1] <==> k == 7 || k == 8;
  }

  /** Column 8 is alone in the slot of its low 1: its visit stops at once. */
  lemma VisitEight(ord: SetOrder)
    requires Enumerates(ord)
    ensures EliminateOf(TriangleMatrix(), 10, 8, ord) == TriangleMatrix()
  {
    TriangleUpper();
    TriangleLows();
    TriangleSlots();
    EliminateStops(TriangleMatrix(), 10, 8, ord);
  }

  /** Column 9 is alone in the slot of its low 8: its visit stops at once. */
  lemma VisitNine(ord: SetOrder)
    requires Enumerates(ord)
    ensures EliminateOf(TriangleMatrix(), 10, 9, ord) == TriangleMatrix()
  {
    TriangleUpper();
    TriangleLows();
    TriangleSlots();
    EliminateStops(TriangleMatrix(), 10, 9, ord);
  }

  /** Column 6 shares the slot of its low 2 only with the later column 7:
      its visit stops at once. */
  lemma VisitSix(ord: SetOrder)
    requires Enumerates(ord)
    ensures EliminateOf(TriangleMatrix(), 10, 6, ord) == TriangleMatrix()
  {
    TriangleUpper();
    TriangleLows();
    TriangleSlots();
    var it := ord(TriangleMatrix(), 6, {6, 7});
    assert forall x :: x in it <==> x == 6 || x == 7;
    EliminateStops(TriangleMatrix(), 10, 6, ord);
  }

  /** Column 6 is the one column before 7 in the slot of 7's low 2, and
      adding it to column 7 gives TriangleAfterSeven. */
  lemma SevenMeetsSix(ord: SetOrder)
    requires Enumerates(ord)
    ensures FirstBelow(ord(TriangleMatrix(), 7, {6, 7}), 7) == Some(6)
    ensures PairXor(TriangleMatrix(), Moved(TriangleMatrix(), 6, 7, 10)) == TriangleAfterSeven()
  {
    var S := TriangleMatrix();
    var it := ord(S, 7, {6, 7});
    assert forall x :: x in it <==> x == 6 || x == 7;
    assert 6 in it;
    var c := FirstBelow(it, 7);
    var k :| 0 <= k < |it| && it[k] == c.value < 7;
    assert it[k] in it;
    var T := Moved(S, 6, 7, 10);
    assert forall x, q :: (x, q) in T <==> q == 7 && (x == 1 || x == 2);
    assert T == {(1, 7), (2, 7)};
  }

  /** Column 7 of TriangleAfterSeven has low 1, shared only with the later
      column 8: its visit stops. */
  lemma SevenStops(ord: SetOrder)
    requires Enumerates(ord)
    ensures EliminateOf(TriangleAfterSeven(), 10, 7, ord) == TriangleAfterSeven()
  {
    TriangleUpper();
    AfterSevenLows();
    TriangleSlots();
    var it := ord(TriangleAfterSeven(), 7, {7, 8});
    assert forall x :: x in it <==> x == 7 || x == 8;
    EliminateStops(TriangleAfterSeven(), 10, 7, ord);
  }

  /** Column 7, visited after column 6, is reduced by it once and then
      stops. */
  lemma VisitSeven(ord: SetOrder)
    requires Enumerates(ord)
    ensures EliminateOf(TriangleMatrix(), 10, 7, ord) == TriangleAfterSeven()
  {
    TriangleUpper();
    TriangleLows();
    TriangleSlots();
    SevenMeetsSix(ord);
    EliminateAdvance(TriangleMatrix(), 10, 7, ord, 6);
    SevenStops(ord);
  }

  /** The visits of 6 and 7 in that order leave TriangleAfterSeven. */
  lemma SixThenSeven(ord: SetOrder)
    requires Enumerates(ord)
    ensures StrictlyUpper(TriangleMatrix(), 10)
    ensures ReduceInOrder(TriangleMatrix(), 10, [6, 7], ord) == TriangleAfterSeven()
  {
    TriangleUpper();
    VisitSix(ord);
    VisitSeven(ord);
    assert [6, 7][1..] == [7] && [7][1..] == [];
  }

  /** The visits of 8, 9, 6 and 7 in that order leave TriangleAfterSeven. */
  lemma OutOfOrderResult(ord: SetOrder)
    requires Enumerates(ord)
    ensures StrictlyUpper(TriangleMatrix(), 10)
    ensures ReduceInOrder(TriangleMatrix(), 10, [8, 9, 6, 7], ord) == TriangleAfterSeven()
  {
    TriangleUpper();
    VisitEight(ord);
    VisitNine(ord);
    SixThenSeven(ord);
    assert [8, 9, 6, 7][1..] == [9, 6, 7] && [9, 6, 7][1..] == [6, 7];
  }

  /** Columns 7 and 8 of TriangleAfterSeven share the low 1, so it is not
      the reduced TriangleMatrix. */
  lemma AfterSevenNotReduced()
    ensures ColumnsOf(TriangleAfterSeven(), 10) != Reduce(ColumnsOf(TriangleMatrix(), 10))
  {
    var C := ColumnsOf(TriangleAfterSeven(), 10);
    AfterSevenLows();
    RowListLow(TriangleAfterSeven(), 7, 10);
    RowListLow(TriangleAfterSeven(), 8, 10);
    assert C[7] != [] && C[8] != [] && Last(C[7]) == Last(C[8]);
    assert !DistinctLows(C);
    ReduceProperties(ColumnsOf(TriangleMatrix(), 10));
  }

  /** Visiting the columns of TriangleMatrix in the order 8, 9, 6, 7 (the
      order CPython iterates the set {6, 7, 8, 9} in), whatever the order of
      the slots, leaves columns 7 and 8 with the same low 1: the result is
      not the reduced matrix, which has pairwise distinct lows. */
  lemma OutOfOrderVisit(ord: SetOrder)
    requires Enumerates(ord)
    ensures StrictlyUpper(TriangleMatrix(), 10)
    ensures var R := ReduceInOrder(TriangleMatrix(), 10, [8, 9, 6, 7], ord);
      SetLow(R, 7, 10) == 1 && SetLow(R, 8, 10) == 1
    ensures ColumnsOf(ReduceInOrder(TriangleMatrix(), 10, [8, 9, 6, 7], ord), 10)
      != Reduce(ColumnsOf(TriangleMatrix(), 10))
  {
    OutOfOrderResult(ord);
    AfterSevenLows();
    AfterSevenNotReduced();
  }

  // ---------------------------------------------------------------------
  // Visiting `matrix.cols()` in ascending order.

  /** TriangleAfterSeven with column 8 reduced by column 7: column 8 is
      zero. */
  function TriangleReduced(): set<(int, int)>
  {
    {(1, 6), (2, 6), (0, 7), (1, 7), (6, 9), (7, 9), (8, 9)}
  }

  /** TriangleReduced is strictly upper triangular. */
  lemma ReducedUpper()
    ensures StrictlyUpper(TriangleReduced(), 10)
  {
  }

  /** The lows of TriangleReduced: columns 0-5 and 8 are zero. */
  lemma ReducedLows()
    ensures forall k :: 0 <= k < 6 ==> SetLow(TriangleReduced(), k, 10) == -1
    ensures SetLow(TriangleReduced(), 6, 10) == 2 && SetLow(TriangleReduced(), 7, 10) == 1
    ensures SetLow(TriangleReduced(), 8, 10) == -1 && SetLow(TriangleReduced(), 9, 10) == 8
  {
    var S := TriangleReduced();
    forall k | 0 <= k < 6 ensures SetLow(S, k, 10) == -1 {
      SetLowSpec(S, k, 10);
    }
    SetLowIs(S, 6, 10, 2);
    SetLowIs(S, 7, 10, 1);
    SetLowSpec(S, 8, 10);
    SetLowIs(S, 9, 10, 8);
  }

  /** Column 7 is the one column before 8 in the slot of 8's low 1, and
      adding it to column 8 gives TriangleReduced. */
  lemma EightMeetsSeven(ord: SetOrder)
    requires Enumerates(ord)
    ensures FirstBelow(ord(TriangleAfterSeven(), 8, {7, 8}), 8) == Some(7)
    ensures PairXor(TriangleAfterSeven(), Moved(TriangleAfterSeven(), 7, 8, 10)) == TriangleReduced()
  {
    var S := TriangleAfterSeven();
    var it := ord(S, 8, {7, 8});
    assert forall x :: x in it <==> x == 7 || x == 8;
    assert 7 in it;
    var c := FirstBelow(it, 8);
    var k :| 0 <= k < |it| && it[k] == c.value < 8;
    assert it[k] in it;
    var T := Moved(S, 7, 8, 10);
    assert forall x, q :: (x, q) in T <==> q == 8 && (x == 0 || x == 1);
    assert T == {(0, 8), (1, 8)};
  }

  /** Column 8 of TriangleReduced is zero: its visit stops at once. */
  lemma EightStops(ord: SetOrder)
    requires Enumerates(ord)
    ensures EliminateOf(TriangleReduced(), 10, 8, ord) == TriangleReduced()
  {
    ReducedUpper();
    ReducedLows();
    EliminateStops(TriangleReduced(), 10, 8, ord);
  }

  /** Column 8, visited after columns 6 and 7, is reduced by column 7 to
      zero and then stops. */
  lemma VisitEightAfterSeven(ord: SetOrder)
    requires Enumerates(ord)
    ensures EliminateOf(TriangleAfterSeven(), 10, 8, ord) == TriangleReduced()
  {
    TriangleUpper();
    ReducedUpper();
    AfterSevenLows();
    TriangleSlots();
    EightMeetsSeven(ord);
    EliminateAdvance(TriangleAfterSeven(), 10, 8, ord, 7);
    EightStops(ord);
  }

  /** Column 9 of TriangleReduced is alone in the slot of its low 8: its
      visit stops at once. */
  lemma VisitNineReduced(ord: SetOrder)
    requires Enumerates(ord)
    ensures EliminateOf(TriangleReduced(), 10, 9, ord) == TriangleReduced()
  {
    ReducedUpper();
    ReducedLows();
    var L := Slots(TriangleReduced(), 10);
    assert forall k :: k in L[8] <==> k == 9;
    EliminateStops(TriangleReduced(), 10, 9, ord);
  }

  /** The visits of 8 and 9 after those of 6 and 7 leave TriangleReduced. */
  lemma EightThenNine(ord: SetOrder)
    requires Enumerates(ord)
    ensures StrictlyUpper(TriangleAfterSeven(), 10)
    ensures ReduceInOrder(TriangleAfterSeven(), 10, [8, 9], ord) == TriangleReduced()
  {
    TriangleUpper();
    ReducedUpper();
    VisitEightAfterSeven(ord);
    VisitNineReduced(ord);
    assert [8, 9][1..] == [9] && [9][1..] == [];
  }

  /** The visits of 6, 7, 8 and 9 in that order leave TriangleReduced. */
  lemma InOrderResult(ord: SetOrder)
    requires Enumerates(ord)
    ensures StrictlyUpper(TriangleMatrix(), 10)
    ensures ReduceInOrder(TriangleMatrix(), 10, [6, 7, 8, 9], ord) == TriangleReduced()
  {
    TriangleUpper();
    VisitSix(ord);
    VisitSeven(ord);
    EightThenNine(ord);
    assert [6, 7, 8, 9][1..] == [7, 8, 9] && [7, 8, 9][1..] == [8, 9];
  }
}
