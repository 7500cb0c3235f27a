/** The pairing step of python/barcode.py, taken over a given reduced
    matrix: `low[j]` by a reversed scan with `break`, one index pair per
    nonzero column, then `(i, None)` for every index that is no column's
    low. Bars are index pairs, not filtration values. */
module PythonBarcode {
  import opened Ordered
  import opened Wrappers
  import opened GaussianElimination
  import opened Barcode

  /** `(low[j], j)` or `(i, None)`. */
  datatype IndexBar = IndexBar(birth: int, death: Option<int>)

  /** Every row of the list-of-lists matrix has at least |E| entries, so
      `e_matrix[i][j]` is defined for i, j < n. */
  predicate Wide(E: seq<seq<int>>) {
    forall i :: 0 <= i < |E| ==> |E[i]| >= |E|
  }

  // ---------------------------------------------------------------------
  // The low list.

  /** The largest row below k holding a nonzero in column j, or -1. */
  function LowFrom(E: seq<seq<int>>, j: int, k: nat): int
    requires Wide(E) && 0 <= j < |E| && k <= |E|
  {
    if k == 0 then -1
    else if E[k - 1][j] != 0 then k - 1
    else LowFrom(E, j, k - 1)
  }

  /** LowFrom is -1 for a column that is zero below k, and otherwise the
      largest row below k with a nonzero entry. */
  lemma {:induction false} LowFromSpec(E: seq<seq<int>>, j: int, k: nat)
    requires Wide(E) && 0 <= j < |E| && k <= |E|
    ensures LowFrom(E, j, k) == -1 <==> forall i :: 0 <= i < k ==> E[i][j] == 0
    ensures LowFrom(E, j, k) != -1 ==>
      && 0 <= LowFrom(E, j, k) < k && E[LowFrom(E, j, k)][j] != 0
      && forall i :: LowFrom(E, j, k) < i < k ==> E[i][j] == 0
  {
    if k > 0 {
      LowFromSpec(E, j, k - 1);
    }
  }

  /** The list `low` after the first loop. */
  function LowList(E: seq<seq<int>>): (L: seq<int>)
    requires Wide(E)
    ensures |L| == |E|
    ensures forall j :: 0 <= j < |E| ==> L[j] == LowFrom(E, j, |E|)
  {
    seq(|E|, j requires 0 <= j < |E| => LowFrom(E, j, |E|))
  }

  /** Every entry of a low list is -1 or an index below n. */
  lemma LowListRange(E: seq<seq<int>>)
    requires Wide(E)
    ensures forall j :: 0 <= j < |E| ==> -1 <= LowList(E)[j] < |E|
  {
    forall j | 0 <= j < |E| ensures -1 <= LowList(E)[j] < |E| {
      LowFromSpec(E, j, |E|);
    }
  }

  // ---------------------------------------------------------------------
  // The bars, as functions of the low list.

  /** `paired` after the columns below k. */
  function PairedBelow(L: seq<int>, k: nat): set<int>
    requires k <= |L|
  {
    if k == 0 then {}
    else PairedBelow(L, k - 1) + (if L[k - 1] != -1 then {L[k - 1]} else {})
  }

  lemma {:induction false} PairedBelowMembers(L: seq<int>, k: nat, x: int)
    requires k <= |L|
    ensures x in PairedBelow(L, k) <==> x != -1 && exists j :: 0 <= j < k && L[j] == x
  {
    if k > 0 {
      PairedBelowMembers(L, k - 1, x);
    }
  }

  /** The pairs appended by the second loop for the columns below k: each
      is a column with a low, paired with that low. */
  function PairBars(L: seq<int>, k: nat): seq<IndexBar>
    requires k <= |L|
  {
    if k == 0 then []
    else PairBars(L, k - 1) + (if L[k - 1] != -1 then [IndexBar(L[k - 1], Some(k - 1))] else [])
  }

  /** The bars appended by the third loop for the indices below k: every
      index not in `paired`. */
  function UnpairedBars(P: set<int>, k: nat): seq<IndexBar> {
    if k == 0 then []
    else UnpairedBars(P, k - 1) + (if k - 1 !in P then [IndexBar(k - 1, None)] else [])
  }

  /** What `barcode` returns for a reduced matrix E. */
  function PyBars(E: seq<seq<int>>): seq<IndexBar>
    requires Wide(E)
  {
    var L := LowList(E);
    PairBars(L, |L|) + UnpairedBars(PairedBelow(L, |L|), |L|)
  }

  // ---------------------------------------------------------------------
  // The method.

  /** `barcode` after the elimination step, on the reduced matrix E. */
  method PyBarcode(E: seq<seq<int>>) returns (bars: seq<IndexBar>)
    requires Wide(E)
    ensures bars == PyBars(E)
  {
    var n := |E|;
    bars := [];
    var low := seq(n, _ => -1);
    for j := 0 to n
      invariant |low| == n
      invariant forall q :: 0 <= q < j ==> low[q] == LowFrom(E, q, n)
      invariant forall q :: j <= q < n ==> low[q] == -1
    {
      ghost var low0 := low;
      var i := n;
      while i > 0
        invariant 0 <= i <= n
        invariant low == low0 && LowFrom(E, j, n) == LowFrom(E, j, i)
      {
        i := i - 1;
        if E[i][j] != 0 {
          low := low[j := i];
          break;
        }
      }
      assert low == low0[j := LowFrom(E, j, n)];
    }
    assert low == LowList(E);
    var paired: set<int> := {};
    for j := 0 to n
      invariant paired == PairedBelow(low, j)
      invariant bars == PairBars(low, j)
    {
      if low[j] != -1 {
        bars := bars + [IndexBar(low[j], Some(j))];
        paired := paired + {low[j]};
      }
    }
    ghost var pairs := bars;
    for i := 0 to n
      invariant bars == pairs + UnpairedBars(paired, i)
    {
      if i !in paired {
        bars := bars + [IndexBar(i, None)];
      }
    }
  }

  // ---------------------------------------------------------------------
  // Which bars, in which order, and how many.

  /** Each pair is a column below k with a low, paired with that low. */
  lemma {:induction false} PairBarsShape(L: seq<int>, k: nat)
    requires k <= |L|
    ensures forall b :: b in PairBars(L, k) ==>
      b.death.Some? && 0 <= b.death.value < k && b.birth == L[b.death.value] != -1
  {
    if k > 0 {
      PairBarsShape(L, k - 1);
    }
  }

  /** Each unpaired bar is an index below k outside P. */
  lemma {:induction false} UnpairedBarsShape(P: set<int>, k: nat)
    ensures forall b :: b in UnpairedBars(P, k) ==> b.death.None? && 0 <= b.birth < k && b.birth !in P
  {
    if k > 0 {
      UnpairedBarsShape(P, k - 1);
    }
  }

  /** A pair for every column with a low, in ascending column order. */
  lemma {:induction false} PairBarsMembers(L: seq<int>, k: nat, i: int, j: int)
    requires k <= |L|
    ensures IndexBar(i, Some(j)) in PairBars(L, k) <==> 0 <= j < k && L[j] == i != -1
  {
    if k > 0 {
      PairBarsMembers(L, k - 1, i, j);
    }
  }

  lemma {:induction false} PairBarsAscending(L: seq<int>, k: nat)
    requires k <= |L|
    ensures forall p, q :: 0 <= p < q < |PairBars(L, k)| ==>
      PairBars(L, k)[p].death.Some? && PairBars(L, k)[q].death.Some? &&
      PairBars(L, k)[p].death.value < PairBars(L, k)[q].death.value
  {
    PairBarsShape(L, k);
    if k > 0 {
      PairBarsAscending(L, k - 1);
      PairBarsShape(L, k - 1);
      var B := PairBars(L, k);
      var B0 := PairBars(L, k - 1);
      assert B == B0 + (if L[k - 1] != -1 then [IndexBar(L[k - 1], Some(k - 1))] else []);
      forall p, q | 0 <= p < q < |B| ensures B[p].death.Some? && B[q].death.Some? && B[p].death.value < B[q].death.value {
        assert B[q] in B;
        assert B[p] == B0[p];
        assert B[p] in B0;
        if q >= |B0| {
          assert B[q].death.value == k - 1;
        } else {
          assert B[q] == B0[q];
        }
      }
    }
  }

  /** An unpaired bar for every index below k outside P, in ascending order. */
  lemma {:induction false} UnpairedBarsMembers(P: set<int>, k: nat, i: int)
    ensures IndexBar(i, None) in UnpairedBars(P, k) <==> 0 <= i < k && i !in P
  {
    if k > 0 {
      UnpairedBarsMembers(P, k - 1, i);
    }
  }

  lemma {:induction false} UnpairedBarsAscending(P: set<int>, k: nat)
    ensures forall p, q :: 0 <= p < q < |UnpairedBars(P, k)| ==>
      UnpairedBars(P, k)[p].birth < UnpairedBars(P, k)[q].birth
  {
    if k > 0 {
      UnpairedBarsAscending(P, k - 1);
      UnpairedBarsShape(P, k - 1);
      var B := UnpairedBars(P, k);
      var B0 := UnpairedBars(P, k - 1);
      forall p, q | 0 <= p < q < |B| ensures B[p].birth < B[q].birth {
        assert B[p] in B0;
        if q >= |B0| {
          assert B[q].birth == k - 1;
        } else {
          assert B[q] == B0[q];
        }
      }
    }
  }

  /** `barcode` returns a pair (low[j], j) exactly for the columns with a
      low, and (i, None) exactly for the indices that are no column's low,
      whether or not column i itself is zero; all pairs come first. */
  lemma PyBarsMembers(E: seq<seq<int>>, i: int, j: int)
    requires Wide(E)
    ensures IndexBar(i, Some(j)) in PyBars(E) <==> 0 <= j < |E| && LowList(E)[j] == i != -1
    ensures IndexBar(i, None) in PyBars(E) <==>
      0 <= i < |E| && forall q :: 0 <= q < |E| ==> LowList(E)[q] != i
    ensures forall p, q :: 0 <= p < q < |PyBars(E)| && PyBars(E)[p].death.None? ==> PyBars(E)[q].death.None?
  {
    var L := LowList(E);
    var n := |E|;
    var P := PairedBelow(L, n);
    PairBarsMembers(L, n, i, j);
    UnpairedBarsMembers(P, n, i);
    PairedBelowMembers(L, n, i);
    var A, U := PairBars(L, n), UnpairedBars(P, n);
    var B: seq<IndexBar> := A + U;
    assert PyBars(E) == B;
    PairBarsShape(L, n);
    UnpairedBarsShape(P, n);
    forall p, q | 0 <= p < q < |B| ensures B[p].death.None? ==> B[q].death.None? {
      if q < |A| {
        assert B[p] == A[p] && A[p] in A;
      } else {
        assert B[q] == U[q - |A|] && U[q - |A|] in U;
      }
    }
  }

  /** The pairs are in ascending column order and the unpaired bars in
      ascending index order. */
  lemma PyBarsOrder(E: seq<seq<int>>)
    requires Wide(E)
    ensures forall p, q :: 0 <= p < q < |PyBars(E)| && PyBars(E)[q].death.Some? ==>
      PyBars(E)[p].death.Some? && PyBars(E)[p].death.value < PyBars(E)[q].death.value
    ensures forall p, q :: 0 <= p < q < |PyBars(E)| && PyBars(E)[p].death.None? ==>
      PyBars(E)[q].death.None? && PyBars(E)[p].birth < PyBars(E)[q].birth
  {
    var L := LowList(E);
    var n := |E|;
    var P := PairedBelow(L, n);
    PairBarsAscending(L, n);
    UnpairedBarsAscending(P, n);
    PairBarsShape(L, n);
    UnpairedBarsShape(P, n);
    var A, U := PairBars(L, n), UnpairedBars(P, n);
    var B: seq<IndexBar> := A + U;
    assert PyBars(E) == B;
    forall p, q | 0 <= p < q < |A + U| ensures
      && (B[q].death.Some? ==> B[p].death.Some? && B[p].death.value < B[q].death.value)
      && (B[p].death.None? ==> B[q].death.None? && B[p].birth < B[q].birth)
    {
      if q < |A| {
        assert B[p] == A[p] && B[q] == A[q] && A[q] in A;
      } else if p < |A| {
        assert B[p] == A[p] && A[p] in A;
        assert B[q] == U[q - |A|] && U[q - |A|] in U;
      } else {
        assert B[p] == U[p - |A|] && B[q] == U[q - |A|] && U[q - |A|] in U;
      }
    }
  }

  /** The number of columns with a low below k. */
  function LowCount(L: seq<int>, k: nat): nat
    requires k <= |L|
  {
    if k == 0 then 0 else LowCount(L, k - 1) + (if L[k - 1] != -1 then 1 else 0)
  }

  lemma {:induction false} PairBarsCount(L: seq<int>, k: nat)
    requires k <= |L|
    ensures |PairBars(L, k)| == LowCount(L, k)
  {
    if k > 0 {
      PairBarsCount(L, k - 1);
    }
  }

  lemma {:induction false} UnpairedBarsCount(P: set<int>, k: nat)
    ensures |UnpairedBars(P, k)| + CountIn(P, k) == k
  {
    if k > 0 {
      UnpairedBarsCount(P, k - 1);
    }
  }

  lemma {:induction false} PairedBelowRange(L: seq<int>, n: int, k: nat)
    requires k <= |L|
    requires forall j :: 0 <= j < |L| ==> -1 <= L[j] < n
    ensures forall x :: x in PairedBelow(L, k) ==> 0 <= x < n
  {
    if k > 0 {
      PairedBelowRange(L, n, k - 1);
    }
  }

  /** Bar count: the nonzero columns plus n minus the number of distinct
      lows. */
  lemma PyBarsCount(E: seq<seq<int>>)
    requires Wide(E)
    ensures |PyBars(E)| == LowCount(LowList(E), |E|) + |E| - |PairedBelow(LowList(E), |E|)|
  {
    var L := LowList(E);
    var n := |E|;
    var P := PairedBelow(L, n);
    LowListRange(E);
    PairedBelowRange(L, n, n);
    CountInCard(P, n);
    PairBarsCount(L, n);
    UnpairedBarsCount(P, n);
  }

  // ---------------------------------------------------------------------
  // The unpaired loop counts nonzero columns as births.

  /** The parameterised form of SpuriousInfinite. */
  lemma SpuriousInfiniteAt(E: seq<seq<int>>)
    requires E == [[0, 0, 1], [0, 0, 1], [0, 0, 0]]
    ensures Wide(E) && LowList(E) == [-1, -1, 1]
    ensures PairedBelow(LowList(E), 3) == {1}
    ensures PairBars(LowList(E), 3) == [IndexBar(1, Some(2))]
    ensures PyBars(E) == [IndexBar(1, Some(2)), IndexBar(0, None), IndexBar(2, None)]
  {
    var L := LowList(E);
    assert E[0][0] == E[1][0] == E[2][0] == 0;
    assert LowFrom(E, 0, 3) == LowFrom(E, 0, 2) == LowFrom(E, 0, 1) == LowFrom(E, 0, 0) == -1;
    assert E[0][1] == E[1][1] == E[2][1] == 0;
    assert LowFrom(E, 1, 3) == LowFrom(E, 1, 2) == LowFrom(E, 1, 1) == LowFrom(E, 1, 0) == -1;
    assert E[2][2] == 0 && E[1][2] == 1;
    assert LowFrom(E, 2, 3) == LowFrom(E, 2, 2) == 1;
    assert L == [-1, -1, 1];
    assert PairedBelow(L, 1) == {};
    assert PairedBelow(L, 2) == {};
    assert PairBars(L, 1) == [];
    assert PairedBelow(L, 3) == {1};
    assert PairBars(L, 2) == [];
    assert PairBars(L, 3) == [IndexBar(1, Some(2))];
    var P := PairedBelow(L, 3);
    assert UnpairedBars(P, 1) == [IndexBar(0, None)];
    assert UnpairedBars(P, 2) == [IndexBar(0, None)];
    assert UnpairedBars(P, 3) == [IndexBar(0, None), IndexBar(2, None)];
  }

  /** For two vertices and the edge between them (already reduced), the
      edge's own index 2 is emitted as `(2, None)`, a class that never
      dies, although column 2 is nonzero: it is the death of the class
      born at vertex 1. */
  lemma SpuriousInfinite()
    ensures Wide([[0, 0, 1], [0, 0, 1], [0, 0, 0]])
    ensures LowList([[0, 0, 1], [0, 0, 1], [0, 0, 0]])[2] != -1
    ensures PyBars([[0, 0, 1], [0, 0, 1], [0, 0, 0]]) ==
      [IndexBar(1, Some(2)), IndexBar(0, None), IndexBar(2, None)]
  {
    SpuriousInfiniteAt([[0, 0, 1], [0, 0, 1], [0, 0, 0]]);
  }

  /** The intended third loop: an index is a birth that never dies when it
      is no column's low and its own column is zero. */
  function UnclaimedBars(L: seq<int>, P: set<int>, k: nat): seq<IndexBar>
    requires k <= |L|
  {
    if k == 0 then []
    else UnclaimedBars(L, P, k - 1) + (if L[k - 1] == -1 && k - 1 !in P then [IndexBar(k - 1, None)] else [])
  }

  function CorrectedBars(E: seq<seq<int>>): seq<IndexBar>
    requires Wide(E)
  {
    var L := LowList(E);
    PairBars(L, |L|) + UnclaimedBars(L, PairedBelow(L, |L|), |L|)
  }

  /** The two agree if every nonzero column's index below k is in P,
      that is, is some column's low. */
  lemma {:induction false} UnpairedUnclaimedAgree(L: seq<int>, P: set<int>, k: nat)
    requires k <= |L|
    requires forall i :: 0 <= i < k && L[i] != -1 ==> i in P
    ensures UnpairedBars(P, k) == UnclaimedBars(L, P, k)
  {
    if k > 0 {
      UnpairedUnclaimedAgree(L, P, k - 1);
    }
  }

  lemma PyBarsCorrectWhenNonzeroColumnsPaired(E: seq<seq<int>>)
    requires Wide(E)
    requires forall i :: 0 <= i < |E| && LowList(E)[i] != -1 ==> i in PairedBelow(LowList(E), |E|)
    ensures PyBars(E) == CorrectedBars(E)
  {
    var L := LowList(E);
    UnpairedUnclaimedAgree(L, PairedBelow(L, |L|), |L|);
  }

  // ---------------------------------------------------------------------
  // Index bars as intervals: the corrected bars are the C++ barcode.

  predicate BarFits(b: IndexBar, n: int) {
    0 <= b.birth < n && (b.death.Some? ==> 0 <= b.death.value < n)
  }

  /** The interval of the C++ writers for an index bar: a pair (i, j) is
      born at val[i] in dimension dim[j] - 1 and dies at val[j]; (i, None)
      is born at val[i] in dimension dim[i]. */
  function BarInterval(b: IndexBar, dim: seq<int>, val: seq<real>): Interval
    requires BarFits(b, |dim|) && BarFits(b, |val|)
  {
    match b.death
    case Some(j) => Interval(dim[j] - 1, val[b.birth], Finite(val[j]))
    case None => Interval(dim[b.birth], val[b.birth], Inf)
  }

  function Intervals(bars: seq<IndexBar>, dim: seq<int>, val: seq<real>): (r: seq<Interval>)
    requires forall b :: b in bars ==> BarFits(b, |dim|) && BarFits(b, |val|)
    ensures |r| == |bars|
  {
    if bars == [] then []
    else
      var init := bars[..|bars| - 1];
      assert forall b :: b in init ==> b in bars;
      Intervals(init, dim, val) + [BarInterval(bars[|bars| - 1], dim, val)]
  }

  lemma IntervalsSnoc(a: seq<IndexBar>, b: IndexBar, dim: seq<int>, val: seq<real>)
    requires forall x :: x in a + [b] ==> BarFits(x, |dim|) && BarFits(x, |val|)
    ensures Intervals(a + [b], dim, val) == Intervals(a, dim, val) + [BarInterval(b, dim, val)]
  {
    assert (a + [b])[..|a|] == a;
  }

  lemma {:induction false} IntervalsAppend(a: seq<IndexBar>, b: seq<IndexBar>, dim: seq<int>, val: seq<real>)
    requires forall x :: x in a + b ==> BarFits(x, |dim|) && BarFits(x, |val|)
    ensures Intervals(a + b, dim, val) == Intervals(a, dim, val) + Intervals(b, dim, val)
  {
    if b == [] {
      assert a + b == a;
    } else {
      var init := b[..|b| - 1];
      var x := b[|b| - 1];
      assert b == init + [x];
      assert a + b == (a + init) + [x];
      assert forall y :: y in a + init ==> y in a + b;
      IntervalsAppend(a, init, dim, val);
      IntervalsSnoc(a + init, x, dim, val);
      IntervalsSnoc(init, x, dim, val);
    }
  }

  /** Columns C have the lows L: zero exactly where L is -1, and with
      their last row at L[j] elsewhere. */
  predicate LowsOfColumns(L: seq<int>, C: seq<seq<int>>) {
    && |L| == |C|
    && forall j :: 0 <= j < |C| ==> (C[j] == [] <==> L[j] == -1) && (C[j] != [] ==> Last(C[j]) == L[j])
  }

  lemma {:induction false} PairedBelowIsLowsBelow(L: seq<int>, C: seq<seq<int>>, k: nat)
    requires LowsOfColumns(L, C) && k <= |C|
    ensures PairedBelow(L, k) == LowsBelow(C, k)
  {
    if k > 0 {
      PairedBelowIsLowsBelow(L, C, k - 1);
    }
  }

  lemma {:induction false} PairsAreFinites(L: seq<int>, C: seq<seq<int>>, dim: seq<int>, val: seq<real>, k: nat)
    requires LowsOfColumns(L, C) && Writable(C, dim, val) && k <= |C|
    requires forall b :: b in PairBars(L, k) ==> BarFits(b, |dim|) && BarFits(b, |val|)
    ensures Intervals(PairBars(L, k), dim, val) == Finites(C, dim, val, k)
  {
    if k > 0 {
      assert forall b :: b in PairBars(L, k - 1) ==> b in PairBars(L, k);
      PairsAreFinites(L, C, dim, val, k - 1);
      var A0 := PairBars(L, k - 1);
      if L[k - 1] != -1 {
        var b := IndexBar(L[k - 1], Some(k - 1));
        assert C[k - 1] != [] && Last(C[k - 1]) == L[k - 1];
        assert PairBars(L, k) == A0 + [b];
        IntervalsSnoc(A0, b, dim, val);
        assert BarInterval(b, dim, val) == FiniteOf(C, dim, val, k - 1);
      } else {
        assert PairBars(L, k) == A0;
      }
    }
  }

  /** Each unclaimed bar is an index below k whose column has no low. */
  lemma {:induction false} UnclaimedBarsShape(L: seq<int>, P: set<int>, k: nat)
    requires k <= |L|
    ensures forall b :: b in UnclaimedBars(L, P, k) ==> b.death.None? && 0 <= b.birth < k
  {
    if k > 0 {
      UnclaimedBarsShape(L, P, k - 1);
    }
  }

  lemma {:induction false} UnclaimedAreInfinites(L: seq<int>, C: seq<seq<int>>, dim: seq<int>, val: seq<real>, P: set<int>, k: nat)
    requires LowsOfColumns(L, C) && Writable(C, dim, val) && k <= |C| && P == Lows(C)
    requires forall b :: b in UnclaimedBars(L, P, k) ==> BarFits(b, |dim|) && BarFits(b, |val|)
    ensures Intervals(UnclaimedBars(L, P, k), dim, val) == Infinites(C, dim, val, k)
  {
    if k > 0 {
      var U0 := UnclaimedBars(L, P, k - 1);
      assert forall b :: b in U0 ==> b in UnclaimedBars(L, P, k);
      UnclaimedAreInfinites(L, C, dim, val, P, k - 1);
      if L[k - 1] == -1 && k - 1 !in P {
        var b := IndexBar(k - 1, None);
        assert UnclaimedBars(L, P, k) == U0 + [b];
        IntervalsSnoc(U0, b, dim, val);
      } else {
        assert UnclaimedBars(L, P, k) == U0;
      }
    }
  }

  /** With columns C whose lows are the low list of E, the corrected bars,
      read as intervals, are exactly the barcode the C++ writers emit for C:
      the same intervals in the same order. */
  lemma CorrectedBarsMatchBarcode(E: seq<seq<int>>, C: seq<seq<int>>, dim: seq<int>, val: seq<real>)
    requires Wide(E) && LowsOfColumns(LowList(E), C) && |dim| >= |E| && |val| >= |E|
    ensures Writable(C, dim, val)
    ensures forall b :: b in CorrectedBars(E) ==> BarFits(b, |dim|) && BarFits(b, |val|)
    ensures Intervals(CorrectedBars(E), dim, val) == BarcodeOf(C, dim, val)
  {
    var L := LowList(E);
    var n := |E|;
    LowListRange(E);
    assert Writable(C, dim, val);
    PairBarsShape(L, n);
    PairedBelowIsLowsBelow(L, C, n);
    var A := PairBars(L, n);
    var U := UnclaimedBars(L, Lows(C), n);
    UnclaimedBarsShape(L, Lows(C), n);
    UnclaimedAreInfinites(L, C, dim, val, Lows(C), n);
    PairsAreFinites(L, C, dim, val, n);
    assert CorrectedBars(E) == A + U;
    IntervalsAppend(A, U, dim, val);
  }

  /** On the edge example the corrected bars drop (2, None). */
  lemma CorrectedEdge()
    ensures Wide([[0, 0, 1], [0, 0, 1], [0, 0, 0]])
    ensures CorrectedBars([[0, 0, 1], [0, 0, 1], [0, 0, 0]]) == [IndexBar(1, Some(2)), IndexBar(0, None)]
  {
    CorrectedEdgeAt([[0, 0, 1], [0, 0, 1], [0, 0, 0]]);
  }

  lemma CorrectedEdgeAt(E: seq<seq<int>>)
    requires E == [[0, 0, 1], [0, 0, 1], [0, 0, 0]]
    ensures Wide(E)
    ensures CorrectedBars(E) == [IndexBar(1, Some(2)), IndexBar(0, None)]
  {
    SpuriousInfiniteAt(E);
    var L := LowList(E);
    var P := PairedBelow(L, 3);
    assert UnclaimedBars(L, P, 1) == [IndexBar(0, None)];
    assert UnclaimedBars(L, P, 2) == [IndexBar(0, None)];
    assert UnclaimedBars(L, P, 3) == [IndexBar(0, None)];
    assert CorrectedBars(E) == PairBars(L, 3) + UnclaimedBars(L, P, 3);
  }
}
