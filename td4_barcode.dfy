/** `sparse_barcode_builder` of td4/reduction.py: the barcode read off the
    reduced set-based matrix. Each nonzero column j with low i gives the
    tuple (dim of i, value of i, value of j); each index that is neither a
    nonzero column nor a low gives (dim, value, inf); the tuples are
    returned sorted. The columns and the left-over indices are visited in
    set order, which the sort makes irrelevant: the result is a function
    of the matrix and the filtration. */
module Td4Barcode {
  import opened Ordered
  import opened Filtration
  import opened GaussianElimination
  import opened BoundaryMatrix
  import opened Barcode
  import opened Pipeline
  import opened Td4BoundaryMatrix
  import opened Td4Reduction

  // ---------------------------------------------------------------------
  // Python's order on the tuples.

  /** `inf` is above every value. */
  predicate DeathLess(a: Death, b: Death) {
    a.Finite? && (b.Inf? || a.at < b.at)
  }

  /** Tuples compare field by field: dimension, birth, death. */
  predicate IntervalLe(a: Interval, b: Interval) {
    || a.dim < b.dim
    || (a.dim == b.dim && a.birth < b.birth)
    || (a.dim == b.dim && a.birth == b.birth && (a.death == b.death || DeathLess(a.death, b.death)))
  }

  /** The tuple order is total, transitive, and ties only equal tuples, so
      `sorted` has one possible result. */
  lemma IntervalLeOrder()
    ensures TotalPreorder(IntervalLe)
    ensures Antisymmetric(IntervalLe)
  {
  }

  // ---------------------------------------------------------------------
  // What the builder returns.

  /** The builder indexes the filtration by every column and every low. */
  predicate Fits(C: seq<seq<int>>, F: seq<Simplex>) {
    && |F| >= |C|
    && forall j :: 0 <= j < |C| && C[j] != [] ==> 0 <= Last(C[j]) < |C|
  }

  /** The tuple of a nonzero column j: its low's dimension and value, and
      its own value. */
  function FiniteBar(C: seq<seq<int>>, F: seq<Simplex>, j: int): Interval
    requires Fits(C, F) && 0 <= j < |C| && C[j] != []
  {
    Interval(F[Last(C[j])].dim, F[Last(C[j])].val, Finite(F[j].val))
  }

  /** The tuple of a left-over index i. */
  function InfiniteBar(F: seq<Simplex>, i: int): Interval
    requires 0 <= i < |F|
  {
    Interval(F[i].dim, F[i].val, Inf)
  }

  /** The tuple each index would give: finite for a nonzero column,
      infinite for a zero one. */
  function Table(C: seq<seq<int>>, F: seq<Simplex>): (T: seq<Interval>)
    requires Fits(C, F)
    ensures |T| == |C|
    ensures forall q :: 0 <= q < |C| && C[q] != [] ==> T[q] == FiniteBar(C, F, q)
    ensures forall q :: 0 <= q < |C| && C[q] == [] ==> T[q] == InfiniteBar(F, q)
  {
    seq(|C|, q requires 0 <= q < |C| => if C[q] != [] then FiniteBar(C, F, q) else InfiniteBar(F, q))
  }

  /** The indices below n: `set(range(n))`. */
  function Indices(n: nat): (D: set<int>)
    ensures forall q :: q in D <==> 0 <= q < n
  {
    if n == 0 then {} else Indices(n - 1) + {n - 1}
  }

  /** The nonzero columns. */
  function Nonzero(C: seq<seq<int>>): (D: set<int>)
    ensures forall q :: q in D <==> 0 <= q < |C| && C[q] != []
  {
    set q | 0 <= q < |C| && C[q] != []
  }

  /** The indices left in `sides`: zero columns that are no column's low. */
  function Sides(C: seq<seq<int>>): (D: set<int>)
    ensures forall q :: q in D <==> 0 <= q < |C| && Unclaimed(C, q)
  {
    set q | 0 <= q < |C| && Unclaimed(C, q)
  }

  /** The members of D below k, ascending. */
  function Below(D: set<int>, k: nat): (r: seq<int>)
    ensures Ascending(r)
    ensures forall x :: x in r <==> 0 <= x < k && x in D
  {
    if k == 0 then []
    else
      var t := Below(D, k - 1);
      if k - 1 in D then
        ConsAscendingRight(t, k - 1);
        t + [k - 1]
      else t
  }

  /** Every index of w is a position of a table of size n. */
  predicate InTable(w: seq<int>, n: int) {
    forall x :: x in w ==> 0 <= x < n
  }

  /** The entries of T at the indices w, in the order of w. */
  function Pick<U>(T: seq<U>, w: seq<int>): (r: seq<U>)
    requires InTable(w, |T|)
    ensures |r| == |w| && forall i :: 0 <= i < |w| ==> 0 <= w[i] < |T| && r[i] == T[w[i]]
  {
    assert forall i :: 0 <= i < |w| ==> w[i] in w;
    seq(|w|, i requires 0 <= i < |w| => T[w[i]])
  }

  /** Picking one more index appends its entry. */
  lemma PickSnoc<U>(T: seq<U>, w: seq<int>, j: int)
    requires InTable(w, |T|) && 0 <= j < |T|
    ensures InTable(w + [j], |T|)
    ensures Pick(T, w + [j]) == Pick(T, w) + [T[j]]
  {
    assert InTable(w + [j], |T|);
    assert Pick(T, w + [j])[..|w|] == Pick(T, w);
  }

  /** The sorted tuples of the reduced columns C: those of the nonzero
      columns, then those of the indices left in `sides`. */
  function Td4BarcodeOf(C: seq<seq<int>>, F: seq<Simplex>): seq<Interval>
    requires Fits(C, F)
  {
    IntervalLeOrder();
    Sort(Pick(Table(C, F), Below(Nonzero(C), |C|)) + Pick(Table(C, F), Below(Sides(C), |C|)), IntervalLe)
  }

  /** Two lists with the same multiset have the same members. */
  lemma SameMembers<U>(x: seq<U>, y: seq<U>)
    requires multiset(x) == multiset(y)
    ensures forall t :: t in x <==> t in y
  {
    forall t ensures t in x <==> t in y {
      assert t in x <==> t in multiset(x);
      assert t in y <==> t in multiset(y);
    }
  }

  /** Every tuple of the unsorted list is a finite bar of a nonzero column
      or an infinite bar of an unclaimed index. */
  lemma UnsortedSound(C: seq<seq<int>>, F: seq<Simplex>)
    requires Fits(C, F)
    ensures var a, b := Below(Nonzero(C), |C|), Below(Sides(C), |C|);
      forall t :: t in Pick(Table(C, F), a) + Pick(Table(C, F), b) ==>
        || (exists j :: 0 <= j < |C| && C[j] != [] && t == FiniteBar(C, F, j))
        || (exists i :: 0 <= i < |C| && Unclaimed(C, i) && t == InfiniteBar(F, i))
  {
    var T := Table(C, F);
    var a, b := Below(Nonzero(C), |C|), Below(Sides(C), |C|);
    var s := Pick(T, a) + Pick(T, b);
    forall t | t in s ensures
      || (exists j :: 0 <= j < |C| && C[j] != [] && t == FiniteBar(C, F, j))
      || (exists i :: 0 <= i < |C| && Unclaimed(C, i) && t == InfiniteBar(F, i))
    {
      var k :| 0 <= k < |s| && s[k] == t;
      if k < |a| {
        assert a[k] in a;
      } else {
        assert b[k - |a|] in b;
      }
    }
  }

  /** Every finite bar of a nonzero column and every infinite bar of an
      unclaimed index is in the unsorted list. */
  lemma UnsortedComplete(C: seq<seq<int>>, F: seq<Simplex>)
    requires Fits(C, F)
    ensures var a, b := Below(Nonzero(C), |C|), Below(Sides(C), |C|);
      && (forall j :: 0 <= j < |C| && C[j] != [] ==> FiniteBar(C, F, j) in Pick(Table(C, F), a) + Pick(Table(C, F), b))
      && (forall i :: 0 <= i < |C| && Unclaimed(C, i) ==> InfiniteBar(F, i) in Pick(Table(C, F), a) + Pick(Table(C, F), b))
  {
    var T := Table(C, F);
    var a, b := Below(Nonzero(C), |C|), Below(Sides(C), |C|);
    var s := Pick(T, a) + Pick(T, b);
    forall j | 0 <= j < |C| && C[j] != [] ensures FiniteBar(C, F, j) in s {
      assert j in a;
      var k :| 0 <= k < |a| && a[k] == j;
      assert s[k] == FiniteBar(C, F, j);
    }
    forall i | 0 <= i < |C| && Unclaimed(C, i) ensures InfiniteBar(F, i) in s {
      assert i in b;
      var k :| 0 <= k < |b| && b[k] == i;
      assert s[|a| + k] == InfiniteBar(F, i);
    }
  }

  /** The unsorted specification list: one tuple per nonzero column, one
      per index left in `sides`. */
  lemma UnsortedMembers(C: seq<seq<int>>, F: seq<Simplex>)
    requires Fits(C, F)
    ensures var a, b := Below(Nonzero(C), |C|), Below(Sides(C), |C|);
      |Pick(Table(C, F), a) + Pick(Table(C, F), b)| == |Nonzero(C)| + |Sides(C)|
    ensures var a, b := Below(Nonzero(C), |C|), Below(Sides(C), |C|);
      forall t :: t in Pick(Table(C, F), a) + Pick(Table(C, F), b) <==>
        || (exists j :: 0 <= j < |C| && C[j] != [] && t == FiniteBar(C, F, j))
        || (exists i :: 0 <= i < |C| && Unclaimed(C, i) && t == InfiniteBar(F, i))
  {
    var a, b := Below(Nonzero(C), |C|), Below(Sides(C), |C|);
    UnsortedSound(C, F);
    UnsortedComplete(C, F);
    AscendingCard(a);
    AscendingCard(b);
    assert Elems(a) == Nonzero(C);
    assert Elems(b) == Sides(C);
  }

  /** The builder's result is sorted and holds exactly one tuple per
      nonzero column and one per index left in `sides`. */
  lemma Td4BarcodeMembers(C: seq<seq<int>>, F: seq<Simplex>)
    requires Fits(C, F)
    ensures SortedBy(Td4BarcodeOf(C, F), IntervalLe)
    ensures |Td4BarcodeOf(C, F)| == |Nonzero(C)| + |Sides(C)|
    ensures forall t :: t in Td4BarcodeOf(C, F) <==>
      || (exists j :: 0 <= j < |C| && C[j] != [] && t == FiniteBar(C, F, j))
      || (exists i :: 0 <= i < |C| && Unclaimed(C, i) && t == InfiniteBar(F, i))
  {
    IntervalLeOrder();
    var T := Table(C, F);
    var s := Pick(T, Below(Nonzero(C), |C|)) + Pick(T, Below(Sides(C), |C|));
    SameMembers(Td4BarcodeOf(C, F), s);
    UnsortedMembers(C, F);
  }

  // ---------------------------------------------------------------------
  // Visiting order does not matter.

  predicate Distinct(w: seq<int>) {
    forall i, j :: 0 <= i < j < |w| ==> w[i] != w[j]
  }

  /** Two duplicate-free lists of the same indices are permutations of each
      other. */
  lemma DistinctSameElements(w: seq<int>, v: seq<int>)
    requires Distinct(w) && Distinct(v)
    requires forall x :: x in w <==> x in v
    ensures multiset(w) == multiset(v)
  {
    forall x ensures multiset(w)[x] == multiset(v)[x] {
      assert x in w <==> x in multiset(w);
      assert x in v <==> x in multiset(v);
      MultiplicityAtMostOne(w, x);
      MultiplicityAtMostOne(v, x);
    }
  }

  /** Dropping position p removes one copy of v[p]. */
  lemma MultisetDelete<U>(v: seq<U>, p: int)
    requires 0 <= p < |v|
    ensures multiset(v) == multiset(v[..p] + v[p + 1..]) + multiset{v[p]}
  {
    assert v == v[..p] + [v[p]] + v[p + 1..];
  }

  /** A copy added to both sides cancels. */
  lemma MultisetCancel<U>(X: multiset<U>, Y: multiset<U>, a: U)
    requires X + multiset{a} == Y + multiset{a}
    ensures X == Y
  {
    forall x ensures X[x] == Y[x] {
      assert (X + multiset{a})[x] == (Y + multiset{a})[x];
    }
  }

  /** Removing the first element of w and a copy of it at position p of a
      permutation v leaves permutations. */
  lemma PermutationDelete(w: seq<int>, v: seq<int>, p: int)
    requires multiset(w) == multiset(v) && w != [] && 0 <= p < |v| && v[p] == w[0]
    ensures multiset(w[1..]) == multiset(v[..p] + v[p + 1..])
  {
    MultisetDelete(w, 0);
    MultisetDelete(v, p);
    assert w[..0] + w[1..] == w[1..];
    MultisetCancel(multiset(w[1..]), multiset(v[..p] + v[p + 1..]), w[0]);
  }

  /** Picking without position p drops one copy of the entry picked there. */
  lemma PickDelete<U>(T: seq<U>, v: seq<int>, p: int)
    requires InTable(v, |T|) && 0 <= p < |v|
    ensures 0 <= v[p] < |T| && InTable(v[..p] + v[p + 1..], |T|)
    ensures multiset(Pick(T, v)) == multiset(Pick(T, v[..p] + v[p + 1..])) + multiset{T[v[p]]}
  {
    assert v[p] in v;
    assert forall x :: x in v[..p] + v[p + 1..] ==> x in v;
    var pv := Pick(T, v);
    assert pv[..p] + pv[p + 1..] == Pick(T, v[..p] + v[p + 1..]);
    MultisetDelete(pv, p);
  }

  /** Picking along a permutation of the indices gives a permutation of the
      entries. */
  lemma {:induction false} PickPermutation<U>(T: seq<U>, w: seq<int>, v: seq<int>)
    requires InTable(w, |T|)
    requires multiset(w) == multiset(v)
    ensures InTable(v, |T|)
    ensures multiset(Pick(T, w)) == multiset(Pick(T, v))
    decreases |w|
  {
    assert InTable(v, |T|) by {
      forall x | x in v ensures 0 <= x < |T| {
        assert x in multiset(v);
        assert x in multiset(w);
        assert x in w;
      }
    }
    if w == [] {
      assert |v| == |multiset(v)|;
    } else {
      assert w[0] in multiset(v);
      var p :| 0 <= p < |v| && v[p] == w[0];
      PermutationDelete(w, v, p);
      assert forall x :: x in w[1..] ==> x in w;
      PickPermutation(T, w[1..], v[..p] + v[p + 1..]);
      PickDelete(T, w, 0);
      PickDelete(T, v, p);
      assert w[..0] + w[1..] == w[1..];
    }
  }

  /** The columns of a strictly upper matrix fit any filtration of at
      least m simplices, and the columns in `cols()` are its nonzero ones,
      their low being `sparse_low`. */
  lemma ColumnsFit(M: SparseMatrix, F: seq<Simplex>)
    requires StrictlyUpper(M.entries, M.m) && M.m <= |F|
    ensures Fits(ColumnsOf(M.entries, M.m), F)
    ensures forall q :: 0 <= q < M.m ==> (q in M.Cols() <==> ColumnsOf(M.entries, M.m)[q] != [])
    ensures forall q :: q in M.Cols() ==> 0 <= q < M.m && SparseLow(M, q) == Last(ColumnsOf(M.entries, M.m)[q])
  {
    var C := ColumnsOf(M.entries, M.m);
    ColsInRange(M);
    forall j | 0 <= j < M.m && C[j] != [] ensures 0 <= Last(C[j]) < M.m {
      assert Last(C[j]) in C[j];
    }
    forall q | 0 <= q < M.m ensures q in M.Cols() <==> C[q] != [] {
      if q in M.Cols() {
        var x :| (x, q) in M.entries;
        assert x in C[q];
      }
      if C[q] != [] {
        assert (C[q][0], q) in M.entries;
      }
    }
    forall q | q in M.Cols() ensures SparseLow(M, q) == Last(C[q]) {
      SetLowSpec(M.entries, q, M.m);
      RowListLow(M.entries, q, M.m);
    }
  }

  /** The tuple of every index, infinite or not. */
  function InfiniteTable(F: seq<Simplex>): (T: seq<Interval>)
    ensures |T| == |F| && forall i :: 0 <= i < |F| ==> T[i] == InfiniteBar(F, i)
  {
    seq(|F|, i requires 0 <= i < |F| => InfiniteBar(F, i))
  }

  /** Appending one index to a distinct list that lacks it. */
  lemma DistinctSnoc(w: seq<int>, j: int)
    requires Distinct(w) && j !in w
    ensures Distinct(w + [j])
  {
  }

  /** One step of the first loop: the tuple appended for column j is the
      table's entry at j. */
  lemma PairStep(C: seq<seq<int>>, F: seq<Simplex>, paired: seq<int>, barcode: seq<Interval>, j: int)
    requires Fits(C, F) && InTable(paired, |C|) && barcode == Pick(Table(C, F), paired)
    requires 0 <= j < |C| && C[j] != []
    ensures InTable(paired + [j], |C|)
    ensures barcode + [Interval(F[Last(C[j])].dim, F[Last(C[j])].val, Finite(F[j].val))] == Pick(Table(C, F), paired + [j])
  {
    var T := Table(C, F);
    assert InTable(paired + [j], |C|);
    var r := Pick(T, paired + [j]);
    assert r[..|paired|] == Pick(T, paired);
  }

  /** One step of the second loop. */
  lemma UnpairStep(F: seq<Simplex>, left: seq<int>, barcode: seq<Interval>, i: int)
    requires InTable(left, |F|) && barcode == Pick(InfiniteTable(F), left)
    requires 0 <= i < |F|
    ensures InTable(left + [i], |F|)
    ensures barcode + [Interval(F[i].dim, F[i].val, Inf)] == Pick(InfiniteTable(F), left + [i])
  {
    var T := InfiniteTable(F);
    assert InTable(left + [i], |F|);
    var r := Pick(T, left + [i]);
    assert r[..|left|] == Pick(T, left);
  }

  /** On the indices named by `Sides` the table holds infinite tuples. */
  lemma SidesPick(C: seq<seq<int>>, F: seq<Simplex>, left: seq<int>)
    requires Fits(C, F) && forall q :: q in left ==> q in Sides(C)
    ensures InTable(left, |C|) && InTable(left, |F|)
    ensures Pick(InfiniteTable(F), left) == Pick(Table(C, F), left)
  {
    assert forall k :: 0 <= k < |left| ==> left[k] in left;
    assert InTable(left, |C|);
    var T := Table(C, F);
    forall k | 0 <= k < |left| ensures InfiniteTable(F)[left[k]] == T[left[k]] {
      assert left[k] in left;
    }
  }

  /** The state of the first loop after visiting the columns `paired`
      of `cols`, `rest` being those still to come. */
  ghost predicate Pairing(C: seq<seq<int>>, F: seq<Simplex>, cols: set<int>, rest: set<int>, paired: seq<int>,
                          lows: set<int>, sides: set<int>, barcode: seq<Interval>)
  {
    && Fits(C, F)
    && (forall q :: 0 <= q < |C| ==> (q in cols <==> C[q] != []))
    && (forall q :: q in cols ==> 0 <= q < |C|)
    && rest <= cols
    && (forall q :: q in paired <==> q in cols && q !in rest)
    && Distinct(paired) && InTable(paired, |C|)
    && barcode == Pick(Table(C, F), paired)
    && (forall x :: x in lows ==> x in Lows(C))
    && (forall q :: q in paired ==> C[q] != [] && Last(C[q]) in lows)
    && (forall x :: x in sides <==> 0 <= x < |C| && x !in paired && x !in lows)
  }

  /** Visiting column j of `rest` keeps the state. */
  lemma PairingStep(C: seq<seq<int>>, F: seq<Simplex>, cols: set<int>, rest: set<int>, paired: seq<int>,
                    lows: set<int>, sides: set<int>, barcode: seq<Interval>, j: int)
    requires Pairing(C, F, cols, rest, paired, lows, sides, barcode) && j in rest
    ensures 0 <= j < |C| && C[j] != [] && 0 <= Last(C[j]) < |F|
    ensures Pairing(C, F, cols, rest - {j}, paired + [j], lows + {Last(C[j])}, sides - {Last(C[j]), j},
                    barcode + [Interval(F[Last(C[j])].dim, F[Last(C[j])].val, Finite(F[j].val))])
  {
    LowsBelowMembers(C, |C|, Last(C[j]));
    PairStep(C, F, paired, barcode, j);
    DistinctSnoc(paired, j);
  }

  /** Before the first loop: nothing visited, `sides` every index. */
  lemma PairingStart(matrix: SparseMatrix, F: seq<Simplex>)
    requires StrictlyUpper(matrix.entries, matrix.m) && matrix.m <= |F|
    ensures Pairing(ColumnsOf(matrix.entries, matrix.m), F, matrix.Cols(), matrix.Cols(), [], {}, Indices(matrix.m), [])
    ensures forall q :: q in matrix.Cols() ==> 0 <= q < matrix.m && SparseLow(matrix, q) == Last(ColumnsOf(matrix.entries, matrix.m)[q])
  {
    ColumnsFit(matrix, F);
  }

  /** Once every column is visited, the indices left are those that
      `Sides` names. */
  lemma PairingEnd(C: seq<seq<int>>, F: seq<Simplex>, cols: set<int>, paired: seq<int>,
                   lows: set<int>, sides: set<int>, barcode: seq<Interval>)
    requires Pairing(C, F, cols, {}, paired, lows, sides, barcode)
    ensures forall q :: q in paired <==> q in Nonzero(C)
    ensures sides == Sides(C)
  {
    forall x | 0 <= x < |C| && x in Lows(C) ensures x in lows {
      LowsBelowMembers(C, |C|, x);
      var j :| 0 <= j < |C| && C[j] != [] && Last(C[j]) == x;
      assert j in paired;
    }
  }

  /** One turn of the first loop (lines 95-97): take a column j still to
      visit, look up its low i, drop i and j from `sides`, append the tuple. */
  method VisitPaired(matrix: SparseMatrix, F: seq<Simplex>, ghost C: seq<seq<int>>, ghost cols: set<int>, rest: set<int>,
                     ghost paired: seq<int>, ghost lows: set<int>, sides: set<int>, barcode: seq<Interval>)
    returns (rest': set<int>, ghost paired': seq<int>, ghost lows': set<int>, sides': set<int>, barcode': seq<Interval>)
    requires Pairing(C, F, cols, rest, paired, lows, sides, barcode) && rest != {}
    requires forall q :: q in cols ==> 0 <= q < |C| && C[q] != [] && SparseLow(matrix, q) == Last(C[q])
    ensures Pairing(C, F, cols, rest', paired', lows', sides', barcode')
    ensures |rest'| < |rest|
  {
    ghost var w := SomeMember(rest);
    var j :| j in rest;
    var i := SparseLow(matrix, j);
    PairingStep(C, F, cols, rest, paired, lows, sides, barcode, j);
    sides' := sides - {i, j};
    barcode' := barcode + [Interval(F[i].dim, F[i].val, Finite(F[j].val))];
    paired' := paired + [j];
    lows' := lows + {i};
    rest' := rest - {j};
  }

  /** The first loop of `sparse_barcode_builder` (lines 94-97): one tuple
      per column of `matrix.cols()`, visited in any order, each removing
      the column and its low from `sides`. */
  method PairedTuples(matrix: SparseMatrix, F: seq<Simplex>) returns (barcode: seq<Interval>, sides: set<int>, ghost paired: seq<int>)
    requires StrictlyUpper(matrix.entries, matrix.m) && matrix.m <= |F|
    ensures Fits(ColumnsOf(matrix.entries, matrix.m), F)
    ensures Distinct(paired) && forall q :: q in paired <==> q in Nonzero(ColumnsOf(matrix.entries, matrix.m))
    ensures barcode == Pick(Table(ColumnsOf(matrix.entries, matrix.m), F), paired)
    ensures sides == Sides(ColumnsOf(matrix.entries, matrix.m))
  {
    var m := matrix.m;
    ghost var C := ColumnsOf(matrix.entries, m);
    PairingStart(matrix, F);
    sides := Indices(m);
    barcode := [];
    var cols := matrix.Cols();
    var rest := cols;
    paired := [];
    ghost var lows: set<int> := {};
    while rest != {}
      invariant Pairing(C, F, cols, rest, paired, lows, sides, barcode)
      invariant forall q :: q in cols ==> 0 <= q < |C| && C[q] != [] && SparseLow(matrix, q) == Last(C[q])
      decreases |rest|
    {
      rest, paired, lows, sides, barcode := VisitPaired(matrix, F, C, cols, rest, paired, lows, sides, barcode);
    }
    PairingEnd(C, F, cols, paired, lows, sides, barcode);
  }

  /** The second loop (lines 99-100): one infinite tuple per index left in
      `sides`, visited in any order. */
  method UnpairedTuples(sides: set<int>, F: seq<Simplex>) returns (barcode: seq<Interval>, ghost left: seq<int>)
    requires forall i :: i in sides ==> 0 <= i < |F|
    ensures Distinct(left) && forall q :: q in left <==> q in sides
    ensures InTable(left, |F|) && barcode == Pick(InfiniteTable(F), left)
  {
    ghost var T := InfiniteTable(F);
    barcode := [];
    var rest := sides;
    left := [];
    while rest != {}
      invariant rest <= sides
      invariant forall q :: q in left <==> q in sides && q !in rest
      invariant Distinct(left)
      invariant InTable(left, |F|) && barcode == Pick(T, left)
      decreases |rest|
    {
      ghost var w := SomeMember(rest);
      var i :| i in rest;
      UnpairStep(F, left, barcode, i);
      DistinctSnoc(left, i);
      barcode := barcode + [Interval(F[i].dim, F[i].val, Inf)];
      left := left + [i];
      rest := rest - {i};
    }
  }

  /** `sparse_barcode_builder`: the tuples of both loops, sorted. The
      filtration must have an entry for every index below `len(matrix)`. */
  method SparseBarcodeBuilder(matrix: SparseMatrix, F: seq<Simplex>) returns (bars: seq<Interval>)
    requires StrictlyUpper(matrix.entries, matrix.m) && matrix.m <= |F|
    ensures Fits(ColumnsOf(matrix.entries, matrix.m), F)
    ensures bars == Td4BarcodeOf(ColumnsOf(matrix.entries, matrix.m), F)
  {
    ghost var C := ColumnsOf(matrix.entries, matrix.m);
    var barcode, sides, paired := PairedTuples(matrix, F);
    var infinite, left := UnpairedTuples(sides, F);
    BuilderPermutation(C, F, paired, left, barcode + infinite);
    IntervalLeOrder();
    bars := Sort(barcode + infinite, IntervalLe);
    SortedUnique(bars, Td4BarcodeOf(C, F), IntervalLe);
  }

  /** The two loops' tuples are a permutation of the specification's. */
  lemma BuilderPermutation(C: seq<seq<int>>, F: seq<Simplex>, paired: seq<int>, left: seq<int>, barcode: seq<Interval>)
    requires Fits(C, F)
    requires Distinct(paired) && forall q :: q in paired <==> q in Nonzero(C)
    requires Distinct(left) && forall q :: q in left <==> q in Sides(C)
    requires InTable(left, |F|) && barcode == Pick(Table(C, F), paired) + Pick(InfiniteTable(F), left)
    ensures multiset(barcode) == multiset(Pick(Table(C, F), Below(Nonzero(C), |C|)) + Pick(Table(C, F), Below(Sides(C), |C|)))
  {
    var T := Table(C, F);
    var a, b := Below(Nonzero(C), |C|), Below(Sides(C), |C|);
    SidesPick(C, F, left);
    assert Distinct(a) && Distinct(b);
    DistinctSameElements(paired, a);
    DistinctSameElements(left, b);
    PickPermutation(T, paired, a);
    PickPermutation(T, left, b);
  }
}
