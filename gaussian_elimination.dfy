/** The persistence algorithm: GF(2) column reduction of a boundary matrix
    (topological_persistence/cpp/src/gaussian_elimination.cpp, with an
    identical copy of the sparse half in main.cpp).

    Columns are processed left to right. While the lowest one of column j
    (its largest row index, `low`) is already the pivot of an earlier column k,
    column k is added into column j over GF(2). The row is then registered as
    the pivot of j.

    `Reduce` is the algorithm as a function on sparse columns (strictly
    ascending row lists); the sparse and the dense C++ reducers are both
    proved to compute it, and its properties (distinct lows, untouched
    shape, idempotence, termination by a strictly decreasing low) are lemmas. */
module GaussianElimination {
  import opened Ordered

  /** "No row": `-1` in the sparse code; the dense code uses SIZE_MAX, which
      this model writes as the same `-1`. */
  const NONE: int := -1

  // ---------------------------------------------------------------------
  // Symmetric difference of two sorted row lists.

  /** The two-index merge of `symdiff`, as a function: keeps the smaller
      head, drops both heads when they are equal, appends what is left. */
  function SymDiff(a: seq<int>, b: seq<int>): seq<int>
    decreases |a| + |b|
  {
    if a == [] then b
    else if b == [] then a
    else if a[0] < b[0] then [a[0]] + SymDiff(a[1..], b)
    else if b[0] < a[0] then [b[0]] + SymDiff(a, b[1..])
    else SymDiff(a[1..], b[1..])
  }

  /** The elements in exactly one of two sets. */
  function Xor(x: set<int>, y: set<int>): set<int> {
    (x - y) + (y - x)
  }

  /** On strictly ascending inputs a row is in the merge iff it is in exactly
      one input. */
  lemma {:induction false} SymDiffMembers(a: seq<int>, b: seq<int>)
    requires Ascending(a) && Ascending(b)
    ensures forall x :: x in SymDiff(a, b) <==> (x in a) != (x in b)
    decreases |a| + |b|
  {
    if a != [] && b != [] {
      HeadBelow(a);
      HeadBelow(b);
      if a[0] < b[0] {
        SymDiffMembers(a[1..], b);
        assert a[0] !in b;
      } else if b[0] < a[0] {
        SymDiffMembers(a, b[1..]);
        assert b[0] !in a;
      } else {
        SymDiffMembers(a[1..], b[1..]);
      }
    }
  }

  /** On strictly ascending inputs the merge is strictly ascending. */
  lemma {:induction false} SymDiffAscending(a: seq<int>, b: seq<int>)
    requires Ascending(a) && Ascending(b)
    ensures Ascending(SymDiff(a, b))
    decreases |a| + |b|
  {
    if a != [] && b != [] {
      HeadBelow(a);
      HeadBelow(b);
      if a[0] < b[0] {
        SymDiffAscending(a[1..], b);
        SymDiffBounds(a[1..], b);
        ConsAscending(a[0], SymDiff(a[1..], b));
      } else if b[0] < a[0] {
        SymDiffAscending(a, b[1..]);
        SymDiffBounds(a, b[1..]);
        ConsAscending(b[0], SymDiff(a, b[1..]));
      } else {
        SymDiffAscending(a[1..], b[1..]);
      }
    }
  }

  /** On strictly ascending inputs the merge is strictly ascending and holds
      exactly the rows present in one input but not in both. */
  lemma SymDiffCorrect(a: seq<int>, b: seq<int>)
    requires Ascending(a) && Ascending(b)
    ensures Ascending(SymDiff(a, b))
    ensures Elems(SymDiff(a, b)) == Xor(Elems(a), Elems(b))
  {
    SymDiffAscending(a, b);
    SymDiffMembers(a, b);
  }

  /** Every row of the merge comes from one of its inputs, and the merge is
      never longer than both inputs together (`r.reserve(a.size()+b.size())`). */
  lemma {:induction false} SymDiffBounds(a: seq<int>, b: seq<int>)
    ensures |SymDiff(a, b)| <= |a| + |b|
    ensures forall x :: x in SymDiff(a, b) ==> x in a || x in b
    decreases |a| + |b|
  {
    if a == [] || b == [] {
    } else if a[0] < b[0] {
      SymDiffBounds(a[1..], b);
      assert a == [a[0]] + a[1..];
    } else if b[0] < a[0] {
      SymDiffBounds(a, b[1..]);
      assert b == [b[0]] + b[1..];
    } else {
      SymDiffBounds(a[1..], b[1..]);
      assert a == [a[0]] + a[1..];
      assert b == [b[0]] + b[1..];
    }
  }

  /** symdiff(a, []) == a and symdiff([], b) == b. */
  lemma SymDiffEmpty(a: seq<int>)
    ensures SymDiff(a, []) == a && SymDiff([], a) == a
  {
  }

  /** symdiff(a, a) == []: a column added to itself vanishes. */
  lemma {:induction false} SymDiffSelf(a: seq<int>)
    ensures SymDiff(a, a) == []
    decreases |a|
  {
    if a != [] {
      SymDiffSelf(a[1..]);
    }
  }

  /** On sorted inputs symdiff is commutative. */
  lemma SymDiffCommutes(a: seq<int>, b: seq<int>)
    requires Ascending(a) && Ascending(b)
    ensures SymDiff(a, b) == SymDiff(b, a)
  {
    SymDiffAscending(a, b);
    SymDiffAscending(b, a);
    SymDiffMembers(a, b);
    SymDiffMembers(b, a);
    AscendingUnique(SymDiff(a, b), SymDiff(b, a));
  }

  /** On sorted inputs symdiff is self-inverse: symdiff(symdiff(a,b),b) == a. */
  lemma SymDiffSelfInverse(a: seq<int>, b: seq<int>)
    requires Ascending(a) && Ascending(b)
    ensures SymDiff(SymDiff(a, b), b) == a
  {
    var c := SymDiff(a, b);
    SymDiffAscending(a, b);
    SymDiffMembers(a, b);
    SymDiffAscending(c, b);
    SymDiffMembers(c, b);
    AscendingUnique(SymDiff(c, b), a);
  }

  /** The merge from positions i and j on, one element at a time: the state
      of the `symdiff` loops. */
  function SymDiffFrom(a: seq<int>, b: seq<int>, i: nat, j: nat): seq<int>
    requires i <= |a| && j <= |b|
    decreases |a| - i + |b| - j
  {
    if i == |a| && j == |b| then []
    else if j == |b| || (i < |a| && a[i] < b[j]) then [a[i]] + SymDiffFrom(a, b, i + 1, j)
    else if i == |a| || b[j] < a[i] then [b[j]] + SymDiffFrom(a, b, i, j + 1)
    else SymDiffFrom(a, b, i + 1, j + 1)
  }

  /** The loop state computes the merge of the remaining suffixes. */
  lemma {:induction false} SymDiffFromSuffixes(a: seq<int>, b: seq<int>, i: nat, j: nat)
    requires i <= |a| && j <= |b|
    ensures SymDiffFrom(a, b, i, j) == SymDiff(a[i..], b[j..])
    decreases |a| - i + |b| - j
  {
    if i < |a| {
      assert a[i..][1..] == a[i + 1..];
    }
    if j < |b| {
      assert b[j..][1..] == b[j + 1..];
    }
    if i == |a| && j == |b| {
    } else if j == |b| || (i < |a| && a[i] < b[j]) {
      SymDiffFromSuffixes(a, b, i + 1, j);
      if j == |b| {
        assert a[i..] == [a[i]] + a[i + 1..];
      }
    } else if i == |a| || b[j] < a[i] {
      SymDiffFromSuffixes(a, b, i, j + 1);
      if i == |a| {
        assert b[j..] == [b[j]] + b[j + 1..];
      }
    } else {
      SymDiffFromSuffixes(a, b, i + 1, j + 1);
    }
  }

  /** Moving one element from the front of the rest to the end of the
      output keeps their concatenation. */
  lemma AppendShift(r: seq<int>, x: int, t: seq<int>)
    ensures (r + [x]) + t == r + ([x] + t)
  {
  }

  /** `symdiff`: the two-index loop with `push_back`. Its result is the
      merge SymDiff, whose meaning SymDiffCorrect states. */
  method Symdiff(a: seq<int>, b: seq<int>) returns (r: seq<int>)
    ensures r == SymDiff(a, b)
    ensures |r| <= |a| + |b|
  {
    r := [];
    var i, j := 0, 0;
    ghost var total := SymDiffFrom(a, b, 0, 0);
    while i < |a| && j < |b|
      invariant 0 <= i <= |a| && 0 <= j <= |b|
      invariant r + SymDiffFrom(a, b, i, j) == total
    {
      if a[i] < b[j] {
        assert SymDiffFrom(a, b, i, j) == [a[i]] + SymDiffFrom(a, b, i + 1, j);
        AppendShift(r, a[i], SymDiffFrom(a, b, i + 1, j));
        r := r + [a[i]];
        i := i + 1;
      } else if b[j] < a[i] {
        assert SymDiffFrom(a, b, i, j) == [b[j]] + SymDiffFrom(a, b, i, j + 1);
        AppendShift(r, b[j], SymDiffFrom(a, b, i, j + 1));
        r := r + [b[j]];
        j := j + 1;
      } else {
        i := i + 1;
        j := j + 1;
      }
    }
    while i < |a|
      invariant 0 <= i <= |a| && 0 <= j <= |b| && (i < |a| ==> j == |b|)
      invariant r + SymDiffFrom(a, b, i, j) == total
    {
      assert SymDiffFrom(a, b, i, j) == [a[i]] + SymDiffFrom(a, b, i + 1, j);
      AppendShift(r, a[i], SymDiffFrom(a, b, i + 1, j));
      r := r + [a[i]];
      i := i + 1;
    }
    while j < |b|
      invariant i == |a| && 0 <= j <= |b|
      invariant r + SymDiffFrom(a, b, i, j) == total
    {
      assert SymDiffFrom(a, b, i, j) == [b[j]] + SymDiffFrom(a, b, i, j + 1);
      AppendShift(r, b[j], SymDiffFrom(a, b, i, j + 1));
      r := r + [b[j]];
      j := j + 1;
    }
    assert SymDiffFrom(a, b, i, j) == [];
    assert r == r + [];
    SymDiffFromSuffixes(a, b, 0, 0);
    assert a[0..] == a && b[0..] == b;
    SymDiffBounds(a, b);
  }

  // ---------------------------------------------------------------------
  // Columns, lows and the pivot table.

  /** `low`: the largest row of a sorted column (its `back()`), or NONE. */
  function Low(c: seq<int>): int {
    if c == [] then NONE else Last(c)
  }

  /** Every row of column c is at most m. */
  predicate AtMost(c: seq<int>, m: int) {
    forall x :: x in c ==> x <= m
  }

  /** Every row index of a column lies in [0, n). */
  predicate InRange(c: seq<int>, n: int) {
    forall x :: x in c ==> 0 <= x < n
  }

  /** What the reducers assume of their input: n sorted columns whose row
      indices lie in [0, n). */
  predicate WellFormed(cols: seq<seq<int>>) {
    forall j :: 0 <= j < |cols| ==> Ascending(cols[j]) && InRange(cols[j], |cols|)
  }

  /** Nonzero columns have pairwise distinct lows: the reduced form. */
  predicate DistinctLows(cols: seq<seq<int>>) {
    forall k1, k2 :: 0 <= k1 < k2 < |cols| && cols[k1] != [] && cols[k2] != [] ==>
      Last(cols[k1]) != Last(cols[k2])
  }

  /** `pivot_of_row` after the columns `done` (the first |done| columns)
      have been processed: each entry is NONE or an earlier column whose low
      is that row, and every nonzero processed column is registered at its low. */
  ghost predicate PivotsOf(done: seq<seq<int>>, piv: seq<int>) {
    && (forall k :: 0 <= k < |done| ==> Ascending(done[k]) && InRange(done[k], |piv|))
    && (forall r :: 0 <= r < |piv| ==>
          piv[r] == NONE || (0 <= piv[r] < |done| && done[piv[r]] != [] && Last(done[piv[r]]) == r))
    && (forall k :: 0 <= k < |done| && done[k] != [] ==>
          0 <= Last(done[k]) < |piv| && piv[Last(done[k])] == k)
  }

  /** Adding a column with the same low into a column strictly lowers its low
      or empties it: the termination argument of the inner while loop. */
  lemma SymDiffLowers(c: seq<int>, d: seq<int>, n: int)
    requires Ascending(c) && Ascending(d) && InRange(c, n) && InRange(d, n)
    requires c != [] && d != [] && Last(c) == Last(d)
    ensures Ascending(SymDiff(c, d)) && InRange(SymDiff(c, d), n)
    ensures Low(SymDiff(c, d)) < Low(c)
    ensures forall x :: x in SymDiff(c, d) ==> x < Last(c)
  {
    SymDiffCorrect(c, d);
    var s := SymDiff(c, d);
    LastIsMax(c);
    LastIsMax(d);
    assert Last(c) in Elems(c) && Last(c) in Elems(d);
    assert forall x :: x in s ==> x < Last(c);
    if s != [] {
      assert Last(s) in s;
    }
  }

  /** The inner while loop for one column c: add in the column registered at
      low(c) until low(c) is free or c is empty. */
  function ReduceColumn(done: seq<seq<int>>, piv: seq<int>, c: seq<int>): (r: seq<int>)
    requires PivotsOf(done, piv)
    requires Ascending(c) && InRange(c, |piv|)
    ensures Ascending(r) && InRange(r, |piv|)
    ensures r == [] || piv[Last(r)] == NONE
    ensures AtMost(r, Low(c))
    decreases Low(c) + 1
  {
    if c == [] then c
    else if piv[Last(c)] == NONE then
      LastIsMax(c);
      c
    else
      var d := done[piv[Last(c)]];
      SymDiffLowers(c, d, |piv|);
      ReduceColumn(done, piv, SymDiff(c, d))
  }

  /** Registering the reduced column j keeps the pivot table consistent. */
  lemma StepKeepsPivots(cols: seq<seq<int>>, piv: seq<int>, j: nat, c: seq<int>)
    requires WellFormed(cols) && j < |cols| && |piv| == |cols|
    requires PivotsOf(cols[..j], piv)
    requires Ascending(c) && InRange(c, |piv|)
    requires c == [] || piv[Last(c)] == NONE
    ensures WellFormed(cols[j := c])
    ensures PivotsOf(cols[j := c][..j + 1], if c == [] then piv else piv[Last(c) := j])
  {
    var cols' := cols[j := c];
    var piv' := if c == [] then piv else piv[Last(c) := j];
    assert cols'[..j + 1] == cols[..j] + [c];
    var done := cols'[..j + 1];
    forall k | 0 <= k < |done| && done[k] != [] ensures piv'[Last(done[k])] == k {
      if k < j {
        assert done[k] == cols[..j][k];
      }
    }
  }

  /** The outer for loop from column j on, with pivot table `piv`. */
  function ReduceFrom(cols: seq<seq<int>>, piv: seq<int>, j: nat): (r: seq<seq<int>>)
    requires WellFormed(cols) && j <= |cols| && |piv| == |cols|
    requires PivotsOf(cols[..j], piv)
    decreases |cols| - j
  {
    if j == |cols| then cols
    else
      var c := ReduceColumn(cols[..j], piv, cols[j]);
      StepKeepsPivots(cols, piv, j, c);
      ReduceFrom(cols[j := c], if c == [] then piv else piv[Last(c) := j], j + 1)
  }

  /** The empty pivot table. */
  function NoPivots(n: nat): (piv: seq<int>)
    ensures |piv| == n && forall r :: 0 <= r < n ==> piv[r] == NONE
  {
    seq(n, _ => NONE)
  }

  /** The persistence reduction of a whole matrix. */
  function Reduce(cols: seq<seq<int>>): seq<seq<int>>
    requires WellFormed(cols)
  {
    if |cols| == 0 then cols
    else ReduceFrom(cols, NoPivots(|cols|), 0)
  }

  // ---------------------------------------------------------------------
  // Properties of the reduction.

  /** Once every column is processed, the pivot table makes the lows distinct. */
  lemma PivotsGiveDistinctLows(cols: seq<seq<int>>, piv: seq<int>)
    requires PivotsOf(cols, piv)
    ensures DistinctLows(cols)
  {
    forall k1, k2 | 0 <= k1 < k2 < |cols| && cols[k1] != [] && cols[k2] != []
      ensures Last(cols[k1]) != Last(cols[k2])
    {
      assert piv[Last(cols[k1])] == k1;
      assert piv[Last(cols[k2])] == k2;
    }
  }

  /** One step of the outer loop, unfolded. */
  lemma ReduceFromStep(cols: seq<seq<int>>, piv: seq<int>, j: nat)
    requires WellFormed(cols) && j < |cols| && |piv| == |cols|
    requires PivotsOf(cols[..j], piv)
    ensures var c := ReduceColumn(cols[..j], piv, cols[j]);
      && WellFormed(cols[j := c])
      && PivotsOf(cols[j := c][..j + 1], if c == [] then piv else piv[Last(c) := j])
      && ReduceFrom(cols, piv, j) == ReduceFrom(cols[j := c], if c == [] then piv else piv[Last(c) := j], j + 1)
  {
    var c := ReduceColumn(cols[..j], piv, cols[j]);
    StepKeepsPivots(cols, piv, j, c);
  }

  /** From column j on the number of columns is kept. */
  lemma {:induction false} ReduceFromLength(cols: seq<seq<int>>, piv: seq<int>, j: nat)
    requires WellFormed(cols) && j <= |cols| && |piv| == |cols|
    requires PivotsOf(cols[..j], piv)
    ensures |ReduceFrom(cols, piv, j)| == |cols|
    decreases |cols| - j
  {
    if j < |cols| {
      var c := ReduceColumn(cols[..j], piv, cols[j]);
      ReduceFromStep(cols, piv, j);
      ReduceFromLength(cols[j := c], if c == [] then piv else piv[Last(c) := j], j + 1);
    }
  }

  /** From column j on the columns stay sorted and in range. */
  lemma {:induction false} ReduceFromWellFormed(cols: seq<seq<int>>, piv: seq<int>, j: nat)
    requires WellFormed(cols) && j <= |cols| && |piv| == |cols|
    requires PivotsOf(cols[..j], piv)
    ensures WellFormed(ReduceFrom(cols, piv, j))
    decreases |cols| - j
  {
    if j < |cols| {
      var c := ReduceColumn(cols[..j], piv, cols[j]);
      ReduceFromStep(cols, piv, j);
      ReduceFromWellFormed(cols[j := c], if c == [] then piv else piv[Last(c) := j], j + 1);
    }
  }

  /** The columns before j are final. */
  lemma {:induction false} ReduceFromPrefix(cols: seq<seq<int>>, piv: seq<int>, j: nat)
    requires WellFormed(cols) && j <= |cols| && |piv| == |cols|
    requires PivotsOf(cols[..j], piv)
    ensures |ReduceFrom(cols, piv, j)| == |cols|
    ensures forall k :: 0 <= k < j ==> ReduceFrom(cols, piv, j)[k] == cols[k]
    decreases |cols| - j
  {
    ReduceFromLength(cols, piv, j);
    if j < |cols| {
      var c := ReduceColumn(cols[..j], piv, cols[j]);
      var cols' := cols[j := c];
      var piv' := if c == [] then piv else piv[Last(c) := j];
      ReduceFromStep(cols, piv, j);
      ReduceFromPrefix(cols', piv', j + 1);
      var r := ReduceFrom(cols', piv', j + 1);
      assert ReduceFrom(cols, piv, j) == r;
      forall k | 0 <= k < j ensures r[k] == cols[k] {
        assert r[k] == cols'[k];
      }
    }
  }

  /** On return the nonzero columns have pairwise distinct lows. */
  lemma {:induction false} ReduceFromDistinct(cols: seq<seq<int>>, piv: seq<int>, j: nat)
    requires WellFormed(cols) && j <= |cols| && |piv| == |cols|
    requires PivotsOf(cols[..j], piv)
    ensures DistinctLows(ReduceFrom(cols, piv, j))
    decreases |cols| - j
  {
    if j == |cols| {
      assert cols[..j] == cols;
      PivotsGiveDistinctLows(cols, piv);
    } else {
      var c := ReduceColumn(cols[..j], piv, cols[j]);
      ReduceFromStep(cols, piv, j);
      ReduceFromDistinct(cols[j := c], if c == [] then piv else piv[Last(c) := j], j + 1);
    }
  }

  /** No column's rows rise above its original low. */
  lemma {:induction false} ReduceFromBelowLow(cols: seq<seq<int>>, piv: seq<int>, j: nat)
    requires WellFormed(cols) && j <= |cols| && |piv| == |cols|
    requires PivotsOf(cols[..j], piv)
    ensures |ReduceFrom(cols, piv, j)| == |cols|
    ensures forall k :: j <= k < |cols| ==> AtMost(ReduceFrom(cols, piv, j)[k], Low(cols[k]))
    decreases |cols| - j
  {
    ReduceFromLength(cols, piv, j);
    if j < |cols| {
      var c := ReduceColumn(cols[..j], piv, cols[j]);
      ReduceFromStep(cols, piv, j);
      var cols' := cols[j := c];
      var piv' := if c == [] then piv else piv[Last(c) := j];
      ReduceFromBelowLow(cols', piv', j + 1);
      ReduceFromPrefix(cols', piv', j + 1);
      var R := ReduceFrom(cols', piv', j + 1);
      assert ReduceFrom(cols, piv, j) == R;
      forall k | j <= k < |cols| ensures AtMost(R[k], Low(cols[k])) {
        if k == j {
          assert R[j] == c;
        } else {
          assert cols'[k] == cols[k];
        }
      }
    }
  }

  /** The reduced matrix (gaussian_elimination.cpp:69-90): n columns again,
      sorted, rows in range, nonzero columns with pairwise distinct lows, and
      no column's low raised. An empty matrix is returned as is. */
  lemma ReduceProperties(cols: seq<seq<int>>)
    requires WellFormed(cols)
    ensures var r := Reduce(cols);
      && |r| == |cols|
      && WellFormed(r)
      && DistinctLows(r)
      && (forall k :: 0 <= k < |r| ==> AtMost(r[k], Low(cols[k])))
    ensures |cols| == 0 ==> Reduce(cols) == cols
  {
    if |cols| > 0 {
      assert cols[..0] == [];
      ReduceFromLength(cols, NoPivots(|cols|), 0);
      ReduceFromWellFormed(cols, NoPivots(|cols|), 0);
      ReduceFromDistinct(cols, NoPivots(|cols|), 0);
      ReduceFromBelowLow(cols, NoPivots(|cols|), 0);
    }
  }

  /** Processing a column whose low is free changes nothing. */
  lemma {:induction false} ReduceFromReduced(cols: seq<seq<int>>, piv: seq<int>, j: nat)
    requires WellFormed(cols) && DistinctLows(cols) && j <= |cols| && |piv| == |cols|
    requires PivotsOf(cols[..j], piv)
    ensures ReduceFrom(cols, piv, j) == cols
    decreases |cols| - j
  {
    if j < |cols| {
      var c := cols[j];
      if c != [] {
        assert piv[Last(c)] == NONE;
        LastIsMax(c);
      }
      assert ReduceColumn(cols[..j], piv, c) == c;
      StepKeepsPivots(cols, piv, j, c);
      assert cols[j := c] == cols;
      ReduceFromReduced(cols, if c == [] then piv else piv[Last(c) := j], j + 1);
    }
  }

  /** Reduction is idempotent: a matrix whose lows are already distinct is
      its own reduction, so reducing twice is reducing once. */
  lemma ReduceIdempotent(cols: seq<seq<int>>)
    requires WellFormed(cols)
    ensures WellFormed(Reduce(cols))
    ensures Reduce(Reduce(cols)) == Reduce(cols)
  {
    ReduceProperties(cols);
    var r := Reduce(cols);
    if |r| > 0 {
      assert r[..0] == [];
      ReduceFromReduced(r, NoPivots(|r|), 0);
    }
  }

  /** A strictly upper-triangular matrix (low(j) < j, as for any boundary
      matrix whose faces precede their cofaces) stays strictly
      upper-triangular. */
  lemma ReduceKeepsUpperTriangular(cols: seq<seq<int>>)
    requires WellFormed(cols)
    requires forall j, x :: 0 <= j < |cols| && x in cols[j] ==> x < j
    ensures forall j, x :: 0 <= j < |Reduce(cols)| && x in Reduce(cols)[j] ==> x < j
  {
    ReduceProperties(cols);
    forall j, x | 0 <= j < |Reduce(cols)| && x in Reduce(cols)[j] ensures x < j {
      assert cols[j] != [];
      assert Last(cols[j]) in cols[j];
    }
  }

  /** Every row x of every column j sits one level below it: g[x] + 1 ==
      g[j]. A boundary matrix is graded by dimension. */
  predicate Graded(cols: seq<seq<int>>, g: seq<int>) {
    && |g| >= |cols|
    && forall j, x :: 0 <= j < |cols| && x in cols[j] && 0 <= x < |g| ==> g[x] + 1 == g[j]
  }

  /** The merge of two columns of one level is of that level. */
  lemma SymDiffLevel(c: seq<int>, d: seq<int>, g: seq<int>, level: int)
    requires Ascending(c) && Ascending(d) && InRange(c, |g|) && InRange(d, |g|)
    requires forall x :: x in c ==> g[x] + 1 == level
    requires forall x :: x in d ==> g[x] + 1 == level
    ensures InRange(SymDiff(c, d), |g|)
    ensures forall x :: x in SymDiff(c, d) ==> g[x] + 1 == level
  {
    SymDiffCorrect(c, d);
    forall x | x in SymDiff(c, d) ensures 0 <= x < |g| && g[x] + 1 == level {
      assert x in Elems(SymDiff(c, d));
    }
  }

  /** Reducing a column of level `level` against graded earlier columns
      keeps every row at the level below. */
  lemma {:induction false} ReduceColumnGraded(done: seq<seq<int>>, piv: seq<int>, c: seq<int>, g: seq<int>, level: int)
    requires PivotsOf(done, piv)
    requires Ascending(c) && InRange(c, |piv|) && |g| == |piv|
    requires Graded(done, g)
    requires forall x :: x in c ==> g[x] + 1 == level
    ensures forall x :: x in ReduceColumn(done, piv, c) ==> g[x] + 1 == level
    decreases Low(c) + 1
  {
    if c != [] && piv[Last(c)] != NONE {
      var d := done[piv[Last(c)]];
      SymDiffLowers(c, d, |piv|);
      assert Last(c) in c && Last(d) in d;
      SymDiffLevel(c, d, g, level);
      ReduceColumnGraded(done, piv, SymDiff(c, d), g, level);
    }
  }

  /** The outer loop keeps a graded matrix graded. */
  lemma {:induction false} ReduceFromGraded(cols: seq<seq<int>>, piv: seq<int>, j: nat, g: seq<int>)
    requires WellFormed(cols) && j <= |cols| && |piv| == |cols|
    requires PivotsOf(cols[..j], piv)
    requires Graded(cols, g) && |g| == |cols|
    ensures Graded(ReduceFrom(cols, piv, j), g)
    decreases |cols| - j
  {
    if j < |cols| {
      var c := ReduceColumn(cols[..j], piv, cols[j]);
      ReduceColumnGraded(cols[..j], piv, cols[j], g, g[j]);
      StepKeepsPivots(cols, piv, j, c);
      ReduceFromGraded(cols[j := c], if c == [] then piv else piv[Last(c) := j], j + 1, g);
    }
  }

  /** The reduction of a graded matrix is graded the same way. */
  lemma ReduceGraded(cols: seq<seq<int>>, g: seq<int>)
    requires WellFormed(cols) && Graded(cols, g) && |g| == |cols|
    ensures Graded(Reduce(cols), g)
  {
    if |cols| > 0 {
      ReduceFromGraded(cols, NoPivots(|cols|), 0, g);
    }
  }

  // ---------------------------------------------------------------------
  // gaussian_elim_sparse

  /** The inner while loop of `gaussian_elim_sparse` for column j: while the
      low of the column is the pivot row of an earlier column k, replace the
      column by its symdiff with column k. The result is the column's reduction. */
  method ReduceSparseColumn(R: seq<seq<int>>, piv: seq<int>, j: nat) returns (col: seq<int>)
    requires WellFormed(R) && j < |R| && |piv| == |R|
    requires PivotsOf(R[..j], piv)
    ensures col == ReduceColumn(R[..j], piv, R[j])
  {
    ghost var done := R[..j];
    ghost var target := ReduceColumn(done, piv, R[j]);
    ghost var n := |R|;
    col := R[j];
    var r := Low(col);
    while r != NONE
      invariant Ascending(col) && InRange(col, n)
      invariant r == Low(col)
      invariant ReduceColumn(done, piv, col) == target
      decreases r + 1
    {
      var k := piv[r];
      if k == NONE {
        break;
      }
      assert done[k] == R[k];
      SymDiffLowers(col, R[k], n);
      col := Symdiff(col, R[k]);
      r := Low(col);
    }
    if col != [] {
      LastIsMax(col);
    }
  }

  /** `gaussian_elim_sparse`: the columns are taken by value, reduced in the
      local copy and returned. Row indices are assumed to lie in [0, n) and
      each column to be sorted. */
  method GaussianElimSparse(cols: seq<seq<int>>) returns (R: seq<seq<int>>)
    requires WellFormed(cols)
    ensures R == Reduce(cols)
    ensures |R| == |cols| && WellFormed(R) && DistinctLows(R)
  {
    var n := |cols|;
    if n == 0 {
      ReduceProperties(cols);
      return cols;
    }
    R := cols;
    var piv := NoPivots(n);
    assert R[..0] == [];
    for j := 0 to n
      invariant |R| == n && |piv| == n && WellFormed(R)
      invariant PivotsOf(R[..j], piv)
      invariant ReduceFrom(R, piv, j) == Reduce(cols)
    {
      ReduceFromStep(R, piv, j);
      var col := ReduceSparseColumn(R, piv, j);
      R := R[j := col];
      if col != [] {
        piv := piv[Last(col) := j];
      }
    }
    assert ReduceFrom(R, piv, n) == R;
    ReduceProperties(cols);
  }

  // ---------------------------------------------------------------------
  // The dense form: a byte matrix M[i][j], updated in place.

  /** The bytes of the dense matrix are 0 or 1 (what the builders write). */
  predicate IsBit(b: bv8) {
    b == 0 || b == 1
  }

  /** Column-major snapshot of the matrix: Bits(M)[j][i] == M[i, j]. */
  function Bits(M: array2<bv8>): (B: seq<seq<bv8>>)
    reads M
    ensures |B| == M.Length1
    ensures forall j :: 0 <= j < |B| ==> |B[j]| == M.Length0
  {
    seq(M.Length1, j reads M => seq(M.Length0, i reads M =>
      if 0 <= i < M.Length0 && 0 <= j < M.Length1 then M[i, j] else 0))
  }

  /** The snapshot holds the matrix entries. */
  lemma BitsEntries(M: array2<bv8>)
    ensures forall j, i :: 0 <= j < M.Length1 && 0 <= i < M.Length0 ==> Bits(M)[j][i] == M[i, j]
  {
  }

  /** Every byte of a snapshot is 0 or 1. */
  predicate Binary(B: seq<seq<bv8>>) {
    forall j, i :: 0 <= j < |B| && 0 <= i < |B[j]| ==> IsBit(B[j][i])
  }

  /** The rows holding a nonzero byte, ascending: the sparse form of a dense column. */
  function NonzeroRows(bits: seq<bv8>): seq<int>
    decreases |bits|
  {
    if bits == [] then []
    else NonzeroRows(bits[..|bits| - 1]) + (if bits[|bits| - 1] != 0 then [|bits| - 1] else [])
  }

  lemma {:induction false} NonzeroRowsSpec(bits: seq<bv8>)
    ensures Ascending(NonzeroRows(bits))
    ensures forall x :: x in NonzeroRows(bits) <==> 0 <= x < |bits| && bits[x] != 0
    decreases |bits|
  {
    if bits != [] {
      var p := bits[..|bits| - 1];
      NonzeroRowsSpec(p);
      assert forall x :: 0 <= x < |p| ==> p[x] == bits[x];
      if bits[|bits| - 1] != 0 {
        var t := NonzeroRows(p);
        var r := t + [|bits| - 1];
        forall a, b | 0 <= a < b < |r| ensures r[a] < r[b] {
          if b == |r| - 1 {
            assert r[a] in t;
          }
        }
      }
    }
  }

  /** A n x n snapshot. */
  predicate Square(B: seq<seq<bv8>>) {
    forall q :: 0 <= q < |B| ==> |B[q]| == |B|
  }

  /** The dense matrix read as sparse columns: column j lists the rows i with
      a nonzero byte B[j][i], ascending. */
  function RowLists(B: seq<seq<bv8>>): (C: seq<seq<int>>)
    ensures |C| == |B|
    ensures forall j :: 0 <= j < |B| ==> C[j] == NonzeroRows(B[j])
  {
    seq(|B|, j requires 0 <= j < |B| => NonzeroRows(B[j]))
  }

  /** A square byte matrix read as sparse columns is a valid reducer input. */
  lemma RowListsWellFormed(B: seq<seq<bv8>>)
    requires Square(B)
    ensures WellFormed(RowLists(B))
  {
    forall j | 0 <= j < |B| ensures Ascending(RowLists(B)[j]) && InRange(RowLists(B)[j], |B|) {
      NonzeroRowsSpec(B[j]);
    }
  }

  /** The sparse columns of a dense matrix M; square ones are valid reducer input. */
  function DenseColumns(M: array2<bv8>): (C: seq<seq<int>>)
    reads M
    ensures M.Length0 == M.Length1 ==> WellFormed(C)
    ensures C == RowLists(Bits(M))
  {
    if M.Length0 == M.Length1 then
      RowListsWellFormed(Bits(M));
      RowLists(Bits(M))
    else RowLists(Bits(M))
  }

  /** Bytewise XOR of two columns. */
  function XorBits(a: seq<bv8>, b: seq<bv8>): (c: seq<bv8>)
    requires |a| == |b|
    ensures |c| == |a| && forall i :: 0 <= i < |a| ==> c[i] == a[i] ^ b[i]
  {
    seq(|a|, i requires 0 <= i < |a| => a[i] ^ b[i])
  }

  /** XOR of two 0/1 bytes is nonzero iff exactly one of them is. */
  lemma XorBit(x: bv8, y: bv8)
    requires IsBit(x) && IsBit(y)
    ensures IsBit(x ^ y)
    ensures (x ^ y != 0) == ((x != 0) != (y != 0))
  {
  }

  /** On 0/1 bytes, XOR-ing dense columns is symdiff of their row lists:
      the dense and the sparse reducers take the same step. */
  lemma XorIsSymDiff(a: seq<bv8>, b: seq<bv8>)
    requires |a| == |b|
    requires forall i :: 0 <= i < |a| ==> IsBit(a[i]) && IsBit(b[i])
    ensures NonzeroRows(XorBits(a, b)) == SymDiff(NonzeroRows(a), NonzeroRows(b))
  {
    var c := XorBits(a, b);
    var ra, rb, rc := NonzeroRows(a), NonzeroRows(b), NonzeroRows(c);
    NonzeroRowsSpec(a);
    NonzeroRowsSpec(b);
    NonzeroRowsSpec(c);
    SymDiffAscending(ra, rb);
    SymDiffMembers(ra, rb);
    forall x ensures x in rc <==> x in SymDiff(ra, rb) {
      if 0 <= x < |a| {
        XorBit(a[x], b[x]);
      }
    }
    AscendingUnique(rc, SymDiff(ra, rb));
  }

  /** `lowest_one` (gaussian_elimination.cpp and barcode.cpp): scan the column
      from the bottom; the largest row holding a nonzero byte, or NONE. */
  method LowestOne(M: array2<bv8>, j: int) returns (i: int)
    requires 0 <= j < M.Length1
    ensures i == NONE <==> forall r :: 0 <= r < M.Length0 ==> M[r, j] == 0
    ensures i != NONE ==> 0 <= i < M.Length0 && M[i, j] != 0
    ensures forall r :: i < r < M.Length0 ==> M[r, j] == 0
    ensures i == Low(NonzeroRows(Bits(M)[j]))
  {
    var m := M.Length0;
    i := m;
    while i > 0
      invariant 0 <= i <= m
      invariant forall r :: i <= r < m ==> M[r, j] == 0
    {
      i := i - 1;
      if M[i, j] != 0 {
        LowIsLastNonzero(Bits(M)[j], i);
        return;
      }
    }
    i := NONE;
    NonzeroRowsSpec(Bits(M)[j]);
  }

  /** The low of a dense column is its largest nonzero row. */
  lemma LowIsLastNonzero(bits: seq<bv8>, i: int)
    requires 0 <= i < |bits| && bits[i] != 0
    requires forall r :: i < r < |bits| ==> bits[r] == 0
    ensures Low(NonzeroRows(bits)) == i
  {
    NonzeroRowsSpec(bits);
    var t := NonzeroRows(bits);
    assert i in t;
    LastIsMax(t);
    assert Last(t) in t;
  }

  /** `col_xor`: add column src into column dst, row by row; nothing else changes. */
  method ColXor(M: array2<bv8>, dst: int, src: int)
    requires 0 <= dst < M.Length1 && 0 <= src < M.Length1
    modifies M
    ensures forall i :: 0 <= i < M.Length0 ==> M[i, dst] == old(M[i, dst]) ^ old(M[i, src])
    ensures forall i, k :: 0 <= i < M.Length0 && 0 <= k < M.Length1 && k != dst ==>
              M[i, k] == old(M[i, k])
    ensures Bits(M) == old(Bits(M))[dst := XorBits(old(Bits(M))[dst], old(Bits(M))[src])]
  {
    ghost var B := Bits(M);
    var m := M.Length0;
    for i := 0 to m
      invariant forall r :: 0 <= r < i ==> M[r, dst] == old(M[r, dst]) ^ old(M[r, src])
      invariant forall r, k :: 0 <= r < m && 0 <= k < M.Length1 && (k != dst || r >= i) ==>
                  M[r, k] == old(M[r, k])
    {
      M[i, dst] := M[i, dst] ^ M[i, src];
    }
    ghost var B' := Bits(M);
    assert B'[dst] == XorBits(B[dst], B[src]);
    assert forall k :: 0 <= k < |B| && k != dst ==> B'[k] == B[k];
  }

  /** The effect of one `col_xor` on the sparse view. */
  lemma ColXorStep(B: seq<seq<bv8>>, B': seq<seq<bv8>>, dst: int, src: int)
    requires 0 <= dst < |B| && 0 <= src < |B|
    requires forall j :: 0 <= j < |B| ==> |B[j]| == |B|
    requires Binary(B)
    requires |B'| == |B| && B'[dst] == XorBits(B[dst], B[src])
    requires forall j :: 0 <= j < |B| && j != dst ==> B'[j] == B[j]
    ensures Binary(B')
    ensures RowLists(B') == RowLists(B)[dst := SymDiff(RowLists(B)[dst], RowLists(B)[src])]
  {
    XorIsSymDiff(B[dst], B[src]);
    forall j, i | 0 <= j < |B'| && 0 <= i < |B'[j]| ensures IsBit(B'[j][i]) {
      if j == dst {
        assert IsBit(B[dst][i]) && IsBit(B[src][i]);
      }
    }
  }

  /** One pass of the dense inner loop on snapshots: after column k (the pivot
      of the low of column j) is XOR-ed into column j, the low drops, the other
      columns are as they were, and the column still reduces to the same result. */
  lemma DenseStep(B0: seq<seq<bv8>>, B: seq<seq<bv8>>, B': seq<seq<bv8>>, piv: seq<int>, j: int, k: int)
    requires Square(B0) && |B| == |B0| && Square(B) && Binary(B)
    requires 0 <= j < |B| && |piv| == |B|
    requires forall q :: 0 <= q < |B| && q != j ==> B[q] == B0[q]
    requires PivotsOf(RowLists(B0)[..j], piv)
    requires RowLists(B)[j] != [] && 0 <= Last(RowLists(B)[j]) < |piv|
    requires k == piv[Last(RowLists(B)[j])] && k != NONE
    requires B' == B[j := XorBits(B[j], B[k])]
    ensures Square(B') && Binary(B')
    ensures forall q :: 0 <= q < |B| && q != j ==> B'[q] == B0[q]
    ensures WellFormed(RowLists(B)) && WellFormed(RowLists(B'))
    ensures Low(RowLists(B')[j]) < Low(RowLists(B)[j])
    ensures ReduceColumn(RowLists(B0)[..j], piv, RowLists(B')[j]) == ReduceColumn(RowLists(B0)[..j], piv, RowLists(B)[j])
  {
    var n := |B|;
    RowListsWellFormed(B);
    var done := RowLists(B0)[..j];
    var C := RowLists(B);
    assert done[k] == RowLists(B0)[k] == C[k];
    SymDiffLowers(C[j], C[k], n);
    ColXorStep(B, B', j, k);
    RowListsWellFormed(B');
    assert RowLists(B')[j] == SymDiff(C[j], done[k]);
  }

  /** When the inner loop stops, column j is its reduction (its low has no pivot). */
  lemma DenseColumnDone(B0: seq<seq<bv8>>, B: seq<seq<bv8>>, piv: seq<int>, j: int)
    requires |B| == |B0| && 0 <= j < |B| && |piv| == |B|
    requires WellFormed(RowLists(B0)) && WellFormed(RowLists(B))
    requires PivotsOf(RowLists(B0)[..j], piv)
    requires forall q :: 0 <= q < |B| && q != j ==> B[q] == B0[q]
    requires Low(RowLists(B)[j]) == NONE || piv[Low(RowLists(B)[j])] == NONE
    requires ReduceColumn(RowLists(B0)[..j], piv, RowLists(B)[j]) == ReduceColumn(RowLists(B0)[..j], piv, RowLists(B0)[j])
    ensures RowLists(B) == RowLists(B0)[j := ReduceColumn(RowLists(B0)[..j], piv, RowLists(B0)[j])]
  {
    var c := RowLists(B)[j];
    if c != [] {
      LastIsMax(c);
      assert c[|c| - 1] in c;
    }
    assert c == ReduceColumn(RowLists(B0)[..j], piv, RowLists(B0)[j]);
  }

  /** The invariant of the inner loop of `gaussian_elimination` at column
      j: only column j has changed since B0, the matrix stays 0/1, `low` is
      the low of column j, and reducing column j from here gives target. */
  ghost predicate ColumnReducing(M: array2<bv8>, B0: seq<seq<bv8>>, piv: seq<int>, j: int, target: seq<int>, low: int)
    reads M
  {
    var B := Bits(M);
    && M.Length0 == M.Length1 && 0 <= j < M.Length1 && |piv| == M.Length0
    && |B| == |B0| && Square(B0) && Square(B) && Binary(B)
    && (forall q :: 0 <= q < |B| && q != j ==> B[q] == B0[q])
    && WellFormed(RowLists(B)) && WellFormed(RowLists(B0)) && low == Low(RowLists(B)[j])
    && PivotsOf(RowLists(B0)[..j], piv)
    && ReduceColumn(RowLists(B0)[..j], piv, RowLists(B)[j]) == target
  }

  /** One turn of the inner loop: column `piv[low]` is added into column j,
      whose low goes down. */
  method ColumnTurn(M: array2<bv8>, ghost B0: seq<seq<bv8>>, piv: seq<int>, j: int, ghost target: seq<int>, low: int)
    returns (low': int)
    requires ColumnReducing(M, B0, piv, j, target, low)
    requires low != NONE && piv[low] != NONE
    modifies M
    ensures ColumnReducing(M, B0, piv, j, target, low') && low' < low
  {
    var k := piv[low];
    ghost var B := Bits(M);
    assert RowLists(B)[j] != [] && Last(RowLists(B)[j]) == low;
    assert 0 <= k < j;
    ColXor(M, j, k);
    ghost var B' := Bits(M);
    DenseStep(B0, B, B', piv, j, k);
    low' := LowestOne(M, j);
    assert low' == Low(RowLists(B')[j]);
  }

  /** The inner loop of `gaussian_elim_dense` for column j: while the low of
      column j is the pivot of an earlier column k, add column k into it.
      Column j ends up as ReduceColumn of its old value; no other column changes. */
  method ReduceDenseColumn(M: array2<bv8>, piv: seq<int>, j: int) returns (low: int)
    requires M.Length0 == M.Length1 && 0 <= j < M.Length1 && |piv| == M.Length0
    requires Binary(Bits(M)) && WellFormed(RowLists(Bits(M)))
    requires PivotsOf(RowLists(Bits(M))[..j], piv)
    modifies M
    ensures Binary(Bits(M))
    ensures RowLists(Bits(M)) == RowLists(old(Bits(M)))[j := ReduceColumn(RowLists(old(Bits(M)))[..j], piv, RowLists(old(Bits(M)))[j])]
    ensures low == Low(RowLists(Bits(M))[j])
  {
    ghost var B0 := Bits(M);
    ghost var done := RowLists(B0)[..j];
    ghost var target := ReduceColumn(done, piv, RowLists(B0)[j]);
    low := LowestOne(M, j);
    while low != NONE
      invariant ColumnReducing(M, B0, piv, j, target, low)
      decreases low + 1
    {
      var k := piv[low];
      if k == NONE {
        break;
      }
      low := ColumnTurn(M, B0, piv, j, target, low);
    }
    ghost var B := Bits(M);
    DenseColumnDone(B0, B, piv, j);
  }

  /** The invariant of the dense reducer after j columns: the sparse view of
      M has its first j columns reduced under `piv`, and reducing the rest
      from there gives the reduction of the starting view C0. */
  ghost predicate DenseReducing(M: array2<bv8>, piv: seq<int>, j: nat, C0: seq<seq<int>>)
    reads M
  {
    var R := DenseColumns(M);
    && M.Length0 == M.Length1 && Binary(Bits(M))
    && |R| == M.Length0 && |piv| == M.Length0 && j <= M.Length0 && WellFormed(R)
    && PivotsOf(R[..j], piv) && WellFormed(C0)
    && ReduceFrom(R, piv, j) == Reduce(C0)
  }

  /** One turn of the outer loop of `gaussian_elimination`: column j is
      reduced in place and its low, if any, becomes a pivot. */
  method ReduceDenseStep(M: array2<bv8>, piv: seq<int>, j: nat, ghost C0: seq<seq<int>>) returns (piv': seq<int>)
    requires j < M.Length0 && DenseReducing(M, piv, j, C0)
    modifies M
    ensures DenseReducing(M, piv', j + 1, C0)
  {
    ghost var R := DenseColumns(M);
    ghost var c := ReduceColumn(R[..j], piv, R[j]);
    ReduceFromStep(R, piv, j);
    var low := ReduceDenseColumn(M, piv, j);
    assert DenseColumns(M) == R[j := c];
    piv' := if low != NONE then piv[low := j] else piv;
    assert piv' == if c == [] then piv else piv[Last(c) := j];
  }

  /** `gaussian_elim_dense`: the same algorithm on an n x n byte matrix,
      in place. Its sparse view ends up as the reduction of the sparse view
      it started with, so the dense and sparse reducers agree. */
  method GaussianElimDense(M: array2<bv8>)
    requires M.Length0 == M.Length1
    requires Binary(Bits(M))
    modifies M
    ensures Binary(Bits(M))
    ensures DenseColumns(M) == Reduce(old(DenseColumns(M)))
  {
    var n := M.Length0;
    if n == 0 {
      return;
    }
    ghost var C0 := DenseColumns(M);
    var piv := NoPivots(n);
    assert C0[..0] == [];
    for j := 0 to n
      invariant DenseReducing(M, piv, j, C0)
    {
      piv := ReduceDenseStep(M, piv, j, C0);
    }
    assert ReduceFrom(DenseColumns(M), piv, n) == DenseColumns(M);
  }
}
