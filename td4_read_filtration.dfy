/** The Python reader of td4/read_filtration.py: the same file format as the
    C++ reader, different acceptance rules and a different sort key. */
module Td4ReadFiltration {
  import opened Ordered
  import opened Wrappers
  import opened Filtration

  // ---------------------------------------------------------------------
  // One line.

  /** A Python slice bound `x` normalised against a length: negative bounds
      count from the end, and bounds are clamped to [0, len]. */
  function SliceBound(x: int, len: nat): (r: nat)
    ensures r <= len
    ensures 0 <= x <= len ==> r == x
  {
    if x < 0 then (if x + len < 0 then 0 else x + len)
    else if x > len then len
    else x
  }

  /** `parts[2:2 + dim + 1]`, where `parts` is the value token followed by
      `ints` (so `parts[k] == ints[k - 1]` for k >= 1). */
  function VertexTokens(ints: seq<int>, dim: int): seq<int> {
    var stop := SliceBound(dim + 3, |ints| + 1);
    if stop <= 2 then [] else ints[1..stop - 1]
  }

  /** The guards of the `for line` loop: blank lines and lines with fewer
      than two tokens are skipped, so are lines whose dimension is -1 and
      lines with fewer than dim + 3 tokens. */
  function PyParse(l: Line): (r: Option<Simplex>)
    ensures r.Some? <==>
      && l.Fields? && 1 + |l.ints| >= 2
      && l.ints[0] != -1 && 1 + |l.ints| >= l.ints[0] + 3
    ensures r.Some? ==>
      && r.value.dim == l.ints[0] && r.value.val == l.val
      && Ascending(r.value.vert)
      && forall x :: x in r.value.vert <==> x in VertexTokens(l.ints, l.ints[0])
  {
    match l
    case Blank => None
    case Fields(v, ints) =>
      if 1 + |ints| < 2 then None
      else
        var dim := ints[0];
        if dim == -1 then None
        else if 1 + |ints| < 2 + (dim + 1) then None
        else Some(Simplex(dim, v, SetOf(VertexTokens(ints, dim))))
  }

  /** For a non-negative dimension the vertex set is the set of exactly the
      dim + 1 tokens after the dimension; later tokens are ignored. */
  lemma PyParseVertices(v: real, ints: seq<int>)
    requires ints != [] && ints[0] >= 0 && |ints| >= ints[0] + 2
    ensures PyParse(Fields(v, ints)).Some?
    ensures forall x :: x in PyParse(Fields(v, ints)).value.vert <==> x in ints[1..ints[0] + 2]
  {
  }

  /** A negative dimension other than -1 is accepted by the guards, and from
      -4 down the slice bound counts from the end of the line: `0.5 -4 7 8 9`
      gives a record of dimension -4 with vertices {7, 8}. */
  lemma PyParseNegativeDimension()
    ensures PyParse(Fields(0.5, [-4, 7, 8, 9])).Some?
    ensures PyParse(Fields(0.5, [-4, 7, 8, 9])).value.dim == -4
    ensures forall x :: x in PyParse(Fields(0.5, [-4, 7, 8, 9])).value.vert <==> x == 7 || x == 8
    ensures PyParse(Fields(0.5, [-2])) == Some(Simplex(-2, 0.5, []))
  {
    assert VertexTokens([-4, 7, 8, 9], -4) == [7, 8];
  }

  /** The two readers disagree on short lines: C++ keeps `0.5 1 3` (one
      vertex token for a dimension of 1, the second read fails), Python
      skips it. */
  lemma ReadersDisagreeOnShortLine(unread: int)
    ensures CppParse(Fields(0.5, [1, 3]), unread).Some?
    ensures PyParse(Fields(0.5, [1, 3])).None?
  {
  }

  /** The records appended to `F`, in file order. */
  function KeptPy(lines: seq<Line>): (F: seq<Simplex>)
    ensures |F| <= |lines|
    ensures forall s :: s in F ==> Ascending(s.vert)
  {
    if lines == [] then []
    else
      var F0 := KeptPy(lines[..|lines| - 1]);
      var r := PyParse(lines[|lines| - 1]);
      if r.Some? then F0 + [r.value] else F0
  }

  /** KeptPy is the records of the lines before the last, then the last
      line's record if it parses. */
  lemma KeptPySnoc(lines: seq<Line>)
    requires lines != []
    ensures var r := PyParse(lines[|lines| - 1]);
      KeptPy(lines) == if r.Some? then KeptPy(lines[..|lines| - 1]) + [r.value] else KeptPy(lines[..|lines| - 1])
  {
  }

  /** The record of a line that parses is kept. */
  lemma {:induction false} KeptPyHas(lines: seq<Line>, s: Simplex, k: int)
    requires 0 <= k < |lines| && PyParse(lines[k]) == Some(s)
    ensures s in KeptPy(lines)
  {
    var n := |lines| - 1;
    var init := lines[..n];
    KeptPySnoc(lines);
    if k < n {
      assert init[k] == lines[k];
      KeptPyHas(init, s, k);
      assert KeptPy(init) <= KeptPy(lines);
    } else {
      assert KeptPy(lines) == KeptPy(init) + [s];
      assert KeptPy(lines)[|KeptPy(init)|] == s;
    }
  }

  /** A kept record comes from a line that parses to it. */
  lemma {:induction false} KeptPyFrom(lines: seq<Line>, s: Simplex) returns (k: int)
    requires s in KeptPy(lines)
    ensures 0 <= k < |lines| && PyParse(lines[k]) == Some(s)
  {
    var n := |lines| - 1;
    var init := lines[..n];
    KeptPySnoc(lines);
    if s in KeptPy(init) {
      k := KeptPyFrom(init, s);
      assert init[k] == lines[k];
    } else {
      k := n;
    }
  }

  /** A record is kept iff some line parses to it. */
  lemma KeptPyMembers(lines: seq<Line>, s: Simplex)
    ensures s in KeptPy(lines) <==> exists k :: 0 <= k < |lines| && PyParse(lines[k]) == Some(s)
  {
    if s in KeptPy(lines) {
      var k := KeptPyFrom(lines, s);
    }
    forall k | 0 <= k < |lines| && PyParse(lines[k]) == Some(s) ensures s in KeptPy(lines) {
      KeptPyHas(lines, s, k);
    }
  }

  /** When every line parses, the records are the parsed lines in order. */
  lemma {:induction false} KeptPyAll(lines: seq<Line>, F: seq<Simplex>)
    requires |lines| == |F| && forall k :: 0 <= k < |lines| ==> PyParse(lines[k]) == Some(F[k])
    ensures KeptPy(lines) == F
  {
    if lines != [] {
      var n := |lines| - 1;
      var init, F0 := lines[..n], F[..n];
      assert F == F0 + [F[n]];
      forall k | 0 <= k < n ensures PyParse(init[k]) == Some(F0[k]) {
        assert init[k] == lines[k] && F0[k] == F[k];
      }
      KeptPyAll(init, F0);
      KeptPySnoc(lines);
    }
  }

  /** A line with exactly dim + 1 ascending vertex tokens parses to the
      record of those vertices. */
  lemma PyParseExact(l: Line)
    requires l.Fields? && l.ints != [] && l.ints[0] >= 0 && |l.ints| == l.ints[0] + 2
    requires Ascending(l.ints[1..])
    ensures PyParse(l) == Some(Simplex(l.ints[0], l.val, l.ints[1..]))
  {
    PyParseVertices(l.val, l.ints);
    AscendingUnique(PyParse(l).value.vert, l.ints[1..]);
  }

  // ---------------------------------------------------------------------
  // The sort key `(s.val, list(s.vert), s.dim)` and `Simplex.__eq__`.

  /** Tuple comparison of the keys: the vertex list comes before the
      dimension, unlike the C++ comparator. */
  predicate PyLess(a: Simplex, b: Simplex) {
    a.val < b.val || (a.val == b.val && (LexLess(a.vert, b.vert) || (a.vert == b.vert && a.dim < b.dim)))
  }

  predicate PyLe(a: Simplex, b: Simplex) {
    !PyLess(b, a)
  }

  lemma PyLessStrictTotal(a: Simplex, b: Simplex, c: Simplex)
    ensures !PyLess(a, a)
    ensures a == b || PyLess(a, b) || PyLess(b, a)
    ensures PyLess(a, b) ==> !PyLess(b, a)
    ensures PyLess(a, b) && PyLess(b, c) ==> PyLess(a, c)
  {
    LexIrreflexive(a.vert);
    LexTrichotomy(a.vert, b.vert);
    if LexLess(a.vert, b.vert) {
      LexAsymmetric(a.vert, b.vert);
    }
    if LexLess(a.vert, b.vert) && LexLess(b.vert, c.vert) {
      LexTransitive(a.vert, b.vert, c.vert);
    }
  }

  /** The key order is a total preorder that ties only equal records, so
      `sorted` (stable or not) has one possible result. */
  lemma PyLeOrder()
    ensures TotalPreorder(PyLe)
    ensures Antisymmetric(PyLe)
  {
    forall a, b ensures PyLe(a, b) || PyLe(b, a) {
      PyLessStrictTotal(a, b, a);
    }
    forall a, b, c | PyLe(a, b) && PyLe(b, c) ensures PyLe(a, c) {
      PyLessStrictTotal(a, b, c);
      PyLessStrictTotal(c, a, b);
    }
    forall a, b | PyLe(a, b) && PyLe(b, a) ensures a == b {
      PyLessStrictTotal(a, b, a);
    }
  }

  function SortPy(F: seq<Simplex>): (r: seq<Simplex>)
    ensures SortedBy(r, PyLe)
    ensures multiset(r) == multiset(F)
  {
    PyLeOrder();
    Sort(F, PyLe)
  }

  /** The two sort keys order records differently: a simplex of smaller
      dimension but larger vertex list comes first in C++ and second in Python. */
  lemma SortKeysDiffer()
    ensures CppLess(Simplex(0, 1.0, [5]), Simplex(1, 1.0, [1, 2]))
    ensures PyLess(Simplex(1, 1.0, [1, 2]), Simplex(0, 1.0, [5]))
  {
  }

  /** `Simplex.__eq__`: two records are equal iff their vertex sets are. */
  predicate SimplexEq(a: Simplex, b: Simplex) {
    a.vert == b.vert
  }

  /** On ascending vertex lists this is equality of the vertex sets; it
      ignores dimension and value, and it is an equivalence relation. */
  lemma SimplexEqProperties(a: Simplex, b: Simplex, c: Simplex)
    requires Ascending(a.vert) && Ascending(b.vert)
    ensures SimplexEq(a, b) <==> forall x :: x in a.vert <==> x in b.vert
    ensures SimplexEq(a, a)
    ensures SimplexEq(a, b) ==> SimplexEq(b, a)
    ensures SimplexEq(a, b) && SimplexEq(b, c) ==> SimplexEq(a, c)
    ensures SimplexEq(a, a.(dim := a.dim + 1, val := a.val + 1.0))
  {
    if forall x :: x in a.vert <==> x in b.vert {
      AscendingUnique(a.vert, b.vert);
    }
  }

  // ---------------------------------------------------------------------
  // The reader.

  /** `read_filtration`: the `for line` loop with its `continue` guards
      appends a record per accepted line; the list is then sorted by the
      key. An `OSError` on opening gives the empty list. */
  method ReadFiltration(file: Option<seq<Line>>) returns (F: seq<Simplex>)
    ensures F == SortPy(KeptPy(LinesOf(file)))
    ensures SortedBy(F, PyLe) && multiset(F) == multiset(KeptPy(LinesOf(file)))
    ensures file.None? ==> F == []
  {
    var lines := LinesOf(file);
    F := [];
    if file.Some? {
      for k := 0 to |lines|
        invariant F == KeptPy(lines[..k])
      {
        assert lines[..k + 1][..k] == lines[..k];
        var line := lines[k];
        if line.Blank? {
          continue;
        }
        var parts := 1 + |line.ints|;
        if parts < 2 {
          continue;
        }
        var dim := line.ints[0];
        if dim == -1 {
          continue;
        }
        var expected := 2 + (dim + 1);
        if parts < expected {
          continue;
        }
        var verts := SetOf(VertexTokens(line.ints, dim));
        F := F + [Simplex(dim, line.val, verts)];
      }
      assert lines[..|lines|] == lines;
    }
    F := SortPy(F);
  }
}
