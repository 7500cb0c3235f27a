/** Filtrations: the `simplex` record (cpp/include/read_filtration.hpp and
    main.cpp) and the C++ reader `read_filtration` of main.cpp.

    A filtration file has one simplex per line, `val dim v0 ... v_dim`. The
    model reads already-tokenised lines: a line is blank, or a value token
    followed by integer tokens. The reader keeps the records whose dimension
    field was read and is not -1, then sorts them by `(val, dim, vert)`. */
module Filtration {
  import opened Ordered
  import opened Wrappers

  /** `struct simplex`. `vert` is the ascending enumeration of the
      `std::set<int>` of vertices (the readers only make ascending ones). */
  datatype Simplex = Simplex(dim: int, val: real, vert: seq<int>)

  /** A line of the file after tokenisation: nothing but white space, or a
      floating-point token followed by integer tokens. */
  datatype Line = Blank | Fields(val: real, ints: seq<int>)

  /** The lines of a file, or None when the file cannot be opened. */
  function LinesOf(file: Option<seq<Line>>): seq<Line> {
    if file.Some? then file.value else []
  }

  // ---------------------------------------------------------------------
  // One line, as `stream >> s.val; stream >> s.dim; while (i <= s.dim) ...`.

  /** The i-th vertex token after the dimension. When the line has run out
      of tokens the extraction fails and `f` keeps an indeterminate value,
      which the model names `unread`. */
  function CppToken(ints: seq<int>, i: int, unread: int): int {
    if 0 <= i && i + 1 < |ints| then ints[i + 1] else unread
  }

  /** The dim + 1 values inserted by the vertex loop (none when dim < 0). */
  function CppTokens(ints: seq<int>, dim: int, unread: int): (t: seq<int>)
    ensures |t| == if dim < 0 then 0 else dim + 1
    ensures forall i :: 0 <= i < |t| ==> t[i] == CppToken(ints, i, unread)
  {
    seq(if dim < 0 then 0 else dim + 1, i => CppToken(ints, i, unread))
  }

  /** The record a line yields, or None when the line is dropped: `s.dim`
      starts at -1 and the line is kept iff a dimension token was read and
      it is not -1. */
  function CppParse(l: Line, unread: int): (r: Option<Simplex>)
    ensures r.Some? <==> l.Fields? && l.ints != [] && l.ints[0] != -1
    ensures r.Some? ==>
      && r.value.dim == l.ints[0] && r.value.val == l.val
      && Ascending(r.value.vert)
      && forall x :: x in r.value.vert <==>
           exists i :: 0 <= i <= l.ints[0] && x == CppToken(l.ints, i, unread)
  {
    match l
    case Blank => None
    case Fields(v, ints) =>
      if ints == [] || ints[0] == -1 then None
      else
        var t := CppTokens(ints, ints[0], unread);
        assert forall x :: x in t <==> exists i :: 0 <= i <= ints[0] && x == CppToken(ints, i, unread) by {
          forall x | x in t ensures exists i :: 0 <= i <= ints[0] && x == CppToken(ints, i, unread) {
            var i :| 0 <= i < |t| && t[i] == x;
          }
          forall x | exists i :: 0 <= i <= ints[0] && x == CppToken(ints, i, unread) ensures x in t {
            var i :| 0 <= i <= ints[0] && x == CppToken(ints, i, unread);
            assert t[i] == x;
          }
        }
        Some(Simplex(ints[0], v, SetOf(t)))
  }

  /** When the line is long enough the vertex set is the set of the dim + 1
      integers after the dimension; tokens beyond them are ignored and
      duplicates collapse. */
  lemma CppParseComplete(v: real, ints: seq<int>, unread: int)
    requires ints != [] && ints[0] >= 0 && |ints| >= ints[0] + 2
    ensures CppParse(Fields(v, ints), unread).Some?
    ensures forall x :: x in CppParse(Fields(v, ints), unread).value.vert <==> x in ints[1..ints[0] + 2]
    ensures |CppParse(Fields(v, ints), unread).value.vert| <= ints[0] + 1
  {
    var r := CppParse(Fields(v, ints), unread).value;
    var t := CppTokens(ints, ints[0], unread);
    assert t == ints[1..ints[0] + 2];
  }

  /** The records the getline loop pushes back, in file order. */
  function KeptCpp(lines: seq<Line>, unread: int): (F: seq<Simplex>)
    ensures |F| <= |lines|
    ensures forall s :: s in F ==> Ascending(s.vert)
  {
    if lines == [] then []
    else
      var F0 := KeptCpp(lines[..|lines| - 1], unread);
      var r := CppParse(lines[|lines| - 1], unread);
      if r.Some? then F0 + [r.value] else F0
  }

  /** KeptCpp is the records of the lines before the last, then the last
      line's record if it parses. */
  lemma KeptCppSnoc(lines: seq<Line>, unread: int)
    requires lines != []
    ensures CppParse(lines[|lines| - 1], unread).Some? ==>
      KeptCpp(lines, unread) == KeptCpp(lines[..|lines| - 1], unread) + [CppParse(lines[|lines| - 1], unread).value]
    ensures CppParse(lines[|lines| - 1], unread).None? ==>
      KeptCpp(lines, unread) == KeptCpp(lines[..|lines| - 1], unread)
  {
  }

  /** The record of a line that parses is kept. */
  lemma {:induction false} KeptCppHas(lines: seq<Line>, unread: int, s: Simplex, k: int)
    requires 0 <= k < |lines| && CppParse(lines[k], unread) == Some(s)
    ensures s in KeptCpp(lines, unread)
  {
    var n := |lines| - 1;
    KeptCppSnoc(lines, unread);
    if k < n {
      assert s in KeptCpp(lines[..n], unread) by {
        assert lines[..n][k] == lines[k];
        KeptCppHas(lines[..n], unread, s, k);
      }
    }
  }

  /** A kept record comes from a line that parses to it. */
  lemma {:induction false} KeptCppFrom(lines: seq<Line>, unread: int, s: Simplex) returns (k: int)
    requires s in KeptCpp(lines, unread)
    ensures 0 <= k < |lines| && CppParse(lines[k], unread) == Some(s)
  {
    var n := |lines| - 1;
    var init := lines[..n];
    KeptCppSnoc(lines, unread);
    if s in KeptCpp(init, unread) {
      k := KeptCppFrom(init, unread, s);
      assert init[k] == lines[k];
    } else {
      k := n;
    }
  }

  /** A record is kept iff some line parses to it. */
  lemma KeptCppMembers(lines: seq<Line>, unread: int, s: Simplex)
    ensures s in KeptCpp(lines, unread) <==> exists k :: 0 <= k < |lines| && CppParse(lines[k], unread) == Some(s)
  {
    if s in KeptCpp(lines, unread) {
      var k := KeptCppFrom(lines, unread, s);
    }
    forall k | 0 <= k < |lines| && CppParse(lines[k], unread) == Some(s) ensures s in KeptCpp(lines, unread) {
      KeptCppHas(lines, unread, s, k);
    }
  }

  // ---------------------------------------------------------------------
  // The sort order `std::tie(a.val, a.dim, a.vert) < std::tie(b.val, b.dim, b.vert)`.

  /** The comparator of the `std::sort` call: lexicographic on
      `(val, dim, vert)`, the vertex sets compared as ascending sequences. */
  predicate CppLess(a: Simplex, b: Simplex) {
    a.val < b.val || (a.val == b.val && (a.dim < b.dim || (a.dim == b.dim && LexLess(a.vert, b.vert))))
  }

  /** The order the sorted vector is non-decreasing in: not (b < a). */
  predicate CppLe(a: Simplex, b: Simplex) {
    !CppLess(b, a)
  }

  /** The comparator is a strict total order on records. */
  lemma CppLessStrictTotal(a: Simplex, b: Simplex, c: Simplex)
    ensures !CppLess(a, a)
    ensures a == b || CppLess(a, b) || CppLess(b, a)
    ensures CppLess(a, b) ==> !CppLess(b, a)
    ensures CppLess(a, b) && CppLess(b, c) ==> CppLess(a, c)
  {
    LexIrreflexive(a.vert);
    LexTrichotomy(a.vert, b.vert);
    if CppLess(a, b) && a.val == b.val && a.dim == b.dim {
      LexAsymmetric(a.vert, b.vert);
    }
    if CppLess(a, b) && CppLess(b, c) && a.val == b.val == c.val && a.dim == b.dim == c.dim {
      LexTransitive(a.vert, b.vert, c.vert);
    }
  }

  /** So the induced order is a total preorder that ties only equal records:
      the sorted result is unique (Ordered.SortedUnique). */
  lemma CppLeOrder()
    ensures TotalPreorder(CppLe)
    ensures Antisymmetric(CppLe)
  {
    forall a, b ensures CppLe(a, b) || CppLe(b, a) {
      CppLessStrictTotal(a, b, a);
    }
    forall a, b, c | CppLe(a, b) && CppLe(b, c) ensures CppLe(a, c) {
      CppLessStrictTotal(a, b, c);
      CppLessStrictTotal(c, a, b);
    }
    forall a, b | CppLe(a, b) && CppLe(b, a) ensures a == b {
      CppLessStrictTotal(a, b, a);
    }
  }

  /** The vector after `std::sort`. */
  function SortCpp(F: seq<Simplex>): (r: seq<Simplex>)
    ensures SortedBy(r, CppLe)
    ensures multiset(r) == multiset(F)
  {
    CppLeOrder();
    Sort(F, CppLe)
  }

  /** Any sorting routine returns SortCpp's sequence: a sorted permutation
      under this order is unique. */
  lemma SortCppUnique(F: seq<Simplex>, G: seq<Simplex>)
    requires SortedBy(G, CppLe) && multiset(G) == multiset(F)
    ensures G == SortCpp(F)
  {
    CppLeOrder();
    SortedUnique(G, SortCpp(F), CppLe);
  }

  // ---------------------------------------------------------------------
  // The reader.

  /** Reading token i adds it to the tokens before it. */
  lemma CppTokensNext(ints: seq<int>, i: nat, unread: int)
    ensures SetOf(CppTokens(ints, i, unread)) == Insert(SetOf(CppTokens(ints, i - 1, unread)), CppToken(ints, i, unread))
  {
    assert CppTokens(ints, i, unread) == CppTokens(ints, i - 1, unread) + [CppToken(ints, i, unread)];
    SetOfSnoc(CppTokens(ints, i - 1, unread), CppToken(ints, i, unread));
  }

  /** The vertex loop `while (i <= s.dim) { stream >> f; s.vert.insert(f); i++; }`. */
  method ReadVertices(ints: seq<int>, dim: int, unread: int) returns (vert: seq<int>)
    ensures vert == SetOf(CppTokens(ints, dim, unread))
  {
    vert := [];
    var i := 0;
    while i <= dim
      invariant 0 <= i <= if dim < 0 then 0 else dim + 1
      invariant vert == SetOf(CppTokens(ints, i - 1, unread))
    {
      var f := CppToken(ints, i, unread);
      CppTokensNext(ints, i, unread);
      vert := Insert(vert, f);
      i := i + 1;
    }
    if dim < 0 {
      assert CppTokens(ints, dim, unread) == [] == CppTokens(ints, i - 1, unread);
    } else {
      assert i - 1 == dim;
    }
  }

  /** `read_filtration` of main.cpp: the getline loop pushes back every kept
      record, then the vector is sorted. A file that cannot be opened gives
      the empty filtration. */
  method ReadFiltration(file: Option<seq<Line>>, unread: int) returns (F: seq<Simplex>)
    ensures F == SortCpp(KeptCpp(LinesOf(file), unread))
    ensures SortedBy(F, CppLe) && multiset(F) == multiset(KeptCpp(LinesOf(file), unread))
    ensures file.None? ==> F == []
  {
    var lines := LinesOf(file);
    F := [];
    if file.Some? {
      for k := 0 to |lines|
        invariant F == KeptCpp(lines[..k], unread)
      {
        assert lines[..k + 1][..k] == lines[..k];
        var line := lines[k];
        if line.Fields? {
          var dim := -1;
          if line.ints != [] {
            dim := line.ints[0];
          }
          var vert := ReadVertices(line.ints, dim, unread);
          if dim != -1 {
            F := F + [Simplex(dim, line.val, vert)];
          }
        }
      }
      assert lines[..|lines|] == lines;
    }
    F := SortCpp(F);
  }
}
