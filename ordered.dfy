/** Ordered sequences shared by every stage of the pipeline.

    A strictly ascending `seq<int>` stands for two things in the C++ code:
    a `std::set<int>` (whose iteration order is ascending) and a sparse
    boundary-matrix column (a `std::vector<int>` of row indices kept sorted).
    The module also gives the lexicographic order that `std::set<int>` and
    Python lists compare by, and a reference sort whose result is what
    `std::sort` and Python's `sorted` return. */
module Ordered {

  /** Strictly increasing: no duplicates, ascending. */
  predicate Ascending(s: seq<int>) {
    forall i, j :: 0 <= i < j < |s| ==> s[i] < s[j]
  }

  /** Non-decreasing (duplicates allowed): what `std::sort` makes of a vector<int>. */
  predicate NonDecreasing(s: seq<int>) {
    forall i, j :: 0 <= i < j < |s| ==> s[i] <= s[j]
  }

  /** The elements of a sequence, as a set. */
  function Elems(s: seq<int>): (r: set<int>)
    ensures forall x :: x in r <==> x in s
  {
    set x | x in s
  }

  /** The last element, `back()` of a vector. */
  function Last(s: seq<int>): (r: int)
    requires s != []
    ensures r in s
  {
    s[|s| - 1]
  }

  /** In an ascending sequence the last element is the maximum. */
  lemma LastIsMax(s: seq<int>)
    requires NonDecreasing(s) && s != []
    ensures forall x :: x in s ==> x <= Last(s)
  {
    forall x | x in s ensures x <= Last(s) {
      var k :| 0 <= k < |s| && s[k] == x;
      if k < |s| - 1 {
        assert s[k] <= s[|s| - 1];
      }
    }
  }

  /** The head of an ascending sequence is below its tail. */
  lemma HeadBelow(s: seq<int>)
    requires Ascending(s) && s != []
    ensures s == [s[0]] + s[1..] && Ascending(s[1..])
    ensures forall x :: x in s[1..] ==> s[0] < x
    ensures forall x :: x in s ==> s[0] <= x
  {
    forall x | x in s[1..] ensures s[0] < x {
      var k :| 0 <= k < |s[1..]| && s[1..][k] == x;
      assert s[k + 1] == x;
    }
  }

  /** Dropping the head of an ascending sequence removes exactly that element. */
  lemma HeadSplit(s: seq<int>)
    requires Ascending(s) && s != []
    ensures Elems(s[1..]) == Elems(s) - {s[0]}
    ensures forall x :: x in s[1..] ==> s[0] < x
    ensures forall x :: x in s ==> s[0] <= x
  {
    HeadBelow(s);
  }

  /** Prepending an element below everything keeps a sequence ascending. */
  lemma ConsAscending(h: int, t: seq<int>)
    requires Ascending(t)
    requires forall x :: x in t ==> h < x
    ensures Ascending([h] + t)
  {
    var s := [h] + t;
    forall i, j | 0 <= i < j < |s| ensures s[i] < s[j] {
      if i == 0 {
        assert s[j] == t[j - 1];
        assert t[j - 1] in t;
      } else {
        assert s[i] == t[i - 1] && s[j] == t[j - 1];
      }
    }
  }

  /** An ascending sequence is determined by its set of elements: this is why
      a `std::set<int>` and its ascending enumeration carry the same information. */
  lemma {:induction false} AscendingUnique(a: seq<int>, b: seq<int>)
    requires Ascending(a) && Ascending(b)
    requires forall x :: x in a <==> x in b
    ensures a == b
  {
    if a != [] {
      assert a[0] in a;
    }
    if b != [] {
      assert b[0] in b;
    }
    if a != [] && b != [] {
      HeadBelow(a);
      HeadBelow(b);
      assert a[0] == b[0];
      forall x ensures x in a[1..] <==> x in b[1..] {
        assert x in a[1..] <==> x in a && x != a[0];
        assert x in b[1..] <==> x in b && x != b[0];
      }
      AscendingUnique(a[1..], b[1..]);
    }
  }

  /** Ascending sequences have no duplicates, so their length is their cardinality. */
  lemma {:induction false} AscendingCard(s: seq<int>)
    requires Ascending(s)
    ensures |Elems(s)| == |s|
  {
    if s != [] {
      HeadSplit(s);
      AscendingCard(s[1..]);
      assert Elems(s) == Elems(s[1..]) + {s[0]};
    }
  }

  /** `std::set<int>::insert`: adds x, keeping the enumeration ascending. */
  function Insert(s: seq<int>, x: int): (r: seq<int>)
    requires Ascending(s)
    ensures Ascending(r)
    ensures Elems(r) == Elems(s) + {x}
    ensures |r| <= |s| + 1
  {
    if s == [] then [x]
    else if x < s[0] then
      HeadSplit(s);
      ConsAscending(x, s);
      [x] + s
    else if x == s[0] then s
    else
      HeadSplit(s);
      var t := Insert(s[1..], x);
      ConsAscending(s[0], t);
      assert s == [s[0]] + s[1..];
      [s[0]] + t
  }

  /** The ascending enumeration of the values of s, duplicates collapsed:
      the `std::set<int>` (or Python set) that inserting them one by one gives. */
  function SetOf(s: seq<int>): (r: seq<int>)
    ensures Ascending(r)
    ensures forall x :: x in r <==> x in s
    ensures |r| <= |s|
  {
    if s == [] then []
    else
      var init := s[..|s| - 1];
      assert s == init + [s[|s| - 1]];
      Insert(SetOf(init), s[|s| - 1])
  }

  /** Appending x inserts it into the set. */
  lemma SetOfSnoc(s: seq<int>, x: int)
    ensures SetOf(s + [x]) == Insert(SetOf(s), x)
  {
    assert (s + [x])[..|s|] == s;
  }

  /** Lexicographic strict order on sequences: the order of `std::set<int>`
      (comparing the ascending enumerations) and of Python lists. A proper
      prefix is smaller. */
  predicate LexLess(a: seq<int>, b: seq<int>) {
    if a == [] then b != []
    else if b == [] then false
    else a[0] < b[0] || (a[0] == b[0] && LexLess(a[1..], b[1..]))
  }

  lemma {:induction false} LexIrreflexive(a: seq<int>)
    ensures !LexLess(a, a)
  {
    if a != [] {
      LexIrreflexive(a[1..]);
    }
  }

  lemma {:induction false} LexTransitive(a: seq<int>, b: seq<int>, c: seq<int>)
    requires LexLess(a, b) && LexLess(b, c)
    ensures LexLess(a, c)
  {
    if a != [] && b != [] && c != [] {
      if a[0] == b[0] && b[0] == c[0] {
        LexTransitive(a[1..], b[1..], c[1..]);
      }
    }
  }

  /** Any two distinct sequences are comparable. */
  lemma {:induction false} LexTrichotomy(a: seq<int>, b: seq<int>)
    ensures a == b || LexLess(a, b) || LexLess(b, a)
  {
    if a != [] && b != [] && a[0] == b[0] {
      LexTrichotomy(a[1..], b[1..]);
      if a[1..] == b[1..] {
        assert a == [a[0]] + a[1..];
        assert b == [b[0]] + b[1..];
      }
    }
  }

  lemma LexAsymmetric(a: seq<int>, b: seq<int>)
    requires LexLess(a, b)
    ensures !LexLess(b, a) && a != b
  {
    LexIrreflexive(a);
    if LexLess(b, a) {
      LexTransitive(a, b, a);
    }
  }

  // ---------------------------------------------------------------------
  // Sorting by a total preorder.

  /** `le` is a total preorder: total and transitive. */
  ghost predicate TotalPreorder<T(!new)>(le: (T, T) -> bool) {
    && (forall x, y :: le(x, y) || le(y, x))
    && (forall x, y, z :: le(x, y) && le(y, z) ==> le(x, z))
  }

  /** `le` is antisymmetric: two elements that compare equal are equal. */
  ghost predicate Antisymmetric<T(!new)>(le: (T, T) -> bool) {
    forall x, y :: le(x, y) && le(y, x) ==> x == y
  }

  predicate SortedBy<T>(s: seq<T>, le: (T, T) -> bool) {
    forall i, j :: 0 <= i < j < |s| ==> le(s[i], s[j])
  }

  /** Inserts x in front of the first element it is not above. */
  function InsertBy<T(!new)>(x: T, s: seq<T>, le: (T, T) -> bool): (r: seq<T>)
    requires TotalPreorder(le)
    ensures multiset(r) == multiset(s) + multiset{x}
    ensures forall y :: y in r ==> y == x || y in s
    ensures SortedBy(s, le) ==> SortedBy(r, le)
  {
    if s == [] then [x]
    else if le(x, s[0]) then
      InsertFrontSorted(x, s, le);
      [x] + s
    else
      var t := InsertBy(x, s[1..], le);
      InsertLaterSorted(x, s, t, le);
      assert s == [s[0]] + s[1..];
      [s[0]] + t
  }

  /** Putting x in front of a sorted s whose head is not below x keeps it sorted. */
  lemma InsertFrontSorted<T(!new)>(x: T, s: seq<T>, le: (T, T) -> bool)
    requires TotalPreorder(le) && s != [] && le(x, s[0])
    ensures SortedBy(s, le) ==> SortedBy([x] + s, le)
  {
    if SortedBy(s, le) {
      var r := [x] + s;
      forall i, j | 0 <= i < j < |r| ensures le(r[i], r[j]) {
        if i == 0 && j > 1 {
          assert le(s[0], s[j - 1]);
        }
      }
    }
  }

  /** Keeping the head of a sorted s in front of the sorted insertion into
      its tail keeps it sorted, when x is above that head. */
  lemma InsertLaterSorted<T(!new)>(x: T, s: seq<T>, t: seq<T>, le: (T, T) -> bool)
    requires TotalPreorder(le) && s != [] && !le(x, s[0])
    requires forall y :: y in t ==> y == x || y in s[1..]
    requires SortedBy(s[1..], le) ==> SortedBy(t, le)
    ensures SortedBy(s, le) ==> SortedBy([s[0]] + t, le)
  {
    if SortedBy(s, le) {
      SortedTail(s, le);
      var r := [s[0]] + t;
      forall i, j | 0 <= i < j < |r| ensures le(r[i], r[j]) {
        if i == 0 {
          assert r[j] in t;
          if r[j] != x {
            var k :| 0 <= k < |s[1..]| && s[1..][k] == r[j];
            assert le(s[0], s[k + 1]);
          }
        }
      }
    }
  }

  /** Reference sort (insertion sort). Its result is a sorted permutation;
      by SortedUnique below it is the only one when `le` is antisymmetric,
      so it is what any correct sorting routine returns. */
  function Sort<T(!new)>(s: seq<T>, le: (T, T) -> bool): (r: seq<T>)
    requires TotalPreorder(le)
    ensures SortedBy(r, le)
    ensures multiset(r) == multiset(s)
    ensures |r| == |s|
  {
    if s == [] then []
    else
      assert s == [s[0]] + s[1..];
      InsertBy(s[0], Sort(s[1..], le), le)
  }

  /** The head of a sorted sequence is below each of its elements. */
  lemma SortedHeadFirst<T(!new)>(a: seq<T>, x: T, le: (T, T) -> bool)
    requires TotalPreorder(le) && SortedBy(a, le) && x in a
    ensures le(a[0], x)
  {
    var i :| 0 <= i < |a| && a[i] == x;
    if i > 0 {
      assert le(a[0], a[i]);
    } else {
      assert le(x, x) || le(x, x);
    }
  }

  /** Dropping the head of a sequence removes one copy of it from the multiset. */
  lemma MultisetTail<T>(a: seq<T>)
    requires a != []
    ensures multiset(a[1..]) == multiset(a) - multiset{a[0]}
  {
    assert a == [a[0]] + a[1..];
  }

  /** The tail of a sorted sequence is sorted. */
  lemma SortedTail<T>(a: seq<T>, le: (T, T) -> bool)
    requires SortedBy(a, le) && a != []
    ensures SortedBy(a[1..], le)
  {
    forall i, j | 0 <= i < j < |a| - 1 ensures le(a[1..][i], a[1..][j]) {
      assert le(a[i + 1], a[j + 1]);
    }
  }

  /** Two sorted permutations of one multiset start with the same element. */
  lemma SortedHeadsEqual<T(!new)>(a: seq<T>, b: seq<T>, le: (T, T) -> bool)
    requires TotalPreorder(le) && Antisymmetric(le)
    requires SortedBy(a, le) && SortedBy(b, le)
    requires multiset(a) == multiset(b) && a != [] && b != []
    ensures a[0] == b[0]
  {
    assert a[0] in multiset(b) && b[0] in multiset(a);
    SortedHeadFirst(a, b[0], le);
    SortedHeadFirst(b, a[0], le);
  }

  /** Two sorted permutations of the same multiset are equal when the order
      identifies the elements it ties. */
  lemma {:induction false} SortedUnique<T(!new)>(a: seq<T>, b: seq<T>, le: (T, T) -> bool)
    requires TotalPreorder(le) && Antisymmetric(le)
    requires SortedBy(a, le) && SortedBy(b, le)
    requires multiset(a) == multiset(b)
    ensures a == b
  {
    if a == [] || b == [] {
      assert |multiset(a)| == |a| && |multiset(b)| == |b|;
    } else {
      SortedHeadsEqual(a, b, le);
      TailsPermuted(a, b);
      SortedTail(a, le);
      SortedTail(b, le);
      SortedUnique(a[1..], b[1..], le);
      ConsEqual(a, b);
    }
  }

  /** Permutations with the same head have permuted tails. */
  lemma TailsPermuted<T>(a: seq<T>, b: seq<T>)
    requires a != [] && b != [] && a[0] == b[0] && multiset(a) == multiset(b)
    ensures multiset(a[1..]) == multiset(b[1..])
  {
    MultisetTail(a);
    MultisetTail(b);
  }

  /** Sequences with the same head and the same tail are equal. */
  lemma ConsEqual<T>(a: seq<T>, b: seq<T>)
    requires a != [] && b != [] && a[0] == b[0] && a[1..] == b[1..]
    ensures a == b
  {
    assert a == [a[0]] + a[1..] && b == [b[0]] + b[1..];
  }

  /** The integer order, for sorting row lists. */
  function IntLe(x: int, y: int): bool { x <= y }

  lemma IntLeTotalPreorder()
    ensures TotalPreorder(IntLe)
    ensures Antisymmetric(IntLe)
  {
  }

  /** Sorting integers non-decreasingly (`std::sort` on a vector<int>). */
  function SortInts(s: seq<int>): (r: seq<int>)
    ensures NonDecreasing(r)
    ensures multiset(r) == multiset(s)
    ensures |r| == |s|
  {
    IntLeTotalPreorder();
    Sort(s, IntLe)
  }

  /** A sorted list without duplicates is ascending: this is the column that
      `std::sort` leaves when the entries pushed back are distinct. */
  lemma SortIntsDistinct(s: seq<int>)
    requires forall i, j :: 0 <= i < j < |s| ==> s[i] != s[j]
    ensures Ascending(SortInts(s))
    ensures Elems(SortInts(s)) == Elems(s)
  {
    var r := SortInts(s);
    assert forall x :: x in r <==> x in multiset(r);
    assert forall x :: x in s <==> x in multiset(s);
    forall x ensures multiset(s)[x] <= 1 {
      MultiplicityAtMostOne(s, x);
    }
    forall i, j | 0 <= i < j < |r| ensures r[i] < r[j] {
      if r[i] == r[j] {
        DuplicateMultiplicity(r, i, j);
        assert false;
      }
    }
  }

  lemma {:induction false} MultiplicityAtMostOne(s: seq<int>, x: int)
    requires forall i, j :: 0 <= i < j < |s| ==> s[i] != s[j]
    ensures multiset(s)[x] <= 1
  {
    if s != [] {
      assert s == [s[0]] + s[1..];
      MultiplicityAtMostOne(s[1..], x);
      if s[0] == x {
        assert x !in s[1..] by {
          forall k | 0 <= k < |s[1..]| ensures s[1..][k] != x {
            assert s[k + 1] != s[0];
          }
        }
        assert multiset(s[1..])[x] == 0;
      }
    }
  }

  lemma {:induction false} DuplicateMultiplicity(s: seq<int>, i: int, j: int)
    requires 0 <= i < j < |s| && s[i] == s[j]
    ensures multiset(s)[s[i]] >= 2
  {
    var x := s[i];
    assert s == s[..i] + [s[i]] + s[i + 1..j] + [s[j]] + s[j + 1..];
    assert multiset(s) == multiset(s[..i]) + multiset{x} + multiset(s[i + 1..j]) + multiset{x} + multiset(s[j + 1..]);
  }
}
