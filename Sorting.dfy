/** Ordering used by the listings: Python's `list.sort`/`sorted` (stable) and
    pandas' `sort_values`, all modelled by one insertion sort that places an
    element ahead of the elements it need not follow. `before(a, b)` means
    "`a` must come ahead of `b`"; an ascending sort uses `<` on the key and a
    descending one (`reverse=True`) uses `>`. */
module Sorting {

  /** A strict weak order: irreflexive, transitive, and its complement is transitive. */
  ghost predicate StrictWeakOrder<T(!new)>(before: (T, T) -> bool) {
    && (forall a :: !before(a, a))
    && (forall a, b, c :: before(a, b) && before(b, c) ==> before(a, c))
    && (forall a, b, c :: !before(a, b) && !before(b, c) ==> !before(a, c))
  }

  /** No element is placed after an element it must come ahead of. */
  ghost predicate SortedBy<T>(s: seq<T>, before: (T, T) -> bool) {
    forall i, j :: 0 <= i < j < |s| ==> !before(s[j], s[i])
  }

  /** Inserts `x` ahead of the first element that does not have to precede it,
      so that `x` stays ahead of elements it ties with. */
  function Insert<T>(x: T, s: seq<T>, before: (T, T) -> bool): (r: seq<T>)
    ensures multiset(r) == multiset(s) + multiset{x}
  {
    if s == [] then [x]
    else if before(s[0], x) then
      assert s == [s[0]] + s[1..];
      [s[0]] + Insert(x, s[1..], before)
    else [x] + s
  }

  /** The sorted permutation of `s`; ties keep their order in `s`. */
  function SortBy<T>(s: seq<T>, before: (T, T) -> bool): (r: seq<T>)
    ensures multiset(r) == multiset(s)
  {
    if s == [] then []
    else
      assert s == [s[0]] + s[1..];
      Insert(s[0], SortBy(s[1..], before), before)
  }

  lemma {:induction false} InsertSorted<T(!new)>(x: T, s: seq<T>, before: (T, T) -> bool)
    requires StrictWeakOrder(before)
    requires SortedBy(s, before)
    ensures SortedBy(Insert(x, s, before), before)
  {
    if s != [] {
      var r := Insert(x, s, before);
      if before(s[0], x) {
        var t := Insert(x, s[1..], before);
        assert SortedBy(s[1..], before);
        InsertSorted(x, s[1..], before);
        assert r == [s[0]] + t;
        forall j | 0 < j < |r| ensures !before(r[j], s[0]) {
          var y := r[j];
          assert y == t[j - 1];
          assert y in multiset(t);
          if y == x {
          } else {
            assert y in multiset(s[1..]);
            var k :| 0 <= k < |s[1..]| && s[1..][k] == y;
            assert y == s[k + 1];
          }
        }
      } else {
        assert r == [x] + s;
        forall j | 0 < j < |r| ensures !before(r[j], x) {
          assert r[j] == s[j - 1];
          if j > 1 {
            assert !before(s[j - 1], s[0]);
          }
        }
      }
    }
  }

  lemma {:induction false} SortBySorted<T(!new)>(s: seq<T>, before: (T, T) -> bool)
    requires StrictWeakOrder(before)
    ensures SortedBy(SortBy(s, before), before)
  {
    if s != [] {
      SortBySorted(s[1..], before);
      InsertSorted(s[0], SortBy(s[1..], before), before);
    }
  }

  /** A sorted permutation lists the same elements as the input. */
  lemma SortByMembers<T>(s: seq<T>, before: (T, T) -> bool, x: T)
    ensures x in SortBy(s, before) <==> x in s
  {
    assert x in SortBy(s, before) <==> x in multiset(SortBy(s, before));
    assert x in s <==> x in multiset(s);
  }

  // ---------------------------------------------------------------------------
  // Python's comparison of strings: lexicographic by code point.

  predicate StrLess(a: string, b: string) {
    if a == [] then b != []
    else if b == [] then false
    else if a[0] != b[0] then a[0] < b[0]
    else StrLess(a[1..], b[1..])
  }

  lemma {:induction false} StrLessIrreflexive(a: string)
    ensures !StrLess(a, a)
  {
    if a != [] {
      StrLessIrreflexive(a[1..]);
    }
  }

  lemma {:induction false} StrLessTransitive(a: string, b: string, c: string)
    requires StrLess(a, b) && StrLess(b, c)
    ensures StrLess(a, c)
  {
    if a != [] && b != [] && c != [] && a[0] == b[0] && b[0] == c[0] {
      StrLessTransitive(a[1..], b[1..], c[1..]);
    }
  }

  lemma {:induction false} StrLessTotal(a: string, b: string)
    ensures a == b || StrLess(a, b) || StrLess(b, a)
  {
    if a != [] && b != [] && a[0] == b[0] {
      StrLessTotal(a[1..], b[1..]);
      if a[1..] == b[1..] {
        assert a == [a[0]] + a[1..] && b == [b[0]] + b[1..];
      }
    }
  }

  /** "Not less than" is transitive too, since the order is total. */
  lemma StrLessNotLessTransitive(a: string, b: string, c: string)
    requires !StrLess(a, b) && !StrLess(b, c)
    ensures !StrLess(a, c)
  {
    StrLessTotal(a, b);
    StrLessTotal(b, c);
    StrLessIrreflexive(a);
    if a != b && b != c {
      StrLessTransitive(c, b, a);
      assert StrLess(c, a);
      StrLessTotal(a, c);
      if StrLess(a, c) {
        StrLessTransitive(a, c, a);
      }
    }
  }

  lemma StrLessOrder()
    ensures StrictWeakOrder((a: string, b: string) => StrLess(a, b))
  {
    forall a: string ensures !StrLess(a, a) {
      StrLessIrreflexive(a);
    }
    forall a: string, b: string, c: string | StrLess(a, b) && StrLess(b, c)
      ensures StrLess(a, c)
    {
      StrLessTransitive(a, b, c);
    }
    forall a: string, b: string, c: string | !StrLess(a, b) && !StrLess(b, c)
      ensures !StrLess(a, c)
    {
      StrLessNotLessTransitive(a, b, c);
    }
  }
}
