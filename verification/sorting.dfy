/** Python's `sorted(xs, key=...)`: a stable sort. It is modelled as an
    insertion sort over a "less than" on elements, which compares their keys
    the way Python's `<` does. Every sort in the repository uses a key on which
    `<` is a strict weak order (tuples of numbers), so that is what the
    properties below assume. */
module Sorting {

  /** Irreflexive, transitive, and incomparability is transitive too. */
  ghost predicate StrictWeakOrder<T(!new)>(lt: (T, T) -> bool) {
    && (forall a :: !lt(a, a))
    && (forall a, b, c :: lt(a, b) && lt(b, c) ==> lt(a, c))
    && (forall a, b, c :: !lt(a, b) && !lt(b, c) ==> !lt(a, c))
  }

  /** Neither sorts before the other: equal sort keys. */
  predicate Equiv<T>(lt: (T, T) -> bool, a: T, b: T) {
    !lt(a, b) && !lt(b, a)
  }

  /** Ascending: no element sorts strictly before an earlier one. */
  predicate Sorted<T>(s: seq<T>, lt: (T, T) -> bool) {
    forall i, j :: 0 <= i < j < |s| ==> !lt(s[j], s[i])
  }

  /** Puts `x` in front of the first element that does not sort before it. */
  function Insert<T(==)>(x: T, s: seq<T>, lt: (T, T) -> bool): (r: seq<T>)
    ensures |r| == |s| + 1
    ensures multiset(r) == multiset(s) + multiset{x}
  {
    if |s| == 0 || !lt(s[0], x) then [x] + s
    else
      assert s == [s[0]] + s[1..];
      [s[0]] + Insert(x, s[1..], lt)
  }

  /** `sorted(s)`: a permutation of `s`. */
  function StableSort<T(==)>(s: seq<T>, lt: (T, T) -> bool): (r: seq<T>)
    ensures |r| == |s|
    ensures multiset(r) == multiset(s)
  {
    if |s| == 0 then []
    else
      assert s == [s[0]] + s[1..];
      Insert(s[0], StableSort(s[1..], lt), lt)
  }

  /** The subsequence of `s` whose sort keys equal that of `x`. */
  function Equivalents<T>(s: seq<T>, x: T, lt: (T, T) -> bool): seq<T> {
    if |s| == 0 then []
    else (if Equiv(lt, s[0], x) then [s[0]] else []) + Equivalents(s[1..], x, lt)
  }

  lemma {:induction false} InsertSorted<T(!new)>(x: T, s: seq<T>, lt: (T, T) -> bool)
    requires StrictWeakOrder(lt)
    requires Sorted(s, lt)
    ensures Sorted(Insert(x, s, lt), lt)
    decreases s
  {
    if |s| == 0 || !lt(s[0], x) {
      var r := [x] + s;
      forall i, j | 0 <= i < j < |r| ensures !lt(r[j], r[i]) {
        if i == 0 {
          // r[j] = s[j-1] and !lt(s[j-1], s[0]), !lt(s[0], x)
          assert r[j] == s[j - 1];
          if j - 1 > 0 {
            assert !lt(s[j - 1], s[0]);
          }
        } else {
          assert r[i] == s[i - 1] && r[j] == s[j - 1];
        }
      }
    } else {
      InsertSorted(x, s[1..], lt);
      var t := Insert(x, s[1..], lt);
      var r := [s[0]] + t;
      assert multiset(t) == multiset(s[1..]) + multiset{x};
      forall i, j | 0 <= i < j < |r| ensures !lt(r[j], r[i]) {
        if i == 0 {
          assert r[j] == t[j - 1];
          assert r[j] in multiset(t);
          if r[j] == x {
          } else {
            assert r[j] in multiset(s[1..]);
            var k :| 0 <= k < |s[1..]| && s[1..][k] == r[j];
            assert s[k + 1] == r[j];
          }
        } else {
          assert r[i] == t[i - 1] && r[j] == t[j - 1];
        }
      }
    }
  }

  /** `sorted` returns its input in ascending order. */
  lemma {:induction false} SortSorted<T(!new)>(s: seq<T>, lt: (T, T) -> bool)
    requires StrictWeakOrder(lt)
    ensures Sorted(StableSort(s, lt), lt)
    decreases s
  {
    if |s| > 0 {
      SortSorted(s[1..], lt);
      InsertSorted(s[0], StableSort(s[1..], lt), lt);
    }
  }

  lemma {:induction false} InsertEquivalents<T(!new)>(y: T, s: seq<T>, x: T, lt: (T, T) -> bool)
    requires StrictWeakOrder(lt)
    ensures Equivalents(Insert(y, s, lt), x, lt) ==
      (if Equiv(lt, y, x) then [y] else []) + Equivalents(s, x, lt)
    decreases s
  {
    if |s| == 0 || !lt(s[0], y) {
      assert ([y] + s)[1..] == s;
    } else {
      InsertEquivalents(y, s[1..], x, lt);
      assert ([s[0]] + Insert(y, s[1..], lt))[1..] == Insert(y, s[1..], lt);
      // Two elements with the key of `x` cannot sort strictly one before the other.
      assert !(Equiv(lt, y, x) && Equiv(lt, s[0], x));
    }
  }

  /** Stability: elements with equal sort keys keep their input order. */
  lemma {:induction false} SortStable<T(!new)>(s: seq<T>, x: T, lt: (T, T) -> bool)
    requires StrictWeakOrder(lt)
    ensures Equivalents(StableSort(s, lt), x, lt) == Equivalents(s, x, lt)
    decreases s
  {
    if |s| > 0 {
      SortStable(s[1..], x, lt);
      InsertEquivalents(s[0], StableSort(s[1..], lt), x, lt);
    }
  }
}
