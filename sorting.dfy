/**
 * The stable sort of `Array.prototype.sort` (stable since ECMAScript 2019),
 * for comparators that order by a lexicographic pair of integers.
 * The folder tree sorts by (item kind, sort order) and the preview cache by
 * timestamp; both comparators are consistent total preorders, for which a
 * stable sort has exactly one possible result.
 */
module Sorting {

  /** A sort key, compared lexicographically: `major` first, then `minor`. */
  datatype Key = Key(major: int, minor: int)

  predicate KeyLe(a: Key, b: Key) {
    a.major < b.major || (a.major == b.major && a.minor <= b.minor)
  }

  ghost predicate SortedBy<T>(s: seq<T>, key: T -> Key) {
    forall i, j :: 0 <= i < j < |s| ==> KeyLe(key(s[i]), key(s[j]))
  }

  /** The elements of `s` whose key is `k`, in their order in `s`. */
  function WithKey<T>(s: seq<T>, key: T -> Key, k: Key): seq<T> {
    if s == [] then []
    else (if key(s[0]) == k then [s[0]] else []) + WithKey(s[1..], key, k)
  }

  /** Inserts `x` after every element of `s` whose key is not greater than that of `x`. */
  function InsertBy<T>(x: T, s: seq<T>, key: T -> Key): seq<T> {
    if s == [] then [x]
    else if KeyLe(key(s[0]), key(x)) then [s[0]] + InsertBy(x, s[1..], key)
    else [x] + s
  }

  /** Stable insertion sort: each element goes after the earlier ones with an equal key. */
  function SortBy<T>(s: seq<T>, key: T -> Key): seq<T> {
    if s == [] then [] else InsertBy(s[|s| - 1], SortBy(s[..|s| - 1], key), key)
  }

  lemma {:induction false} WithKeyAppend<T>(a: seq<T>, b: seq<T>, key: T -> Key, k: Key)
    ensures WithKey(a + b, key, k) == WithKey(a, key, k) + WithKey(b, key, k)
  {
    if a != [] {
      assert (a + b)[1..] == a[1..] + b;
      WithKeyAppend(a[1..], b, key, k);
    } else {
      assert a + b == b;
    }
  }

  /** A sorted sequence whose first key exceeds that of `x` holds nothing with the key of `x`. */
  lemma {:induction false} NoneWithSmallerKey<T>(x: T, s: seq<T>, key: T -> Key)
    requires SortedBy(s, key) && s != [] && !KeyLe(key(s[0]), key(x))
    ensures WithKey(s, key, key(x)) == []
  {
    if |s| > 1 {
      assert KeyLe(key(s[0]), key(s[1]));
      NoneWithSmallerKey(x, s[1..], key);
    }
  }

  lemma {:induction false} InsertByMultiset<T>(x: T, s: seq<T>, key: T -> Key)
    ensures multiset(InsertBy(x, s, key)) == multiset(s) + multiset{x}
  {
    if s != [] && KeyLe(key(s[0]), key(x)) {
      InsertByMultiset(x, s[1..], key);
      assert s == [s[0]] + s[1..];
    }
  }

  /** Inserting an element no smaller than `lo` into elements no smaller than `lo` keeps that bound. */
  lemma {:induction false} InsertByBound<T>(x: T, s: seq<T>, key: T -> Key, lo: Key)
    requires KeyLe(lo, key(x))
    requires forall i :: 0 <= i < |s| ==> KeyLe(lo, key(s[i]))
    ensures forall i :: 0 <= i < |InsertBy(x, s, key)| ==> KeyLe(lo, key(InsertBy(x, s, key)[i]))
  {
    var r := InsertBy(x, s, key);
    if s != [] && KeyLe(key(s[0]), key(x)) {
      var t := InsertBy(x, s[1..], key);
      InsertByBound(x, s[1..], key, lo);
      assert r == [s[0]] + t;
      forall i | 0 < i < |r| ensures KeyLe(lo, key(r[i])) {
        assert r[i] == t[i - 1];
      }
    } else if s != [] {
      assert r == [x] + s;
      forall i | 0 < i < |r| ensures KeyLe(lo, key(r[i])) {
        assert r[i] == s[i - 1];
      }
    }
  }

  lemma {:induction false} InsertBySorted<T>(x: T, s: seq<T>, key: T -> Key)
    requires SortedBy(s, key)
    ensures SortedBy(InsertBy(x, s, key), key)
  {
    var r := InsertBy(x, s, key);
    if s == [] {
    } else if KeyLe(key(s[0]), key(x)) {
      var t := InsertBy(x, s[1..], key);
      InsertBySorted(x, s[1..], key);
      forall i | 0 <= i < |s[1..]| ensures KeyLe(key(s[0]), key(s[1..][i])) {
        assert s[1..][i] == s[i + 1];
      }
      InsertByBound(x, s[1..], key, key(s[0]));
      assert r == [s[0]] + t;
      forall i, j | 0 <= i < j < |r| ensures KeyLe(key(r[i]), key(r[j])) {
        assert r[j] == t[j - 1];
        if i > 0 {
          assert r[i] == t[i - 1];
        }
      }
    } else {
      assert r == [x] + s;
      forall i, j | 0 <= i < j < |r| ensures KeyLe(key(r[i]), key(r[j])) {
        if i == 0 {
          assert r[j] == s[j - 1];
          assert KeyLe(key(s[0]), key(s[j - 1]));
        } else {
          assert r[i] == s[i - 1] && r[j] == s[j - 1];
        }
      }
    }
  }

  lemma {:induction false} InsertByWithKey<T>(x: T, s: seq<T>, key: T -> Key, k: Key)
    requires SortedBy(s, key)
    ensures WithKey(InsertBy(x, s, key), key, k)
            == WithKey(s, key, k) + (if key(x) == k then [x] else [])
  {
    var r := InsertBy(x, s, key);
    if s == [] {
      assert r[1..] == [];
    } else if KeyLe(key(s[0]), key(x)) {
      InsertByWithKey(x, s[1..], key, k);
      assert r[1..] == InsertBy(x, s[1..], key);
    } else {
      assert r[1..] == s;
      if key(x) == k {
        NoneWithSmallerKey(x, s, key);
      }
    }
  }

  /**
   * The sort is sorted, a permutation, and stable: the elements with any one
   * key keep their relative order.
   */
  lemma {:induction false} SortByCorrect<T>(s: seq<T>, key: T -> Key)
    ensures SortedBy(SortBy(s, key), key)
    ensures multiset(SortBy(s, key)) == multiset(s)
    ensures |SortBy(s, key)| == |s|
    ensures forall k :: WithKey(SortBy(s, key), key, k) == WithKey(s, key, k)
  {
    if s != [] {
      var init, x := s[..|s| - 1], s[|s| - 1];
      assert s == init + [x];
      SortByCorrect(init, key);
      InsertBySorted(x, SortBy(init, key), key);
      InsertByMultiset(x, SortBy(init, key), key);
      assert |multiset(SortBy(s, key))| == |multiset(s)|;
      forall k ensures WithKey(SortBy(s, key), key, k) == WithKey(s, key, k) {
        InsertByWithKey(x, SortBy(init, key), key, k);
        WithKeyAppend(init, [x], key, k);
        assert [x][1..] == [];
      }
    }
  }
}
