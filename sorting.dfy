/** The order JavaScript's `Array.prototype.sort` gives a copy of a list when the comparator
    is a difference of integer keys: `(a, b) => key(a) - key(b)` sorts ascending and
    `(a, b) => key(b) - key(a)` descending. The sort is stable (ECMAScript 2019 and later),
    so elements with equal keys keep their input order in both directions. */
module Sorting {

  /** `x` must be placed before `y`: the comparator returns a negative number. */
  predicate Before<T>(key: T -> int, ascending: bool, x: T, y: T) {
    if ascending then key(x) < key(y) else key(x) > key(y)
  }

  predicate Sorted<T>(s: seq<T>, key: T -> int, ascending: bool) {
    forall i, j :: 0 <= i < j < |s| ==> !Before(key, ascending, s[j], s[i])
  }

  /** Places `x` in front of the first element that does not have to come before it. */
  function Insert<T>(x: T, t: seq<T>, key: T -> int, ascending: bool): seq<T> {
    if t == [] then [x]
    else if Before(key, ascending, t[0], x) then [t[0]] + Insert(x, t[1..], key, ascending)
    else [x] + t
  }

  lemma {:induction false} InsertPermutes<T>(x: T, t: seq<T>, key: T -> int, ascending: bool)
    ensures multiset(Insert(x, t, key, ascending)) == multiset(t) + multiset{x}
  {
    if t != [] && Before(key, ascending, t[0], x) {
      InsertPermutes(x, t[1..], key, ascending);
      assert t == [t[0]] + t[1..];
    }
  }

  /** `[...s].sort(comparator)` */
  function SortBy<T>(s: seq<T>, key: T -> int, ascending: bool): (r: seq<T>)
    ensures multiset(r) == multiset(s)
    ensures |r| == |s|
  {
    if s == [] then []
    else
      assert s == [s[0]] + s[1..];
      InsertPermutes(s[0], SortBy(s[1..], key, ascending), key, ascending);
      Insert(s[0], SortBy(s[1..], key, ascending), key, ascending)
  }

  lemma {:induction false} InsertSorted<T>(x: T, t: seq<T>, key: T -> int, ascending: bool)
    requires Sorted(t, key, ascending)
    ensures Sorted(Insert(x, t, key, ascending), key, ascending)
  {
    if t != [] && Before(key, ascending, t[0], x) {
      var rest := Insert(x, t[1..], key, ascending);
      InsertSorted(x, t[1..], key, ascending);
      InsertPermutes(x, t[1..], key, ascending);
      forall e | e in rest ensures !Before(key, ascending, e, t[0]) {
        assert e in multiset(rest);
        assert e == x || e in t[1..];
      }
      var r := [t[0]] + rest;
      forall i, j | 0 <= i < j < |r| ensures !Before(key, ascending, r[j], r[i]) {
        if i == 0 {
          assert r[j] in rest;
        } else {
          assert r[i] == rest[i - 1] && r[j] == rest[j - 1];
        }
      }
    }
  }

  /** The copy is in comparator order... */
  lemma {:induction false} SortBySorted<T>(s: seq<T>, key: T -> int, ascending: bool)
    ensures Sorted(SortBy(s, key, ascending), key, ascending)
  {
    if s != [] {
      SortBySorted(s[1..], key, ascending);
      InsertSorted(s[0], SortBy(s[1..], key, ascending), key, ascending);
    }
  }

  /** The elements of `s` whose key is `k`, in order. */
  function WithKey<T>(s: seq<T>, key: T -> int, k: int): seq<T> {
    if s == [] then [] else (if key(s[0]) == k then [s[0]] else []) + WithKey(s[1..], key, k)
  }

  lemma WithKeyCons<T>(h: T, t: seq<T>, key: T -> int, k: int)
    ensures WithKey([h] + t, key, k) == (if key(h) == k then [h] else []) + WithKey(t, key, k)
  {
    assert ([h] + t)[1..] == t;
  }

  lemma {:induction false} InsertWithKey<T>(x: T, t: seq<T>, key: T -> int, ascending: bool, k: int)
    ensures WithKey(Insert(x, t, key, ascending), key, k)
         == (if key(x) == k then [x] else []) + WithKey(t, key, k)
  {
    if t == [] {
      assert Insert(x, t, key, ascending) == [x] + t;
      WithKeyCons(x, t, key, k);
    } else if Before(key, ascending, t[0], x) {
      var rest := Insert(x, t[1..], key, ascending);
      InsertWithKey(x, t[1..], key, ascending, k);
      assert Insert(x, t, key, ascending) == [t[0]] + rest;
      WithKeyCons(t[0], rest, key, k);
      assert t == [t[0]] + t[1..];
      WithKeyCons(t[0], t[1..], key, k);
      var w := WithKey(t[1..], key, k);
      if key(x) == k {
        assert key(t[0]) != k;
        assert WithKey([t[0]] + rest, key, k) == [] + ([x] + w);
        assert WithKey(t, key, k) == [] + w;
      }
    } else {
      WithKeyCons(x, t, key, k);
    }
  }

  /** ...and the sort is stable: among equal keys the input order is kept. */
  lemma {:induction false} SortByStable<T>(s: seq<T>, key: T -> int, ascending: bool, k: int)
    ensures WithKey(SortBy(s, key, ascending), key, k) == WithKey(s, key, k)
  {
    if s != [] {
      SortByStable(s[1..], key, ascending, k);
      InsertWithKey(s[0], SortBy(s[1..], key, ascending), key, ascending, k);
    }
  }
}
