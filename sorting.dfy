/**
 * The stable key sort the source gets from `Array.prototype.sort((a, b) => key(a) - key(b))`.
 * A stable sort is determined by its input: the result is the unique ordering that is sorted by
 * key and keeps elements with equal keys in input order. Insertion sort is one such ordering.
 */
module Sorting {

  predicate SortedBy<T>(s: seq<T>, key: T -> int) {
    forall i, j :: 0 <= i < j < |s| ==> key(s[i]) <= key(s[j])
  }

  /** Inserts `x` after every element whose key is at most `key(x)`. */
  function Insert<T>(r: seq<T>, x: T, key: T -> int): (o: seq<T>)
    ensures |o| == |r| + 1
    ensures multiset(o) == multiset(r) + multiset{x}
    decreases |r|
  {
    if r == [] then [x]
    else if key(x) < key(r[0]) then [x] + r
    else
      assert r == [r[0]] + r[1..];
      [r[0]] + Insert(r[1..], x, key)
  }

  lemma {:induction false} InsertLowerBound<T>(r: seq<T>, x: T, key: T -> int, m: int)
    requires forall i :: 0 <= i < |r| ==> m <= key(r[i])
    requires m <= key(x)
    ensures forall j :: 0 <= j < |Insert(r, x, key)| ==> m <= key(Insert(r, x, key)[j])
    decreases |r|
  {
    if r != [] && key(x) >= key(r[0]) {
      InsertLowerBound(r[1..], x, key, m);
    }
  }

  lemma {:induction false} InsertSorted<T>(r: seq<T>, x: T, key: T -> int)
    requires SortedBy(r, key)
    ensures SortedBy(Insert(r, x, key), key)
    decreases |r|
  {
    if r != [] && key(x) >= key(r[0]) {
      var tail := Insert(r[1..], x, key);
      InsertSorted(r[1..], x, key);
      InsertLowerBound(r[1..], x, key, key(r[0]));
      assert Insert(r, x, key) == [r[0]] + tail;
      SortedCons(r[0], tail, key);
    }
  }

  /** A sorted sequence stays sorted behind a head whose key is at most all of its keys. */
  lemma SortedCons<T>(h: T, tail: seq<T>, key: T -> int)
    requires SortedBy(tail, key) && forall k :: 0 <= k < |tail| ==> key(h) <= key(tail[k])
    ensures SortedBy([h] + tail, key)
  {
    var o := [h] + tail;
    forall i, j | 0 <= i < j < |o| ensures key(o[i]) <= key(o[j]) {
      assert o[j] == tail[j - 1];
      if i > 0 {
        assert o[i] == tail[i - 1];
      }
    }
  }

  function SortBy<T>(s: seq<T>, key: T -> int): (o: seq<T>)
    ensures |o| == |s|
    ensures multiset(o) == multiset(s)
    ensures SortedBy(o, key)
  {
    if s == [] then []
    else
      assert s == s[..|s| - 1] + [s[|s| - 1]];
      InsertSorted(SortBy(s[..|s| - 1], key), s[|s| - 1], key);
      Insert(SortBy(s[..|s| - 1], key), s[|s| - 1], key)
  }

  /** Sorting keeps exactly the elements it was given. */
  lemma SortByMembers<T>(s: seq<T>, key: T -> int, x: T)
    ensures x in SortBy(s, key) <==> x in s
  {
    assert x in SortBy(s, key) <==> x in multiset(SortBy(s, key));
  }

  /** The elements of `s` whose key is `k`, in order. */
  function WithKey<T>(s: seq<T>, key: T -> int, k: int): seq<T> {
    if s == [] then []
    else (if key(s[0]) == k then [s[0]] else []) + WithKey(s[1..], key, k)
  }

  lemma {:induction false} WithKeyConcat<T>(a: seq<T>, b: seq<T>, key: T -> int, k: int)
    ensures WithKey(a + b, key, k) == WithKey(a, key, k) + WithKey(b, key, k)
  {
    if a == [] {
      assert a + b == b;
    } else {
      var head := if key(a[0]) == k then [a[0]] else [];
      assert (a + b)[0] == a[0];
      assert (a + b)[1..] == a[1..] + b;
      WithKeyConcat(a[1..], b, key, k);
      calc {
        WithKey(a + b, key, k);
        head + WithKey(a[1..] + b, key, k);
        head + (WithKey(a[1..], key, k) + WithKey(b, key, k));
        (head + WithKey(a[1..], key, k)) + WithKey(b, key, k);
      }
    }
  }

  lemma {:induction false} WithKeyAbove<T>(r: seq<T>, key: T -> int, k: int)
    requires SortedBy(r, key)
    requires r != [] ==> key(r[0]) > k
    ensures WithKey(r, key, k) == []
  {
    if r != [] {
      WithKeyAbove(r[1..], key, k);
    }
  }

  lemma {:induction false} WithKeyInsert<T>(r: seq<T>, x: T, key: T -> int, k: int)
    requires SortedBy(r, key)
    ensures WithKey(Insert(r, x, key), key, k)
         == WithKey(r, key, k) + (if key(x) == k then [x] else [])
    decreases |r|
  {
    var tail := if key(x) == k then [x] else [];
    if r == [] {
      assert WithKey([x], key, k) == tail + WithKey([x][1..], key, k);
    } else if key(x) < key(r[0]) {
      WithKeyInsertFront(r, x, key, k);
    } else {
      var head := if key(r[0]) == k then [r[0]] else [];
      var rest := Insert(r[1..], x, key);
      var o := [r[0]] + rest;
      assert Insert(r, x, key) == o;
      assert o[0] == r[0] && o[1..] == rest;
      assert SortedBy(r[1..], key);
      WithKeyInsert(r[1..], x, key, k);
      WithKeyCons(o, key, k);
      WithKeyCons(r, key, k);
      assert WithKey(o, key, k) == head + (WithKey(r[1..], key, k) + tail);
      ConcatAssoc(head, WithKey(r[1..], key, k), tail);
    }
  }

  /** An element inserted in front of a sorted sequence is last among those with its key. */
  lemma WithKeyInsertFront<T>(r: seq<T>, x: T, key: T -> int, k: int)
    requires SortedBy(r, key) && r != [] && key(x) < key(r[0])
    ensures WithKey(Insert(r, x, key), key, k) == WithKey(r, key, k) + (if key(x) == k then [x] else [])
  {
    var o := [x] + r;
    assert Insert(r, x, key) == o;
    assert o[0] == x && o[1..] == r;
    WithKeyCons(o, key, k);
    if key(x) == k {
      WithKeyAbove(r, key, k);
      assert WithKey(o, key, k) == [x];
    } else {
      assert WithKey(o, key, k) == WithKey(r, key, k);
    }
  }

  /** Concatenation is associative. */
  lemma ConcatAssoc<T>(a: seq<T>, b: seq<T>, c: seq<T>)
    ensures a + (b + c) == (a + b) + c
  {
  }

  /** `WithKey` of a non-empty sequence, one step unfolded. */
  lemma WithKeyCons<T>(s: seq<T>, key: T -> int, k: int)
    requires s != []
    ensures WithKey(s, key, k) == (if key(s[0]) == k then [s[0]] else []) + WithKey(s[1..], key, k)
  {
  }

  /** Stability: for every key, the elements with that key keep their input order. */
  lemma {:induction false} SortByStable<T>(s: seq<T>, key: T -> int, k: int)
    ensures WithKey(SortBy(s, key), key, k) == WithKey(s, key, k)
  {
    if s != [] {
      var init, last := s[..|s| - 1], s[|s| - 1];
      assert s == init + [last];
      SortByStable(init, key, k);
      WithKeyInsert(SortBy(init, key), last, key, k);
      WithKeyConcat(init, [last], key, k);
      assert WithKey([last], key, k) == (if key(last) == k then [last] else []) by {
        assert [last][1..] == [];
      }
    }
  }

  /** A sequence that is already sorted comes back unchanged. */
  lemma {:induction false} SortBySorted<T>(s: seq<T>, key: T -> int)
    requires SortedBy(s, key)
    ensures SortBy(s, key) == s
  {
    if s != [] {
      var init, last := s[..|s| - 1], s[|s| - 1];
      assert s == init + [last];
      SortBySorted(init, key);
      InsertAtEnd(init, last, key);
    }
  }

  lemma {:induction false} InsertAtEnd<T>(r: seq<T>, x: T, key: T -> int)
    requires forall i :: 0 <= i < |r| ==> key(r[i]) <= key(x)
    ensures Insert(r, x, key) == r + [x]
    decreases |r|
  {
    if r != [] {
      InsertAtEnd(r[1..], x, key);
      assert r == [r[0]] + r[1..];
    }
  }

  /** How many elements of `s` have key `k`. */
  function CountKey<T, K(==)>(s: seq<T>, key: T -> K, k: K): nat {
    if s == [] then 0
    else CountKey(s[..|s| - 1], key, k) + (if key(s[|s| - 1]) == k then 1 else 0)
  }

  lemma CountKeySnoc<T, K>(s: seq<T>, x: T, key: T -> K, k: K)
    ensures CountKey(s + [x], key, k) == CountKey(s, key, k) + (if key(x) == k then 1 else 0)
  {
    assert (s + [x])[..|s|] == s;
  }

  lemma {:induction false} CountKeyConcat<T, K>(a: seq<T>, b: seq<T>, key: T -> K, k: K)
    ensures CountKey(a + b, key, k) == CountKey(a, key, k) + CountKey(b, key, k)
    decreases |b|
  {
    if b == [] {
      assert a + b == a;
    } else {
      var init, last := b[..|b| - 1], b[|b| - 1];
      assert a + b == (a + init) + [last];
      CountKeySnoc(a + init, last, key, k);
      CountKeyConcat(a, init, key, k);
    }
  }

  /** Counts do not depend on order: a reordering (in particular a sort) keeps every count. */
  lemma {:induction false} CountKeyPerm<T, K>(a: seq<T>, b: seq<T>, key: T -> K, k: K)
    requires multiset(a) == multiset(b)
    ensures CountKey(a, key, k) == CountKey(b, key, k)
    decreases |a|
  {
    if a == [] {
      assert |b| == |multiset(b)| == 0;
    } else {
      var init, x := a[..|a| - 1], a[|a| - 1];
      assert a == init + [x];
      assert x in multiset(b);
      var i :| 0 <= i < |b| && b[i] == x;
      var rest := b[..i] + b[i + 1..];
      CountKeyRemove(b, i, key, k);
      MultisetRemove(b, i);
      assert multiset(a) == multiset(init) + multiset{x};
      assert multiset(init) == multiset(a) - multiset{x};
      assert multiset(rest) == multiset(b) - multiset{x};
      CountKeyPerm(init, rest, key, k);
      CountKeySnoc(init, x, key, k);
    }
  }

  /** Taking one element out of a sequence takes it out of its multiset. */
  lemma MultisetRemove<T>(b: seq<T>, i: nat)
    requires i < |b|
    ensures multiset(b) == multiset(b[..i] + b[i + 1..]) + multiset{b[i]}
  {
    assert b == b[..i] + [b[i]] + b[i + 1..];
  }

  /** Taking one element out of a sequence takes it out of the count. */
  lemma CountKeyRemove<T, K>(b: seq<T>, i: nat, key: T -> K, k: K)
    requires i < |b|
    ensures CountKey(b, key, k) == CountKey(b[..i] + b[i + 1..], key, k) + (if key(b[i]) == k then 1 else 0)
  {
    var left, x, right := b[..i], b[i], b[i + 1..];
    assert b[..i + 1] == left + [x];
    assert b == b[..i + 1] + right;
    CountKeyConcat(left + [x], right, key, k);
    CountKeySnoc(left, x, key, k);
    CountKeyConcat(left, right, key, k);
  }
}
