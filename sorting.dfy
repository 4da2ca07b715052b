/**
 * Python's `sorted(items, key=key, reverse=True)`: a stable sort into non-increasing key
 * order. Python keeps items with equal keys in their input order even when `reverse=True`.
 * The sort is generic in the key type and in the order `le` on keys.
 */
module Sorting {

  /** `le` is total and transitive (so also reflexive): what `sorted` needs of `<=`. */
  ghost predicate TotalPreorder<K(!new)>(le: (K, K) -> bool)
  {
    && (forall a, b :: le(a, b) || le(b, a))
    && (forall a, b, c :: le(a, b) && le(b, c) ==> le(a, c))
  }

  /** Keys do not increase from the start of `s` to its end. */
  ghost predicate SortedDesc<T, K>(s: seq<T>, key: T -> K, le: (K, K) -> bool)
  {
    forall i, j :: 0 <= i < j < |s| ==> le(key(s[j]), key(s[i]))
  }

  /** The items of `s` whose key is `k`, in their order in `s`. */
  function WithKey<T, K(==)>(s: seq<T>, key: T -> K, k: K): seq<T>
  {
    if s == [] then [] else (if key(s[0]) == k then [s[0]] else []) + WithKey(s[1..], key, k)
  }

  /** Inserts `x` before the first item whose key is at most `x`'s key. */
  function Insert<T, K>(x: T, s: seq<T>, key: T -> K, le: (K, K) -> bool): seq<T>
  {
    if s == [] then [x]
    else if le(key(s[0]), key(x)) then [x] + s
    else [s[0]] + Insert(x, s[1..], key, le)
  }

  /** Insertion sort, descending; an item is inserted in front of the later items with its key. */
  function SortDesc<T, K>(s: seq<T>, key: T -> K, le: (K, K) -> bool): seq<T>
  {
    if s == [] then [] else Insert(s[0], SortDesc(s[1..], key, le), key, le)
  }

  lemma {:induction false} InsertPermutes<T, K>(x: T, s: seq<T>, key: T -> K, le: (K, K) -> bool)
    ensures multiset(Insert(x, s, key, le)) == multiset{x} + multiset(s)
  {
    if s != [] && !le(key(s[0]), key(x)) {
      InsertPermutes(x, s[1..], key, le);
      assert s == [s[0]] + s[1..];
    }
  }

  lemma {:induction false} InsertSorted<T, K(!new)>(x: T, s: seq<T>, key: T -> K, le: (K, K) -> bool)
    requires TotalPreorder(le)
    requires SortedDesc(s, key, le)
    ensures SortedDesc(Insert(x, s, key, le), key, le)
  {
    if s == [] {
    } else if le(key(s[0]), key(x)) {
      var r := [x] + s;
      forall i, j | 0 <= i < j < |r| ensures le(key(r[j]), key(r[i])) {
        if i == 0 && j > 1 {
          assert r[j] == s[j - 1] && le(key(s[j - 1]), key(s[0]));
        }
      }
    } else {
      var t := Insert(x, s[1..], key, le);
      InsertSorted(x, s[1..], key, le);
      InsertPermutes(x, s[1..], key, le);
      var r := [s[0]] + t;
      forall j | 0 <= j < |t| ensures le(key(t[j]), key(s[0])) {
        assert t[j] in multiset(t);
        if t[j] != x {
          assert t[j] in multiset(s[1..]);
          var m :| 0 <= m < |s[1..]| && s[1..][m] == t[j];
          assert s[m + 1] == t[j];
        }
      }
      forall i, j | 0 <= i < j < |r| ensures le(key(r[j]), key(r[i])) {
        if i == 0 {
          assert r[j] == t[j - 1];
        } else {
          assert r[i] == t[i - 1] && r[j] == t[j - 1];
        }
      }
    }
  }

  lemma {:induction false} WithKeyAppend<T, K>(a: seq<T>, b: seq<T>, key: T -> K, k: K)
    ensures WithKey(a + b, key, k) == WithKey(a, key, k) + WithKey(b, key, k)
  {
    if a == [] {
      assert a + b == b;
    } else {
      var head := if key(a[0]) == k then [a[0]] else [];
      assert (a + b)[0] == a[0] && (a + b)[1..] == a[1..] + b;
      assert WithKey(a + b, key, k) == head + WithKey(a[1..] + b, key, k);
      WithKeyAppend(a[1..], b, key, k);
      assert WithKey(a, key, k) == head + WithKey(a[1..], key, k);
      assert head + (WithKey(a[1..], key, k) + WithKey(b, key, k))
          == (head + WithKey(a[1..], key, k)) + WithKey(b, key, k);
    }
  }

  /** Inserting `x` in front of the first item with a key at most its own keeps every key's items in order. */
  lemma {:induction false} InsertStable<T, K(!new)>(x: T, s: seq<T>, key: T -> K, le: (K, K) -> bool, k: K)
    requires TotalPreorder(le)
    ensures WithKey(Insert(x, s, key, le), key, k) == WithKey([x] + s, key, k)
  {
    if s != [] && !le(key(s[0]), key(x)) {
      // s[0]'s key is strictly above x's, so the two never share the key k.
      assert key(s[0]) != key(x) by {
        assert le(key(x), key(x)) by { assert le(key(x), key(x)) || le(key(x), key(x)); }
      }
      var t := Insert(x, s[1..], key, le);
      InsertStable(x, s[1..], key, le, k);
      calc {
        WithKey([s[0]] + t, key, k);
        { WithKeyAppend([s[0]], t, key, k); }
        WithKey([s[0]], key, k) + WithKey(t, key, k);
        WithKey([s[0]], key, k) + WithKey([x] + s[1..], key, k);
        { WithKeyAppend([x], s[1..], key, k); }
        WithKey([s[0]], key, k) + WithKey([x], key, k) + WithKey(s[1..], key, k);
        WithKey([x], key, k) + WithKey([s[0]], key, k) + WithKey(s[1..], key, k);
        { WithKeyAppend([s[0]], s[1..], key, k); assert [s[0]] + s[1..] == s; }
        WithKey([x], key, k) + WithKey(s, key, k);
        { WithKeyAppend([x], s, key, k); }
        WithKey([x] + s, key, k);
      }
    }
  }

  /** Two keys below each other are the same key. */
  ghost predicate Antisymmetric<K(!new)>(le: (K, K) -> bool)
  {
    forall a, b :: le(a, b) && le(b, a) ==> a == b
  }

  /** In a non-increasing sequence no item has a key above the head's. */
  lemma HeadIsMax<T, K(!new)>(r: seq<T>, x: T, key: T -> K, le: (K, K) -> bool)
    requires TotalPreorder(le) && SortedDesc(r, key, le)
    requires x in multiset(r)
    ensures r != [] && le(key(x), key(r[0]))
  {
    var m :| 0 <= m < |r| && r[m] == x;
    assert le(key(x), key(x)) || le(key(x), key(x));
  }

  lemma SortedTail<T, K>(r: seq<T>, key: T -> K, le: (K, K) -> bool)
    requires r != [] && SortedDesc(r, key, le)
    ensures SortedDesc(r[1..], key, le)
  {
    var t := r[1..];
    forall i, j | 0 <= i < j < |t| ensures le(key(t[j]), key(t[i])) {
      assert t[i] == r[i + 1] && t[j] == r[j + 1];
    }
  }

  /** Sequences with one head and the same items per key have the same items per key after it. */
  lemma WithKeyTails<T, K(!new)>(r1: seq<T>, r2: seq<T>, key: T -> K)
    requires r1 != [] && r2 != [] && r1[0] == r2[0]
    requires forall k :: WithKey(r1, key, k) == WithKey(r2, key, k)
    ensures forall k :: WithKey(r1[1..], key, k) == WithKey(r2[1..], key, k)
  {
    forall k ensures WithKey(r1[1..], key, k) == WithKey(r2[1..], key, k) {
      var head := if key(r1[0]) == k then [r1[0]] else [];
      assert WithKey(r1, key, k) == head + WithKey(r1[1..], key, k);
      assert WithKey(r2, key, k) == head + WithKey(r2[1..], key, k);
      assert WithKey(r1[1..], key, k) == WithKey(r1, key, k)[|head|..];
      assert WithKey(r2[1..], key, k) == WithKey(r2, key, k)[|head|..];
    }
  }

  /**
   * Under an antisymmetric order, being a permutation, non-increasing in key and stable on
   * equal keys fixes the sequence: two sequences with all three properties are equal.
   */
  lemma {:induction false} SortedStableUnique<T, K(!new)>(r1: seq<T>, r2: seq<T>, key: T -> K, le: (K, K) -> bool)
    requires TotalPreorder(le) && Antisymmetric(le)
    requires multiset(r1) == multiset(r2)
    requires SortedDesc(r1, key, le) && SortedDesc(r2, key, le)
    requires forall k :: WithKey(r1, key, k) == WithKey(r2, key, k)
    ensures r1 == r2
  {
    if r1 == [] {
      assert |multiset(r2)| == 0;
    } else {
      var a := r1[0];
      assert a in multiset(r2);
      var b := r2[0];
      // Each head's key is the largest key of both sequences, so the two heads share a key,
      // and the first item with that key is the head, in both sequences.
      HeadIsMax(r2, a, key, le);
      HeadIsMax(r1, b, key, le);
      assert key(a) == key(b);
      assert WithKey(r1, key, key(a))[0] == a;
      assert WithKey(r2, key, key(a))[0] == b;
      var t1, t2 := r1[1..], r2[1..];
      assert r1 == [a] + t1 && r2 == [b] + t2;
      assert multiset(t1) == multiset(r1) - multiset{a};
      assert multiset(t2) == multiset(r2) - multiset{a};
      SortedTail(r1, key, le);
      SortedTail(r2, key, le);
      WithKeyTails(r1, r2, key);
      SortedStableUnique(t1, t2, key, le);
    }
  }

  /** `SortDesc` returns a permutation of its input, non-increasing in key, stable on equal keys. */
  lemma {:induction false} SortDescCorrect<T, K(!new)>(s: seq<T>, key: T -> K, le: (K, K) -> bool)
    requires TotalPreorder(le)
    ensures multiset(SortDesc(s, key, le)) == multiset(s)
    ensures SortedDesc(SortDesc(s, key, le), key, le)
    ensures forall k :: WithKey(SortDesc(s, key, le), key, k) == WithKey(s, key, k)
  {
    if s != [] {
      var t := SortDesc(s[1..], key, le);
      SortDescCorrect(s[1..], key, le);
      InsertPermutes(s[0], t, key, le);
      assert s == [s[0]] + s[1..];
      InsertSorted(s[0], t, key, le);
      forall k ensures WithKey(SortDesc(s, key, le), key, k) == WithKey(s, key, k) {
        InsertStable(s[0], t, key, le, k);
        WithKeyAppend([s[0]], t, key, k);
        WithKeyAppend([s[0]], s[1..], key, k);
      }
    }
  }
}
