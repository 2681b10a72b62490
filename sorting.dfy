/**
 * A stable sort by a key, largest key first: the behaviour of
 * `Array.prototype.toSorted((a, b) => key(b) - key(a))`, which section 23.1.3.34
 * of the ECMAScript 2024 Language Specification requires to be stable.
 */
module Sorting {

  /** Keys never increase from left to right. */
  predicate SortedDesc<T>(s: seq<T>, key: T -> real)
  {
    forall i, j :: 0 <= i < j < |s| ==> key(s[i]) >= key(s[j])
  }

  /** The elements of `s` whose key is `k`, in their order in `s`. */
  function WithKey<T>(s: seq<T>, key: T -> real, k: real): seq<T>
  {
    if s == [] then []
    else (if key(s[0]) == k then [s[0]] else []) + WithKey(s[1..], key, k)
  }

  /**
   * Stability: for every key, the elements carrying it appear in the same order
   * in `r` as in `s`.
   */
  ghost predicate SameOrderPerKey<T>(r: seq<T>, s: seq<T>, key: T -> real)
  {
    forall k :: WithKey(r, key, k) == WithKey(s, key, k)
  }

  /** Places `x` in front of the first element whose key is not larger than its own. */
  function Insert<T>(x: T, s: seq<T>, key: T -> real): (r: seq<T>)
    requires SortedDesc(s, key)
    ensures SortedDesc(r, key)
    ensures multiset(r) == multiset(s) + multiset{x}
    ensures |r| == |s| + 1 && (r[0] == x || (s != [] && r[0] == s[0]))
  {
    if s == [] || key(x) >= key(s[0]) then [x] + s
    else
      var t := Insert(x, s[1..], key);
      assert s == [s[0]] + s[1..];
      assert key(s[0]) >= key(t[0]);
      assert forall j :: 0 < j < |t| ==> key(t[0]) >= key(t[j]);
      [s[0]] + t
  }

  /** The stable descending sort (an insertion sort). */
  function SortDesc<T>(s: seq<T>, key: T -> real): (r: seq<T>)
    ensures SortedDesc(r, key)
    ensures multiset(r) == multiset(s)
    ensures |r| == |s|
  {
    if s == [] then []
    else
      assert s == [s[0]] + s[1..];
      Insert(s[0], SortDesc(s[1..], key), key)
  }

  lemma {:induction false} WithKeyConcat<T>(a: seq<T>, b: seq<T>, key: T -> real, k: real)
    ensures WithKey(a + b, key, k) == WithKey(a, key, k) + WithKey(b, key, k)
  {
    if a != [] {
      assert (a + b)[1..] == a[1..] + b;
      WithKeyConcat(a[1..], b, key, k);
    } else {
      assert a + b == b;
    }
  }

  lemma WithKeyOfOne<T>(x: T, key: T -> real, k: real)
    ensures WithKey([x], key, k) == if key(x) == k then [x] else []
  {
    assert [x][1..] == [];
  }

  /** Inserting into a sorted sequence keeps, per key, the order in which `x` came first. */
  lemma {:induction false} InsertStable<T>(x: T, s: seq<T>, key: T -> real, k: real)
    requires SortedDesc(s, key)
    ensures WithKey(Insert(x, s, key), key, k) == WithKey([x] + s, key, k)
  {
    if s == [] || key(x) >= key(s[0]) {
    } else {
      var t := Insert(x, s[1..], key);
      InsertStable(x, s[1..], key, k);
      WithKeyConcat([s[0]], t, key, k);
      WithKeyConcat([x], s[1..], key, k);
      WithKeyConcat([x], s, key, k);
      WithKeyOfOne(x, key, k);
      WithKeyOfOne(s[0], key, k);
      assert s == [s[0]] + s[1..];
      WithKeyConcat([s[0]], s[1..], key, k);
    }
  }

  /** `SortDesc` is stable. */
  lemma {:induction false} SortDescStable<T>(s: seq<T>, key: T -> real)
    ensures SameOrderPerKey(SortDesc(s, key), s, key)
  {
    forall k ensures WithKey(SortDesc(s, key), key, k) == WithKey(s, key, k) {
      SortDescStableAt(s, key, k);
    }
  }

  lemma {:induction false} SortDescStableAt<T>(s: seq<T>, key: T -> real, k: real)
    ensures WithKey(SortDesc(s, key), key, k) == WithKey(s, key, k)
  {
    if s != [] {
      var t := SortDesc(s[1..], key);
      calc {
        WithKey(SortDesc(s, key), key, k);
        WithKey(Insert(s[0], t, key), key, k);
        { InsertStable(s[0], t, key, k); }
        WithKey([s[0]] + t, key, k);
        { WithKeyConcat([s[0]], t, key, k); }
        WithKey([s[0]], key, k) + WithKey(t, key, k);
        { SortDescStableAt(s[1..], key, k); }
        WithKey([s[0]], key, k) + WithKey(s[1..], key, k);
        { WithKeyConcat([s[0]], s[1..], key, k); assert s == [s[0]] + s[1..]; }
        WithKey(s, key, k);
      }
    }
  }

  /** What `WithKey` sees at the front of a sequence, sorted or not. */
  lemma WithKeyFront<T>(s: seq<T>, key: T -> real)
    ensures s != [] ==> WithKey(s, key, key(s[0])) == [s[0]] + WithKey(s[1..], key, key(s[0]))
    ensures SortedDesc(s, key) ==>
      forall k :: (s == [] || k > key(s[0])) ==> WithKey(s, key, k) == []
  {
    if SortedDesc(s, key) {
      forall k | s == [] || k > key(s[0]) ensures WithKey(s, key, k) == [] {
        WithKeyAbove(s, key, k);
      }
    }
  }

  lemma {:induction false} WithKeyAbove<T>(s: seq<T>, key: T -> real, k: real)
    requires forall i :: 0 <= i < |s| ==> key(s[i]) < k
    ensures WithKey(s, key, k) == []
  {
    if s != [] {
      WithKeyAbove(s[1..], key, k);
    }
  }

  /**
   * Sortedness and stability pin the result down: two sorted sequences that agree,
   * key by key, on the order of their elements are equal.
   */
  lemma {:induction false} SortedSameOrderEqual<T>(r: seq<T>, u: seq<T>, key: T -> real)
    requires SortedDesc(r, key) && SortedDesc(u, key)
    requires SameOrderPerKey(r, u, key)
    ensures r == u
    decreases |r| + |u|
  {
    WithKeyFront(r, key);
    WithKeyFront(u, key);
    if r != [] && u != [] {
      assert key(r[0]) == key(u[0]) by {
        assert WithKey(r, key, key(r[0])) == WithKey(u, key, key(r[0]));
        assert WithKey(r, key, key(u[0])) == WithKey(u, key, key(u[0]));
      }
      assert r[0] == u[0] by {
        var k := key(r[0]);
        assert WithKey(r, key, k) == WithKey(u, key, k);
        assert WithKey(r, key, k)[0] == r[0];
        assert WithKey(u, key, k)[0] == u[0];
      }
      forall k ensures WithKey(r[1..], key, k) == WithKey(u[1..], key, k) {
        var front := if key(r[0]) == k then [r[0]] else [];
        assert WithKey(r, key, k) == front + WithKey(r[1..], key, k);
        assert WithKey(u, key, k) == front + WithKey(u[1..], key, k);
        assert WithKey(r[1..], key, k) == WithKey(r, key, k)[|front|..];
        assert WithKey(u[1..], key, k) == WithKey(u, key, k)[|front|..];
      }
      SortedSameOrderEqual(r[1..], u[1..], key);
      assert r == [r[0]] + r[1..] && u == [u[0]] + u[1..];
    }
  }

  /** Any sorted, stable rearrangement of `s` is `SortDesc(s)`. */
  lemma SortDescUnique<T>(s: seq<T>, r: seq<T>, key: T -> real)
    requires SortedDesc(r, key) && SameOrderPerKey(r, s, key)
    ensures r == SortDesc(s, key)
  {
    SortDescStable(s, key);
    SortedSameOrderEqual(r, SortDesc(s, key), key);
  }

  /** A prefix of a sorted sequence is sorted. */
  lemma SortedPrefix<T>(s: seq<T>, n: nat, key: T -> real)
    requires n <= |s|
    ensures SortedDesc(s, key) ==> SortedDesc(s[..n], key)
  {
    assert forall i :: 0 <= i < n ==> s[..n][i] == s[i];
  }

  /** Truncating a sequence truncates each key's subsequence. */
  lemma WithKeyPrefix<T>(s: seq<T>, n: nat, key: T -> real, k: real)
    requires n <= |s|
    ensures WithKey(s[..n], key, k) <= WithKey(s, key, k)
  {
    assert s == s[..n] + s[n..];
    WithKeyConcat(s[..n], s[n..], key, k);
  }
}
