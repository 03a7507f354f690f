/**
 * Python's `list.sort()` on objects that define only `__gt__`: the sort asks
 * `a < b`, which falls back to the reflected `b.__gt__(a)`, i.e. to
 * `key(a) < key(b)`. The sort is stable. It is modelled by one stable
 * insertion sort, SortBy, and SortByUnique shows that any stable sort gives
 * the same result, so the choice of algorithm does not matter.
 */
module Sorting {

  ghost predicate Irreflexive<K(!new)>(lt: (K, K) -> bool)
  {
    forall a :: !lt(a, a)
  }

  /** `lt` is a strict total order on keys. */
  ghost predicate StrictTotalOrder<K(!new)>(lt: (K, K) -> bool)
  {
    && Irreflexive(lt)
    && (forall a, b, c :: lt(a, b) && lt(b, c) ==> lt(a, c))
    && (forall a, b :: a != b ==> lt(a, b) || lt(b, a))
  }

  /** No element is followed by one with a smaller key. */
  predicate SortedBy<T, K>(s: seq<T>, key: T -> K, lt: (K, K) -> bool)
  {
    forall i, j :: 0 <= i < j < |s| ==> !lt(key(s[j]), key(s[i]))
  }

  /** The elements of `s` whose key is `k`, in their order in `s`. */
  ghost function WithKey<T, K>(s: seq<T>, key: T -> K, k: K): (r: seq<T>)
    ensures |r| <= |s|
  {
    if s == [] then [] else (if key(s[0]) == k then [s[0]] else []) + WithKey(s[1..], key, k)
  }

  lemma {:induction false} WithKeyMember<T, K>(s: seq<T>, key: T -> K, k: K, x: T)
    requires x in WithKey(s, key, k)
    ensures x in s && key(x) == k
  {
    if s != [] {
      var head := if key(s[0]) == k then [s[0]] else [];
      assert WithKey(s, key, k) == head + WithKey(s[1..], key, k);
      if x !in head {
        WithKeyMember(s[1..], key, k, x);
      }
    }
  }

  /** `x` placed after every element whose key is not greater than its own. */
  function Insert<T, K>(x: T, s: seq<T>, key: T -> K, lt: (K, K) -> bool): (r: seq<T>)
    ensures |r| == |s| + 1
  {
    if s == [] then [x]
    else if lt(key(x), key(s[0])) then [x] + s
    else
      assert s == [s[0]] + s[1..];
      [s[0]] + Insert(x, s[1..], key, lt)
  }

  /** Stable sort of `s` by `key` under `lt`. */
  function SortBy<T, K>(s: seq<T>, key: T -> K, lt: (K, K) -> bool): (r: seq<T>)
    ensures |r| == |s|
  {
    if s == [] then []
    else
      assert s == s[..|s| - 1] + [s[|s| - 1]];
      Insert(s[|s| - 1], SortBy(s[..|s| - 1], key, lt), key, lt)
  }

  /** Insert adds `x` and keeps every element of `s`. */
  lemma {:induction false} InsertPermutation<T, K>(x: T, s: seq<T>, key: T -> K, lt: (K, K) -> bool)
    ensures multiset(Insert(x, s, key, lt)) == multiset(s) + multiset{x}
  {
    if s != [] && !lt(key(x), key(s[0])) {
      InsertPermutation(x, s[1..], key, lt);
      assert s == [s[0]] + s[1..];
    }
  }

  /** SortBy is a permutation of its input. */
  lemma {:induction false} SortByPermutation<T, K>(s: seq<T>, key: T -> K, lt: (K, K) -> bool)
    ensures multiset(SortBy(s, key, lt)) == multiset(s)
  {
    if s != [] {
      SortByPermutation(s[..|s| - 1], key, lt);
      InsertPermutation(s[|s| - 1], SortBy(s[..|s| - 1], key, lt), key, lt);
      assert s == s[..|s| - 1] + [s[|s| - 1]];
    }
  }

  lemma {:induction false} InsertSorted<T, K(!new)>(x: T, s: seq<T>, key: T -> K, lt: (K, K) -> bool)
    requires StrictTotalOrder(lt) && SortedBy(s, key, lt)
    ensures SortedBy(Insert(x, s, key, lt), key, lt)
  {
    if s == [] {
    } else if lt(key(x), key(s[0])) {
      forall i | 0 <= i < |s| ensures !lt(key(s[i]), key(x)) {
        if i > 0 {
          assert !lt(key(s[i]), key(s[0]));
        }
      }
      SortedCons(x, s, key, lt);
    } else {
      SortedTail(s, key, lt);
      InsertSorted(x, s[1..], key, lt);
      var t := Insert(x, s[1..], key, lt);
      forall i | 0 <= i < |t| ensures !lt(key(t[i]), key(s[0])) {
        var y := t[i];
        assert y in multiset(s[1..]) + multiset{x} by {
          InsertPermutation(x, s[1..], key, lt);
          assert y in multiset(t);
        }
        if y != x {
          assert y in s[1..];
          var j :| 0 <= j < |s[1..]| && s[1..][j] == y;
          assert s[j + 1] == y;
        }
      }
      SortedCons(s[0], t, key, lt);
    }
  }

  /** An element with a key not above any key of a sorted sequence can go in front of it. */
  lemma SortedCons<T, K>(h: T, t: seq<T>, key: T -> K, lt: (K, K) -> bool)
    requires SortedBy(t, key, lt)
    requires forall i :: 0 <= i < |t| ==> !lt(key(t[i]), key(h))
    ensures SortedBy([h] + t, key, lt)
  {
    var r := [h] + t;
    forall i, j | 0 <= i < j < |r| ensures !lt(key(r[j]), key(r[i])) {
      assert r[j] == t[j - 1];
      if i > 0 {
        assert r[i] == t[i - 1];
      }
    }
  }

  /** The result of SortBy is sorted. */
  lemma {:induction false} SortBySorted<T, K(!new)>(s: seq<T>, key: T -> K, lt: (K, K) -> bool)
    requires StrictTotalOrder(lt)
    ensures SortedBy(SortBy(s, key, lt), key, lt)
  {
    if s != [] {
      SortBySorted(s[..|s| - 1], key, lt);
      InsertSorted(s[|s| - 1], SortBy(s[..|s| - 1], key, lt), key, lt);
    }
  }

  lemma {:induction false} WithKeyAppend<T, K>(a: seq<T>, b: seq<T>, key: T -> K, k: K)
    ensures WithKey(a + b, key, k) == WithKey(a, key, k) + WithKey(b, key, k)
  {
    if a == [] {
      assert a + b == b;
    } else {
      var head := if key(a[0]) == k then [a[0]] else [];
      assert (a + b)[0] == a[0];
      assert (a + b)[1..] == a[1..] + b;
      WithKeyAppend(a[1..], b, key, k);
      calc {
        WithKey(a + b, key, k);
        head + WithKey(a[1..] + b, key, k);
        head + (WithKey(a[1..], key, k) + WithKey(b, key, k));
        (head + WithKey(a[1..], key, k)) + WithKey(b, key, k);
        WithKey(a, key, k) + WithKey(b, key, k);
      }
    }
  }

  /** Inserting `x` adds it after every element of its own key. */
  lemma {:induction false} InsertWithKey<T, K(!new)>(x: T, s: seq<T>, key: T -> K, lt: (K, K) -> bool, k: K)
    requires Irreflexive(lt) && SortedBy(s, key, lt)
    ensures WithKey(Insert(x, s, key, lt), key, k) == WithKey(s, key, k) + WithKey([x], key, k)
  {
    if s == [] {
      assert Insert(x, s, key, lt) == [x];
    } else if lt(key(x), key(s[0])) {
      InsertFrontWithKey(x, s, key, lt, k);
    } else {
      SortedTail(s, key, lt);
      InsertWithKey(x, s[1..], key, lt, k);
      InsertLaterWithKey(x, s, key, lt, k);
    }
  }

  lemma InsertFrontWithKey<T, K(!new)>(x: T, s: seq<T>, key: T -> K, lt: (K, K) -> bool, k: K)
    requires Irreflexive(lt) && SortedBy(s, key, lt)
    requires s != [] && lt(key(x), key(s[0]))
    ensures WithKey(Insert(x, s, key, lt), key, k) == WithKey(s, key, k) + WithKey([x], key, k)
  {
    assert Insert(x, s, key, lt) == [x] + s;
    WithKeyAppend([x], s, key, k);
    if key(x) == k {
      NoneWithKey(s, key, lt, k);
    }
  }

  lemma InsertLaterWithKey<T, K>(x: T, s: seq<T>, key: T -> K, lt: (K, K) -> bool, k: K)
    requires s != [] && !lt(key(x), key(s[0]))
    requires WithKey(Insert(x, s[1..], key, lt), key, k) == WithKey(s[1..], key, k) + WithKey([x], key, k)
    ensures WithKey(Insert(x, s, key, lt), key, k) == WithKey(s, key, k) + WithKey([x], key, k)
  {
    var h := WithKey([s[0]], key, k);
    assert WithKey(Insert(x, s, key, lt), key, k) == h + WithKey(Insert(x, s[1..], key, lt), key, k) by {
      InsertLater(x, s, key, lt);
      WithKeyAppend([s[0]], Insert(x, s[1..], key, lt), key, k);
    }
    assert WithKey(s, key, k) == h + WithKey(s[1..], key, k) by {
      WithKeyCons(s, key, k);
    }
    Associative(h, WithKey(s[1..], key, k), WithKey([x], key, k));
  }

  lemma Associative<T>(a: seq<T>, b: seq<T>, c: seq<T>)
    ensures a + (b + c) == (a + b) + c
  {
  }

  lemma InsertLater<T, K>(x: T, s: seq<T>, key: T -> K, lt: (K, K) -> bool)
    requires s != [] && !lt(key(x), key(s[0]))
    ensures Insert(x, s, key, lt) == [s[0]] + Insert(x, s[1..], key, lt)
  {
  }

  lemma WithKeyCons<T, K>(s: seq<T>, key: T -> K, k: K)
    requires s != []
    ensures WithKey(s, key, k) == WithKey([s[0]], key, k) + WithKey(s[1..], key, k)
  {
    WithKeyAppend([s[0]], s[1..], key, k);
    assert s == [s[0]] + s[1..];
  }

  lemma SortedTail<T, K>(s: seq<T>, key: T -> K, lt: (K, K) -> bool)
    requires s != [] && SortedBy(s, key, lt)
    ensures SortedBy(s[1..], key, lt)
  {
    forall i, j | 0 <= i < j < |s| - 1 ensures !lt(key(s[1..][j]), key(s[1..][i])) {
      assert s[1..][j] == s[j + 1] && s[1..][i] == s[i + 1];
    }
  }

  /** In a sorted sequence, nothing has a key below that of the first element. */
  lemma NoneWithKey<T, K(!new)>(s: seq<T>, key: T -> K, lt: (K, K) -> bool, k: K)
    requires Irreflexive(lt) && SortedBy(s, key, lt)
    requires s != [] && lt(k, key(s[0]))
    ensures WithKey(s, key, k) == []
  {
    assert forall i :: 0 <= i < |s| ==> key(s[i]) != k;
    NoElementWithKey(s, key, k);
  }

  lemma {:induction false} NoElementWithKey<T, K>(s: seq<T>, key: T -> K, k: K)
    requires forall i :: 0 <= i < |s| ==> key(s[i]) != k
    ensures WithKey(s, key, k) == []
  {
    if s != [] {
      NoElementWithKey(s[1..], key, k);
    }
  }

  /** SortBy is stable: for every key, the elements with that key keep their order. */
  lemma {:induction false} SortByStable<T, K(!new)>(s: seq<T>, key: T -> K, lt: (K, K) -> bool, k: K)
    requires StrictTotalOrder(lt)
    ensures WithKey(SortBy(s, key, lt), key, k) == WithKey(s, key, k)
  {
    if s != [] {
      var init, last := s[..|s| - 1], s[|s| - 1];
      SortByStable(init, key, lt, k);
      SortBySorted(init, key, lt);
      InsertWithKey(last, SortBy(init, key, lt), key, lt, k);
      assert s == init + [last];
      WithKeyAppend(init, [last], key, k);
      calc {
        WithKey(SortBy(s, key, lt), key, k);
        WithKey(Insert(last, SortBy(init, key, lt), key, lt), key, k);
        WithKey(SortBy(init, key, lt), key, k) + WithKey([last], key, k);
        WithKey(init, key, k) + WithKey([last], key, k);
        WithKey(s, key, k);
      }
    }
  }

  /** Inserting an element whose key is not below any key of `s` appends it. */
  lemma {:induction false} InsertAtEnd<T, K>(x: T, s: seq<T>, key: T -> K, lt: (K, K) -> bool)
    requires forall i :: 0 <= i < |s| ==> !lt(key(x), key(s[i]))
    ensures Insert(x, s, key, lt) == s + [x]
  {
    if s != [] {
      InsertAtEnd(x, s[1..], key, lt);
      assert s == [s[0]] + s[1..];
    }
  }

  /** Sorting a sorted sequence changes nothing. */
  lemma {:induction false} SortBySortedIdentity<T, K>(s: seq<T>, key: T -> K, lt: (K, K) -> bool)
    requires SortedBy(s, key, lt)
    ensures SortBy(s, key, lt) == s
  {
    if s != [] {
      var init, last := s[..|s| - 1], s[|s| - 1];
      assert SortedBy(init, key, lt) by {
        forall i, j | 0 <= i < j < |init| ensures !lt(key(init[j]), key(init[i])) {
          assert init[i] == s[i] && init[j] == s[j];
        }
      }
      SortBySortedIdentity(init, key, lt);
      forall i | 0 <= i < |init| ensures !lt(key(last), key(init[i])) {
        assert init[i] == s[i];
      }
      InsertAtEnd(last, init, key, lt);
      calc {
        SortBy(s, key, lt);
        Insert(last, SortBy(init, key, lt), key, lt);
        Insert(last, init, key, lt);
        init + [last];
        { assert s == init + [last]; }
        s;
      }
    }
  }

  /** Sorting twice is sorting once. */
  lemma SortByIdempotent<T, K(!new)>(s: seq<T>, key: T -> K, lt: (K, K) -> bool)
    requires StrictTotalOrder(lt)
    ensures SortBy(SortBy(s, key, lt), key, lt) == SortBy(s, key, lt)
  {
    SortBySorted(s, key, lt);
    SortBySortedIdentity(SortBy(s, key, lt), key, lt);
  }

  lemma WithKeyOfFirst<T, K>(s: seq<T>, key: T -> K)
    ensures s != [] ==> WithKey(s, key, key(s[0])) != []
  {
  }

  /** Two sorted sequences with the same elements of every key, in the same order, are equal. */
  lemma {:induction false} SortedWithSameKeysEqual<T, K(!new)>(a: seq<T>, b: seq<T>, key: T -> K, lt: (K, K) -> bool)
    requires StrictTotalOrder(lt)
    requires SortedBy(a, key, lt) && SortedBy(b, key, lt)
    requires forall k :: WithKey(a, key, k) == WithKey(b, key, k)
    ensures a == b
  {
    if a == [] || b == [] {
      WithKeyOfFirst(a, key);
      WithKeyOfFirst(b, key);
    } else {
      var ka, kb := key(a[0]), key(b[0]);
      assert a[0] in WithKey(b, key, ka);
      WithKeyMember(b, key, ka, a[0]);
      var j :| 0 <= j < |b| && b[j] == a[0];
      assert b[0] in WithKey(a, key, kb);
      WithKeyMember(a, key, kb, b[0]);
      var i :| 0 <= i < |a| && a[i] == b[0];
      assert !lt(ka, kb) && !lt(kb, ka);
      assert ka == kb;
      assert WithKey(a, key, ka) == [a[0]] + WithKey(a[1..], key, ka);
      assert WithKey(b, key, ka) == [b[0]] + WithKey(b[1..], key, ka);
      assert a[0] == WithKey(a, key, ka)[0] == WithKey(b, key, ka)[0] == b[0];
      forall k ensures WithKey(a[1..], key, k) == WithKey(b[1..], key, k) {
        assert WithKey(a, key, k) == WithKey(b, key, k);
        var head := if key(a[0]) == k then [a[0]] else [];
        assert WithKey(a, key, k) == head + WithKey(a[1..], key, k);
        assert WithKey(b, key, k) == head + WithKey(b[1..], key, k);
        assert WithKey(a[1..], key, k) == WithKey(a, key, k)[|head|..];
        assert WithKey(b[1..], key, k) == WithKey(b, key, k)[|head|..];
      }
      SortedWithSameKeysEqual(a[1..], b[1..], key, lt);
      assert a == [a[0]] + a[1..] && b == [b[0]] + b[1..];
    }
  }

  /**
   * Any sorted sequence that keeps the elements of every key of `s` in their
   * order in `s` is SortBy(s): every stable sort of `s` gives this result.
   */
  lemma SortByUnique<T, K(!new)>(s: seq<T>, r: seq<T>, key: T -> K, lt: (K, K) -> bool)
    requires StrictTotalOrder(lt)
    requires SortedBy(r, key, lt)
    requires forall k :: WithKey(r, key, k) == WithKey(s, key, k)
    ensures r == SortBy(s, key, lt)
  {
    SortBySorted(s, key, lt);
    forall k ensures WithKey(r, key, k) == WithKey(SortBy(s, key, lt), key, k) {
      SortByStable(s, key, lt, k);
    }
    SortedWithSameKeysEqual(r, SortBy(s, key, lt), key, lt);
  }

  /** `f` applied to every element of `s`, in order. */
  function Map<T, U>(s: seq<T>, f: T -> U): (r: seq<U>)
    ensures |r| == |s|
  {
    seq(|s|, i requires 0 <= i < |s| => f(s[i]))
  }

  /** Inserting commutes with a map that keeps the key. */
  lemma {:induction false} InsertMap<T, U, K>(x: T, s: seq<T>, f: T -> U, key: T -> K, key2: U -> K, lt: (K, K) -> bool)
    requires forall t :: key(t) == key2(f(t))
    ensures Map(Insert(x, s, key, lt), f) == Insert(f(x), Map(s, f), key2, lt)
  {
    var ms := Map(s, f);
    if s == [] {
      assert Map([x], f) == [f(x)];
    } else {
      assert ms[0] == f(s[0]);
      assert key2(f(x)) == key(x) && key2(ms[0]) == key(s[0]);
      if lt(key(x), key(s[0])) {
        assert Insert(f(x), ms, key2, lt) == [f(x)] + ms;
        assert Map([x] + s, f) == [f(x)] + ms;
      } else {
        var tail := Insert(x, s[1..], key, lt);
        assert Insert(f(x), ms, key2, lt) == [ms[0]] + Insert(f(x), ms[1..], key2, lt);
        assert ms[1..] == Map(s[1..], f);
        InsertMap(x, s[1..], f, key, key2, lt);
        assert Map([s[0]] + tail, f) == [f(s[0])] + Map(tail, f);
      }
    }
  }

  /** Sorting commutes with a map that keeps the key: the sort moves elements without looking inside them. */
  lemma {:induction false} SortByMap<T, U, K>(s: seq<T>, f: T -> U, key: T -> K, key2: U -> K, lt: (K, K) -> bool)
    requires forall t :: key(t) == key2(f(t))
    ensures Map(SortBy(s, key, lt), f) == SortBy(Map(s, f), key2, lt)
  {
    if s != [] {
      var init, last := s[..|s| - 1], s[|s| - 1];
      var ms := Map(s, f);
      assert ms[..|ms| - 1] == Map(init, f) && ms[|ms| - 1] == f(last);
      calc {
        Map(SortBy(s, key, lt), f);
        Map(Insert(last, SortBy(init, key, lt), key, lt), f);
        { InsertMap(last, SortBy(init, key, lt), f, key, key2, lt); }
        Insert(f(last), Map(SortBy(init, key, lt), f), key2, lt);
        { SortByMap(init, f, key, key2, lt); }
        Insert(f(last), SortBy(Map(init, f), key2, lt), key2, lt);
        SortBy(ms, key2, lt);
      }
    }
  }

  /** `<` on integer keys. */
  predicate IntLess(a: int, b: int) { a < b }

  lemma IntLessIsStrictTotalOrder()
    ensures StrictTotalOrder(IntLess)
  {
  }
}
