/**
 * A stable insertion sort of any sequence by a `RankKey`-valued key, the
 * model of Python's `list.sort(key=...)`. The key is a parameter so that
 * these proofs depend only on the order of keys, not on how a key is
 * computed.
 */
module StableSort {
  import opened SortKeys

  /** Every element's key is no greater than the keys of all elements after it. */
  ghost predicate Sorted<T>(key: T -> RankKey, s: seq<T>) {
    forall i, j :: 0 <= i < j < |s| ==> KeyLe(key(s[i]), key(s[j]))
  }

  /** Places `x` before the first element whose key is not smaller, so ahead of its equals. */
  function Insert<T(==)>(key: T -> RankKey, x: T, s: seq<T>): (r: seq<T>)
    ensures multiset(r) == multiset(s) + multiset{x}
    ensures |r| == |s| + 1
    decreases |s|
  {
    if |s| == 0 then [x]
    else if KeyLt(key(s[0]), key(x)) then
      assert s == [s[0]] + s[1..];
      [s[0]] + Insert(key, x, s[1..])
    else [x] + s
  }

  lemma {:induction false} InsertSorted<T>(key: T -> RankKey, x: T, s: seq<T>)
    requires Sorted(key, s)
    ensures Sorted(key, Insert(key, x, s))
    decreases |s|
  {
    KeyLeOrder();
    if |s| > 0 && KeyLt(key(s[0]), key(x)) {
      InsertSorted(key, x, s[1..]);
      var rest := Insert(key, x, s[1..]);
      forall j | 0 <= j < |rest|
        ensures KeyLe(key(s[0]), key(rest[j]))
      {
        assert rest[j] in multiset(rest);
        assert rest[j] == x || rest[j] in s[1..];
      }
    }
  }

  /** Insertion sort: each element is inserted ahead of the equal-keyed elements that follow it in `s`. */
  function SortBy<T(==)>(key: T -> RankKey, s: seq<T>): (r: seq<T>)
    ensures multiset(r) == multiset(s)
    ensures |r| == |s|
    ensures Sorted(key, r)
    decreases |s|
  {
    if |s| == 0 then []
    else
      assert s == [s[0]] + s[1..];
      InsertSorted(key, s[0], SortBy(key, s[1..]));
      Insert(key, s[0], SortBy(key, s[1..]))
  }

  /** The elements of `s` whose key is `k`, in their order in `s`. */
  function WithKey<T>(key: T -> RankKey, s: seq<T>, k: RankKey): seq<T>
    decreases |s|
  {
    if |s| == 0 then [] else (if key(s[0]) == k then [s[0]] else []) + WithKey(key, s[1..], k)
  }

  lemma WithKeyCons<T>(key: T -> RankKey, x: T, s: seq<T>, k: RankKey)
    ensures WithKey(key, [x] + s, k) == (if key(x) == k then [x] else []) + WithKey(key, s, k)
  {
    assert ([x] + s)[0] == x && ([x] + s)[1..] == s;
  }

  /** Inserting `x` puts it ahead of every element with the same key and moves no other. */
  lemma {:induction false} InsertWithKey<T>(key: T -> RankKey, x: T, s: seq<T>, k: RankKey)
    ensures WithKey(key, Insert(key, x, s), k) == (if key(x) == k then [x] else []) + WithKey(key, s, k)
    decreases |s|
  {
    if |s| == 0 {
      WithKeyCons(key, x, [], k);
    } else if KeyLt(key(s[0]), key(x)) {
      InsertWithKey(key, x, s[1..], k);
      InsertPastSmaller(key, x, s, k);
    } else {
      WithKeyCons(key, x, s, k);
    }
  }

  /** When `x` moves past the smaller head of `s`, that head cannot share `x`'s key. */
  lemma InsertPastSmaller<T>(key: T -> RankKey, x: T, s: seq<T>, k: RankKey)
    requires |s| > 0 && KeyLt(key(s[0]), key(x))
    requires WithKey(key, Insert(key, x, s[1..]), k) == (if key(x) == k then [x] else []) + WithKey(key, s[1..], k)
    ensures WithKey(key, Insert(key, x, s), k) == (if key(x) == k then [x] else []) + WithKey(key, s, k)
  {
    var head, tail := s[0], s[1..];
    var rest := Insert(key, x, tail);
    assert Insert(key, x, s) == [head] + rest;
    assert s == [head] + tail;
    var hx: seq<T> := if key(x) == k then [x] else [];
    var hh: seq<T> := if key(head) == k then [head] else [];
    WithKeyCons(key, head, rest, k);
    WithKeyCons(key, head, tail, k);
    KeyLtStrictTotal(key(x), key(x), key(x));
    assert hx == [] || hh == [];
    assert hh + (hx + WithKey(key, tail, k)) == hx + (hh + WithKey(key, tail, k));
  }

  /** Stability: among elements with equal keys the sorted order is the input order. */
  lemma {:induction false} SortByStable<T>(key: T -> RankKey, s: seq<T>, k: RankKey)
    ensures WithKey(key, SortBy(key, s), k) == WithKey(key, s, k)
    decreases |s|
  {
    if |s| > 0 {
      SortByStable(key, s[1..], k);
      InsertWithKey(key, s[0], SortBy(key, s[1..]), k);
      WithKeyCons(key, s[0], s[1..], k);
      assert s == [s[0]] + s[1..];
    }
  }

  lemma {:induction false} WithKeyWitness<T>(key: T -> RankKey, s: seq<T>, k: RankKey)
    requires WithKey(key, s, k) != []
    ensures exists j :: 0 <= j < |s| && key(s[j]) == k
    decreases |s|
  {
    if key(s[0]) != k {
      WithKeyWitness(key, s[1..], k);
      var j :| 0 <= j < |s[1..]| && key(s[1..][j]) == k;
      assert key(s[j + 1]) == k;
    }
  }

  lemma WithKeyNonEmpty<T>(key: T -> RankKey, s: seq<T>, k: RankKey)
    requires WithKey(key, s, k) != []
    ensures |s| > 0
  {
  }

  lemma WithKeyOwnKey<T>(key: T -> RankKey, s: seq<T>)
    requires |s| > 0
    ensures WithKey(key, s, key(s[0])) != []
  {
  }

  /** Two sorted, non-empty sequences that agree on every key start alike and agree on every key after that. */
  lemma SortedHeadsAgree<T>(key: T -> RankKey, a: seq<T>, b: seq<T>)
    requires Sorted(key, a) && Sorted(key, b)
    requires |a| > 0 && |b| > 0
    requires forall k :: WithKey(key, a, k) == WithKey(key, b, k)
    ensures a[0] == b[0]
    ensures forall k :: WithKey(key, a[1..], k) == WithKey(key, b[1..], k)
  {
    KeyLeOrder();
    var ka, kb := key(a[0]), key(b[0]);
    WithKeyOwnKey(key, a);
    WithKeyOwnKey(key, b);
    WithKeyWitness(key, b, ka);
    WithKeyWitness(key, a, kb);
    assert KeyLe(kb, ka) && KeyLe(ka, kb);
    assert a[0] == WithKey(key, a, ka)[0] == WithKey(key, b, ka)[0] == b[0];
    forall k
      ensures WithKey(key, a[1..], k) == WithKey(key, b[1..], k)
    {
      assert a == [a[0]] + a[1..] && b == [b[0]] + b[1..];
      WithKeyCons(key, a[0], a[1..], k);
      WithKeyCons(key, b[0], b[1..], k);
      var front := if key(a[0]) == k then [a[0]] else [];
      assert front + WithKey(key, a[1..], k) == front + WithKey(key, b[1..], k);
      assert WithKey(key, a[1..], k) == (front + WithKey(key, a[1..], k))[|front|..];
    }
  }

  /** Two sorted sequences that agree on the elements of every key are the same sequence. */
  lemma {:induction false} SortedStableUnique<T>(key: T -> RankKey, a: seq<T>, b: seq<T>)
    requires Sorted(key, a) && Sorted(key, b)
    requires forall k :: WithKey(key, a, k) == WithKey(key, b, k)
    ensures a == b
    decreases |a|
  {
    if |a| > 0 {
      WithKeyOwnKey(key, a);
      WithKeyNonEmpty(key, b, key(a[0]));
    }
    if |b| > 0 {
      WithKeyOwnKey(key, b);
      WithKeyNonEmpty(key, a, key(b[0]));
    }
    if |a| > 0 {
      SortedHeadsAgree(key, a, b);
      SortedStableUnique(key, a[1..], b[1..]);
      assert a == [a[0]] + a[1..] && b == [b[0]] + b[1..];
    }
  }

  /**
   * Any sorted rearrangement that keeps the input order among equal keys is
   * exactly `SortBy(key, s)`: every stable sort by `key` returns this sequence.
   */
  lemma SortByIsTheStableSort<T>(key: T -> RankKey, s: seq<T>, a: seq<T>)
    requires Sorted(key, a)
    requires forall k :: WithKey(key, a, k) == WithKey(key, s, k)
    ensures a == SortBy(key, s)
  {
    forall k
      ensures WithKey(key, a, k) == WithKey(key, SortBy(key, s), k)
    {
      SortByStable(key, s, k);
    }
    SortedStableUnique(key, a, SortBy(key, s));
  }
}
