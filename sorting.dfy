/**
  `sorted(xs, key=k, reverse=True)`: a stable sort into non-increasing key order.
  The definition is an insertion sort; `SortUnique` shows that being non-increasing
  and stable determines the result, so any stable descending sort (Python's
  included) returns exactly this sequence.
 */
module StableSort {

  /** Keys never increase from left to right. */
  predicate NonIncreasing<T>(s: seq<T>, key: T -> int) {
    forall i, j :: 0 <= i < j < |s| ==> key(s[i]) >= key(s[j])
  }

  /** The elements of `s` whose key is `k`, in their order in `s`. */
  function WithKey<T>(s: seq<T>, key: T -> int, k: int): (r: seq<T>)
    ensures |r| <= |s|
  {
    if s == [] then []
    else (if key(s[0]) == k then [s[0]] else []) + WithKey(s[1..], key, k)
  }

  /** Inserting `x` into a non-increasing `s`: after every element whose key is at least
      `x`'s, so `x` follows the elements with an equal key. */
  function Insert<T>(s: seq<T>, key: T -> int, x: T): (r: seq<T>)
    ensures |r| == |s| + 1
  {
    if s == [] then [x]
    else if key(s[0]) >= key(x) then [s[0]] + Insert(s[1..], key, x)
    else [x] + s
  }

  /** The elements of `s`, each inserted after the sorted ones before it. */
  function SortDescending<T>(s: seq<T>, key: T -> int): (r: seq<T>)
    ensures |r| == |s|
  {
    if s == [] then []
    else Insert(SortDescending(s[..|s| - 1], key), key, s[|s| - 1])
  }

  // ---------------------------------------------------------------- WithKey

  lemma {:induction false} WithKeyAppend<T>(a: seq<T>, b: seq<T>, key: T -> int, k: int)
    ensures WithKey(a + b, key, k) == WithKey(a, key, k) + WithKey(b, key, k)
  {
    if a == [] {
      assert a + b == b;
    } else {
      var head := if key(a[0]) == k then [a[0]] else [];
      assert (a + b)[0] == a[0];
      assert (a + b)[1..] == a[1..] + b;
      WithKeyAppend(a[1..], b, key, k);
      calc {
        WithKey(a + b, key, k);
        head + WithKey(a[1..] + b, key, k);
        head + (WithKey(a[1..], key, k) + WithKey(b, key, k));
        (head + WithKey(a[1..], key, k)) + WithKey(b, key, k);
      }
    }
  }

  lemma ConcatAssoc<T>(a: seq<T>, b: seq<T>, c: seq<T>)
    ensures a + (b + c) == (a + b) + c
  {
  }

  lemma WithKeyCons<T>(y: T, t: seq<T>, key: T -> int, k: int)
    ensures WithKey([y] + t, key, k) == (if key(y) == k then [y] else []) + WithKey(t, key, k)
  {
    assert ([y] + t)[0] == y && ([y] + t)[1..] == t;
  }

  /** No element with key `k`: nothing to keep. */
  lemma {:induction false} WithKeyNone<T>(s: seq<T>, key: T -> int, k: int)
    requires forall i :: 0 <= i < |s| ==> key(s[i]) != k
    ensures WithKey(s, key, k) == []
  {
    if s != [] {
      assert forall i :: 0 <= i < |s[1..]| ==> s[1..][i] == s[i + 1];
      WithKeyNone(s[1..], key, k);
    }
  }

  /** What `WithKey` keeps comes from `s` and has key `k`. */
  lemma {:induction false} WithKeyMembers<T>(s: seq<T>, key: T -> int, k: int, x: T)
    requires x in WithKey(s, key, k)
    ensures x in s && key(x) == k
  {
    if s != [] {
      if x != s[0] || key(s[0]) != k {
        WithKeyMembers(s[1..], key, k, x);
      }
    }
  }

  // ---------------------------------------------------------------- Insert

  lemma TailNonIncreasing<T>(s: seq<T>, key: T -> int)
    requires s != [] && NonIncreasing(s, key)
    ensures NonIncreasing(s[1..], key)
  {
    forall i, j | 0 <= i < j < |s| - 1 ensures key(s[1..][i]) >= key(s[1..][j]) {
      assert s[1..][i] == s[i + 1] && s[1..][j] == s[j + 1];
    }
  }

  lemma {:induction false} InsertPermutes<T>(s: seq<T>, key: T -> int, x: T)
    ensures multiset(Insert(s, key, x)) == multiset(s) + multiset{x}
  {
    if s != [] && key(s[0]) >= key(x) {
      InsertPermutes(s[1..], key, x);
      assert s == [s[0]] + s[1..];
    }
  }

  /** No key in `s` exceeds `b`. */
  predicate AllAtMost<T>(s: seq<T>, key: T -> int, b: int) {
    forall i :: 0 <= i < |s| ==> key(s[i]) <= b
  }

  /** A head at least as large as everything after it extends a non-increasing sequence. */
  lemma ConsNonIncreasing<T>(y: T, t: seq<T>, key: T -> int)
    requires NonIncreasing(t, key) && AllAtMost(t, key, key(y))
    ensures NonIncreasing([y] + t, key)
  {
    var r := [y] + t;
    forall i, j | 0 <= i < j < |r| ensures key(r[i]) >= key(r[j]) {
      assert r[j] == t[j - 1];
      if i > 0 {
        assert r[i] == t[i - 1];
      }
    }
  }

  /** The head of a non-increasing sequence bounds everything after it. */
  lemma HeadBoundsTail<T>(s: seq<T>, key: T -> int)
    requires s != [] && NonIncreasing(s, key)
    ensures AllAtMost(s[1..], key, key(s[0]))
  {
    forall i | 0 <= i < |s| - 1 ensures key(s[1..][i]) <= key(s[0]) {
      assert s[1..][i] == s[i + 1];
    }
  }

  /** Inserting an element within a bound keeps every key within it. */
  lemma {:induction false} InsertBounded<T>(s: seq<T>, key: T -> int, x: T, b: int)
    requires AllAtMost(s, key, b) && key(x) <= b
    ensures AllAtMost(Insert(s, key, x), key, b)
  {
    var r := Insert(s, key, x);
    if s != [] && key(s[0]) >= key(x) {
      var tail := s[1..];
      assert AllAtMost(tail, key, b) by {
        forall i | 0 <= i < |tail| ensures key(tail[i]) <= b {
          assert tail[i] == s[i + 1];
        }
      }
      InsertBounded(tail, key, x, b);
      assert r == [s[0]] + Insert(tail, key, x);
      forall i | 1 <= i < |r| ensures key(r[i]) <= b {
        assert r[i] == Insert(tail, key, x)[i - 1];
      }
    } else if s != [] {
      assert r == [x] + s;
      forall i | 1 <= i < |r| ensures key(r[i]) <= b {
        assert r[i] == s[i - 1];
      }
    }
  }

  lemma {:induction false} InsertSorted<T>(s: seq<T>, key: T -> int, x: T)
    requires NonIncreasing(s, key)
    ensures NonIncreasing(Insert(s, key, x), key)
  {
    if s != [] {
      if key(s[0]) >= key(x) {
        var tail := s[1..];
        TailNonIncreasing(s, key);
        InsertSorted(tail, key, x);
        HeadBoundsTail(s, key);
        InsertBounded(tail, key, x, key(s[0]));
        ConsNonIncreasing(s[0], Insert(tail, key, x), key);
        assert Insert(s, key, x) == [s[0]] + Insert(tail, key, x);
      } else {
        HeadBoundsTail(s, key);
        assert AllAtMost(s, key, key(x)) by {
          forall i | 1 <= i < |s| ensures key(s[i]) <= key(x) {
            assert s[1..][i - 1] == s[i];
          }
        }
        ConsNonIncreasing(x, s, key);
      }
    }
  }

  /** Inserting `x` appends it to the elements that share its key. */
  lemma {:induction false} InsertWithKey<T>(s: seq<T>, key: T -> int, x: T, k: int)
    requires NonIncreasing(s, key)
    ensures WithKey(Insert(s, key, x), key, k) == WithKey(s, key, k) + (if key(x) == k then [x] else [])
    decreases |s|, 1
  {
    if s == [] {
      assert WithKey([x], key, k) == (if key(x) == k then [x] else []) + WithKey([], key, k);
    } else if key(s[0]) >= key(x) {
      TailNonIncreasing(s, key);
      InsertWithKeyBehind(s, key, x, k);
    } else {
      InsertWithKeyInFront(s, key, x, k);
    }
  }

  /** `x` goes behind the head: the head's contribution comes first either way. */
  lemma {:induction false} InsertWithKeyBehind<T>(s: seq<T>, key: T -> int, x: T, k: int)
    requires s != [] && NonIncreasing(s[1..], key) && key(s[0]) >= key(x)
    ensures WithKey(Insert(s, key, x), key, k) == WithKey(s, key, k) + (if key(x) == k then [x] else [])
    decreases |s|, 0
  {
    var last := if key(x) == k then [x] else [];
    var head := if key(s[0]) == k then [s[0]] else [];
    var tail := s[1..];
    var inserted := Insert(tail, key, x);
    assert Insert(s, key, x) == [s[0]] + inserted;
    assert s == [s[0]] + tail;
    calc {
      WithKey([s[0]] + inserted, key, k);
      { WithKeyCons(s[0], inserted, key, k); }
      head + WithKey(inserted, key, k);
      { InsertWithKey(tail, key, x, k); }
      head + (WithKey(tail, key, k) + last);
      { ConcatAssoc(head, WithKey(tail, key, k), last); }
      (head + WithKey(tail, key, k)) + last;
      { WithKeyCons(s[0], tail, key, k); }
      WithKey([s[0]] + tail, key, k) + last;
    }
  }

  /** `x` goes in front, and every element of `s` has a smaller key than `x`. */
  lemma InsertWithKeyInFront<T>(s: seq<T>, key: T -> int, x: T, k: int)
    requires NonIncreasing(s, key) && s != [] && key(s[0]) < key(x)
    ensures WithKey(Insert(s, key, x), key, k) == WithKey(s, key, k) + (if key(x) == k then [x] else [])
  {
    var r := [x] + s;
    assert r[0] == x && r[1..] == s;
    if key(x) == k {
      assert forall i :: 0 <= i < |s| ==> key(s[i]) <= key(s[0]);
      WithKeyNone(s, key, k);
    }
  }

  // ---------------------------------------------------------------- SortDescending

  /** The result is in non-increasing key order. */
  lemma {:induction false} SortSorted<T>(s: seq<T>, key: T -> int)
    ensures NonIncreasing(SortDescending(s, key), key)
  {
    if s != [] {
      SortSorted(s[..|s| - 1], key);
      InsertSorted(SortDescending(s[..|s| - 1], key), key, s[|s| - 1]);
    }
  }

  /** The result holds the same elements, each as often. */
  lemma {:induction false} SortPermutes<T>(s: seq<T>, key: T -> int)
    ensures multiset(SortDescending(s, key)) == multiset(s)
  {
    if s != [] {
      var init, last := s[..|s| - 1], s[|s| - 1];
      SortPermutes(init, key);
      InsertPermutes(SortDescending(init, key), key, last);
      assert s == init + [last];
    }
  }

  /** Stability: elements with equal keys keep their relative order. */
  lemma {:induction false} SortStable<T>(s: seq<T>, key: T -> int, k: int)
    ensures WithKey(SortDescending(s, key), key, k) == WithKey(s, key, k)
  {
    if s != [] {
      var init, last := s[..|s| - 1], s[|s| - 1];
      SortStable(init, key, k);
      SortSorted(init, key);
      InsertWithKey(SortDescending(init, key), key, last, k);
      assert s == init + [last];
      WithKeyAppend(init, [last], key, k);
      assert WithKey([last], key, k) == (if key(last) == k then [last] else []) + WithKey([], key, k);
    }
  }

  /** A non-empty non-increasing sequence starts with its largest key, so the elements
      with that key start with its head. */
  lemma HeadLeadsItsKey<T>(s: seq<T>, key: T -> int)
    ensures s != [] ==> WithKey(s, key, key(s[0])) == [s[0]] + WithKey(s[1..], key, key(s[0]))
  {
  }

  /** An element with key `k` bounds the head's key from below. */
  lemma HeadAtLeast<T>(s: seq<T>, key: T -> int, k: int)
    requires s != [] && NonIncreasing(s, key) && WithKey(s, key, k) != []
    ensures key(s[0]) >= k
  {
    var x := WithKey(s, key, k)[0];
    WithKeyMembers(s, key, k, x);
    var i :| 0 <= i < |s| && s[i] == x;
  }

  /** Two non-increasing sequences that agree on the elements of every key are equal. */
  lemma {:induction false} SortUnique<T>(r1: seq<T>, r2: seq<T>, key: T -> int)
    requires NonIncreasing(r1, key) && NonIncreasing(r2, key)
    requires forall k :: WithKey(r1, key, k) == WithKey(r2, key, k)
    ensures r1 == r2
    decreases |r1|
  {
    if r1 != [] && r2 != [] {
      var m1, m2 := key(r1[0]), key(r2[0]);
      HeadLeadsItsKey(r1, key);
      HeadLeadsItsKey(r2, key);
      HeadAtLeast(r2, key, m1);
      HeadAtLeast(r1, key, m2);
      assert r1[0] == WithKey(r1, key, m1)[0] == WithKey(r2, key, m2)[0] == r2[0];
      var t1, t2 := r1[1..], r2[1..];
      forall k ensures WithKey(t1, key, k) == WithKey(t2, key, k) {
        var head := if m1 == k then [r1[0]] else [];
        assert WithKey(r1, key, k) == head + WithKey(t1, key, k);
        assert WithKey(r2, key, k) == head + WithKey(t2, key, k);
        assert WithKey(t1, key, k) == WithKey(r1, key, k)[|head|..];
        assert WithKey(t2, key, k) == WithKey(r2, key, k)[|head|..];
      }
      assert NonIncreasing(t1, key) && NonIncreasing(t2, key);
      SortUnique(t1, t2, key);
      assert r1 == [r1[0]] + t1 && r2 == [r2[0]] + t2;
    } else {
      HeadLeadsItsKey(r1, key);
      HeadLeadsItsKey(r2, key);
    }
  }

  /** So any stable descending sort of `s` is `SortDescending(s, key)`. */
  lemma SortIsTheStableSort<T>(s: seq<T>, key: T -> int, r: seq<T>)
    requires NonIncreasing(r, key) && forall k :: WithKey(r, key, k) == WithKey(s, key, k)
    ensures r == SortDescending(s, key)
  {
    SortSorted(s, key);
    forall k ensures WithKey(r, key, k) == WithKey(SortDescending(s, key), key, k) {
      SortStable(s, key, k);
    }
    SortUnique(r, SortDescending(s, key), key);
  }
}
