/**
 * Python's `sorted(xs, key=k)` for string keys: keys compare by code point,
 * lexicographically, and elements with equal keys keep their input order.
 */
module Sorting {

  /** `a <= b` on Python strings: lexicographic by code point, a proper prefix first. */
  predicate LexLe(a: string, b: string)
  {
    a == [] || (b != [] && (a[0] < b[0] || (a[0] == b[0] && LexLe(a[1..], b[1..]))))
  }

  /** Every two strings are comparable. */
  lemma {:induction false} LexLeTotal(a: string, b: string)
    ensures LexLe(a, b) || LexLe(b, a)
  {
    if a != [] && b != [] && a[0] == b[0] {
      LexLeTotal(a[1..], b[1..]);
    }
  }

  /** The order is transitive. */
  lemma {:induction false} LexLeTransitive(a: string, b: string, c: string)
    requires LexLe(a, b) && LexLe(b, c)
    ensures LexLe(a, c)
  {
    if a != [] && a[0] == b[0] && b[0] == c[0] {
      LexLeTransitive(a[1..], b[1..], c[1..]);
    }
  }

  /** The key at position `i` is at most the next one. */
  predicate InOrderAt<T>(s: seq<T>, key: T -> string, i: nat)
    requires i + 1 < |s|
  {
    LexLe(key(s[i]), key(s[i + 1]))
  }

  /** Each element's key is at most the next one's. */
  predicate SortedBy<T>(s: seq<T>, key: T -> string)
  {
    forall i :: 0 <= i < |s| - 1 ==> InOrderAt(s, key, i)
  }

  /** Inserts `x` after every element of `s` whose key is at most `x`'s. */
  function Insert<T>(x: T, s: seq<T>, key: T -> string): (r: seq<T>)
    requires SortedBy(s, key)
    ensures |r| == |s| + 1
    ensures r[0] == x || (s != [] && r[0] == s[0])
    ensures SortedBy(r, key)
  {
    if s == [] then [x]
    else if LexLe(key(s[0]), key(x)) then
      SortedTail(s, key);
      var rest := Insert(x, s[1..], key);
      var r := [s[0]] + rest;
      assert SortedBy(r, key) by {
        forall i | 0 <= i < |r| - 1 ensures InOrderAt(r, key, i) {
          if i == 0 {
            assert |s| > 1 ==> InOrderAt(s, key, 0);
          } else {
            assert InOrderAt(rest, key, i - 1);
          }
        }
      }
      r
    else
      LexLeTotal(key(s[0]), key(x));
      var r := [x] + s;
      assert SortedBy(r, key) by {
        forall i | 0 <= i < |r| - 1 ensures InOrderAt(r, key, i) {
          if i > 0 {
            assert InOrderAt(s, key, i - 1);
          }
        }
      }
      r
  }

  /** The tail of a sorted list is sorted. */
  lemma SortedTail<T>(s: seq<T>, key: T -> string)
    requires SortedBy(s, key) && s != []
    ensures SortedBy(s[1..], key)
  {
    var tail := s[1..];
    forall i | 0 <= i < |tail| - 1 ensures InOrderAt(tail, key, i) {
      assert tail[i] == s[i + 1] && tail[i + 1] == s[i + 2];
      assert InOrderAt(s, key, i + 1);
    }
  }

  /** The front of a sorted list is sorted. */
  lemma SortedInit<T>(s: seq<T>, key: T -> string)
    requires SortedBy(s, key) && s != []
    ensures SortedBy(s[..|s| - 1], key)
  {
    var init := s[..|s| - 1];
    forall i | 0 <= i < |init| - 1 ensures InOrderAt(init, key, i) {
      assert init[i] == s[i] && init[i + 1] == s[i + 1];
      assert InOrderAt(s, key, i);
    }
  }

  /** Insertion adds exactly `x`. */
  lemma {:induction false} InsertPermutes<T>(x: T, s: seq<T>, key: T -> string)
    requires SortedBy(s, key)
    ensures multiset(Insert(x, s, key)) == multiset(s) + multiset{x}
  {
    if s != [] && LexLe(key(s[0]), key(x)) {
      SortedTail(s, key);
      var t := s[1..];
      InsertPermutes(x, t, key);
      assert Insert(x, s, key) == [s[0]] + Insert(x, t, key);
      assert s == [s[0]] + t;
    }
  }

  /** `sorted(s, key=key)`: insertion sort, stable because equal keys are inserted behind. */
  function SortBy<T>(s: seq<T>, key: T -> string): (r: seq<T>)
    ensures |r| == |s|
    ensures SortedBy(r, key)
  {
    if s == [] then []
    else Insert(s[|s| - 1], SortBy(s[..|s| - 1], key), key)
  }

  /** Sorting only reorders: the result has the same elements, each as often. */
  lemma {:induction false} SortByPermutes<T>(s: seq<T>, key: T -> string)
    ensures multiset(SortBy(s, key)) == multiset(s)
  {
    if s != [] {
      var init := s[..|s| - 1];
      SortByPermutes(init, key);
      InsertPermutes(s[|s| - 1], SortBy(init, key), key);
      assert s == init + [s[|s| - 1]];
    }
  }

  /** Sorted by adjacent pairs means sorted between any two positions. */
  lemma {:induction false} SortedByPairs<T>(s: seq<T>, key: T -> string, i: nat, j: nat)
    requires SortedBy(s, key) && i <= j < |s|
    ensures LexLe(key(s[i]), key(s[j]))
    decreases j - i
  {
    if i == j {
      LexLeReflexive(key(s[i]));
    } else {
      SortedByPairs(s, key, i + 1, j);
      assert InOrderAt(s, key, i);
      LexLeTransitive(key(s[i]), key(s[i + 1]), key(s[j]));
    }
  }

  lemma {:induction false} LexLeReflexive(a: string)
    ensures LexLe(a, a)
  {
    if a != [] {
      LexLeReflexive(a[1..]);
    }
  }

  /** A sorted list is left as it is. */
  lemma {:induction false} SortBySorted<T>(s: seq<T>, key: T -> string)
    requires SortedBy(s, key)
    ensures SortBy(s, key) == s
  {
    if s != [] {
      var init := s[..|s| - 1];
      SortedInit(s, key);
      var last := s[|s| - 1];
      if init != [] {
        assert init[|init| - 1] == s[|s| - 2];
        assert InOrderAt(s, key, |s| - 2);
      }
      calc {
        SortBy(s, key);
        Insert(last, SortBy(init, key), key);
        { SortBySorted(init, key); }
        Insert(last, init, key);
        { InsertAtEnd(last, init, key); }
        init + [last];
      }
      assert s == init + [last];
    }
  }

  /** An element whose key is at least the last key goes to the end. */
  lemma {:induction false} InsertAtEnd<T>(x: T, s: seq<T>, key: T -> string)
    requires SortedBy(s, key) && (s == [] || LexLe(key(s[|s| - 1]), key(x)))
    ensures Insert(x, s, key) == s + [x]
  {
    if s != [] {
      var tail := s[1..];
      SortedTail(s, key);
      SortedByPairs(s, key, 0, |s| - 1);
      LexLeTransitive(key(s[0]), key(s[|s| - 1]), key(x));
      if tail != [] {
        assert tail[|tail| - 1] == s[|s| - 1];
      }
      InsertAtEnd(x, tail, key);
      assert s == [s[0]] + tail;
    }
  }

  /** The elements of `s` whose key is `k`, in order. */
  function WithKey<T>(s: seq<T>, key: T -> string, k: string): seq<T>
  {
    if s == [] then []
    else WithKey(s[..|s| - 1], key, k) + (if key(s[|s| - 1]) == k then [s[|s| - 1]] else [])
  }

  lemma {:induction false} WithKeyAppend<T>(a: seq<T>, b: seq<T>, key: T -> string, k: string)
    ensures WithKey(a + b, key, k) == WithKey(a, key, k) + WithKey(b, key, k)
    decreases |b|
  {
    if b == [] {
      assert a + b == a;
    } else {
      var n := |b| - 1;
      assert (a + b)[..|a + b| - 1] == a + b[..n];
      WithKeyAppend(a, b[..n], key, k);
    }
  }

  /** Inserting `x` puts it behind every element with the same key. */
  lemma {:induction false} InsertWithKey<T>(x: T, s: seq<T>, key: T -> string, k: string)
    requires SortedBy(s, key)
    ensures WithKey(Insert(x, s, key), key, k) == WithKey(s, key, k) + WithKey([x], key, k)
  {
    if s != [] {
      assert s == [s[0]] + s[1..];
      if LexLe(key(s[0]), key(x)) {
        var tail := s[1..];
        SortedTail(s, key);
        InsertWithKey(x, tail, key, k);
        WithKeyAppend([s[0]], Insert(x, tail, key), key, k);
        WithKeyAppend([s[0]], tail, key, k);
      } else {
        WithKeyAppend([x], s, key, k);
        if key(x) == k {
          assert WithKey(s, key, k) == [] by {
            NoneWithKey(s, key, k);
          }
        }
      }
    }
  }

  /** In a sorted list whose first key is above `k`, no element has key `k`. */
  lemma NoneWithKey<T>(s: seq<T>, key: T -> string, k: string)
    requires SortedBy(s, key) && s != [] && !LexLe(key(s[0]), k)
    ensures WithKey(s, key, k) == []
  {
    forall i | 0 <= i < |s| ensures key(s[i]) != k {
      SortedByPairs(s, key, 0, i);
    }
    WithKeyNone(s, key, k);
  }

  lemma {:induction false} WithKeyNone<T>(s: seq<T>, key: T -> string, k: string)
    requires forall i :: 0 <= i < |s| ==> key(s[i]) != k
    ensures WithKey(s, key, k) == []
  {
    if s != [] {
      WithKeyNone(s[..|s| - 1], key, k);
    }
  }

  /** `sorted` is stable: the elements sharing a key keep their input order. */
  lemma {:induction false} SortByStable<T>(s: seq<T>, key: T -> string, k: string)
    ensures WithKey(SortBy(s, key), key, k) == WithKey(s, key, k)
  {
    if s != [] {
      var init, last := s[..|s| - 1], s[|s| - 1];
      SortByStable(init, key, k);
      InsertWithKey(last, SortBy(init, key), key, k);
      assert [last][..0] == [];
    }
  }
}
