/**
  The two sorts the card relies on, both stable as `Array.prototype.sort` is:
  a sort by an integer key (events by start time, calendars by priority) and
  the default string sort (calendar ids, compared code point by code point).
 */
module Sorting {

  // ---------------------------------------------------------------------------
  // Stable sort by an integer key

  ghost predicate SortedBy<T>(s: seq<T>, key: T -> int) {
    forall i, j :: 0 <= i < j < |s| ==> key(s[i]) <= key(s[j])
  }

  /** The elements of `s` whose key is `v`, in their order in `s`. */
  function WithKey<T>(s: seq<T>, key: T -> int, v: int): seq<T> {
    if |s| == 0 then []
    else (if key(s[0]) == v then [s[0]] else []) + WithKey(s[1..], key, v)
  }

  /** Inserts `x` before the first element whose key is not smaller. */
  function InsertBy<T>(x: T, s: seq<T>, key: T -> int): (r: seq<T>)
    requires SortedBy(s, key)
    ensures SortedBy(r, key)
    ensures multiset(r) == multiset(s) + multiset{x}
    ensures |r| == |s| + 1 && (r[0] == x || (|s| > 0 && r[0] == s[0]))
  {
    if |s| == 0 || key(x) <= key(s[0]) then [x] + s
    else
      assert s == [s[0]] + s[1..];
      [s[0]] + InsertBy(x, s[1..], key)
  }

  /** `x` joins the elements of its key ahead of those already sorted. */
  lemma {:induction false} InsertByWithKey<T>(x: T, s: seq<T>, key: T -> int, v: int)
    requires SortedBy(s, key)
    ensures WithKey(InsertBy(x, s, key), key, v) == (if key(x) == v then [x] else []) + WithKey(s, key, v)
    decreases |s|
  {
    var r := InsertBy(x, s, key);
    var px := if key(x) == v then [x] else [];
    if |s| == 0 || key(x) <= key(s[0]) {
      assert r == [x] + s;
      assert r[1..] == s;
    } else {
      var rest := InsertBy(x, s[1..], key);
      var p0 := if key(s[0]) == v then [s[0]] else [];
      assert r == [s[0]] + rest;
      assert r[1..] == rest;
      InsertByWithKey(x, s[1..], key, v);
      calc {
        WithKey(r, key, v);
        p0 + WithKey(rest, key, v);
        p0 + (px + WithKey(s[1..], key, v));
        { SwapEmpty(p0, px, WithKey(s[1..], key, v)); }
        px + (p0 + WithKey(s[1..], key, v));
        px + WithKey(s, key, v);
      }
    }
  }

  /** Two prefixes commute in front of `w` when one of them is empty. */
  lemma SwapEmpty<T>(a: seq<T>, b: seq<T>, w: seq<T>)
    requires a == [] || b == []
    ensures a + (b + w) == b + (a + w)
  {
    if a == [] {
      assert a + (b + w) == b + w == b + (a + w);
    } else {
      assert a + (b + w) == a + w == b + (a + w);
    }
  }

  /**
    Stable insertion sort by `key`: sorted, a permutation of the input, and
    for every key value the elements carrying it keep their input order.
   */
  function SortBy<T>(s: seq<T>, key: T -> int): (r: seq<T>)
    ensures SortedBy(r, key)
    ensures multiset(r) == multiset(s)
  {
    if |s| == 0 then []
    else
      assert s == [s[0]] + s[1..];
      InsertBy(s[0], SortBy(s[1..], key), key)
  }

  lemma {:induction false} SortByWithKey<T>(s: seq<T>, key: T -> int, v: int)
    ensures WithKey(SortBy(s, key), key, v) == WithKey(s, key, v)
    decreases |s|
  {
    if |s| > 0 {
      SortByWithKey(s[1..], key, v);
      InsertByWithKey(s[0], SortBy(s[1..], key), key, v);
    }
  }

  lemma {:induction false} WithKeyMember<T>(s: seq<T>, key: T -> int, v: int)
    requires |WithKey(s, key, v)| > 0
    ensures exists i :: 0 <= i < |s| && key(s[i]) == v
    decreases |s|
  {
    if key(s[0]) != v {
      WithKeyMember(s[1..], key, v);
      var i :| 0 <= i < |s[1..]| && key(s[1..][i]) == v;
      assert key(s[i + 1]) == v;
    }
  }

  /**
    A sorted sequence is determined by its elements of each key in order:
    every stable sort of the same input yields the same sequence.
   */
  lemma {:induction false} StableSortUnique<T>(a: seq<T>, b: seq<T>, key: T -> int)
    requires |a| == |b|
    requires SortedBy(a, key) && SortedBy(b, key)
    requires forall v :: WithKey(a, key, v) == WithKey(b, key, v)
    ensures a == b
    decreases |a|
  {
    if |a| > 0 {
      var ka, kb := key(a[0]), key(b[0]);
      assert WithKey(a, key, ka)[0] == a[0];
      assert WithKey(b, key, kb)[0] == b[0];
      WithKeyMember(b, key, ka);
      WithKeyMember(a, key, kb);
      assert ka == kb;
      assert a[0] == b[0];
      forall v
        ensures WithKey(a[1..], key, v) == WithKey(b[1..], key, v)
      {
        var p := if ka == v then [a[0]] else [];
        assert WithKey(a, key, v) == p + WithKey(a[1..], key, v);
        assert WithKey(b, key, v) == p + WithKey(b[1..], key, v);
        assert WithKey(a[1..], key, v) == (p + WithKey(a[1..], key, v))[|p|..];
        assert WithKey(b[1..], key, v) == (p + WithKey(b[1..], key, v))[|p|..];
      }
      StableSortUnique(a[1..], b[1..], key);
      assert a == [a[0]] + a[1..] && b == [b[0]] + b[1..];
    }
  }

  /** `r` is `s` with some elements left out and the rest in their order. */
  predicate Subsequence<T(==)>(r: seq<T>, s: seq<T>)
    decreases |s|
  {
    if |r| == 0 then true
    else if |s| == 0 then false
    else (r[0] == s[0] && Subsequence(r[1..], s[1..])) || Subsequence(r, s[1..])
  }

  // ---------------------------------------------------------------------------
  // The default string sort

  /** Lexicographic order of strings, character by character. */
  predicate StrLess(a: string, b: string) {
    if |a| == 0 then |b| > 0
    else if |b| == 0 then false
    else if a[0] != b[0] then a[0] < b[0]
    else StrLess(a[1..], b[1..])
  }

  lemma {:induction false} StrLessIrreflexive(a: string)
    ensures !StrLess(a, a)
    decreases |a|
  {
    if |a| > 0 {
      StrLessIrreflexive(a[1..]);
    }
  }

  lemma {:induction false} StrLessTotal(a: string, b: string)
    ensures a == b || StrLess(a, b) || StrLess(b, a)
    decreases |a|
  {
    if |a| > 0 && |b| > 0 && a[0] == b[0] {
      StrLessTotal(a[1..], b[1..]);
      if a[1..] == b[1..] {
        assert a == [a[0]] + a[1..] && b == [b[0]] + b[1..];
      }
    }
  }

  lemma {:induction false} StrLessAsymmetric(a: string, b: string)
    requires StrLess(a, b)
    ensures !StrLess(b, a)
    decreases |a|
  {
    if |a| > 0 && a[0] == b[0] {
      StrLessAsymmetric(a[1..], b[1..]);
    }
  }

  lemma {:induction false} StrLessTransitive(a: string, b: string, c: string)
    requires StrLess(a, b) && StrLess(b, c)
    ensures StrLess(a, c)
    decreases |a|
  {
    if |a| > 0 && a[0] == b[0] && b[0] == c[0] {
      StrLessTransitive(a[1..], b[1..], c[1..]);
    }
  }

  ghost predicate StrSorted(s: seq<string>) {
    forall i, j :: 0 <= i < j < |s| ==> !StrLess(s[j], s[i])
  }

  function InsertStr(x: string, s: seq<string>): (r: seq<string>)
    requires StrSorted(s)
    ensures StrSorted(r)
    ensures multiset(r) == multiset(s) + multiset{x}
  {
    if |s| == 0 || !StrLess(s[0], x) then
      InsertStrFront(x, s);
      [x] + s
    else
      var rest := InsertStr(x, s[1..]);
      assert s == [s[0]] + s[1..];
      InsertStrBehind(x, s, rest);
      [s[0]] + rest
  }

  /** `x` may go in front of a sorted `s` whose head is not smaller than `x`. */
  lemma InsertStrFront(x: string, s: seq<string>)
    requires StrSorted(s) && (|s| == 0 || !StrLess(s[0], x))
    ensures StrSorted([x] + s)
  {
    forall j | 0 <= j < |s|
      ensures !StrLess(s[j], x)
    {
      if StrLess(s[j], x) {
        StrLessTotal(s[0], s[j]);
        if s[0] != s[j] {
          assert StrLess(s[0], s[j]);
          StrLessTransitive(s[0], s[j], x);
        }
      }
    }
  }

  /** The head of a sorted `s` that is smaller than `x` stays in front of the rest with `x` inserted. */
  lemma InsertStrBehind(x: string, s: seq<string>, rest: seq<string>)
    requires StrSorted(s) && |s| > 0 && StrLess(s[0], x)
    requires StrSorted(rest) && multiset(rest) == multiset(s[1..]) + multiset{x}
    ensures StrSorted([s[0]] + rest)
  {
    assert !StrLess(x, s[0]) by {
      StrLessAsymmetric(s[0], x);
    }
    forall k | 0 <= k < |rest|
      ensures !StrLess(rest[k], s[0])
    {
      var e := rest[k];
      assert e in multiset(rest);
      if e != x {
        assert e in multiset(s[1..]);
        var j :| 0 <= j < |s[1..]| && s[1..][j] == e;
        assert s[j + 1] == e;
      }
    }
  }

  /** The default sort of strings: the ids in ascending string order. */
  function SortStrings(s: seq<string>): (r: seq<string>)
    ensures StrSorted(r)
    ensures multiset(r) == multiset(s)
  {
    if |s| == 0 then []
    else
      assert s == [s[0]] + s[1..];
      InsertStr(s[0], SortStrings(s[1..]))
  }

  lemma SortedHeadsEqual(a: seq<string>, b: seq<string>)
    requires StrSorted(a) && StrSorted(b)
    requires multiset(a) == multiset(b) && |a| > 0
    ensures |b| > 0 && a[0] == b[0]
  {
    assert a[0] in multiset(b);
    var i :| 0 <= i < |b| && b[i] == a[0];
    assert b[0] in multiset(a);
    var j :| 0 <= j < |a| && a[j] == b[0];
    assert !StrLess(a[0], b[0]) by {
      if i > 0 {
        assert !StrLess(b[i], b[0]);
      } else {
        StrLessIrreflexive(a[0]);
      }
    }
    assert !StrLess(b[0], a[0]) by {
      if j > 0 {
        assert !StrLess(a[j], a[0]);
      } else {
        StrLessIrreflexive(b[0]);
      }
    }
    StrLessTotal(a[0], b[0]);
  }

  lemma TailMultiset(a: seq<string>)
    requires |a| > 0
    ensures multiset(a[1..]) == multiset(a) - multiset{a[0]}
  {
    assert a == [a[0]] + a[1..];
  }

  /** Two sorted sequences of the same strings are equal. */
  lemma {:induction false} StrSortedUnique(a: seq<string>, b: seq<string>)
    requires StrSorted(a) && StrSorted(b)
    requires multiset(a) == multiset(b)
    ensures a == b
    decreases |a|
  {
    if |a| > 0 {
      SortedHeadsEqual(a, b);
      TailMultiset(a);
      TailMultiset(b);
      StrSortedUnique(a[1..], b[1..]);
      assert a == [a[0]] + a[1..] && b == [b[0]] + b[1..];
    } else {
      assert |b| == |multiset(b)|;
    }
  }
}
