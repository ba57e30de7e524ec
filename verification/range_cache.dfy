/**
  The key under which the card caches the events of one visible range
  (`_monthCacheKey`): the date keys of the two grid bounds and the sorted,
  comma-joined ids of the enabled calendars, as
  `<start>_<end>|<id>,<id>,...`.
 */
module RangeCache {
  import opened DateMath
  import opened Decimal
  import opened Sorting
  import opened CalendarData

  /** The ids separated by commas. */
  function Join(ids: seq<string>): string {
    if |ids| == 0 then ""
    else if |ids| == 1 then ids[0]
    else ids[0] + "," + Join(ids[1..])
  }

  /** `_monthCacheKey(rangeStart, rangeEnd)` for the enabled ids in insertion order. */
  function MonthCacheKey(rangeStart: Time, rangeEnd: Time, enabled: seq<string>): string {
    ToDateOnlyKey(rangeStart) + "_" + ToDateOnlyKey(rangeEnd) + "|" + Join(SortStrings(enabled))
  }

  /** Each element of a duplicate-free sequence occurs in it exactly once. */
  lemma {:induction false} NoDuplicatesCount<T>(s: seq<T>)
    requires NoDuplicates(s)
    ensures forall x :: multiset(s)[x] == if x in s then 1 else 0
    decreases |s|
  {
    if |s| > 0 {
      assert s == [s[0]] + s[1..];
      forall j | 0 <= j < |s[1..]|
        ensures s[1..][j] != s[0]
      {
        assert s[1..][j] == s[j + 1];
      }
      NoDuplicatesCount(s[1..]);
    }
  }

  /** Two duplicate-free sequences with the same elements are permutations of each other. */
  lemma SameElementsPermutation<T>(a: seq<T>, b: seq<T>)
    requires NoDuplicates(a) && NoDuplicates(b)
    requires forall x :: x in a <==> x in b
    ensures multiset(a) == multiset(b)
  {
    NoDuplicatesCount(a);
    NoDuplicatesCount(b);
    assert forall x :: multiset(a)[x] == multiset(b)[x];
  }

  /** The key does not depend on the order of the enabled ids. */
  lemma CacheKeyPermutation(rangeStart: Time, rangeEnd: Time, a: seq<string>, b: seq<string>)
    requires multiset(a) == multiset(b)
    ensures MonthCacheKey(rangeStart, rangeEnd, a) == MonthCacheKey(rangeStart, rangeEnd, b)
  {
    StrSortedUnique(SortStrings(a), SortStrings(b));
  }

  /**
    The key is a function of the enabled *set*: any two insertion orders of
    the same ids (each listed once, as in a `Set`) give the same key.
   */
  lemma CacheKeyOfSet(rangeStart: Time, rangeEnd: Time, a: seq<string>, b: seq<string>)
    requires NoDuplicates(a) && NoDuplicates(b)
    requires forall x :: x in a <==> x in b
    ensures MonthCacheKey(rangeStart, rangeEnd, a) == MonthCacheKey(rangeStart, rangeEnd, b)
  {
    SameElementsPermutation(a, b);
    CacheKeyPermutation(rangeStart, rangeEnd, a, b);
  }

  /** A separator that occurs in neither prefix splits both strings at the same place. */
  lemma SplitAtSeparator(c: char, a: string, b: string, a': string, b': string)
    requires c !in a && c !in a'
    requires a + [c] + b == a' + [c] + b'
    ensures a == a' && b == b'
  {
    var s := a + [c] + b;
    assert s[|a|] == c && s[|a'|] == c;
    assert |a| == |a'|;
    assert a == s[..|a|] == a';
    assert b == s[|a| + 1..] == b';
  }

  /** Date keys hold only digits and dashes, so neither separator of the cache key. */
  lemma DateKeySeparators(t: Time)
    ensures '_' !in ToDateOnlyKey(t) && '|' !in ToDateOnlyKey(t)
  {
    var k := ToDateOnlyKey(t);
    forall i | 0 <= i < |k|
      ensures k[i] != '_' && k[i] != '|'
    {
      assert k[i] == '-' || IsDigit(k[i]);
    }
  }

  lemma Regroup(k: string, l: string, j: string)
    ensures k + "_" + l + "|" + j == k + ['_'] + (l + "|" + j)
    ensures l + "|" + j == l + ['|'] + j
  {
  }

  /** A key made of two separator-free bound keys and a tail splits back into its three parts. */
  lemma KeyParts(k1: string, l1: string, j1: string, k2: string, l2: string, j2: string)
    requires '_' !in k1 && '_' !in k2 && '|' !in l1 && '|' !in l2
    ensures k1 + "_" + l1 + "|" + j1 == k2 + "_" + l2 + "|" + j2 <==> k1 == k2 && l1 == l2 && j1 == j2
  {
    Regroup(k1, l1, j1);
    Regroup(k2, l2, j2);
    if k1 + "_" + l1 + "|" + j1 == k2 + "_" + l2 + "|" + j2 {
      SplitAtSeparator('_', k1, l1 + "|" + j1, k2, l2 + "|" + j2);
      assert l1 + ['|'] + j1 == l2 + ['|'] + j2;
      SplitAtSeparator('|', l1, j1, l2, j2);
    }
  }

  /**
    Two cache keys are equal exactly when both bounds fall on the same local
    days and the joined sorted ids agree; in particular, ranges whose bounds
    differ by a day or more never share a key.
   */
  lemma CacheKeyEquality(s1: Time, e1: Time, a1: seq<string>, s2: Time, e2: Time, a2: seq<string>)
    ensures MonthCacheKey(s1, e1, a1) == MonthCacheKey(s2, e2, a2)
      <==> DayOf(s1) == DayOf(s2) && DayOf(e1) == DayOf(e2) && Join(SortStrings(a1)) == Join(SortStrings(a2))
  {
    DateKeyInjective(s1, s2);
    DateKeyInjective(e1, e2);
    DateKeySeparators(s1);
    DateKeySeparators(s2);
    DateKeySeparators(e1);
    DateKeySeparators(e2);
    KeyParts(ToDateOnlyKey(s1), ToDateOnlyKey(e1), Join(SortStrings(a1)),
      ToDateOnlyKey(s2), ToDateOnlyKey(e2), Join(SortStrings(a2)));
  }
}
