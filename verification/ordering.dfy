/**
 * Sorting by a key. Every sort order in the listings (a string, a date, an
 * optional date, a pair of strings) is expressed as a key of integers
 * compared lexicographically, which gives one total order to reason about.
 * The sort is a stable insertion sort, as Rust's `sort_by` is stable.
 */
module Ordering {
  import opened Collections

  /** Lexicographic comparison, in the manner of Rust's `Ord::cmp`: -1, 0 or 1. */
  function LexCmp(a: seq<int>, b: seq<int>): (c: int)
    ensures -1 <= c <= 1
  {
    if |a| == 0 && |b| == 0 then 0
    else if |a| == 0 then -1
    else if |b| == 0 then 1
    else if a[0] < b[0] then -1
    else if a[0] > b[0] then 1
    else LexCmp(a[1..], b[1..])
  }

  lemma {:induction false} LexAntisymmetric(a: seq<int>, b: seq<int>)
    ensures LexCmp(a, b) == -LexCmp(b, a)
  {
    if |a| > 0 && |b| > 0 && a[0] == b[0] {
      LexAntisymmetric(a[1..], b[1..]);
    }
  }

  lemma {:induction false} LexZeroIffEqual(a: seq<int>, b: seq<int>)
    ensures LexCmp(a, b) == 0 <==> a == b
  {
    if |a| > 0 && |b| > 0 && a[0] == b[0] {
      LexZeroIffEqual(a[1..], b[1..]);
      if a[1..] == b[1..] {
        assert a == [a[0]] + a[1..] && b == [b[0]] + b[1..];
      }
    }
  }

  lemma {:induction false} LexTransitive(a: seq<int>, b: seq<int>, c: seq<int>)
    requires LexCmp(a, b) <= 0 && LexCmp(b, c) <= 0
    ensures LexCmp(a, c) <= 0
  {
    if |a| > 0 && |b| > 0 && |c| > 0 && a[0] == b[0] && b[0] == c[0] {
      LexTransitive(a[1..], b[1..], c[1..]);
    }
  }

  /** Characters as integers (their code points), for keys. */
  function Codes(s: string): (r: seq<int>)
    ensures |r| == |s| && forall i :: 0 <= i < |s| ==> r[i] == s[i] as int && r[i] >= 0
  {
    if |s| == 0 then [] else [s[0] as int] + Codes(s[1..])
  }

  /** `a` may come before `b`: ascending by key, or descending when `desc`. */
  predicate InOrder<T>(key: T -> seq<int>, desc: bool, a: T, b: T) {
    if desc then LexCmp(key(b), key(a)) <= 0 else LexCmp(key(a), key(b)) <= 0
  }

  lemma InOrderTotal<T>(key: T -> seq<int>, desc: bool, a: T, b: T)
    ensures InOrder(key, desc, a, b) || InOrder(key, desc, b, a)
  {
    LexAntisymmetric(key(a), key(b));
  }

  lemma InOrderTransitive<T>(key: T -> seq<int>, desc: bool, a: T, b: T, c: T)
    requires InOrder(key, desc, a, b) && InOrder(key, desc, b, c)
    ensures InOrder(key, desc, a, c)
  {
    if desc {
      LexTransitive(key(c), key(b), key(a));
    } else {
      LexTransitive(key(a), key(b), key(c));
    }
  }

  /** Each element may come before its successor. */
  predicate Sorted<T>(s: seq<T>, key: T -> seq<int>, desc: bool) {
    forall i {:trigger InOrder(key, desc, s[i], s[i + 1])} :: 0 <= i < |s| - 1 ==> InOrder(key, desc, s[i], s[i + 1])
  }

  /**
   * Insert `x` before the first element it may precede; elements that tie
   * with `x` stay in front of it only if they already were.
   */
  function Insert<T>(x: T, s: seq<T>, key: T -> seq<int>, desc: bool): (r: seq<T>)
    ensures |r| == |s| + 1
    ensures multiset(r) == multiset(s) + multiset{x}
    ensures |s| > 0 ==> r[0] == x || r[0] == s[0]
  {
    if |s| == 0 then [x]
    else if InOrder(key, desc, x, s[0]) then [x] + s
    else
      assert s == [s[0]] + s[1..];
      [s[0]] + Insert(x, s[1..], key, desc)
  }

  /** One adjacent pair of a sorted sequence. */
  lemma SortedAt<T>(s: seq<T>, key: T -> seq<int>, desc: bool, i: int)
    requires Sorted(s, key, desc) && 0 <= i < |s| - 1
    ensures InOrder(key, desc, s[i], s[i + 1])
  {
  }

  /** The tail of a sorted sequence is sorted. */
  lemma SortedTail<T>(s: seq<T>, key: T -> seq<int>, desc: bool)
    requires Sorted(s, key, desc) && |s| > 0
    ensures Sorted(s[1..], key, desc)
  {
    var t := s[1..];
    forall i | 0 <= i < |t| - 1
      ensures InOrder(key, desc, t[i], t[i + 1])
    {
      SortedAt(s, key, desc, i + 1);
      assert t[i] == s[i + 1] && t[i + 1] == s[i + 2];
    }
  }

  /** Putting an element in front of a sorted sequence it may precede keeps it sorted. */
  lemma SortedCons<T>(x: T, s: seq<T>, key: T -> seq<int>, desc: bool)
    requires Sorted(s, key, desc) && (|s| > 0 ==> InOrder(key, desc, x, s[0]))
    ensures Sorted([x] + s, key, desc)
  {
    var r := [x] + s;
    forall i | 0 <= i < |r| - 1
      ensures InOrder(key, desc, r[i], r[i + 1])
    {
      if i > 0 {
        SortedAt(s, key, desc, i - 1);
        assert r[i] == s[i - 1] && r[i + 1] == s[i];
      }
    }
  }

  /** Inserting into a sorted sequence keeps it sorted. */
  lemma {:induction false} InsertSorted<T>(x: T, s: seq<T>, key: T -> seq<int>, desc: bool)
    requires Sorted(s, key, desc)
    ensures Sorted(Insert(x, s, key, desc), key, desc)
  {
    if |s| == 0 {
      SortedCons(x, s, key, desc);
    } else if InOrder(key, desc, x, s[0]) {
      SortedCons(x, s, key, desc);
    } else {
      SortedTail(s, key, desc);
      var rest := Insert(x, s[1..], key, desc);
      InsertSorted(x, s[1..], key, desc);
      InOrderTotal(key, desc, x, s[0]);
      if rest[0] != x {
        SortedAt(s, key, desc, 0);
      }
      SortedCons(s[0], rest, key, desc);
    }
  }

  /** Insertion sort: a sorted permutation of the input. */
  function SortBy<T>(s: seq<T>, key: T -> seq<int>, desc: bool): (r: seq<T>)
    ensures multiset(r) == multiset(s)
    ensures |r| == |s|
    ensures Sorted(r, key, desc)
  {
    if |s| == 0 then []
    else
      assert s == [s[0]] + s[1..];
      InsertSorted(s[0], SortBy(s[1..], key, desc), key, desc);
      Insert(s[0], SortBy(s[1..], key, desc), key, desc)
  }

  // ---------------------------------------------------------------------------
  // Stability
  // ---------------------------------------------------------------------------

  /** The elements whose key is `k`. */
  function KeyIs<T>(key: T -> seq<int>, k: seq<int>): T -> bool {
    (x: T) => key(x) == k
  }

  /** Elements with equal keys may precede each other in either direction. */
  lemma EqualKeysInOrder<T>(key: T -> seq<int>, desc: bool, a: T, b: T)
    requires key(a) == key(b)
    ensures InOrder(key, desc, a, b)
  {
    LexZeroIffEqual(key(a), key(b));
    LexZeroIffEqual(key(b), key(a));
  }

  /** An inserted element goes in front of every element that ties with it. */
  lemma {:induction false} InsertBeforeTies<T(!new)>(x: T, s: seq<T>, key: T -> seq<int>, desc: bool)
    ensures Filter(Insert(x, s, key, desc), KeyIs(key, key(x))) == [x] + Filter(s, KeyIs(key, key(x)))
  {
    if |s| > 0 && !InOrder(key, desc, x, s[0]) {
      if key(s[0]) == key(x) {
        EqualKeysInOrder(key, desc, x, s[0]);
      }
      InsertBeforeTies(x, s[1..], key, desc);
    }
  }

  /** Inserting an element of another key does not move the elements of key `k`. */
  lemma {:induction false} InsertOtherKey<T(!new)>(x: T, s: seq<T>, key: T -> seq<int>, desc: bool, k: seq<int>)
    requires key(x) != k
    ensures Filter(Insert(x, s, key, desc), KeyIs(key, k)) == Filter(s, KeyIs(key, k))
  {
    if |s| > 0 && !InOrder(key, desc, x, s[0]) {
      InsertOtherKey(x, s[1..], key, desc, k);
    }
  }

  /**
   * `SortBy` is stable: for every key, the elements with that key appear
   * in the result in the order they had in the input.
   */
  lemma {:induction false} SortByStable<T(!new)>(s: seq<T>, key: T -> seq<int>, desc: bool, k: seq<int>)
    ensures Filter(SortBy(s, key, desc), KeyIs(key, k)) == Filter(s, KeyIs(key, k))
  {
    if |s| > 0 {
      SortByStable(s[1..], key, desc, k);
      if key(s[0]) == k {
        InsertBeforeTies(s[0], SortBy(s[1..], key, desc), key, desc);
      } else {
        InsertOtherKey(s[0], SortBy(s[1..], key, desc), key, desc, k);
      }
    }
  }

  // ---------------------------------------------------------------------------
  // Ranked prefixes
  // ---------------------------------------------------------------------------

  /**
   * `r` is a leading part of `s` in sort order: sorted, drawn from `s`, and
   * every element of `s` left out may follow every element kept.
   */
  ghost predicate Ranked<T>(s: seq<T>, r: seq<T>, key: T -> seq<int>, desc: bool) {
    && Sorted(r, key, desc)
    && multiset(r) <= multiset(s)
    && forall y, x :: y in r && x in multiset(s) - multiset(r) ==> InOrder(key, desc, y, x)
  }

  /** A window of a sorted sequence is sorted. */
  lemma WindowSorted<T(!new)>(t: seq<T>, offset: nat, count: nat, key: T -> seq<int>, desc: bool)
    requires Sorted(t, key, desc)
    ensures Sorted(Window(t, offset, count), key, desc)
  {
    var w := Window(t, offset, count);
    forall i | 0 <= i < |w| - 1
      ensures InOrder(key, desc, w[i], w[i + 1])
    {
      SortedAt(t, key, desc, offset + i);
    }
  }

  /** The first `count` elements of the sorted input rank ahead of all the others. */
  lemma SortedPrefixRanked<T(!new)>(s: seq<T>, count: nat, key: T -> seq<int>, desc: bool)
    ensures Ranked(s, Window(SortBy(s, key, desc), 0, count), key, desc)
  {
    var t := SortBy(s, key, desc);
    var r := Window(t, 0, count);
    var k := |r|;
    WindowSorted(t, 0, count, key, desc);
    assert r == t[..k];
    PrefixSplit(t, k);
    forall y, x | y in r && x in multiset(s) - multiset(r)
      ensures InOrder(key, desc, y, x)
    {
      var j :| k <= j < |t| && t[j] == x;
      var i :| 0 <= i < k && t[i] == y;
      SortedPairs(t, key, desc, i, j);
    }
  }

  /** What a prefix leaves out of a sequence lies after it. */
  lemma PrefixSplit<T>(t: seq<T>, k: nat)
    requires k <= |t|
    ensures multiset(t[..k]) <= multiset(t)
    ensures forall x :: x in multiset(t) - multiset(t[..k]) ==> exists j :: k <= j < |t| && t[j] == x
  {
    assert t == t[..k] + t[k..];
    forall x | x in multiset(t) - multiset(t[..k])
      ensures exists j :: k <= j < |t| && t[j] == x
    {
      assert x in multiset(t[k..]);
      assert x in t[k..];
      var j' :| 0 <= j' < |t| - k && t[k..][j'] == x;
      assert t[k + j'] == x;
    }
  }

  /**
   * `ORDER BY key LIMIT limit` over `s`: as many rows as a non-negative
   * limit below |s| asks for, otherwise all of them; sorted, drawn from `s`,
   * and ranked ahead of every row left out.
   */
  lemma SqlLimitRanked<T(!new)>(s: seq<T>, limit: int, key: T -> seq<int>, desc: bool)
    ensures var r := SqlLimit(SortBy(s, key, desc), limit);
            && |r| == (if 0 <= limit < |s| then limit else |s|)
            && (forall i :: 0 <= i < |r| ==> r[i] in s)
            && Ranked(s, r, key, desc)
  {
    var sorted := SortBy(s, key, desc);
    SortByMembers(s, key, desc);
    var r := SqlLimit(sorted, limit);
    assert forall i :: 0 <= i < |r| ==> r[i] in sorted;
    var count: nat := if limit < 0 then |sorted| else limit;
    assert r == Window(sorted, 0, count);
    SortedPrefixRanked(s, count, key, desc);
  }

  /** Inserting an element adds its value to the sum. */
  lemma {:induction false} InsertSum<T>(x: T, s: seq<T>, key: T -> seq<int>, desc: bool, f: T -> int)
    ensures SumBy(Insert(x, s, key, desc), f) == f(x) + SumBy(s, f)
  {
    if |s| > 0 {
      if InOrder(key, desc, x, s[0]) {
        assert ([x] + s)[1..] == s;
      } else {
        InsertSum(x, s[1..], key, desc, f);
        var rest := Insert(x, s[1..], key, desc);
        assert ([s[0]] + rest)[1..] == rest;
      }
    }
  }

  /** Sorting does not change a sum. */
  lemma {:induction false} SortBySum<T>(s: seq<T>, key: T -> seq<int>, desc: bool, f: T -> int)
    ensures SumBy(SortBy(s, key, desc), f) == SumBy(s, f)
  {
    if |s| > 0 {
      SortBySum(s[1..], key, desc, f);
      InsertSum(s[0], SortBy(s[1..], key, desc), key, desc, f);
    }
  }

  /** Sorting does not change how many elements satisfy a predicate. */
  lemma SortByCount<T(!new)>(s: seq<T>, key: T -> seq<int>, desc: bool, p: T -> bool)
    ensures Count(SortBy(s, key, desc), p) == Count(s, p)
  {
    CountAsSum(SortBy(s, key, desc), p);
    CountAsSum(s, p);
    SortBySum(s, key, desc, Masked(p, (x: T) => 1));
  }

  /** A permutation holds the same elements. */
  lemma PermutationKeepsElements<T>(s: seq<T>, t: seq<T>, i: nat)
    requires multiset(t) == multiset(s) && i < |t|
    ensures t[i] in s
  {
    assert t[i] in multiset(t);
  }

  /** Every element of a window of a permutation of `s` is in `s`. */
  lemma WindowOfPermutation<T(!new)>(s: seq<T>, t: seq<T>, offset: nat, count: nat, k: nat)
    requires multiset(t) == multiset(s) && k < |Window(t, offset, count)|
    ensures Window(t, offset, count)[k] in s
  {
    PermutationKeepsElements(s, t, offset + k);
  }

  /** Sorting neither adds nor drops an element. */
  lemma SortByMembers<T>(s: seq<T>, key: T -> seq<int>, desc: bool)
    ensures forall x :: x in SortBy(s, key, desc) <==> x in s
  {
    var r := SortBy(s, key, desc);
    forall x
      ensures x in r <==> x in s
    {
      assert x in r <==> x in multiset(r);
      assert x in s <==> x in multiset(s);
    }
  }

  /** In a sorted sequence every element may come before every later one. */
  lemma {:induction false} SortedPairs<T>(s: seq<T>, key: T -> seq<int>, desc: bool, i: int, j: int)
    requires Sorted(s, key, desc) && 0 <= i < j < |s|
    ensures InOrder(key, desc, s[i], s[j])
    decreases j - i
  {
    if j > i + 1 {
      SortedPairs(s, key, desc, i + 1, j);
      InOrderTransitive(key, desc, s[i], s[i + 1], s[j]);
    }
  }
}
