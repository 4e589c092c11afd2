/**
 * Sequence helpers shared by the stores: filtering (a SQL `WHERE` or an
 * iterator `filter`), counting, and the page arithmetic of the listings.
 */
module Collections {
  import opened Wrappers

  /** The elements of `s` that satisfy `p`, in their original order. */
  function Filter<T(!new)>(s: seq<T>, p: T -> bool): (r: seq<T>)
    ensures |r| <= |s|
    ensures forall x :: x in r <==> x in s && p(x)
    ensures forall i :: 0 <= i < |r| ==> p(r[i])
  {
    if |s| == 0 then []
    else if p(s[0]) then [s[0]] + Filter(s[1..], p)
    else Filter(s[1..], p)
  }

  /** Filtering twice by the same predicate is the same as filtering once. */
  lemma {:induction false} FilterIdempotent<T(!new)>(s: seq<T>, p: T -> bool)
    ensures Filter(Filter(s, p), p) == Filter(s, p)
  {
    if |s| > 0 {
      FilterIdempotent(s[1..], p);
      if p(s[0]) {
        assert ([s[0]] + Filter(s[1..], p))[1..] == Filter(s[1..], p);
      }
    }
  }

  /** When every element satisfies `p`, nothing is removed. */
  lemma {:induction false} FilterAll<T(!new)>(s: seq<T>, p: T -> bool)
    requires forall i :: 0 <= i < |s| ==> p(s[i])
    ensures Filter(s, p) == s
  {
    if |s| > 0 {
      FilterAll(s[1..], p);
      assert [s[0]] + s[1..] == s;
    }
  }

  /** Filtering distributes over concatenation. */
  lemma {:induction false} FilterConcat<T(!new)>(a: seq<T>, b: seq<T>, p: T -> bool)
    ensures Filter(a + b, p) == Filter(a, p) + Filter(b, p)
  {
    if |a| == 0 {
      assert a + b == b;
    } else {
      FilterConcat(a[1..], b, p);
      FilterConcatStep(a, b, p);
    }
  }

  /** The inductive step of `FilterConcat`: from the tail of `a` to all of `a`. */
  lemma FilterConcatStep<T(!new)>(a: seq<T>, b: seq<T>, p: T -> bool)
    requires |a| > 0 && Filter(a[1..] + b, p) == Filter(a[1..], p) + Filter(b, p)
    ensures Filter(a + b, p) == Filter(a, p) + Filter(b, p)
  {
    var head := if p(a[0]) then [a[0]] else [];
    ConcatTail(a, b);
    FilterCons(a + b, p);
    FilterCons(a, p);
    SeqAssoc(head, Filter(a[1..], p), Filter(b, p));
  }

  /** `a + b` starts with `a[0]` and continues with `a[1..] + b`. */
  lemma ConcatTail<T>(a: seq<T>, b: seq<T>)
    requires |a| > 0
    ensures (a + b)[0] == a[0] && (a + b)[1..] == a[1..] + b
  {
  }

  /** One step of `Filter`: the head if it passes, then the filtered tail. */
  lemma FilterCons<T(!new)>(s: seq<T>, p: T -> bool)
    requires |s| > 0
    ensures Filter(s, p) == (if p(s[0]) then [s[0]] else []) + Filter(s[1..], p)
  {
    if !p(s[0]) {
      assert [] + Filter(s[1..], p) == Filter(s[1..], p);
    }
  }

  lemma SeqAssoc<T>(x: seq<T>, y: seq<T>, z: seq<T>)
    ensures x + (y + z) == (x + y) + z
  {
  }

  /** The number of elements of `s` that satisfy `p`. */
  function Count<T(!new)>(s: seq<T>, p: T -> bool): (n: nat)
    ensures n <= |s|
    ensures n == 0 <==> forall i :: 0 <= i < |s| ==> !p(s[i])
  {
    if |s| == 0 then 0
    else (if p(s[0]) then 1 else 0) + Count(s[1..], p)
  }

  /** Counting distributes over concatenation. */
  lemma {:induction false} CountConcat<T(!new)>(a: seq<T>, b: seq<T>, p: T -> bool)
    ensures Count(a + b, p) == Count(a, p) + Count(b, p)
  {
    if |a| == 0 {
      assert a + b == b;
    } else {
      CountConcat(a[1..], b, p);
      assert (a + b)[1..] == a[1..] + b;
    }
  }

  /** Extending a prefix by one element adds that element's count. */
  lemma CountPrefix<T(!new)>(s: seq<T>, k: nat, p: T -> bool)
    requires k < |s|
    ensures Count(s[..k + 1], p) == Count(s[..k], p) + (if p(s[k]) then 1 else 0)
  {
    assert s[..k + 1] == s[..k] + [s[k]];
    CountConcat(s[..k], [s[k]], p);
  }

  /** Counting with a predicate that implies the filter's gives the same count before and after filtering. */
  lemma {:induction false} CountWithinFilter<T(!new)>(s: seq<T>, q: T -> bool, p: T -> bool)
    requires forall x :: p(x) ==> q(x)
    ensures Count(Filter(s, q), p) == Count(s, p)
  {
    if |s| > 0 {
      CountWithinFilter(s[1..], q, p);
      if q(s[0]) {
        assert ([s[0]] + Filter(s[1..], q))[1..] == Filter(s[1..], q);
      }
    }
  }

  /** A count is the sum of a one-or-zero indicator. */
  lemma {:induction false} CountAsSum<T(!new)>(s: seq<T>, p: T -> bool)
    ensures Count(s, p) == SumBy(s, Masked(p, (x: T) => 1))
  {
    if |s| > 0 {
      CountAsSum(s[1..], p);
    }
  }

  /** Filtering keeps exactly as many elements as satisfy the predicate. */
  lemma {:induction false} FilterCount<T(!new)>(s: seq<T>, p: T -> bool)
    ensures |Filter(s, p)| == Count(s, p)
  {
    if |s| > 0 {
      FilterCount(s[1..], p);
    }
  }

  /** Elements satisfying a predicate and those satisfying its negation account for the whole sequence. */
  lemma {:induction false} CountComplement<T(!new)>(s: seq<T>, p: T -> bool, q: T -> bool)
    requires forall x :: q(x) <==> !p(x)
    ensures Count(s, p) + Count(s, q) == |s|
  {
    if |s| > 0 {
      CountComplement(s[1..], p, q);
    }
  }

  /** Filters by predicates that agree everywhere keep the same elements. */
  lemma {:induction false} FilterCongruent<T(!new)>(s: seq<T>, p: T -> bool, q: T -> bool)
    requires forall x :: p(x) == q(x)
    ensures Filter(s, p) == Filter(s, q)
  {
    if |s| > 0 {
      FilterCongruent(s[1..], p, q);
    }
  }

  /**
   * When `p` holds exactly where one of two exclusive predicates holds,
   * filtering by `p` keeps as many elements as the two filters together.
   */
  lemma {:induction false} FilterPartition<T(!new)>(s: seq<T>, p: T -> bool, q: T -> bool, r: T -> bool)
    requires forall x :: p(x) <==> q(x) || r(x)
    requires forall x :: !(q(x) && r(x))
    ensures |Filter(s, q)| + |Filter(s, r)| == |Filter(s, p)|
  {
    if |s| > 0 {
      FilterPartition(s[1..], p, q, r);
    }
  }

  /** `iter().map(f).sum()`. */
  function SumBy<T>(s: seq<T>, f: T -> int): int {
    if |s| == 0 then 0 else f(s[0]) + SumBy(s[1..], f)
  }

  /** `f` where `p` holds and zero elsewhere: summing it is summing over the filtered elements. */
  function Masked<T>(p: T -> bool, f: T -> int): T -> int {
    (x: T) => if p(x) then f(x) else 0
  }

  lemma {:induction false} SumByConcat<T>(a: seq<T>, b: seq<T>, f: T -> int)
    ensures SumBy(a + b, f) == SumBy(a, f) + SumBy(b, f)
  {
    if |a| == 0 {
      assert a + b == b;
    } else {
      SumByConcat(a[1..], b, f);
      assert (a + b)[1..] == a[1..] + b;
    }
  }

  /** Summing over the filtered elements is summing the masked values over all of them. */
  lemma {:induction false} FilterSum<T(!new)>(s: seq<T>, p: T -> bool, f: T -> int)
    ensures SumBy(Filter(s, p), f) == SumBy(s, Masked(p, f))
  {
    if |s| > 0 {
      FilterSum(s[1..], p, f);
      if p(s[0]) {
        assert ([s[0]] + Filter(s[1..], p))[1..] == Filter(s[1..], p);
      }
    }
  }

  /** Sums of pointwise equal functions are equal. */
  lemma {:induction false} SumByCongruent<T>(s: seq<T>, f: T -> int, g: T -> int)
    requires forall i :: 0 <= i < |s| ==> f(s[i]) == g(s[i])
    ensures SumBy(s, f) == SumBy(s, g)
  {
    if |s| > 0 {
      SumByCongruent(s[1..], f, g);
    }
  }

  /** The first element satisfying `p`, as a `fetch_optional` or `find` returns it. */
  function FindFirst<T(!new)>(s: seq<T>, p: T -> bool): (r: Option<T>)
    ensures r.Some? ==> r.value in s && p(r.value)
    ensures r.None? <==> forall i :: 0 <= i < |s| ==> !p(s[i])
  {
    if |s| == 0 then None
    else if p(s[0]) then Some(s[0])
    else FindFirst(s[1..], p)
  }

  /** Appending after elements that all fail `p` does not change what is found first. */
  lemma {:induction false} FindFirstAppend<T(!new)>(s: seq<T>, x: T, p: T -> bool)
    requires forall i :: 0 <= i < |s| ==> !p(s[i])
    ensures FindFirst(s + [x], p) == FindFirst([x], p)
  {
    if |s| > 0 {
      FindFirstAppend(s[1..], x, p);
      assert (s + [x])[1..] == s[1..] + [x];
    }
  }

  /** An SQL `UPDATE … WHERE`: `f` applied to the elements satisfying `p`, the rest kept. */
  function MapWhere<T(!new)>(s: seq<T>, p: T -> bool, f: T -> T): (r: seq<T>)
    ensures |r| == |s|
    ensures forall i :: 0 <= i < |s| ==> r[i] == if p(s[i]) then f(s[i]) else s[i]
  {
    if |s| == 0 then []
    else [if p(s[0]) then f(s[0]) else s[0]] + MapWhere(s[1..], p, f)
  }

  /** An update that keeps its matches matching finds, first, the updated form of the same element. */
  lemma {:induction false} FindFirstMapWhere<T(!new)>(s: seq<T>, p: T -> bool, f: T -> T)
    requires forall x :: p(x) ==> p(f(x))
    ensures FindFirst(MapWhere(s, p, f), p)
            == if FindFirst(s, p).Some? then Some(f(FindFirst(s, p).value)) else None
  {
    if |s| > 0 {
      var r := MapWhere(s, p, f);
      assert r[1..] == MapWhere(s[1..], p, f);
      FindFirstMapWhere(s[1..], p, f);
    }
  }

  /** An update that matches no element changes nothing. */
  lemma MapWhereNone<T(!new)>(s: seq<T>, p: T -> bool, f: T -> T)
    requires forall i :: 0 <= i < |s| ==> !p(s[i])
    ensures MapWhere(s, p, f) == s
  {
    assert forall i :: 0 <= i < |s| ==> MapWhere(s, p, f)[i] == s[i];
  }

  /**
   * An update that matches exactly the element at `k` changes a count by
   * what it does to that one element.
   */
  lemma {:induction false} CountMapWhereOne<T(!new)>(s: seq<T>, p: T -> bool, f: T -> T, q: T -> bool, k: int)
    requires 0 <= k < |s| && p(s[k])
    requires forall i :: 0 <= i < |s| && i != k ==> !p(s[i])
    ensures Count(MapWhere(s, p, f), q)
            == Count(s, q) - (if q(s[k]) then 1 else 0) + (if q(f(s[k])) then 1 else 0)
  {
    var r := MapWhere(s, p, f);
    assert r[1..] == MapWhere(s[1..], p, f);
    if k == 0 {
      MapWhereNone(s[1..], p, f);
    } else {
      CountMapWhereOne(s[1..], p, f, q, k - 1);
    }
  }

  // ---------------------------------------------------------------------------
  // Pages
  // ---------------------------------------------------------------------------

  /** `max(1, requested or 1)`. */
  function PageNumber(requested: int): (page: int)
    ensures page >= 1
    ensures requested >= 1 ==> page == requested
    ensures requested < 1 ==> page == 1
  {
    if requested < 1 then 1 else requested
  }

  /** `(total + per_page - 1) / per_page`: the ceiling of the quotient. */
  function TotalPages(total: nat, perPage: nat): (pages: nat)
    requires perPage > 0
    ensures (pages - 1) * perPage < total <= pages * perPage || (total == 0 && pages == 0)
  {
    (total + perPage - 1) / perPage
  }

  /**
   * `iter().skip(offset).take(count)`: the window of `s` starting at
   * `offset`, empty when the offset is past the end.
   */
  function Window<T(!new)>(s: seq<T>, offset: nat, count: nat): (r: seq<T>)
    ensures |r| <= count
    ensures offset <= |s| ==> |r| == if offset + count <= |s| then count else |s| - offset
    ensures forall i :: 0 <= i < |r| ==> offset + i < |s| && r[i] == s[offset + i]
  {
    if offset >= |s| then []
    else if offset + count <= |s| then s[offset..offset + count]
    else s[offset..]
  }

  /** Consecutive windows join into the window that spans both. */
  lemma WindowsJoin<T(!new)>(s: seq<T>, offset: nat, a: nat, b: nat)
    ensures Window(s, offset, a) + Window(s, offset + a, b) == Window(s, offset, a + b)
  {
    var w1, w2, w := Window(s, offset, a), Window(s, offset + a, b), Window(s, offset, a + b);
    assert |w1| + |w2| == |w|;
    forall i | 0 <= i < |w|
      ensures (w1 + w2)[i] == w[i]
    {
      if i >= |w1| {
        assert w2[i - |w1|] == s[offset + a + (i - |w1|)];
      }
    }
  }

  /** A window holds some of the elements of the sequence, each at most as often. */
  lemma WindowSubMultiset<T(!new)>(s: seq<T>, offset: nat, count: nat)
    ensures multiset(Window(s, offset, count)) <= multiset(s)
  {
    if offset < |s| {
      var end := if offset + count <= |s| then offset + count else |s|;
      assert s == s[..offset] + s[offset..end] + s[end..];
      assert Window(s, offset, count) == s[offset..end];
    }
  }

  /** `s.iter().take(limit)` / SQL `LIMIT`. */
  function Take<T(!new)>(s: seq<T>, limit: nat): (r: seq<T>)
    ensures |r| == if limit < |s| then limit else |s|
    ensures forall i :: 0 <= i < |r| ==> r[i] == s[i]
  {
    if limit < |s| then s[..limit] else s
  }

  /** SQLite's `LIMIT n`: the first n rows; a negative limit means no limit at all. */
  function SqlLimit<T(!new)>(s: seq<T>, limit: int): (r: seq<T>)
    ensures limit < 0 ==> r == s
    ensures limit >= 0 ==> |r| == if limit < |s| then limit else |s|
    ensures forall i :: 0 <= i < |r| ==> r[i] == s[i]
  {
    if limit < 0 then s else Take(s, limit)
  }
}
