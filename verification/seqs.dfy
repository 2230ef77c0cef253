/** `Array.prototype.filter` over immutable sequences, and the facts about it
    that the feed pipeline relies on. */
module Seqs {

  /** The elements of `s` satisfying `p`, in their original order. */
  function Filter<T>(p: T -> bool, s: seq<T>): (r: seq<T>)
    ensures |r| <= |s|
    ensures forall i :: 0 <= i < |r| ==> p(r[i])
  {
    if |s| == 0 then []
    else
      assert s == [s[0]] + s[1..];
      if p(s[0]) then [s[0]] + Filter(p, s[1..])
      else Filter(p, s[1..])
  }

  /** Filtering keeps exactly the occurrences that satisfy the predicate. */
  lemma {:induction false} FilterCount<T>(p: T -> bool, s: seq<T>, x: T)
    ensures multiset(Filter(p, s))[x] == if p(x) then multiset(s)[x] else 0
  {
    if |s| > 0 {
      FilterCount(p, s[1..], x);
      assert s == [s[0]] + s[1..];
    }
  }

  /** An element is kept exactly when it occurs and satisfies the predicate. */
  lemma {:induction false} FilterMember<T>(p: T -> bool, s: seq<T>, x: T)
    ensures x in Filter(p, s) <==> x in s && p(x)
  {
    FilterCount(p, s, x);
  }

  /** One step of the filter, from the front. */
  lemma FilterCons<T>(p: T -> bool, a: T, t: seq<T>)
    ensures Filter(p, [a] + t) == (if p(a) then [a] else []) + Filter(p, t)
  {
    assert ([a] + t)[1..] == t;
  }

  /** Filtering distributes over concatenation. */
  lemma {:induction false} FilterAppend<T>(p: T -> bool, a: seq<T>, b: seq<T>)
    ensures Filter(p, a + b) == Filter(p, a) + Filter(p, b)
  {
    if |a| > 0 {
      assert (a + b)[1..] == a[1..] + b;
      FilterAppend(p, a[1..], b);
    } else {
      assert a + b == b;
    }
  }

  /** Two filters in a row are one filter by the conjunction. */
  lemma {:induction false} FilterFilter<T>(p: T -> bool, q: T -> bool, pq: T -> bool, s: seq<T>)
    requires forall x :: pq(x) == (p(x) && q(x))
    ensures Filter(q, Filter(p, s)) == Filter(pq, s)
  {
    if |s| > 0 {
      FilterFilter(p, q, pq, s[1..]);
    }
  }

  /** A filter whose predicate holds everywhere on `s` changes nothing. */
  lemma {:induction false} FilterAll<T>(p: T -> bool, s: seq<T>)
    requires forall i :: 0 <= i < |s| ==> p(s[i])
    ensures Filter(p, s) == s
  {
    if |s| > 0 {
      FilterAll(p, s[1..]);
      assert s == [s[0]] + s[1..];
    }
  }

  /** Filters by predicates that agree on `s` give the same result. */
  lemma {:induction false} FilterCongruent<T>(p: T -> bool, q: T -> bool, s: seq<T>)
    requires forall i :: 0 <= i < |s| ==> p(s[i]) == q(s[i])
    ensures Filter(p, s) == Filter(q, s)
  {
    if |s| > 0 {
      FilterCongruent(p, q, s[1..]);
    }
  }

  /** Filters commute. */
  lemma FilterCommute<T>(p: T -> bool, q: T -> bool, s: seq<T>)
    ensures Filter(q, Filter(p, s)) == Filter(p, Filter(q, s))
  {
    var pq := x => p(x) && q(x);
    FilterFilter(p, q, pq, s);
    FilterFilter(q, p, pq, s);
  }

  /** `FilterCount` for every element at once. */
  lemma FilterCountAll<T>(p: T -> bool, s: seq<T>)
    ensures forall x :: multiset(Filter(p, s))[x] == if p(x) then multiset(s)[x] else 0
  {
    forall x ensures multiset(Filter(p, s))[x] == if p(x) then multiset(s)[x] else 0 {
      FilterCount(p, s, x);
    }
  }

  /** A conditional filter stage, `if (active) list = list.filter(p)`, is a
      filter by `!active || p`. */
  lemma StageIsFilter<T>(active: bool, p: T -> bool, q: T -> bool, s: seq<T>)
    requires forall x :: q(x) == (!active || p(x))
    ensures (if active then Filter(p, s) else s) == Filter(q, s)
  {
    if active {
      FilterCongruent(p, q, s);
    } else {
      FilterAll(q, s);
    }
  }

  /** When the last element passes, it is the last element kept. */
  lemma FilterLast<T>(p: T -> bool, s: seq<T>)
    requires |s| > 0 && p(s[|s| - 1])
    ensures |Filter(p, s)| > 0 && Filter(p, s)[|Filter(p, s)| - 1] == s[|s| - 1]
  {
    assert s == s[..|s| - 1] + [s[|s| - 1]];
    FilterAppend(p, s[..|s| - 1], [s[|s| - 1]]);
    FilterCons(p, s[|s| - 1], []);
  }

  /** The first element kept is the first element that passes. */
  lemma {:induction false} FilterFirst<T>(p: T -> bool, s: seq<T>, i: nat)
    requires i < |s| && p(s[i])
    requires forall j :: 0 <= j < i ==> !p(s[j])
    ensures |Filter(p, s)| > 0 && Filter(p, s)[0] == s[i]
  {
    if i > 0 {
      FilterFirst(p, s[1..], i - 1);
    }
  }

  /** The first index whose element passes, given one that does. */
  function FirstWith<T>(p: T -> bool, s: seq<T>, c: nat): (i: nat)
    requires c < |s| && p(s[c])
    ensures i <= c && p(s[i])
    ensures forall j :: 0 <= j < i ==> !p(s[j])
  {
    if p(s[0]) then 0
    else
      assert p(s[1..][c - 1]);
      1 + FirstWith(p, s[1..], c - 1)
  }
}
