/** The stable sort that `Array.prototype.sort` performs when its comparator
    is the difference of two sort keys: elements are ordered by the rank their
    key gives them, and elements of equal rank keep their relative input order.

    The algorithm modelled is insertion sort. `StableSortIsUnique` shows that
    every sorted, stable rearrangement of the input is the same sequence, so
    the result does not depend on which stable algorithm an engine uses. */
module StableSort {
  import opened Seqs

  /** A sort key: a number, or positive infinity (`Infinity` in the source),
      which ranks after every number. */
  datatype Rank = At(v: real) | Infinite

  /** The comparator's "not after": `a - b <= 0`, with `Infinity - Infinity`
      (NaN) read as a tie, as the engine does. */
  predicate RankLe(a: Rank, b: Rank) {
    match (a, b)
    case (_, Infinite) => true
    case (Infinite, At(_)) => false
    case (At(x), At(y)) => x <= y
  }

  /** `RankLe` is a total order. */
  lemma RankLeTotalOrder(a: Rank, b: Rank, c: Rank)
    ensures RankLe(a, b) || RankLe(b, a)
    ensures RankLe(a, b) && RankLe(b, a) ==> a == b
    ensures RankLe(a, b) && RankLe(b, c) ==> RankLe(a, c)
  {
  }

  predicate Sorted<T>(key: T -> Rank, s: seq<T>) {
    forall i, j :: 0 <= i < j < |s| ==> RankLe(key(s[i]), key(s[j]))
  }

  function HasRank<T>(key: T -> Rank, k: Rank): T -> bool {
    y => key(y) == k
  }

  /** The elements of `s` of rank `k`, in their order in `s`. A sort is
      stable when every such class comes out as it went in. */
  function KeyClass<T>(key: T -> Rank, k: Rank, s: seq<T>): seq<T> {
    Filter(HasRank(key, k), s)
  }

  /** Inserts `x` in front of the first element it may precede. */
  function Insert<T>(key: T -> Rank, x: T, l: seq<T>): (r: seq<T>)
    ensures multiset(r) == multiset(l) + multiset{x}
    ensures |r| == |l| + 1
  {
    if |l| == 0 then [x]
    else if RankLe(key(x), key(l[0])) then [x] + l
    else
      assert l == [l[0]] + l[1..];
      [l[0]] + Insert(key, x, l[1..])
  }

  /** Every element `Insert` returns is `x` or an element of `l`. */
  lemma {:induction false} InsertElements<T>(key: T -> Rank, x: T, l: seq<T>)
    ensures forall i :: 0 <= i < |Insert(key, x, l)| ==> Insert(key, x, l)[i] == x || Insert(key, x, l)[i] in l
  {
    if |l| > 0 && !RankLe(key(x), key(l[0])) {
      InsertElements(key, x, l[1..]);
    }
  }

  /** Inserting into a sorted sequence keeps it sorted. */
  lemma {:induction false} InsertSorted<T>(key: T -> Rank, x: T, l: seq<T>)
    requires Sorted(key, l)
    ensures Sorted(key, Insert(key, x, l))
  {
    var r := Insert(key, x, l);
    if |l| == 0 {
    } else if RankLe(key(x), key(l[0])) {
      forall j | 0 <= j < |l| ensures RankLe(key(x), key(l[j])) {
        if j > 0 { assert RankLe(key(l[0]), key(l[j])); }
      }
      assert r == [x] + l;
      forall i, j | 0 <= i < j < |r| ensures RankLe(key(r[i]), key(r[j])) {
        if i == 0 { assert r[j] == l[j - 1]; } else { assert r[i] == l[i - 1] && r[j] == l[j - 1]; }
      }
    } else {
      var t := l[1..];
      var rt := Insert(key, x, t);
      InsertSorted(key, x, t);
      InsertElements(key, x, t);
      assert r == [l[0]] + rt;
      forall j | 0 <= j < |rt| ensures RankLe(key(l[0]), key(rt[j])) {
        if rt[j] != x {
          var m :| 0 <= m < |t| && t[m] == rt[j];
          assert l[m + 1] == rt[j];
        }
      }
      forall i, j | 0 <= i < j < |r| ensures RankLe(key(r[i]), key(r[j])) {
        if i == 0 { assert r[j] == rt[j - 1]; } else { assert r[i] == rt[i - 1] && r[j] == rt[j - 1]; }
      }
    }
  }

  /** Inserting `h` leaves every class as if `h` had been put in front:
      the elements `h` skips over rank strictly below it. */
  lemma {:induction false} InsertKeepsClasses<T>(key: T -> Rank, h: T, l: seq<T>, k: Rank)
    ensures KeyClass(key, k, Insert(key, h, l)) == KeyClass(key, k, [h] + l)
  {
    if |l| > 0 && !RankLe(key(h), key(l[0])) {
      var p := HasRank(key, k);
      var rest := Insert(key, h, l[1..]);
      InsertKeepsClasses(key, h, l[1..], k);
      assert Insert(key, h, l) == [l[0]] + rest;
      FilterCons(p, l[0], rest);
      FilterCons(p, h, l);
      assert l == [l[0]] + l[1..];
      FilterCons(p, l[0], l[1..]);
      FilterCons(p, h, l[1..]);
      assert key(h) != key(l[0]);
    }
  }

  /** Insertion sort: sorts the tail, then inserts the head. */
  function Sort<T>(key: T -> Rank, s: seq<T>): (r: seq<T>)
    ensures Sorted(key, r)
    ensures multiset(r) == multiset(s)
    ensures |r| == |s|
    ensures forall k :: KeyClass(key, k, r) == KeyClass(key, k, s)
  {
    if |s| == 0 then []
    else
      var t := Sort(key, s[1..]);
      SortStep(key, s, t);
      Insert(key, s[0], t)
  }

  /** The step of `Sort`: inserting the head into a sorted, stable
      arrangement of the tail gives a sorted, stable arrangement of `s`. */
  lemma SortStep<T>(key: T -> Rank, s: seq<T>, t: seq<T>)
    requires |s| > 0
    requires Sorted(key, t) && multiset(t) == multiset(s[1..]) && |t| == |s| - 1
    requires forall k :: KeyClass(key, k, t) == KeyClass(key, k, s[1..])
    ensures Sorted(key, Insert(key, s[0], t))
    ensures multiset(Insert(key, s[0], t)) == multiset(s)
    ensures |Insert(key, s[0], t)| == |s|
    ensures forall k :: KeyClass(key, k, Insert(key, s[0], t)) == KeyClass(key, k, s)
  {
    InsertSorted(key, s[0], t);
    SortStepKeepsClasses(key, s, t);
    assert s == [s[0]] + s[1..];
  }

  /** The step of `Sort`: if `t` has the classes of the tail of `s`, then
      inserting the head gives the classes of `s`. */
  lemma SortStepKeepsClasses<T>(key: T -> Rank, s: seq<T>, t: seq<T>)
    requires |s| > 0
    requires forall k :: KeyClass(key, k, t) == KeyClass(key, k, s[1..])
    ensures forall k :: KeyClass(key, k, Insert(key, s[0], t)) == KeyClass(key, k, s)
  {
    forall k ensures KeyClass(key, k, Insert(key, s[0], t)) == KeyClass(key, k, s) {
      InsertKeepsClasses(key, s[0], t, k);
      assert KeyClass(key, k, t) == KeyClass(key, k, s[1..]);
      FilterCons(HasRank(key, k), s[0], t);
      assert s == [s[0]] + s[1..];
      FilterCons(HasRank(key, k), s[0], s[1..]);
    }
  }

  /** Sequences with the same classes have the same elements. */
  lemma SameClassSameMember<T>(key: T -> Rank, x: T, s: seq<T>, t: seq<T>)
    requires x in s
    requires KeyClass(key, key(x), s) == KeyClass(key, key(x), t)
    ensures x in t
  {
    FilterMember(HasRank(key, key(x)), s, x);
    FilterMember(HasRank(key, key(x)), t, x);
  }

  /** Sortedness together with the classes fixes the sequence completely. */
  lemma {:induction false} SortedClassesDetermine<T>(key: T -> Rank, r1: seq<T>, r2: seq<T>)
    requires Sorted(key, r1) && Sorted(key, r2)
    requires forall k :: KeyClass(key, k, r1) == KeyClass(key, k, r2)
    ensures r1 == r2
    decreases |r1|
  {
    if |r1| == 0 {
      if |r2| > 0 {
        SameClassSameMember(key, r2[0], r2, r1);
        assert false;
      }
    } else if |r2| == 0 {
      SameClassSameMember(key, r1[0], r1, r2);
      assert false;
    } else {
      var a, b := r1[0], r2[0];
      assert r1 == [a] + r1[1..];
      assert r2 == [b] + r2[1..];
      assert a in r2 by {
        FilterMember(HasRank(key, key(a)), r1, a);
        FilterMember(HasRank(key, key(a)), r2, a);
        assert KeyClass(key, key(a), r1) == KeyClass(key, key(a), r2);
      }
      assert b in r1 by {
        FilterMember(HasRank(key, key(b)), r1, b);
        FilterMember(HasRank(key, key(b)), r2, b);
        assert KeyClass(key, key(b), r1) == KeyClass(key, key(b), r2);
      }
      assert RankLe(key(b), key(a)) by {
        var j :| 0 <= j < |r2| && r2[j] == a;
        if j > 0 { assert RankLe(key(r2[0]), key(r2[j])); }
      }
      assert RankLe(key(a), key(b)) by {
        var j :| 0 <= j < |r1| && r1[j] == b;
        if j > 0 { assert RankLe(key(r1[0]), key(r1[j])); }
      }
      RankLeTotalOrder(key(a), key(b), key(b));
      var pa := HasRank(key, key(a));
      FilterCons(pa, a, r1[1..]);
      FilterCons(pa, b, r2[1..]);
      assert key(a) == key(b);
      assert pa(a) && pa(b);
      assert KeyClass(key, key(a), r1) == [a] + Filter(pa, r1[1..]);
      assert KeyClass(key, key(a), r2) == [b] + Filter(pa, r2[1..]);
      assert KeyClass(key, key(a), r1) == KeyClass(key, key(a), r2);
      assert KeyClass(key, key(a), r1)[0] == a;
      assert KeyClass(key, key(a), r2)[0] == b;
      forall k
        ensures KeyClass(key, k, r1[1..]) == KeyClass(key, k, r2[1..])
      {
        assert KeyClass(key, k, r1) == KeyClass(key, k, r2);
        FilterCons(HasRank(key, k), a, r1[1..]);
        FilterCons(HasRank(key, k), a, r2[1..]);
        var x1, x2 := KeyClass(key, k, r1[1..]), KeyClass(key, k, r2[1..]);
        assert a == b;
        if HasRank(key, k)(a) {
          assert KeyClass(key, k, r1) == [a] + x1;
          assert KeyClass(key, k, r2) == [a] + x2;
          assert ([a] + x1)[1..] == x1;
          assert ([a] + x2)[1..] == x2;
        } else {
          assert KeyClass(key, k, r1) == x1;
          assert KeyClass(key, k, r2) == x2;
        }
      }
      SortedClassesDetermine(key, r1[1..], r2[1..]);
    }
  }

  /** Any sorted rearrangement of `s` that keeps every class in input order
      is exactly `Sort(key, s)`. */
  lemma StableSortIsUnique<T>(key: T -> Rank, s: seq<T>, r: seq<T>)
    requires Sorted(key, r)
    requires forall k :: KeyClass(key, k, r) == KeyClass(key, k, s)
    ensures r == Sort(key, s)
  {
    SortedClassesDetermine(key, r, Sort(key, s));
  }

  /** A subsequence of a sorted sequence is sorted. */
  lemma {:induction false} FilterKeepsSorted<T>(key: T -> Rank, p: T -> bool, s: seq<T>)
    requires Sorted(key, s)
    ensures Sorted(key, Filter(p, s))
  {
    if |s| > 0 {
      var t := Filter(p, s[1..]);
      FilterKeepsSorted(key, p, s[1..]);
      assert s == [s[0]] + s[1..];
      FilterCons(p, s[0], s[1..]);
      if p(s[0]) {
        var r := [s[0]] + t;
        forall j | 0 <= j < |t| ensures RankLe(key(s[0]), key(t[j])) {
          FilterMember(p, s[1..], t[j]);
          var m :| 0 <= m < |s[1..]| && s[1..][m] == t[j];
          assert s[m + 1] == t[j];
        }
        forall i, j | 0 <= i < j < |r| ensures RankLe(key(r[i]), key(r[j])) {
          if i == 0 { assert r[j] == t[j - 1]; } else { assert r[i] == t[i - 1] && r[j] == t[j - 1]; }
        }
      }
    }
  }

  /** Sorting then filtering is filtering then sorting. */
  lemma SortFilterCommute<T>(key: T -> Rank, p: T -> bool, s: seq<T>)
    ensures Filter(p, Sort(key, s)) == Sort(key, Filter(p, s))
  {
    var r := Filter(p, Sort(key, s));
    FilterKeepsSorted(key, p, Sort(key, s));
    forall k
      ensures KeyClass(key, k, r) == KeyClass(key, k, Filter(p, s))
    {
      FilterCommute(p, HasRank(key, k), Sort(key, s));
      FilterCommute(p, HasRank(key, k), s);
      assert KeyClass(key, k, Sort(key, s)) == KeyClass(key, k, s);
    }
    StableSortIsUnique(key, Filter(p, s), r);
  }

  /** Sorting a sorted sequence changes nothing; in particular a key that
      ranks everything equal leaves the input order as it is. */
  lemma SortOfSorted<T>(key: T -> Rank, s: seq<T>)
    requires Sorted(key, s)
    ensures Sort(key, s) == s
  {
    StableSortIsUnique(key, s, s);
  }

  /** An element placed last that no other element outranks stays last. */
  lemma SortKeepsMaxLast<T>(key: T -> Rank, s: seq<T>)
    requires |s| > 0
    requires forall i :: 0 <= i < |s| ==> RankLe(key(s[i]), key(s[|s| - 1]))
    ensures Sort(key, s)[|s| - 1] == s[|s| - 1]
  {
    var r := Sort(key, s);
    var x := s[|s| - 1];
    var p := HasRank(key, key(x));
    assert x in multiset(s);
    assert x in multiset(r);
    var c :| 0 <= c < |r| && r[c] == x;
    var y := r[|r| - 1];
    assert y in multiset(s);
    var j :| 0 <= j < |s| && s[j] == y;
    assert RankLe(key(s[j]), key(x));
    if c < |r| - 1 {
      assert Sorted(key, r);
      assert RankLe(key(r[c]), key(r[|r| - 1]));
    }
    RankLeTotalOrder(key(x), key(y), key(y));
    assert p(y);
    FilterLast(p, r);
    FilterLast(p, s);
    assert KeyClass(key, key(x), r) == KeyClass(key, key(x), s);
  }

  /** The first element of the input leads its rank in the output: whatever
      comes before it ranks strictly lower. */
  lemma SortKeepsHeadFirstInRank<T>(key: T -> Rank, s: seq<T>) returns (i: nat)
    requires |s| > 0
    ensures i < |Sort(key, s)| && Sort(key, s)[i] == s[0]
    ensures forall j :: 0 <= j < i ==> key(Sort(key, s)[j]) != key(s[0]) && RankLe(key(Sort(key, s)[j]), key(s[0]))
  {
    var r := Sort(key, s);
    var p := HasRank(key, key(s[0]));
    assert s[0] in multiset(r);
    var c :| 0 <= c < |r| && r[c] == s[0];
    i := FirstWith(p, r, c);
    FilterFirst(p, r, i);
    assert s == [s[0]] + s[1..];
    FilterCons(p, s[0], s[1..]);
    assert KeyClass(key, key(s[0]), r) == KeyClass(key, key(s[0]), s);
    BeforeFirstOfRank(key, r, i);
  }

  /** In a sorted sequence, what precedes the first element of a rank ranks
      strictly lower. */
  lemma BeforeFirstOfRank<T>(key: T -> Rank, r: seq<T>, i: nat)
    requires Sorted(key, r) && i < |r|
    requires forall j :: 0 <= j < i ==> !HasRank(key, key(r[i]))(r[j])
    ensures forall j :: 0 <= j < i ==> key(r[j]) != key(r[i]) && RankLe(key(r[j]), key(r[i]))
  {
    forall j | 0 <= j < i ensures key(r[j]) != key(r[i]) && RankLe(key(r[j]), key(r[i])) {
      assert !HasRank(key, key(r[i]))(r[j]);
      assert RankLe(key(r[j]), key(r[i]));
    }
  }
}
