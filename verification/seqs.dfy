/** Sequence helpers: the order-preserving filter every query stage is built from. */
module Seqs {

  /** `r` can be obtained from `s` by deleting elements: same order, each element of `s` used at most once. */
  ghost predicate IsSubsequence<T>(r: seq<T>, s: seq<T>)
    decreases |s|
  {
    if r == [] then true
    else if s == [] then false
    else (r[0] == s[0] && IsSubsequence(r[1..], s[1..])) || IsSubsequence(r, s[1..])
  }

  /** The elements of `s` satisfying `p`, in the order of `s`. */
  function Filter<T>(s: seq<T>, p: T -> bool): (r: seq<T>)
    ensures |r| <= |s|
    ensures forall x :: x in r ==> x in s && p(x)
    ensures forall x :: x in s && p(x) ==> x in r
  {
    if s == [] then []
    else if p(s[0]) then [s[0]] + Filter(s[1..], p) else Filter(s[1..], p)
  }

  /** Each kept element occurs as often as in `s`; the others not at all. */
  lemma {:induction false} FilterCount<T>(s: seq<T>, p: T -> bool)
    ensures forall x :: x in s ==> multiset(Filter(s, p))[x] == if p(x) then multiset(s)[x] else 0
  {
    if s != [] {
      assert s == [s[0]] + s[1..];
      FilterCount(s[1..], p);
    }
  }

  /** Filtering keeps the order of `s` and uses each of its elements at most once. */
  lemma {:induction false} FilterIsSubsequence<T>(s: seq<T>, p: T -> bool)
    ensures IsSubsequence(Filter(s, p), s)
  {
    if s != [] {
      FilterIsSubsequence(s[1..], p);
    }
  }

  /** Sorted by a key under a three-way comparator (equal keys allowed). */
  ghost predicate SortedBy<T, K>(s: seq<T>, key: T -> K, cmp: (K, K) -> int) {
    forall i, j :: 0 <= i < j < |s| ==> cmp(key(s[i]), key(s[j])) <= 0
  }

  lemma {:induction false} FilterConcat<T>(a: seq<T>, b: seq<T>, p: T -> bool)
    ensures Filter(a + b, p) == Filter(a, p) + Filter(b, p)
  {
    if a == [] {
      assert a + b == b;
    } else {
      assert (a + b)[1..] == a[1..] + b;
      FilterConcat(a[1..], b, p);
    }
  }

  lemma FilterKeepsAll<T>(s: seq<T>, p: T -> bool)
    requires forall x :: x in s ==> p(x)
    ensures Filter(s, p) == s
  {
  }

  lemma FilterKeepsNone<T>(s: seq<T>, p: T -> bool)
    requires forall x :: x in s ==> !p(x)
    ensures Filter(s, p) == []
  {
  }

  lemma {:induction false} FilterCongruent<T>(s: seq<T>, p: T -> bool, q: T -> bool)
    requires forall x :: x in s ==> p(x) == q(x)
    ensures Filter(s, p) == Filter(s, q)
  {
    if s != [] {
      FilterCongruent(s[1..], p, q);
    }
  }

  /** Filtering twice is filtering once by the conjunction (given as `pq`). */
  lemma {:induction false} FilterFilter<T>(s: seq<T>, p: T -> bool, q: T -> bool, pq: T -> bool)
    requires forall x :: x in s ==> (p(x) && q(x)) == pq(x)
    ensures Filter(Filter(s, p), q) == Filter(s, pq)
  {
    if s != [] {
      FilterFilter(s[1..], p, q, pq);
    }
  }

  /** Filtering respects permutation: equal multisets stay equal. */
  lemma FilterSameMultiset<T>(a: seq<T>, b: seq<T>, p: T -> bool)
    requires multiset(a) == multiset(b)
    ensures multiset(Filter(a, p)) == multiset(Filter(b, p))
  {
    FilterCount(a, p);
    FilterCount(b, p);
    forall x
      ensures multiset(Filter(a, p))[x] == multiset(Filter(b, p))[x]
    {
      if x in a {
        assert x in multiset(b);
      } else {
        assert x !in multiset(b);
        assert x !in Filter(a, p) && x !in Filter(b, p);
      }
    }
  }

  lemma {:induction false} FilterSorted<T, K>(s: seq<T>, p: T -> bool, key: T -> K, cmp: (K, K) -> int)
    requires SortedBy(s, key, cmp)
    ensures SortedBy(Filter(s, p), key, cmp)
  {
    if s != [] {
      FilterSorted(s[1..], p, key, cmp);
      var rest := Filter(s[1..], p);
      if p(s[0]) {
        var r := [s[0]] + rest;
        forall i, j | 0 <= i < j < |r|
          ensures cmp(key(r[i]), key(r[j])) <= 0
        {
          if i == 0 {
            assert r[j] in s[1..];
            var k :| 0 <= k < |s[1..]| && s[1..][k] == r[j];
            assert s[k + 1] == r[j];
          } else {
            assert r[i] == rest[i - 1] && r[j] == rest[j - 1];
          }
        }
      }
    }
  }

  /** One step of a loop that filters `s` front to back: the prefix filtered so far
      grows by `s[i]` exactly when it is kept, and never outgrows the whole result. */
  lemma FilterStep<T>(s: seq<T>, i: nat, p: T -> bool)
    requires i < |s|
    ensures Filter(s[..i + 1], p) == Filter(s[..i], p) + (if p(s[i]) then [s[i]] else [])
    ensures |Filter(s[..i + 1], p)| <= |Filter(s, p)|
  {
    assert s[..i + 1] == s[..i] + [s[i]];
    FilterConcat(s[..i], [s[i]], p);
    assert s == s[..i + 1] + s[i + 1..];
    FilterConcat(s[..i + 1], s[i + 1..], p);
  }

  /** A stronger condition keeps a sub-multiset. */
  lemma FilterWeaker<T>(s: seq<T>, p: T -> bool, q: T -> bool)
    requires forall x :: x in s && p(x) ==> q(x)
    ensures multiset(Filter(s, p)) <= multiset(Filter(s, q))
  {
    FilterCount(s, p);
    FilterCount(s, q);
    forall x
      ensures multiset(Filter(s, p))[x] <= multiset(Filter(s, q))[x]
    {
      if x !in s {
        assert x !in Filter(s, p);
      }
    }
  }

  /** Sequences with the same multiset have the same length and the same members. */
  lemma SameMultiset<T>(a: seq<T>, b: seq<T>)
    requires multiset(a) == multiset(b)
    ensures |a| == |b|
    ensures forall x :: x in a <==> x in b
  {
    assert |multiset(a)| == |a| && |multiset(b)| == |b|;
    forall x
      ensures x in a <==> x in b
    {
      assert x in a <==> x in multiset(a);
      assert x in b <==> x in multiset(b);
    }
  }
}
