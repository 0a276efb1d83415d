/**
 * intersect.c: the elements of one list that compare equal (comparator result 0)
 * to some element of another, found by a nested scan.
 */
module Intersection {

  import opened Options
  import opened Seqs

  /** The inner scan: some element of `b` compares equal to `a`. */
  function HasMatch<T>(a: T, b: seq<T>, cmp: (T, T) -> int): (found: bool)
    ensures found <==> exists j :: 0 <= j < |b| && cmp(a, b[j]) == 0
  {
    if b == [] then false
    else cmp(a, b[0]) == 0 || HasMatch(a, b[1..], cmp)
  }

  function MatchedIn<T>(b: seq<T>, cmp: (T, T) -> int): T -> bool {
    (a: T) => HasMatch(a, b, cmp)
  }

  /** What intersect returns: the elements of `a` (not of `b`) that match something
      in `b`, in the order of `a`, each occurrence in `a` kept once. */
  function Intersect<T>(a: seq<T>, b: seq<T>, cmp: (T, T) -> int): (r: seq<T>)
    ensures |r| <= |a|
    ensures forall x :: x in r ==> x in a && HasMatch(x, b, cmp)
    ensures forall x :: x in a && HasMatch(x, b, cmp) ==> x in r
  {
    Filter(a, MatchedIn(b, cmp))
  }

  /** Each element of `a` that matches keeps all its occurrences, in order; the
      others keep none. */
  lemma IntersectCounts<T>(a: seq<T>, b: seq<T>, cmp: (T, T) -> int)
    ensures forall x :: x in a ==>
      multiset(Intersect(a, b, cmp))[x] == if HasMatch(x, b, cmp) then multiset(a)[x] else 0
    ensures IsSubsequence(Intersect(a, b, cmp), a)
  {
    FilterCount(a, MatchedIn(b, cmp));
    FilterIsSubsequence(a, MatchedIn(b, cmp));
  }

  lemma IntersectWithEmpty<T>(a: seq<T>, cmp: (T, T) -> int)
    ensures Intersect(a, [], cmp) == []
  {
    FilterKeepsNone(a, MatchedIn([], cmp));
  }

  /** With a reflexive comparison, a list intersected with itself is itself. */
  lemma IntersectWithSelf<T>(a: seq<T>, cmp: (T, T) -> int)
    requires forall x :: x in a ==> cmp(x, x) == 0
    ensures Intersect(a, a, cmp) == a
  {
    forall x | x in a ensures MatchedIn(a, cmp)(x) {
      var j :| 0 <= j < |a| && a[j] == x;
      assert cmp(x, a[j]) == 0;
    }
    FilterKeepsAll(a, MatchedIn(a, cmp));
  }

  /** One step of the outer loop: the prefix result grows by `a[i]` exactly when it
      matched, and cannot exceed the whole result. */
  lemma AppendStep<T>(a: seq<T>, i: nat, b: seq<T>, cmp: (T, T) -> int, found: bool)
    requires i < |a| && found == HasMatch(a[i], b, cmp)
    ensures Intersect(a[..i + 1], b, cmp) == Intersect(a[..i], b, cmp) + (if found then [a[i]] else [])
    ensures |Intersect(a[..i + 1], b, cmp)| <= |Intersect(a, b, cmp)|
  {
    FilterStep(a, i, MatchedIn(b, cmp));
  }

  /** The inner loop of intersect: walk `b` until an element compares equal to `x`. */
  method ScanForMatch<T>(x: T, b: seq<T>, cmp: (T, T) -> int) returns (found: bool)
    ensures found == HasMatch(x, b, cmp)
  {
    var j := 0;
    while j < |b|
      invariant 0 <= j <= |b|
      invariant forall m :: 0 <= m < j ==> cmp(x, b[m]) != 0
    {
      if cmp(x, b[j]) == 0 {
        return true;
      }
      j := j + 1;
    }
    return false;
  }

  /** intersect as written: one malloc for the result list and one per appended
      element (`avail` is the number of mallocs that still succeed).  A NULL input
      yields an empty list; a failed append releases the partial result and
      yields NULL. */
  method IntersectLists<T>(listA: Option<seq<T>>, listB: Option<seq<T>>, cmp: (T, T) -> int, avail: nat)
    returns (r: Option<seq<T>>, left: nat)
    ensures listA.None? || listB.None? ==> (r.Some? <==> 1 <= avail) && (r.Some? ==> r.value == [])
    ensures listA.Some? && listB.Some? ==>
      (r.Some? <==> 1 + |Intersect(listA.value, listB.value, cmp)| <= avail)
    ensures listA.Some? && listB.Some? && r.Some? ==>
      r.value == Intersect(listA.value, listB.value, cmp) && left == avail - 1 - |r.value|
  {
    if avail == 0 {
      return None, avail;
    }
    left := avail - 1;
    if listA.None? || listB.None? {
      return Some([]), left;
    }
    r, left := IntersectLoop(listA.value, listB.value, cmp, left);
  }

  /** The outer loop of intersect, appending into a list that already exists,
      with `avail` mallocs left for the appends. */
  method IntersectLoop<T>(a: seq<T>, b: seq<T>, cmp: (T, T) -> int, avail: nat)
    returns (r: Option<seq<T>>, left: nat)
    ensures r.Some? <==> |Intersect(a, b, cmp)| <= avail
    ensures r.Some? ==> r.value == Intersect(a, b, cmp) && left == avail - |r.value|
  {
    var out: seq<T> := [];
    left := avail;
    var i := 0;
    while i < |a|
      invariant 0 <= i <= |a|
      invariant out == Intersect(a[..i], b, cmp)
      invariant left == avail - |out|
    {
      var found := ScanForMatch(a[i], b, cmp);
      AppendStep(a, i, b, cmp, found);
      if found {
        if left == 0 {
          return None, left;
        }
        out, left := out + [a[i]], left - 1;
      }
      i := i + 1;
    }
    assert a[..|a|] == a;
    return Some(out), left;
  }
}
