/**
 * C-style three-way comparators (`int (*)(const void*, const void*)`):
 * negative, zero or positive as the first argument is below, equal to or
 * above the second.  The tree is only meaningful for a comparator that is a
 * total preorder; misuse is a caller error, so it appears as a `requires`.
 */
module Order {

  /** Always true: a marker that names a triple of keys.  The transitivity law
      below uses it as its trigger, so the solver instantiates that law only for
      triples a proof mentions explicitly (by asserting `Chain(a, b, c)`), rather
      than for every pair of comparisons in sight. */
  ghost predicate Chain<K>(a: K, b: K, c: K) {
    true
  }

  /** The comparator laws the tree relies on: flipping the arguments flips the
      sign, and "at most" is transitive.  Reflexivity and the mixed strict/non-strict
      transitivity laws follow (see the lemmas below). */
  ghost predicate ValidComparator<K(!new)>(cmp: (K, K) -> int) {
    && (forall a, b :: cmp(a, b) < 0 <==> cmp(b, a) > 0)
    && (forall a, b, c {:trigger Chain(a, b, c)} :: Chain(a, b, c) ==> cmp(a, b) <= 0 && cmp(b, c) <= 0 ==> cmp(a, c) <= 0)
  }

  lemma Flip<K(!new)>(cmp: (K, K) -> int, a: K, b: K)
    requires ValidComparator(cmp)
    ensures cmp(a, b) >= 0 <==> cmp(b, a) <= 0
    ensures cmp(a, b) == 0 <==> cmp(b, a) == 0
  {
  }

  lemma AtMostAtMost<K(!new)>(cmp: (K, K) -> int, a: K, b: K, c: K)
    requires ValidComparator(cmp)
    requires cmp(a, b) <= 0 && cmp(b, c) <= 0
    ensures cmp(a, c) <= 0
  {
    assert Chain(a, b, c);
  }

  lemma LessAtMost<K(!new)>(cmp: (K, K) -> int, a: K, b: K, c: K)
    requires ValidComparator(cmp)
    requires cmp(a, b) < 0 && cmp(b, c) <= 0
    ensures cmp(a, c) < 0
  {
    assert Chain(b, c, a);
  }
}
