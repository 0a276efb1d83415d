/**
 * The unbalanced binary search tree of BinarySearchTree.c, as an immutable
 * algebraic tree.  Keys are compared with the C-style comparator stored in the
 * map; equal keys go to the right, so duplicates are kept in insertion order.
 * Parent pointers and freeing are not modelled (value semantics).
 */
module BinarySearchTree {

  import opened Options
  import opened Order
  import opened Seqs

  datatype Entry<K, V> = Entry(key: K, value: V)

  datatype Tree<K, V> = Leaf | Node(left: Tree<K, V>, key: K, value: V, right: Tree<K, V>)

  /** `struct tree_t`: the root, the entry count and the comparator. */
  datatype BST<!K, V> = BST(root: Tree<K, V>, size: nat, cmp: (K, K) -> int)

  /** The entries of a tree, left subtree first. */
  function InOrder<K, V>(t: Tree<K, V>): seq<Entry<K, V>> {
    match t
    case Leaf => []
    case Node(l, k, v, r) => InOrder(l) + [Entry(k, v)] + InOrder(r)
  }

  function Values<K, V>(s: seq<Entry<K, V>>): (r: seq<V>)
    ensures |r| == |s|
    ensures forall i :: 0 <= i < |s| ==> r[i] == s[i].value
  {
    seq(|s|, i requires 0 <= i < |s| => s[i].value)
  }

  function EntryKey<K, V>(e: Entry<K, V>): K {
    e.key
  }

  /** Left-subtree keys compare strictly below the node key, right-subtree keys
      compare at or above it (ties go right). */
  ghost predicate IsBST<K, V>(t: Tree<K, V>, cmp: (K, K) -> int) {
    match t
    case Leaf => true
    case Node(l, k, _, r) =>
      && IsBST(l, cmp)
      && IsBST(r, cmp)
      && (forall e :: e in InOrder(l) ==> cmp(e.key, k) < 0)
      && (forall e :: e in InOrder(r) ==> cmp(e.key, k) >= 0)
  }

  /** The record invariant: a search tree whose `size` counts its nodes. */
  ghost predicate WellFormed<K, V>(b: BST<K, V>) {
    IsBST(b.root, b.cmp) && b.size == |InOrder(b.root)|
  }

  /** `u` is `t` with exactly one `Leaf` replaced by a new node holding `(k, v)`:
      every existing node keeps its place. */
  ghost predicate GrowsByLeaf<K, V>(t: Tree<K, V>, u: Tree<K, V>, k: K, v: V) {
    match t
    case Leaf => u == Node(Leaf, k, v, Leaf)
    case Node(l, k0, v0, r) =>
      && u.Node? && u.key == k0 && u.value == v0
      && ((GrowsByLeaf(l, u.left, k, v) && u.right == r) || (u.left == l && GrowsByLeaf(r, u.right, k, v)))
  }

  // ---------------------------------------------------------------- newBST, sizeOfBST

  function NewBST<K, V>(cmp: (K, K) -> int): (b: BST<K, V>)
    ensures WellFormed(b)
    ensures b.size == 0 && InOrder(b.root) == []
    ensures b.cmp == cmp
  {
    BST(Leaf, 0, cmp)
  }

  function SizeOfBST<K, V>(b: BST<K, V>): (n: nat)
    requires WellFormed(b)
    ensures n == |InOrder(b.root)|
  {
    b.size
  }

  // ---------------------------------------------------------------- insertInBST

  /** The descent of insertInBST: left when the new key compares below the node key, else right. */
  function InsertNode<K, V>(t: Tree<K, V>, k: K, v: V, cmp: (K, K) -> int): (u: Tree<K, V>)
    ensures GrowsByLeaf(t, u, k, v)
    ensures |InOrder(u)| == |InOrder(t)| + 1
    ensures multiset(InOrder(u)) == multiset(InOrder(t)) + multiset{Entry(k, v)}
  {
    match t
    case Leaf => Node(Leaf, k, v, Leaf)
    case Node(l, k0, v0, r) =>
      if cmp(k, k0) < 0 then Node(InsertNode(l, k, v, cmp), k0, v0, r)
      else Node(l, k0, v0, InsertNode(r, k, v, cmp))
  }

  /** The only entry the descent adds is the new one. */
  lemma NewMembers<K, V>(t: Tree<K, V>, k: K, v: V, cmp: (K, K) -> int)
    ensures forall e :: e in InOrder(InsertNode(t, k, v, cmp)) ==> e in InOrder(t) || e == Entry(k, v)
  {
    var u := InsertNode(t, k, v, cmp);
    forall e | e in InOrder(u)
      ensures e in InOrder(t) || e == Entry(k, v)
    {
      assert e in multiset(InOrder(u));
      if e != Entry(k, v) {
        assert e in multiset(InOrder(t));
      }
    }
  }

  /** The descent keeps the search-tree order: the new key joins the left subtree
      only when it compares below the node key. */
  lemma {:induction false} InsertKeepsBST<K, V>(t: Tree<K, V>, k: K, v: V, cmp: (K, K) -> int)
    requires IsBST(t, cmp)
    ensures IsBST(InsertNode(t, k, v, cmp), cmp)
  {
    match t
    case Leaf =>
    case Node(l, k0, v0, r) =>
      if cmp(k, k0) < 0 {
        InsertKeepsBST(l, k, v, cmp);
        NewMembers(l, k, v, cmp);
      } else {
        InsertKeepsBST(r, k, v, cmp);
        NewMembers(r, k, v, cmp);
      }
  }

  function InsertInBST<K, V>(b: BST<K, V>, key: K, value: V): (r: BST<K, V>)
    requires WellFormed(b)
    ensures WellFormed(r)
    ensures r.size == b.size + 1 && r.cmp == b.cmp
    ensures multiset(InOrder(r.root)) == multiset(InOrder(b.root)) + multiset{Entry(key, value)}
    ensures GrowsByLeaf(b.root, r.root, key, value)
  {
    InsertKeepsBST(b.root, key, value, b.cmp);
    BST(InsertNode(b.root, key, value, b.cmp), b.size + 1, b.cmp)
  }

  /** Entries at or below `k`, and strictly above `k`. */
  function AtMost<K, V>(k: K, cmp: (K, K) -> int): Entry<K, V> -> bool {
    (e: Entry<K, V>) => cmp(e.key, k) <= 0
  }

  function Above<K, V>(k: K, cmp: (K, K) -> int): Entry<K, V> -> bool {
    (e: Entry<K, V>) => cmp(e.key, k) > 0
  }

  /** Ties go right: the new entry lands after every entry whose key is at most
      its own, and before every entry whose key is above it. */
  lemma {:induction false} InsertInOrder<K(!new), V>(t: Tree<K, V>, k: K, v: V, cmp: (K, K) -> int)
    requires IsBST(t, cmp) && ValidComparator(cmp)
    ensures InOrder(InsertNode(t, k, v, cmp))
         == Filter(InOrder(t), AtMost(k, cmp)) + [Entry(k, v)] + Filter(InOrder(t), Above(k, cmp))
  {
    match t
    case Leaf =>
      assert InOrder(InsertNode(t, k, v, cmp)) == [Entry(k, v)];
    case Node(l, k0, v0, r) =>
      var lo, hi := AtMost<K, V>(k, cmp), Above<K, V>(k, cmp);
      var e0 := Entry(k0, v0);
      SplitFilter(InOrder(l), e0, InOrder(r), lo);
      SplitFilter(InOrder(l), e0, InOrder(r), hi);
      if cmp(k, k0) < 0 {
        InsertInOrder(l, k, v, cmp);
        forall x | x in [e0] + InOrder(r) ensures hi(x) && !lo(x) {
          Flip(cmp, x.key, k0);
          LessAtMost(cmp, k, k0, x.key);
        }
        FilterKeepsNone([e0] + InOrder(r), lo);
        FilterKeepsAll([e0] + InOrder(r), hi);
        var fl, fh := Filter(InOrder(l), lo), Filter(InOrder(l), hi);
        assert Filter(InOrder(t), lo) == fl;
        assert Filter(InOrder(t), hi) == fh + ([e0] + InOrder(r));
        assert InsertNode(t, k, v, cmp) == Node(InsertNode(l, k, v, cmp), k0, v0, r);
        assert InOrder(InsertNode(t, k, v, cmp)) == (fl + [Entry(k, v)] + fh) + [e0] + InOrder(r);
        RegroupRight(fl, Entry(k, v), fh, e0, InOrder(r));
      } else {
        InsertInOrder(r, k, v, cmp);
        forall x | x in InOrder(l) + [e0] ensures lo(x) && !hi(x) {
          if x != e0 {
            LessAtMost(cmp, x.key, k0, k);
          }
        }
        FilterKeepsAll(InOrder(l) + [e0], lo);
        FilterKeepsNone(InOrder(l) + [e0], hi);
        var fl, fh := Filter(InOrder(r), lo), Filter(InOrder(r), hi);
        assert Filter(InOrder(t), lo) == (InOrder(l) + [e0]) + fl;
        assert Filter(InOrder(t), hi) == fh;
        assert InsertNode(t, k, v, cmp) == Node(l, k0, v0, InsertNode(r, k, v, cmp));
        assert InOrder(InsertNode(t, k, v, cmp)) == InOrder(l) + [e0] + (fl + [Entry(k, v)] + fh);
        RegroupLeft(InOrder(l), e0, fl, Entry(k, v), fh);
      }
  }

  /** Regrouping of a five-part concatenation, kept separate for proof stability. */
  lemma RegroupRight<T>(a: seq<T>, x: T, b: seq<T>, y: T, c: seq<T>)
    ensures (a + [x] + b) + [y] + c == a + [x] + (b + ([y] + c))
  {
  }

  /** The mirror image of RegroupRight, for the right-branch case. */
  lemma RegroupLeft<T>(a: seq<T>, y: T, b: seq<T>, x: T, c: seq<T>)
    ensures a + [y] + (b + [x] + c) == ((a + [y]) + b) + [x] + c
  {
  }

  lemma SplitFilter<K, V>(a: seq<Entry<K, V>>, e: Entry<K, V>, b: seq<Entry<K, V>>, p: Entry<K, V> -> bool)
    ensures Filter(a + [e] + b, p) == Filter(a, p) + Filter([e] + b, p)
    ensures Filter(a + [e] + b, p) == Filter(a + [e], p) + Filter(b, p)
  {
    assert a + [e] + b == a + ([e] + b);
    FilterConcat(a, [e] + b, p);
    FilterConcat(a + [e], b, p);
  }

  /** Inserting every value of `vs` in order, each keyed by `key`: the insertion
      loop of every findCities variant. */
  function InsertAll<K, V>(b: BST<K, V>, vs: seq<V>, key: V -> K): (r: BST<K, V>)
    requires WellFormed(b)
    ensures WellFormed(r)
    ensures r.size == b.size + |vs| && r.cmp == b.cmp
    ensures multiset(InOrder(r.root)) == multiset(InOrder(b.root)) + multiset(Keyed(vs, key))
    decreases |vs|
  {
    if vs == [] then b
    else
      KeyedCons(vs, key);
      InsertAll(InsertInBST(b, key(vs[0]), vs[0]), vs[1..], key)
  }

  /** One turn of a C insertion loop: inserting `vs` from `i` on is inserting `vs[i]`
      and then the values after it. */
  lemma InsertAllStep<K, V>(b: BST<K, V>, vs: seq<V>, key: V -> K, i: nat)
    requires i < |vs| && WellFormed(b)
    ensures InsertAll(b, vs[i..], key) == InsertAll(InsertInBST(b, key(vs[i]), vs[i]), vs[i + 1..], key)
  {
    var rest := vs[i..];
    assert InsertAll(b, rest, key) == InsertAll(InsertInBST(b, key(rest[0]), rest[0]), rest[1..], key);
    assert rest[0] == vs[i] && rest[1..] == vs[i + 1..];
  }

  function Keyed<K, V>(vs: seq<V>, key: V -> K): (es: seq<Entry<K, V>>)
    ensures |es| == |vs|
    ensures forall i :: 0 <= i < |vs| ==> es[i] == Entry(key(vs[i]), vs[i])
  {
    seq(|vs|, i requires 0 <= i < |vs| => Entry(key(vs[i]), vs[i]))
  }

  lemma KeyedCons<K, V>(vs: seq<V>, key: V -> K)
    requires vs != []
    ensures Keyed(vs, key) == [Entry(key(vs[0]), vs[0])] + Keyed(vs[1..], key)
    ensures Keyed(vs, key)[1..] == Keyed(vs[1..], key)
  {
  }

  /** Insertion sort that puts each new entry after the ones whose key is at most its own. */
  function StableSort<K, V>(es: seq<Entry<K, V>>, cmp: (K, K) -> int): seq<Entry<K, V>>
  {
    if es == [] then []
    else
      var s := StableSort(es[..|es| - 1], cmp);
      var e := es[|es| - 1];
      Filter(s, AtMost(e.key, cmp)) + [e] + Filter(s, Above(e.key, cmp))
  }

  /** The shape of the tree depends only on insertion order: its in-order
      sequence is the stable sort of the inserted entries. */
  lemma {:induction false} InsertAllIsStableSort<K(!new), V>(vs: seq<V>, key: V -> K, cmp: (K, K) -> int)
    requires ValidComparator(cmp)
    ensures InOrder(InsertAll(NewBST(cmp), vs, key).root) == StableSort(Keyed(vs, key), cmp)
  {
    InsertAllPrefix(NewBST(cmp), vs, key, cmp);
    StableSortFromEmpty(Keyed(vs, key), cmp);
  }

  lemma {:induction false} InsertAllPrefix<K(!new), V>(b: BST<K, V>, vs: seq<V>, key: V -> K, cmp: (K, K) -> int)
    requires WellFormed(b) && b.cmp == cmp && ValidComparator(cmp)
    ensures InOrder(InsertAll(b, vs, key).root) == StableSortFrom(InOrder(b.root), Keyed(vs, key), cmp)
    decreases |vs|
  {
    if vs != [] {
      var e := Entry(key(vs[0]), vs[0]);
      InsertInOrder(b.root, key(vs[0]), vs[0], cmp);
      InsertAllPrefix(InsertInBST(b, key(vs[0]), vs[0]), vs[1..], key, cmp);
      KeyedCons(vs, key);
    }
  }

  /** Sorting `es` into an already sorted prefix `s`, front to back. */
  function StableSortFrom<K, V>(s: seq<Entry<K, V>>, es: seq<Entry<K, V>>, cmp: (K, K) -> int): seq<Entry<K, V>>
    decreases |es|
  {
    if es == [] then s
    else
      var e := es[0];
      StableSortFrom(Filter(s, AtMost(e.key, cmp)) + [e] + Filter(s, Above(e.key, cmp)), es[1..], cmp)
  }

  lemma StableSortFromEmpty<K, V>(es: seq<Entry<K, V>>, cmp: (K, K) -> int)
    ensures StableSortFrom([], es, cmp) == StableSort(es, cmp)
  {
    StableSortFromSplit(es, cmp, |es|);
    assert es[..|es|] == es;
    assert es[|es|..] == [];
  }

  lemma {:induction false} StableSortFromSplit<K, V>(es: seq<Entry<K, V>>, cmp: (K, K) -> int, n: nat)
    requires n <= |es|
    ensures StableSortFrom([], es, cmp) == StableSortFrom(StableSort(es[..n], cmp), es[n..], cmp)
    decreases n
  {
    if n > 0 {
      StableSortFromSplit(es, cmp, n - 1);
      assert es[..n][..n - 1] == es[..n - 1];
      assert es[n - 1..][1..] == es[n..];
    } else {
      assert es[..0] == [];
      assert es[0..] == es;
    }
  }

  // ---------------------------------------------------------------- searchBST

  /** The descent of searchBST: stop at the first node whose key compares equal. */
  function SearchNode<K, V>(t: Tree<K, V>, k: K, cmp: (K, K) -> int): (r: Option<V>)
    ensures r.Some? ==> exists e :: e in InOrder(t) && cmp(e.key, k) == 0 && e.value == r.value
  {
    match t
    case Leaf => None
    case Node(l, k0, v0, rt) =>
      if cmp(k0, k) == 0 then (assert Entry(k0, v0) in InOrder(t); Some(v0))
      else if cmp(k, k0) < 0 then SearchNode(l, k, cmp)
      else SearchNode(rt, k, cmp)
  }

  /** In a search tree, the descent misses only when no key compares equal. */
  lemma {:induction false} SearchMissesOnlyAbsent<K(!new), V>(t: Tree<K, V>, k: K, cmp: (K, K) -> int)
    requires IsBST(t, cmp) && ValidComparator(cmp)
    ensures SearchNode(t, k, cmp).None? <==> forall e :: e in InOrder(t) ==> cmp(e.key, k) != 0
  {
    match t
    case Leaf =>
    case Node(l, k0, v0, r) =>
      if cmp(k0, k) == 0 {
        assert Entry(k0, v0) in InOrder(t);
      } else if cmp(k, k0) < 0 {
        SearchMissesOnlyAbsent(l, k, cmp);
        forall e | e in InOrder(r) ensures cmp(e.key, k) != 0 {
          Flip(cmp, e.key, k0);
          LessAtMost(cmp, k, k0, e.key);
        }
      } else {
        SearchMissesOnlyAbsent(r, k, cmp);
        forall e | e in InOrder(l) ensures cmp(e.key, k) != 0 {
          LessAtMost(cmp, e.key, k0, k);
        }
      }
  }

  function SearchBST<K(!new), V>(b: BST<K, V>, key: K): (r: Option<V>)
    requires WellFormed(b) && ValidComparator(b.cmp)
    ensures r.Some? ==> exists e :: e in InOrder(b.root) && b.cmp(e.key, key) == 0 && e.value == r.value
    ensures r.None? <==> forall e :: e in InOrder(b.root) ==> b.cmp(e.key, key) != 0
  {
    SearchMissesOnlyAbsent(b.root, key, b.cmp);
    SearchNode(b.root, key, b.cmp)
  }

  // ---------------------------------------------------------------- getInRange, InOrderTreeWalk

  /** The closed interval test the walk uses before emitting a node. */
  function InRange<K, V>(lo: K, hi: K, cmp: (K, K) -> int): Entry<K, V> -> bool {
    (e: Entry<K, V>) => cmp(e.key, lo) >= 0 && cmp(e.key, hi) <= 0
  }

  /** InOrderTreeWalk: go left only when the node key is above `lo`, emit when it
      lies in [lo, hi], go right only when it is at most `hi`. */
  function Walk<K, V>(t: Tree<K, V>, lo: K, hi: K, cmp: (K, K) -> int): (r: seq<V>)
    ensures |r| <= |InOrder(t)|
    ensures forall x :: x in r ==> x in Values(InOrder(t))
  {
    match t
    case Leaf => []
    case Node(l, k, v, r) =>
      NodeValues(l, k, v, r);
      (if cmp(k, lo) > 0 then Walk(l, lo, hi, cmp) else [])
      + (if cmp(k, lo) >= 0 && cmp(k, hi) <= 0 then [v] else [])
      + (if cmp(k, hi) <= 0 then Walk(r, lo, hi, cmp) else [])
  }

  /** The walk visits each node at most once: every value it emits is taken from
      a distinct entry of the tree. */
  lemma {:induction false} WalkVisitsEachEntryOnce<K, V>(t: Tree<K, V>, lo: K, hi: K, cmp: (K, K) -> int)
    ensures multiset(Walk(t, lo, hi, cmp)) <= multiset(Values(InOrder(t)))
  {
    match t
    case Leaf =>
    case Node(l, k, v, r) =>
      WalkVisitsEachEntryOnce(l, lo, hi, cmp);
      WalkVisitsEachEntryOnce(r, lo, hi, cmp);
      NodeValues(l, k, v, r);
      var wl := if cmp(k, lo) > 0 then Walk(l, lo, hi, cmp) else [];
      var wv := if cmp(k, lo) >= 0 && cmp(k, hi) <= 0 then [v] else [];
      var wr := if cmp(k, hi) <= 0 then Walk(r, lo, hi, cmp) else [];
      assert Walk(t, lo, hi, cmp) == wl + wv + wr;
      assert multiset(wl + wv + wr) == multiset(wl) + multiset(wv) + multiset(wr);
  }

  lemma NodeValues<K, V>(l: Tree<K, V>, k: K, v: V, r: Tree<K, V>)
    ensures Values(InOrder(Node(l, k, v, r))) == Values(InOrder(l)) + [v] + Values(InOrder(r))
  {
    ValuesConcat(InOrder(l) + [Entry(k, v)], InOrder(r));
    ValuesConcat(InOrder(l), [Entry(k, v)]);
  }

  /** Skipping the left subtree of a node whose key is at most `lo` loses nothing. */
  lemma PruneLeftSound<K(!new), V>(t: Tree<K, V>, lo: K, hi: K, cmp: (K, K) -> int)
    requires IsBST(t, cmp) && ValidComparator(cmp)
    requires t.Node? && cmp(t.key, lo) <= 0
    ensures forall e :: e in InOrder(t.left) ==> !InRange(lo, hi, cmp)(e)
  {
    forall e | e in InOrder(t.left) ensures cmp(e.key, lo) < 0 {
      LessAtMost(cmp, e.key, t.key, lo);
    }
  }

  /** Skipping the right subtree of a node whose key is above `hi` loses nothing.
      A node whose key equals `hi` may have equal keys on its right, so the walk
      must still descend there. */
  lemma PruneRightSound<K(!new), V>(t: Tree<K, V>, lo: K, hi: K, cmp: (K, K) -> int)
    requires IsBST(t, cmp) && ValidComparator(cmp)
    requires t.Node? && cmp(t.key, hi) > 0
    ensures forall e :: e in InOrder(t.right) ==> !InRange(lo, hi, cmp)(e)
  {
    forall e | e in InOrder(t.right) ensures cmp(e.key, hi) > 0 {
      Flip(cmp, e.key, t.key);
      LessAtMost(cmp, hi, t.key, e.key);
    }
  }

  lemma ValuesConcat<K, V>(a: seq<Entry<K, V>>, b: seq<Entry<K, V>>)
    ensures Values(a + b) == Values(a) + Values(b)
  {
  }

  /** The pruned walk emits exactly the in-range values of the full in-order sequence. */
  lemma {:induction false} WalkIsFilteredInOrder<K(!new), V>(t: Tree<K, V>, lo: K, hi: K, cmp: (K, K) -> int)
    requires IsBST(t, cmp) && ValidComparator(cmp)
    ensures Walk(t, lo, hi, cmp) == Values(Filter(InOrder(t), InRange(lo, hi, cmp)))
  {
    match t
    case Leaf =>
    case Node(l, k, v, r) =>
      var p := InRange<K, V>(lo, hi, cmp);
      var e := Entry(k, v);
      var fl, fm, fr := Filter(InOrder(l), p), Filter([e], p), Filter(InOrder(r), p);
      assert InOrder(t) == InOrder(l) + [e] + InOrder(r);
      FilterConcat(InOrder(l) + [e], InOrder(r), p);
      FilterConcat(InOrder(l), [e], p);
      assert Filter(InOrder(t), p) == fl + fm + fr;
      var wl := if cmp(k, lo) > 0 then Walk(l, lo, hi, cmp) else [];
      var wm := if cmp(k, lo) >= 0 && cmp(k, hi) <= 0 then [v] else [];
      var wr := if cmp(k, hi) <= 0 then Walk(r, lo, hi, cmp) else [];
      assert Walk(t, lo, hi, cmp) == wl + wm + wr;
      if cmp(k, lo) > 0 {
        WalkIsFilteredInOrder(l, lo, hi, cmp);
      } else {
        PruneLeftSound(t, lo, hi, cmp);
        FilterKeepsNone(InOrder(l), p);
      }
      assert wl == Values(fl);
      assert wm == Values(fm);
      if cmp(k, hi) <= 0 {
        WalkIsFilteredInOrder(r, lo, hi, cmp);
      } else {
        PruneRightSound(t, lo, hi, cmp);
        FilterKeepsNone(InOrder(r), p);
      }
      assert wr == Values(fr);
      ValuesConcat(fl + fm, fr);
      ValuesConcat(fl, fm);
  }

  /** A search tree lists its entries in nondecreasing key order. */
  lemma {:induction false} InOrderSorted<K(!new), V>(t: Tree<K, V>, cmp: (K, K) -> int)
    requires IsBST(t, cmp) && ValidComparator(cmp)
    ensures SortedBy(InOrder(t), EntryKey, cmp)
  {
    match t
    case Leaf =>
    case Node(l, k, v, r) =>
      InOrderSorted(l, cmp);
      InOrderSorted(r, cmp);
      forall i, j | 0 <= i < j < |InOrder(t)|
        ensures cmp(InOrder(t)[i].key, InOrder(t)[j].key) <= 0
      {
        NodePairSorted(l, k, v, r, cmp, i, j);
      }
  }

  /** One pair of positions of a node's in-order listing, given sorted subtrees. */
  lemma NodePairSorted<K(!new), V>(l: Tree<K, V>, k: K, v: V, r: Tree<K, V>, cmp: (K, K) -> int, i: nat, j: nat)
    requires IsBST(Node(l, k, v, r), cmp) && ValidComparator(cmp)
    requires SortedBy(InOrder(l), EntryKey, cmp) && SortedBy(InOrder(r), EntryKey, cmp)
    requires i < j < |InOrder(Node(l, k, v, r))|
    ensures cmp(InOrder(Node(l, k, v, r))[i].key, InOrder(Node(l, k, v, r))[j].key) <= 0
  {
    var s := InOrder(Node(l, k, v, r));
    var nl := |InOrder(l)|;
    if j < nl {
      assert s[i] == InOrder(l)[i] && s[j] == InOrder(l)[j];
      assert cmp(EntryKey(InOrder(l)[i]), EntryKey(InOrder(l)[j])) <= 0;
    } else if i > nl {
      assert s[i] == InOrder(r)[i - nl - 1] && s[j] == InOrder(r)[j - nl - 1];
      assert cmp(EntryKey(InOrder(r)[i - nl - 1]), EntryKey(InOrder(r)[j - nl - 1])) <= 0;
    } else if i == nl {
      assert s[i].key == k;
      assert s[j] == InOrder(r)[j - nl - 1];
      assert s[j] in InOrder(r);
      Flip(cmp, s[j].key, k);
    } else if j == nl {
      assert s[j].key == k;
      assert s[i] == InOrder(l)[i];
      assert s[i] in InOrder(l);
    } else {
      assert s[i] == InOrder(l)[i];
      assert s[i] in InOrder(l);
      assert s[j] == InOrder(r)[j - nl - 1];
      assert s[j] in InOrder(r);
      Flip(cmp, s[j].key, k);
      LessAtMost(cmp, s[i].key, k, s[j].key);
    }
  }

  /** When keyMin compares above keyMax no key lies in the interval. */
  lemma EmptyInterval<K(!new), V>(lo: K, hi: K, cmp: (K, K) -> int)
    requires ValidComparator(cmp) && cmp(lo, hi) > 0
    ensures forall e: Entry<K, V> :: !InRange(lo, hi, cmp)(e)
  {
    forall e: Entry<K, V> | cmp(e.key, lo) >= 0 && cmp(e.key, hi) <= 0
      ensures false
    {
      Flip(cmp, e.key, lo);
      AtMostAtMost(cmp, lo, e.key, hi);
    }
  }

  /** getInRange: the values whose key lies in the closed interval [keyMin, keyMax],
      in nondecreasing key order, duplicates kept. */
  function GetInRange<K(!new), V>(b: BST<K, V>, keyMin: K, keyMax: K): (r: seq<V>)
    requires WellFormed(b) && ValidComparator(b.cmp)
    ensures r == Values(Filter(InOrder(b.root), InRange(keyMin, keyMax, b.cmp)))
    ensures SortedBy(Filter(InOrder(b.root), InRange(keyMin, keyMax, b.cmp)), EntryKey, b.cmp)
    ensures b.cmp(keyMin, keyMax) > 0 ==> r == []
  {
    RangeFacts(b.root, keyMin, keyMax, b.cmp);
    Walk(b.root, keyMin, keyMax, b.cmp)
  }

  lemma RangeFacts<K(!new), V>(t: Tree<K, V>, lo: K, hi: K, cmp: (K, K) -> int)
    requires IsBST(t, cmp) && ValidComparator(cmp)
    ensures Walk(t, lo, hi, cmp) == Values(Filter(InOrder(t), InRange(lo, hi, cmp)))
    ensures SortedBy(Filter(InOrder(t), InRange(lo, hi, cmp)), EntryKey, cmp)
    ensures cmp(lo, hi) > 0 ==> Filter(InOrder(t), InRange(lo, hi, cmp)) == []
  {
    WalkIsFilteredInOrder(t, lo, hi, cmp);
    InOrderSorted(t, cmp);
    FilterSorted(InOrder(t), InRange(lo, hi, cmp), EntryKey, cmp);
    if cmp(lo, hi) > 0 {
      EmptyInterval<K, V>(lo, hi, cmp);
      FilterKeepsNone(InOrder(t), InRange(lo, hi, cmp));
    }
  }

  // ---------------------------------------------------------------- allocation failure

  /** InOrderTreeWalk as written, with allocation failure: `avail` is the number of
      mallocs that will still succeed, and every emitted value costs one list node.
      The first failed insertion stops the walk, which reports false. */
  method InOrderTreeWalk<K, V>(node: Tree<K, V>, ll: seq<V>, keyMin: K, keyMax: K, cmp: (K, K) -> int, avail: nat)
    returns (ok: bool, out: seq<V>, left: nat)
    ensures ok <==> |Walk(node, keyMin, keyMax, cmp)| <= avail
    ensures ok ==> out == ll + Walk(node, keyMin, keyMax, cmp)
    ensures ok ==> left == avail - |Walk(node, keyMin, keyMax, cmp)|
    decreases node
  {
    match node
    case Leaf =>
      return true, ll, avail;
    case Node(l, k, v, r) =>
      out, left := ll, avail;
      if cmp(k, keyMin) > 0 {
        ok, out, left := InOrderTreeWalk(l, out, keyMin, keyMax, cmp, left);
        if !ok {
          return;
        }
      }
      if cmp(k, keyMin) >= 0 && cmp(k, keyMax) <= 0 {
        if left == 0 {
          return false, out, left;
        }
        out, left := out + [v], left - 1;
      }
      if cmp(k, keyMax) <= 0 {
        ok, out, left := InOrderTreeWalk(r, out, keyMin, keyMax, cmp, left);
        if !ok {
          return;
        }
      }
      return true, out, left;
  }

  /** getInRange as written: one malloc for the list, then the walk; any failure
      releases the partial list and yields NULL. */
  method GetInRangeAlloc<K(!new), V>(b: BST<K, V>, keyMin: K, keyMax: K, avail: nat)
    returns (r: Option<seq<V>>, left: nat)
    requires WellFormed(b) && ValidComparator(b.cmp)
    ensures r.Some? <==> 1 + |GetInRange(b, keyMin, keyMax)| <= avail
    ensures r.Some? ==> r.value == GetInRange(b, keyMin, keyMax)
    ensures r.Some? ==> left == avail - 1 - |GetInRange(b, keyMin, keyMax)|
  {
    if avail == 0 {
      return None, avail;
    }
    var ok, out;
    ok, out, left := InOrderTreeWalk(b.root, [], keyMin, keyMax, b.cmp, avail - 1);
    if !ok {
      return None, left;
    }
    return Some(out), left;
  }

  // ---------------------------------------------------------------- trees built from keyed values

  /** The values whose key, as computed by `key`, lies in [lo, hi]. */
  function KeyWithin<K, V>(key: V -> K, lo: K, hi: K, cmp: (K, K) -> int): V -> bool {
    (v: V) => cmp(key(v), lo) >= 0 && cmp(key(v), hi) <= 0
  }

  /** Every entry is keyed by the key of its own value (as `&city->latitude` is). */
  ghost predicate KeyedBy<K, V>(s: seq<Entry<K, V>>, key: V -> K) {
    forall e :: e in s ==> e.key == key(e.value)
  }

  lemma {:induction false} ValuesFilterKeyed<K, V>(s: seq<Entry<K, V>>, key: V -> K, lo: K, hi: K, cmp: (K, K) -> int)
    requires KeyedBy(s, key)
    ensures Values(Filter(s, InRange(lo, hi, cmp))) == Filter(Values(s), KeyWithin(key, lo, hi, cmp))
  {
    if s != [] {
      assert Values(s) == [s[0].value] + Values(s[1..]);
      assert Values(s)[1..] == Values(s[1..]);
      ValuesFilterKeyed(s[1..], key, lo, hi, cmp);
    }
  }

  lemma {:induction false} KeyedCount<K, V>(s: seq<Entry<K, V>>, key: V -> K)
    requires KeyedBy(s, key)
    ensures forall v :: multiset(Values(s))[v] == multiset(s)[Entry(key(v), v)]
  {
    if s != [] {
      KeyedCount(s[1..], key);
      assert s == [s[0]] + s[1..];
      assert Values(s) == [s[0].value] + Values(s[1..]);
      forall v
        ensures multiset(Values(s))[v] == multiset(s)[Entry(key(v), v)]
      {
        assert s[0] == Entry(key(v), v) <==> s[0].value == v;
      }
    }
  }

  lemma KeyedValues<K, V>(vs: seq<V>, key: V -> K)
    ensures KeyedBy(Keyed(vs, key), key)
    ensures Values(Keyed(vs, key)) == vs
  {
  }

  lemma BuiltIsKeyed<K, V>(vs: seq<V>, key: V -> K, cmp: (K, K) -> int)
    ensures multiset(InOrder(InsertAll(NewBST(cmp), vs, key).root)) == multiset(Keyed(vs, key))
    ensures KeyedBy(InOrder(InsertAll(NewBST(cmp), vs, key).root), key)
  {
    var s := InOrder(InsertAll(NewBST(cmp), vs, key).root);
    var es := Keyed(vs, key);
    assert multiset(InOrder(NewBST<K, V>(cmp).root)) == multiset{};
    assert multiset(s) == multiset(es);
    forall e | e in s ensures e.key == key(e.value) {
      assert e in multiset(s);
      assert e in es;
    }
  }

  lemma BuiltValues<K, V>(vs: seq<V>, key: V -> K, cmp: (K, K) -> int)
    ensures multiset(Values(InOrder(InsertAll(NewBST(cmp), vs, key).root))) == multiset(vs)
  {
    var s := InOrder(InsertAll(NewBST(cmp), vs, key).root);
    var es := Keyed(vs, key);
    KeyedValues(vs, key);
    BuiltIsKeyed(vs, key, cmp);
    forall v ensures multiset(Values(s))[v] == multiset(vs)[v] {
      KeyedCount(s, key);
      KeyedCount(es, key);
      calc {
        multiset(Values(s))[v];
        multiset(s)[Entry(key(v), v)];
        multiset(es)[Entry(key(v), v)];
        multiset(Values(es))[v];
      }
    }
    assert multiset(Values(s)) == multiset(vs);
  }

  /** Inserting `vs` keyed by `key` into a fresh tree and range-querying it yields
      exactly the values whose key lies in [lo, hi], as a multiset. */
  lemma RangeOfKeyed<K(!new), V>(vs: seq<V>, key: V -> K, cmp: (K, K) -> int, lo: K, hi: K)
    requires ValidComparator(cmp)
    ensures multiset(GetInRange(InsertAll(NewBST(cmp), vs, key), lo, hi))
         == multiset(Filter(vs, KeyWithin(key, lo, hi, cmp)))
  {
    var s := InOrder(InsertAll(NewBST(cmp), vs, key).root);
    BuiltIsKeyed(vs, key, cmp);
    ValuesFilterKeyed(s, key, lo, hi, cmp);
    BuiltValues(vs, key, cmp);
    FilterSameMultiset(Values(s), vs, KeyWithin(key, lo, hi, cmp));
  }

  /** ... in nondecreasing order of their keys. */
  lemma RangeOfKeyedSorted<K(!new), V>(vs: seq<V>, key: V -> K, cmp: (K, K) -> int, lo: K, hi: K)
    requires ValidComparator(cmp)
    ensures SortedBy(GetInRange(InsertAll(NewBST(cmp), vs, key), lo, hi), key, cmp)
  {
    var b := InsertAll(NewBST(cmp), vs, key);
    var s := InOrder(b.root);
    var r := GetInRange(b, lo, hi);
    var f := Filter(s, InRange(lo, hi, cmp));
    BuiltIsKeyed(vs, key, cmp);
    forall i, j | 0 <= i < j < |r| ensures cmp(key(r[i]), key(r[j])) <= 0 {
      assert f[i] in s && f[j] in s;
      assert cmp(EntryKey(f[i]), EntryKey(f[j])) <= 0;
    }
  }

  /** ... and, as a sequence, the stable sort of `vs` by key, filtered: equal keys
      come out in insertion order. */
  lemma RangeOfKeyedExact<K(!new), V>(vs: seq<V>, key: V -> K, cmp: (K, K) -> int, lo: K, hi: K)
    requires ValidComparator(cmp)
    ensures GetInRange(InsertAll(NewBST(cmp), vs, key), lo, hi)
         == Filter(Values(StableSort(Keyed(vs, key), cmp)), KeyWithin(key, lo, hi, cmp))
  {
    var s := InOrder(InsertAll(NewBST(cmp), vs, key).root);
    InsertAllIsStableSort(vs, key, cmp);
    BuiltIsKeyed(vs, key, cmp);
    ValuesFilterKeyed(s, key, lo, hi, cmp);
  }
}
