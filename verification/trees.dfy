/** Binary trees as values: the abstract state of both order-statistic trees. */
module Trees {
  datatype Tree<K> = Leaf | Node(left: Tree<K>, key: K, right: Tree<K>)

  ghost function Size<K>(t: Tree<K>): nat {
    match t
    case Leaf => 0
    case Node(l, _, r) => 1 + Size(l) + Size(r)
  }

  ghost function Height<K>(t: Tree<K>): nat {
    match t
    case Leaf => 0
    case Node(l, _, r) => 1 + if Height(l) >= Height(r) then Height(l) else Height(r)
  }

  function Pow(b: nat, n: nat): nat {
    if n == 0 then 1 else b * Pow(b, n - 1)
  }

  ghost function Inorder<K>(t: Tree<K>): seq<K> {
    match t
    case Leaf => []
    case Node(l, k, r) => Inorder(l) + [k] + Inorder(r)
  }

  lemma InorderSize<K>(t: Tree<K>)
    ensures |Inorder(t)| == Size(t)
  {
  }

  lemma SizeParts<K>(t: Tree<K>)
    requires t.Node?
    ensures Size(t) == 1 + Size(t.left) + Size(t.right)
  {
  }

  // ---------------------------------------------------------------- order

  ghost predicate StrictOrder<K(!new)>(less: (K, K) -> bool) {
    && (forall x, y, z :: less(x, y) && less(y, z) ==> less(x, z))
    && (forall x, y :: !(less(x, y) && less(y, x)))
    && (forall x, y :: less(x, y) || less(y, x) || x == y)
  }

  ghost predicate SortedBy<K>(s: seq<K>, less: (K, K) -> bool) {
    forall i, j :: 0 <= i < j < |s| ==> less(s[i], s[j])
  }

  ghost predicate AllBefore<K>(s: seq<K>, k: K, less: (K, K) -> bool) {
    forall i :: 0 <= i < |s| ==> less(s[i], k)
  }

  ghost predicate AllAfter<K>(s: seq<K>, k: K, less: (K, K) -> bool) {
    forall i :: 0 <= i < |s| ==> less(k, s[i])
  }

  /** A tree is a search tree when its in-order sequence is sorted. */
  ghost predicate SearchTree<K>(t: Tree<K>, less: (K, K) -> bool) {
    SortedBy(Inorder(t), less)
  }

  lemma SortedParts<K(!new)>(a: seq<K>, k: K, b: seq<K>, less: (K, K) -> bool)
    requires StrictOrder(less)
    ensures SortedBy(a + [k] + b, less)
            <==> SortedBy(a, less) && SortedBy(b, less) && AllBefore(a, k, less) && AllAfter(b, k, less)
  {
    var s := a + [k] + b;
    if SortedBy(s, less) {
      assert s[|a|] == k;
      forall i, j | 0 <= i < j < |a| ensures less(a[i], a[j]) { assert s[i] == a[i] && s[j] == a[j]; }
      forall i, j | 0 <= i < j < |b| ensures less(b[i], b[j]) {
        assert s[|a| + 1 + i] == b[i] && s[|a| + 1 + j] == b[j];
      }
      forall i | 0 <= i < |a| ensures less(a[i], k) { assert s[i] == a[i]; }
      forall i | 0 <= i < |b| ensures less(k, b[i]) { assert s[|a| + 1 + i] == b[i]; }
    }
  }

  /** Number of keys of s before k: the rank of k. */
  ghost function Rank<K>(s: seq<K>, k: K, less: (K, K) -> bool): (r: nat)
    ensures r <= |s|
  {
    if s == [] then 0
    else Rank(s[..|s| - 1], k, less) + if less(s[|s| - 1], k) then 1 else 0
  }

  lemma {:induction false} RankOfSum<K>(a: seq<K>, b: seq<K>, k: K, less: (K, K) -> bool)
    ensures Rank(a + b, k, less) == Rank(a, k, less) + Rank(b, k, less)
  {
    if b == [] {
      assert a + b == a;
    } else {
      assert (a + b)[..|a + b| - 1] == a + b[..|b| - 1];
      RankOfSum(a, b[..|b| - 1], k, less);
    }
  }

  lemma {:induction false} RankAll<K(!new)>(s: seq<K>, k: K, less: (K, K) -> bool)
    requires StrictOrder(less)
    ensures AllBefore(s, k, less) ==> Rank(s, k, less) == |s|
    ensures (forall i :: 0 <= i < |s| ==> !less(s[i], k)) ==> Rank(s, k, less) == 0
  {
    if s != [] { RankAll(s[..|s| - 1], k, less); }
  }

  /** Where k stands relative to the parts of a sorted sequence. */
  lemma RankAtNode<K(!new)>(a: seq<K>, x: K, b: seq<K>, k: K, less: (K, K) -> bool)
    requires StrictOrder(less) && SortedBy(a + [x] + b, less)
    ensures less(x, k) ==> Rank(a + [x] + b, k, less) == |a| + 1 + Rank(b, k, less)
    ensures !less(x, k) ==> Rank(a + [x] + b, k, less) == Rank(a, k, less)
    ensures x == k ==> Rank(a + [x] + b, k, less) == |a|
  {
    SortedParts(a, x, b, less);
    RankOfSum(a + [x], b, k, less);
    RankOfSum(a, [x], k, less);
    RankAll(a, k, less);
    RankAll(b, k, less);
    RankAll([x], k, less);
    if less(x, k) {
      assert AllBefore(a, k, less);
      assert AllBefore([x], k, less);
    }
    if x == k {
      assert AllBefore(a, k, less);
    }
  }

  /** In a sorted sequence the key at index i has rank i, and nothing else has its place. */
  lemma RankIsIndex<K(!new)>(s: seq<K>, i: nat, less: (K, K) -> bool)
    requires StrictOrder(less) && SortedBy(s, less) && i < |s|
    ensures Rank(s, s[i], less) == i
  {
    assert s == s[..i] + [s[i]] + s[i + 1..];
    RankAtNode(s[..i], s[i], s[i + 1..], s[i], less);
  }
}
