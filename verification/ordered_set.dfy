/** The order-statistic set: a root node, an order, and the sorted sequence of keys it stands for. */
module OrderedSet {
  import opened Trees
  import opened WeightBalanced
  import opened SearchTrees
  import opened RawNodes

  class OrderStatisticSet<K(!new)> {
    var root: RawNode?<K>
    const less: (K, K) -> bool

    ghost predicate Valid()
      reads this, root, Below(root)
    {
      && Owned(root)
      && StrictOrder(less)
      && SearchTree(TreeOf(root), less)
      && Balanced(TreeOf(root))
    }

    /** All keys, in order. */
    ghost function Keys(): seq<K>
      reads this, root
    {
      Inorder(TreeOf(root))
    }

    constructor (lessThan: (K, K) -> bool)
      requires StrictOrder(lessThan)
      ensures Valid() && Keys() == [] && less == lessThan && fresh(Below(root))
    {
      root := null;
      less := lessThan;
    }

    /** Inserts k unless it is there.  Returns the index, the node that holds k and whether it is new. */
    method Insert(k: K) returns (idx: nat, node: RawNode<K>, didInsert: bool)
      requires Valid()
      modifies this, Below(root)
      ensures Valid() && Below(root) == old(Below(root)) + Added(node, didInsert)
      ensures TreeOf(root) == WeightBalanced.Insert(old(TreeOf(root)), k, less)
      ensures if didInsert then fresh(node) else node in old(Below(root)) && TreeOf(root) == old(TreeOf(root))
      ensures Keys() == InsertSorted(old(Keys()), k, less)
      ensures didInsert <==> k !in old(Keys())
      ensures node.value == k
      ensures idx + LeftSizeAt(old(TreeOf(root)), k, less) == Rank(old(Keys()), k, less)
      ensures didInsert ==> idx == Rank(old(Keys()), k, less)
    {
      hide StrictOrder, SearchTree, Balanced, Inorder, WeightBalanced.Insert, Rank, InsertSorted, RawNode.Valid,
        Trees.Size, LeftSizeAt;
      ghost var t := TreeOf(root);
      InsertTree(t, k, less);
      var r;
      r, idx, node, didInsert := RawNodes.Insert(root, k, 0, less);
      SameKey(node.value, k, less);
      root := r;
    }

    /** Erases k; returns its rank, which a key that was there leaves to its successor, the successor
        and the erased node. */
    method Erase(k: K) returns (idx: nat, successor: Option<K>, erased: nat, extracted: RawNode?<K>)
      requires Valid()
      modifies this, Below(root)
      ensures Valid() && Below(root) == old(Below(root)) - One(extracted)
      ensures TreeOf(root) == WeightBalanced.Erase(old(TreeOf(root)), k, less)
      ensures if k in old(Keys()) then extracted != null && extracted in old(Below(root)) && extracted.value == k
              else extracted == null && TreeOf(root) == old(TreeOf(root))
      ensures Keys() == RemoveSorted(old(Keys()), k, less)
      ensures erased == if k in old(Keys()) then 1 else 0
      ensures idx == Rank(old(Keys()), k, less)
      ensures successor == if k in old(Keys()) then At(Keys(), idx) else None
    {
      hide StrictOrder, SearchTree, Balanced, Inorder, WeightBalanced.Erase, Rank, RemoveSorted, RawNode.Valid,
        Trees.Size, EraseIdx, EraseSuccessor, At;
      ghost var t := TreeOf(root);
      EraseTree(t, k, less);
      var r;
      r, idx, successor, erased, extracted := RawNodes.Erase(root, k, 0, None, less);
      if extracted != null { SameKey(extracted.value, k, less); }
      root := r;
    }

    /** The number of keys before k, and k if it is there. */
    function Find(k: K): (r: (nat, Option<K>))
      requires Valid()
      reads this, root, Below(root)
      ensures r == (Rank(Keys(), k, less), if k in Keys() then Some(k) else None)
    {
      FindIsRank(TreeOf(root), k, less);
      FindNode(root, k, less)
    }

    /** The first key that is not before k, with its rank. */
    function LowerBound(k: K): (r: (nat, Option<K>))
      requires Valid()
      reads this, root, Below(root)
      ensures r == (Rank(Keys(), k, less), At(Keys(), Rank(Keys(), k, less)))
    {
      LowerBoundIsFirst(TreeOf(root), k, less);
      LowerBoundNode(root, k, less)
    }

    /** The first key after k, with its rank. */
    function UpperBound(k: K): (r: (nat, Option<K>))
      requires Valid()
      reads this, root, Below(root)
      ensures r == (RankUpTo(Keys(), k, less), At(Keys(), RankUpTo(Keys(), k, less)))
    {
      UpperBoundIsFirst(TreeOf(root), k, less);
      UpperBoundNode(root, k, less)
    }

    /** The key of rank idx, if there is one. */
    function Select(idx: nat): (r: Option<K>)
      requires Valid()
      reads this, root, Below(root)
      ensures r == At(Keys(), idx)
    {
      SelectIsAt(TreeOf(root), idx);
      SelectNode(root, idx)
    }

    function Size(): (n: nat)
      requires Valid()
      reads this, root, Below(root)
      ensures n == |Keys()|
    {
      InorderSize(TreeOf(root));
      SizeOf(root)
    }
  }

  lemma SameKey<K(!new)>(x: K, k: K, less: (K, K) -> bool)
    requires StrictOrder(less)
    ensures !less(x, k) && !less(k, x) ==> x == k
  {
  }

  lemma InsertTree<K(!new)>(t: Tree<K>, k: K, less: (K, K) -> bool)
    requires StrictOrder(less) && SearchTree(t, less) && Balanced(t)
    ensures var t' := WeightBalanced.Insert(t, k, less);
            && SearchTree(t', less) && Balanced(t')
            && Inorder(t') == InsertSorted(Inorder(t), k, less)
            && (Trees.Size(t') == Trees.Size(t) + 1 <==> k !in Inorder(t))
            && (k in Inorder(t) ==> t' == t)
            && InsertIdx(t, k, 0, less) + LeftSizeAt(t, k, less) == Rank(Inorder(t), k, less)
            && (k !in Inorder(t) ==> InsertIdx(t, k, 0, less) == Rank(Inorder(t), k, less))
  {
    hide StrictOrder, Balanced, Inorder, WeightBalanced.Insert, Rank, InsertIdx;
    InsertRefines(t, k, less);
    InsertBalanced(t, k, less);
    InsertKeepsSorted(Inorder(t), k, less);
    InsertIdxIsRank(t, k, 0, less);
    if k in Inorder(t) { InsertPresentUnchanged(t, k, less); }
    InorderSize(t);
    InorderSize(WeightBalanced.Insert(t, k, less));
  }

  lemma EraseTree<K(!new)>(t: Tree<K>, k: K, less: (K, K) -> bool)
    requires StrictOrder(less) && SearchTree(t, less) && Balanced(t)
    ensures var t' := WeightBalanced.Erase(t, k, less);
            && SearchTree(t', less) && Balanced(t')
            && Inorder(t') == RemoveSorted(Inorder(t), k, less)
            && Trees.Size(t') == Trees.Size(t) - (if k in Inorder(t) then 1 else 0)
            && (k !in Inorder(t) ==> t' == t)
            && EraseIdx(t, k, 0, less) == Rank(Inorder(t), k, less)
            && EraseSuccessor(t, k, None, less)
               == if k in Inorder(t) then At(Inorder(t'), Rank(Inorder(t), k, less)) else None
  {
    hide StrictOrder, Balanced, Inorder, WeightBalanced.Erase, Rank, EraseIdx, EraseSuccessor, SortedBy;
    EraseRefines(t, k, less);
    EraseBalanced(t, k, less);
    RemoveKeepsSorted(Inorder(t), k, less);
    InorderSize(t);
    InorderSize(WeightBalanced.Erase(t, k, less));
    if k in Inorder(t) {
      EraseIdxIsRank(t, k, 0, None, less);
      KeyHasRank(Inorder(t), k, less);
    } else {
      EraseOfAbsentKey(t, k, 0, None, less);
      EraseAbsentUnchanged(t, k, less);
    }
  }

  lemma KeyHasRank<K(!new)>(s: seq<K>, k: K, less: (K, K) -> bool)
    requires StrictOrder(less) && SortedBy(s, less) && k in s
    ensures Rank(s, k, less) < |s| && s[Rank(s, k, less)] == k
  {
    var i :| 0 <= i < |s| && s[i] == k;
    RankIsIndex(s, i, less);
  }
}
