/** The nodes of the order-statistic set, relinked in place. */
module RawNodes {
  import opened Trees
  import opened WeightBalanced
  import opened SearchTrees

  class RawNode<K> {
    var left: RawNode?<K>
    var right: RawNode?<K>
    var subtreeSize: nat
    const value: K
    /** The nodes of the subtree, and the subtree as a value. */
    ghost var repr: set<RawNode<K>>
    ghost var tree: Tree<K>

    /** The subtree is a tree, linked as `tree` says, and every size in it is exact. */
    ghost predicate Valid()
      reads this, repr
      decreases repr
    {
      && this in repr
      && (left != null ==> left in repr && left.repr < repr && this !in left.repr && left.Valid())
      && (right != null ==> right in repr && right.repr < repr && this !in right.repr && right.Valid())
      && (left != null && right != null ==> left.repr !! right.repr)
      && repr == {this} + (if left == null then {} else left.repr) + (if right == null then {} else right.repr)
      && tree == Node(if left == null then Leaf else left.tree, value, if right == null then Leaf else right.tree)
      && subtreeSize == Size(tree)
    }

    constructor (v: K)
      ensures Valid() && fresh(repr) && repr == {this} && tree == Node(Leaf, v, Leaf) && value == v
    {
      left, right, subtreeSize, value := null, null, 1, v;
      repr, tree := {this}, Node(Leaf, v, Leaf);
    }

    method RecomputeSummary()
      requires Owned(left) && Owned(right)
      modifies this`subtreeSize
      ensures subtreeSize == 1 + Size(TreeOf(left)) + Size(TreeOf(right))
    {
      subtreeSize := 1 + SizeOf(left) + SizeOf(right);
    }
  }

  ghost function Below<K>(n: RawNode?<K>): set<RawNode<K>>
    reads n
  {
    if n == null then {} else n.repr
  }

  ghost function TreeOf<K>(n: RawNode?<K>): Tree<K>
    reads n
  {
    if n == null then Leaf else n.tree
  }

  ghost predicate Owned<K>(n: RawNode?<K>)
    reads n, Below(n)
  {
    n != null ==> n.Valid()
  }

  ghost function One<K>(n: RawNode?<K>): set<RawNode<K>> {
    if n == null then {} else {n}
  }

  ghost function Added<K>(n: RawNode<K>, isNew: bool): set<RawNode<K>> {
    if isNew then {n} else {}
  }

  /** Number of nodes of the subtree. */
  function SizeOf<K>(n: RawNode?<K>): (s: nat)
    requires Owned(n)
    reads n, Below(n)
    ensures s == Size(TreeOf(n))
  {
    if n == null then 0 else n.subtreeSize
  }

  // ---------------------------------------------------------------- relinking one node

  /** Makes l and r the children of n. */
  method UpdateLeftAndRight<K>(n: RawNode<K>, l: RawNode?<K>, r: RawNode?<K>)
    requires Owned(l) && Owned(r)
    requires n !in Below(l) && n !in Below(r) && Below(l) !! Below(r)
    modifies n
    ensures n.Valid() && n.tree == Node(TreeOf(l), n.value, TreeOf(r))
    ensures n.repr == {n} + Below(l) + Below(r)
    ensures n.left == l && n.right == r
  {
    hide Size, RawNode.Valid;
    SelfOwned(l);
    SelfOwned(r);
    n.left := l;
    n.right := r;
    n.repr := {n} + Below(l) + Below(r);
    n.tree := Node(TreeOf(l), n.value, TreeOf(r));
    n.RecomputeSummary();
    Assemble(n);
  }

  lemma SelfOwned<K>(n: RawNode?<K>)
    requires Owned(n)
    ensures n != null ==> n in n.repr
  {
  }

  lemma Assemble<K>(n: RawNode<K>)
    requires Owned(n.left) && Owned(n.right)
    requires n !in Below(n.left) && n !in Below(n.right) && Below(n.left) !! Below(n.right)
    requires n.repr == {n} + Below(n.left) + Below(n.right)
    requires n.tree == Node(TreeOf(n.left), n.value, TreeOf(n.right))
    requires n.subtreeSize == 1 + Size(TreeOf(n.left)) + Size(TreeOf(n.right))
    ensures n.Valid()
  {
    hide Size;
    SizeParts(n.tree);
    SelfOwned(n.left);
    SelfOwned(n.right);
  }

  /** What a valid node owns, one level down. */
  lemma Children<K>(n: RawNode<K>)
    requires n.Valid()
    ensures n.subtreeSize == Size(n.tree)
    ensures n.tree == Node(TreeOf(n.left), n.value, TreeOf(n.right))
    ensures Owned(n.left) && Owned(n.right)
    ensures n !in Below(n.left) && n !in Below(n.right) && Below(n.left) !! Below(n.right)
    ensures n.repr == {n} + Below(n.left) + Below(n.right)
    ensures n.left != null ==> n.left in n.left.repr
    ensures n.right != null ==> n.right in n.right.repr
    ensures n.left != null ==> n.tree.left.Node?
    ensures n.right != null ==> n.tree.right.Node?
  {
    hide Size;
    if n.left != null { assert n.left.tree.Node?; }
    if n.right != null { assert n.right.tree.Node?; }
  }

  method UpdateLeft<K>(n: RawNode<K>, l: RawNode?<K>)
    requires Owned(l) && Owned(n.right)
    requires n !in Below(l) && n !in Below(n.right) && Below(l) !! Below(n.right)
    modifies n
    ensures n.Valid() && n.tree == Node(TreeOf(l), n.value, old(TreeOf(n.right)))
    ensures n.repr == {n} + Below(l) + old(Below(n.right))
    ensures n.left == l && n.right == old(n.right)
  {
    UpdateLeftAndRight(n, l, n.right);
  }

  method UpdateRight<K>(n: RawNode<K>, r: RawNode?<K>)
    requires Owned(r) && Owned(n.left)
    requires n !in Below(r) && n !in Below(n.left) && Below(n.left) !! Below(r)
    modifies n
    ensures n.Valid() && n.tree == Node(old(TreeOf(n.left)), n.value, TreeOf(r))
    ensures n.repr == {n} + old(Below(n.left)) + Below(r)
    ensures n.right == r && n.left == old(n.left)
  {
    UpdateLeftAndRight(n, n.left, r);
  }

  // ---------------------------------------------------------------- rotations

  method RotateLeft<K>(n: RawNode<K>) returns (root: RawNode<K>)
    requires n.Valid() && n.right != null
    modifies n, n.right
    ensures root.Valid() && root.repr == old(n.repr)
    ensures old(n.tree.Node? && n.tree.right.Node?) && root.tree == WeightBalanced.RotateLeft(old(n.tree))
  {
    hide RawNode.Valid, Size;
    Children(n);
    root := n.right;
    Children(root);
    UpdateRight(n, root.left);
    UpdateLeft(root, n);
  }

  method RotateRight<K>(n: RawNode<K>) returns (root: RawNode<K>)
    requires n.Valid() && n.left != null
    modifies n, n.left
    ensures root.Valid() && root.repr == old(n.repr)
    ensures old(n.tree.Node? && n.tree.left.Node?) && root.tree == WeightBalanced.RotateRight(old(n.tree))
  {
    hide RawNode.Valid, Size;
    Children(n);
    root := n.left;
    Children(root);
    UpdateLeft(n, root.right);
    UpdateRight(root, n);
  }

  method RotateRightLeft<K>(n: RawNode<K>) returns (root: RawNode<K>)
    requires n.Valid() && n.tree.right.Node? && n.tree.right.left.Node?
    modifies n.repr
    ensures root.Valid() && root.repr == old(n.repr)
    ensures root.tree == WeightBalanced.RotateRightLeft(old(n.tree))
  {
    hide RawNode.Valid, Size, WeightBalanced.RotateLeft, WeightBalanced.RotateRight;
    Children(n);
    Children(n.right);
    RotatedIsNode(n.tree.right);
    var r := RotateRight(n.right);
    UpdateRight(n, r);
    root := RotateLeft(n);
  }

  lemma RotatedIsNode<K>(t: Tree<K>)
    requires t.Node?
    ensures t.left.Node? ==> WeightBalanced.RotateRight(t).Node?
    ensures t.right.Node? ==> WeightBalanced.RotateLeft(t).Node?
  {
  }

  method RotateLeftRight<K>(n: RawNode<K>) returns (root: RawNode<K>)
    requires n.Valid() && n.tree.left.Node? && n.tree.left.right.Node?
    modifies n.repr
    ensures root.Valid() && root.repr == old(n.repr)
    ensures root.tree == WeightBalanced.RotateLeftRight(old(n.tree))
  {
    hide RawNode.Valid, Size, WeightBalanced.RotateLeft, WeightBalanced.RotateRight;
    Children(n);
    Children(n.left);
    RotatedIsNode(n.tree.left);
    var l := RotateLeft(n.left);
    UpdateLeft(n, l);
    root := RotateRight(n);
  }

  method NodeInBalance<K>(n: RawNode<K>) returns (r: bool)
    requires n.Valid()
    ensures r <==> IsInBalance(n.tree)
    ensures n.tree.Node?
    ensures var lw, rw := Size(n.tree.left) + 1, Size(n.tree.right) + 1;
            r <==> lw + rw <= 4 * lw && 4 * lw <= 3 * (lw + rw)
  {
    hide Size;
    Children(n);
    var leftWeight, rightWeight := 1 + SizeOf(n.left), 1 + SizeOf(n.right);
    var totalWeight := leftWeight + rightWeight;
    var four := REBALANCE_FACTOR;
    var three := four - 1;
    r := totalWeight <= four * leftWeight && four * leftWeight <= three * totalWeight;
  }

  /** If needed, rebalances the tree at n. */
  method MaybeRebalance<K>(n: RawNode<K>) returns (root: RawNode<K>)
    requires n.Valid()
    modifies n.repr
    ensures root.Valid() && root.repr == old(n.repr)
    ensures root.tree == WeightBalanced.MaybeRebalance(old(n.tree))
  {
    hide RawNode.Valid, Size, WeightBalanced.RotateLeft, WeightBalanced.RotateRight, WeightBalanced.RotateLeftRight,
      WeightBalanced.RotateRightLeft, IsInBalance;
    Children(n);
    var balanced := NodeInBalance(n);
    if balanced {
      root := n;
    } else {
      RotationsExist(n.tree);
      var left, right := n.left, n.right;
      if SizeOf(left) < SizeOf(right) {
        Children(right);
        var rlSize, rrSize := 1 + SizeOf(right.left), 1 + SizeOf(right.right);
        if SingleRotation(rlSize, rrSize) {
          root := RotateLeft(n);
        } else {
          root := RotateRightLeft(n);
        }
      } else {
        Children(left);
        var llSize, lrSize := 1 + SizeOf(left.left), 1 + SizeOf(left.right);
        if SingleRotation(lrSize, llSize) {
          root := RotateRight(n);
        } else {
          root := RotateLeftRight(n);
        }
      }
    }
  }

  lemma RebalancedSize<K>(t: Tree<K>)
    requires t.Node?
    ensures Size(WeightBalanced.MaybeRebalance(t)) == 1 + Size(t.left) + Size(t.right)
  {
    RebalanceInorder(t);
    SizeParts(t);
  }

  /** Makes r the right child of n and rebalances there. */
  method RebalanceWithRight<K>(n: RawNode<K>, r: RawNode?<K>) returns (root: RawNode<K>)
    requires Owned(r) && Owned(n.left)
    requires n !in Below(r) && n !in Below(n.left) && Below(n.left) !! Below(r)
    modifies n, Below(n.left), Below(r)
    ensures root.Valid() && root.repr == {n} + old(Below(n.left)) + old(Below(r))
    ensures root.tree == WeightBalanced.MaybeRebalance(Node(old(TreeOf(n.left)), n.value, old(TreeOf(r))))
    ensures Size(root.tree) == 1 + old(Size(TreeOf(n.left))) + old(Size(TreeOf(r)))
  {
    hide RawNode.Valid, WeightBalanced.MaybeRebalance, Size;
    UpdateRight(n, r);
    RebalancedSize(n.tree);
    root := MaybeRebalance(n);
  }

  method RebalanceWithLeft<K>(n: RawNode<K>, l: RawNode?<K>) returns (root: RawNode<K>)
    requires Owned(l) && Owned(n.right)
    requires n !in Below(l) && n !in Below(n.right) && Below(l) !! Below(n.right)
    modifies n, Below(n.right), Below(l)
    ensures root.Valid() && root.repr == {n} + old(Below(l)) + old(Below(n.right))
    ensures root.tree == WeightBalanced.MaybeRebalance(Node(old(TreeOf(l)), n.value, old(TreeOf(n.right))))
    ensures Size(root.tree) == 1 + old(Size(TreeOf(l))) + old(Size(TreeOf(n.right)))
  {
    hide RawNode.Valid, WeightBalanced.MaybeRebalance, Size;
    UpdateLeft(n, l);
    RebalancedSize(n.tree);
    root := MaybeRebalance(n);
  }

  // ---------------------------------------------------------------- insertion

  /** Inserts k unless it is there.  Returns the new root, the index, the node that holds the key and
      whether k was inserted. */
  method Insert<K>(n: RawNode?<K>, k: K, rankSoFar: nat, less: (K, K) -> bool)
    returns (root: RawNode<K>, idx: nat, node: RawNode<K>, didInsert: bool)
    requires Owned(n)
    modifies Below(n)
    ensures root.Valid() && root.repr == old(Below(n)) + Added(node, didInsert)
    ensures root.tree == WeightBalanced.Insert(old(TreeOf(n)), k, less)
    ensures idx == InsertIdx(old(TreeOf(n)), k, rankSoFar, less)
    ensures didInsert <==> Size(root.tree) == old(Size(TreeOf(n))) + 1
    ensures if didInsert then fresh(node) && node.value == k
            else node in old(Below(n)) && !less(node.value, k) && !less(k, node.value)
    decreases TreeOf(n)
  {
    hide RawNode.Valid, WeightBalanced.MaybeRebalance, WeightBalanced.Insert, InsertIdx, Size, Added;
    InsertStep(TreeOf(n), k, rankSoFar, less);
    if n == null {
      root := new RawNode(k);
      AddedIs(root, true);
      node := root;
      didInsert := true;
      idx := rankSoFar;
    } else {
      Children(n);
      ghost var left, right := Below(n.left), Below(n.right);
      if less(n.value, k) {
        var sub;
        sub, idx, node, didInsert := Insert(n.right, k, rankSoFar + SizeOf(n.left) + 1, less);
        AddedIs(node, didInsert);
        PutInto(n, left, right, Added(node, didInsert));
        root := RebalanceWithRight(n, sub);
      } else if less(k, n.value) {
        var sub;
        sub, idx, node, didInsert := Insert(n.left, k, rankSoFar, less);
        AddedIs(node, didInsert);
        PutInto(n, right, left, Added(node, didInsert));
        root := RebalanceWithLeft(n, sub);
      } else {
        idx := rankSoFar;
        node := n;
        didInsert := false;
        AddedIs(n, false);
        RebalancedSize(n.tree);
        root := MaybeRebalance(n);
      }
    }
  }

  lemma AddedIs<K>(n: RawNode<K>, isNew: bool)
    ensures Added(n, isNew) == if isNew then {n} else {}
  {
  }

  lemma PutInto<T>(n: T, kept: set<T>, side: set<T>, x: set<T>)
    requires n !in side && n !in x && kept !! side && kept !! x
    ensures {n} + kept + (side + x) == {n} + kept + side + x
    ensures {n} + (side + x) + kept == {n} + side + kept + x
    ensures kept !! side + x && n !in side + x
  {
  }

  lemma InsertStep<K>(t: Tree<K>, k: K, rankSoFar: nat, less: (K, K) -> bool)
    ensures t.Leaf? ==>
      && WeightBalanced.Insert(t, k, less) == Node(Leaf, k, Leaf)
      && InsertIdx(t, k, rankSoFar, less) == rankSoFar
    ensures t.Leaf? ==> Size(t) == 0 && Size(WeightBalanced.Insert(t, k, less)) == 1
    ensures t.Node? ==>
      (WeightBalanced.Insert(t, k, less) == WeightBalanced.MaybeRebalance(
         if less(t.key, k) then Node(t.left, t.key, WeightBalanced.Insert(t.right, k, less))
         else if less(k, t.key) then Node(WeightBalanced.Insert(t.left, k, less), t.key, t.right)
         else t))
    ensures t.Node? ==>
      (InsertIdx(t, k, rankSoFar, less) ==
         (if less(t.key, k) then InsertIdx(t.right, k, rankSoFar + Size(t.left) + 1, less)
         else if less(k, t.key) then InsertIdx(t.left, k, rankSoFar, less)
         else rankSoFar))
    ensures t.Node? ==> Size(t) == 1 + Size(t.left) + Size(t.right)
  {
    hide WeightBalanced.MaybeRebalance;
  }

  // ---------------------------------------------------------------- deletion

  /** Unlinks the last node of the subtree; returns the new root and the node. */
  method UnlinkRightMost<K>(n: RawNode<K>) returns (root: RawNode?<K>, removed: RawNode<K>)
    requires n.Valid()
    modifies n.repr
    ensures Owned(root) && TreeOf(root) == WeightBalanced.UnlinkRightMost(old(n.tree))
    ensures removed in old(n.repr) && Below(root) == old(n.repr) - {removed}
    ensures removed.value == RightMost(old(n.tree))
    decreases n.tree
  {
    hide RawNode.Valid, WeightBalanced.MaybeRebalance, Size;
    Children(n);
    if n.right != null {
      var r;
      r, removed := UnlinkRightMost(n.right);
      root := RebalanceWithRight(n, r);
    } else {
      root := n.left;
      removed := n;
    }
  }

  /** Removes the root; the last node of the left subtree takes its place. */
  method DeleteNode<K>(n: RawNode<K>) returns (root: RawNode?<K>)
    requires n.Valid()
    modifies n.repr
    ensures Owned(root) && TreeOf(root) == DeleteRoot(old(n.tree)) && Below(root) == old(n.repr) - {n}
    ensures n in old(n.repr)
  {
    hide RawNode.Valid, WeightBalanced.MaybeRebalance, WeightBalanced.UnlinkRightMost, RightMost, Size;
    Children(n);
    ghost var all := n.repr;
    if n.left != null {
      var right := n.right;
      var newLeft, newRoot := UnlinkRightMost(n.left);
      SelfOwned(newLeft);
      SelfOwned(right);
      UpdateLeftAndRight(newRoot, newLeft, right);
      assert newRoot.repr == all - {n};
      root := MaybeRebalance(newRoot);
    } else {
      root := n.right;
    }
  }

  function LeftMost<K>(n: RawNode<K>): (k: K)
    requires n.Valid()
    reads n, n.repr
    ensures k == First(n.tree)
    decreases n.tree
  {
    Children(n);
    if n.left != null then LeftMost(n.left) else n.value
  }

  /** Erases k if it is there.  Returns the new root, the rank of k, the key after it, the number of
      erased nodes and the erased node. */
  method Erase<K>(n: RawNode?<K>, k: K, rankSoFar: nat, successorNode: Option<K>, less: (K, K) -> bool)
    returns (root: RawNode?<K>, rank: nat, successor: Option<K>, erased: nat, extracted: RawNode?<K>)
    requires Owned(n)
    modifies Below(n)
    ensures Owned(root) && Below(root) == old(Below(n)) - One(extracted)
    ensures TreeOf(root) == WeightBalanced.Erase(old(TreeOf(n)), k, less)
    ensures rank == EraseIdx(old(TreeOf(n)), k, rankSoFar, less)
    ensures successor == EraseSuccessor(old(TreeOf(n)), k, successorNode, less)
    ensures erased + Size(TreeOf(root)) == old(Size(TreeOf(n)))
    ensures erased == if extracted == null then 0 else 1
    ensures extracted != null ==>
              extracted in old(Below(n)) && !less(extracted.value, k) && !less(k, extracted.value)
    decreases TreeOf(n)
  {
    hide RawNode.Valid, WeightBalanced.MaybeRebalance, WeightBalanced.Erase, EraseIdx, EraseSuccessor, Size,
      DeleteRoot, First;
    EraseStep(TreeOf(n), k, rankSoFar, successorNode, less);
    if n == null {
      root, rank, successor, erased, extracted := null, rankSoFar, None, 0, null;
    } else {
      Children(n);
      ghost var left, right := Below(n.left), Below(n.right);
      if less(n.value, k) {
        var sub;
        var leftSize := SizeOf(n.left);
        sub, rank, successor, erased, extracted := Erase(n.right, k, rankSoFar + 1 + leftSize, successorNode, less);
        TakenFrom(n, left, right, One(extracted));
        root := RebalanceWithRight(n, sub);
      } else if less(k, n.value) {
        var sub;
        sub, rank, successor, erased, extracted := Erase(n.left, k, rankSoFar, Some(n.value), less);
        TakenFrom(n, right, left, One(extracted));
        root := RebalanceWithLeft(n, sub);
      } else {
        rank := rankSoFar + SizeOf(n.left);
        successor := if n.right != null then Some(LeftMost(n.right)) else successorNode;
        DeletedSize(n.tree);
        root := DeleteNode(n);
        erased, extracted := 1, n;
      }
    }
  }

  /** Taking x out of one side takes it out of the whole. */
  lemma TakenFrom<T>(n: T, kept: set<T>, side: set<T>, x: set<T>)
    requires n !in side && kept !! side && x <= side
    ensures {n} + kept + (side - x) == {n} + kept + side - x
    ensures {n} + (side - x) + kept == {n} + side + kept - x
    ensures kept !! side - x && n !in side - x
  {
  }

  lemma DeletedSize<K>(t: Tree<K>)
    requires t.Node?
    ensures Size(DeleteRoot(t)) + 1 == Size(t)
  {
    DeleteRootFacts(t);
  }

  lemma EraseStep<K>(t: Tree<K>, k: K, rankSoFar: nat, after: Option<K>, less: (K, K) -> bool)
    ensures t.Leaf? ==> WeightBalanced.Erase(t, k, less) == Leaf && EraseIdx(t, k, rankSoFar, less) == rankSoFar
                        && EraseSuccessor(t, k, after, less) == None && Size(t) == 0
    ensures t.Node? ==>
      (WeightBalanced.Erase(t, k, less) ==
         (if less(t.key, k) then
            WeightBalanced.MaybeRebalance(Node(t.left, t.key, WeightBalanced.Erase(t.right, k, less)))
          else if less(k, t.key) then
            WeightBalanced.MaybeRebalance(Node(WeightBalanced.Erase(t.left, k, less), t.key, t.right))
          else DeleteRoot(t)))
    ensures t.Node? ==>
      (EraseIdx(t, k, rankSoFar, less) ==
         (if less(t.key, k) then EraseIdx(t.right, k, rankSoFar + 1 + Size(t.left), less)
         else if less(k, t.key) then EraseIdx(t.left, k, rankSoFar, less)
         else rankSoFar + Size(t.left)))
    ensures t.Node? ==>
      (EraseSuccessor(t, k, after, less) ==
         (if less(t.key, k) then EraseSuccessor(t.right, k, after, less)
         else if less(k, t.key) then EraseSuccessor(t.left, k, Some(t.key), less)
         else if t.right.Node? then Some(First(t.right)) else after))
    ensures t.Node? ==> Size(t) == 1 + Size(t.left) + Size(t.right)
  {
    hide WeightBalanced.MaybeRebalance, DeleteRoot;
  }

  // ---------------------------------------------------------------- searching

  function FindNode<K>(n: RawNode?<K>, k: K, less: (K, K) -> bool): (r: (nat, Option<K>))
    requires Owned(n)
    reads n, Below(n)
    ensures r == Find(TreeOf(n), k, less)
    decreases TreeOf(n)
  {
    if n == null then (0, None)
    else
      Children(n);
      if less(k, n.value) then FindNode(n.left, k, less)
      else if less(n.value, k) then
        var (rank, res) := FindNode(n.right, k, less);
        (SizeOf(n.left) + 1 + rank, res)
      else (SizeOf(n.left), Some(n.value))
  }

  function LowerBoundNode<K>(n: RawNode?<K>, k: K, less: (K, K) -> bool): (r: (nat, Option<K>))
    requires Owned(n)
    reads n, Below(n)
    ensures r == LowerBound(TreeOf(n), k, less)
    decreases TreeOf(n)
  {
    if n == null then (0, None)
    else
      Children(n);
      if less(k, n.value) then
        var (rank, res) := LowerBoundNode(n.left, k, less);
        if res.None? then (SizeOf(n.left), Some(n.value)) else (rank, res)
      else if less(n.value, k) then
        var (rank, res) := LowerBoundNode(n.right, k, less);
        (SizeOf(n.left) + 1 + rank, res)
      else (SizeOf(n.left), Some(n.value))
  }

  function UpperBoundNode<K>(n: RawNode?<K>, k: K, less: (K, K) -> bool): (r: (nat, Option<K>))
    requires Owned(n)
    reads n, Below(n)
    ensures r == UpperBound(TreeOf(n), k, less)
    decreases TreeOf(n)
  {
    if n == null then (0, None)
    else
      Children(n);
      if less(k, n.value) then
        var (rank, res) := UpperBoundNode(n.left, k, less);
        if res.None? then (SizeOf(n.left), Some(n.value)) else (rank, res)
      else
        var (rank, res) := UpperBoundNode(n.right, k, less);
        (SizeOf(n.left) + 1 + rank, res)
  }

  function SelectNode<K>(n: RawNode?<K>, idx: nat): (r: Option<K>)
    requires Owned(n)
    reads n, Below(n)
    ensures r == Select(TreeOf(n), idx)
    decreases TreeOf(n)
  {
    if n == null then None
    else
      Children(n);
      if SizeOf(n) <= idx then None
      else if SizeOf(n.left) == idx then Some(n.value)
      else if SizeOf(n.left) > idx then SelectNode(n.left, idx)
      else SelectNode(n.right, idx - SizeOf(n.left) - 1)
  }
}
