/** Weight-balanced trees: what the order-statistic set does to its tree, as functions on values.

    The weight of a subtree is its size plus one.  A node is in balance when neither child
    weighs more than three times the other. */
module WeightBalanced {
  import opened Trees

  const REBALANCE_FACTOR: int := 4

  ghost function Weight<K>(t: Tree<K>): nat {
    1 + Size(t)
  }

  /** 1/4 <= left_weight / total_weight <= 3/4 */
  predicate WeightsInBalance(leftWeight: int, rightWeight: int) {
    var total := leftWeight + rightWeight;
    total <= REBALANCE_FACTOR * leftWeight && REBALANCE_FACTOR * leftWeight <= (REBALANCE_FACTOR - 1) * total
  }

  ghost predicate IsInBalance<K>(t: Tree<K>)
    requires t.Node?
  {
    WeightsInBalance(Weight(t.left), Weight(t.right))
  }

  /** Every node is in balance. */
  ghost predicate Balanced<K>(t: Tree<K>) {
    t.Node? ==> IsInBalance(t) && Balanced(t.left) && Balanced(t.right)
  }

  ghost function RotateLeft<K>(t: Tree<K>): Tree<K>
    requires t.Node? && t.right.Node?
  {
    Node(Node(t.left, t.key, t.right.left), t.right.key, t.right.right)
  }

  ghost function RotateRight<K>(t: Tree<K>): Tree<K>
    requires t.Node? && t.left.Node?
  {
    Node(t.left.left, t.left.key, Node(t.left.right, t.key, t.right))
  }

  ghost function RotateRightLeft<K>(t: Tree<K>): Tree<K>
    requires t.Node? && t.right.Node? && t.right.left.Node?
  {
    RotateLeft(Node(t.left, t.key, RotateRight(t.right)))
  }

  ghost function RotateLeftRight<K>(t: Tree<K>): Tree<K>
    requires t.Node? && t.left.Node? && t.left.right.Node?
  {
    RotateRight(Node(RotateLeft(t.left), t.key, t.right))
  }

  /** Is `inner` light enough for a single rotation? */
  predicate SingleRotation(inner: int, outer: int) {
    inner * (REBALANCE_FACTOR - 1) < (inner + outer) * (REBALANCE_FACTOR - 2)
  }

  /** The children a rotation needs always exist, whatever the tree. */
  lemma RotationsExist<K>(t: Tree<K>)
    requires t.Node? && !IsInBalance(t)
    ensures Size(t.left) < Size(t.right) ==>
              t.right.Node? && (!SingleRotation(Weight(t.right.left), Weight(t.right.right)) ==> t.right.left.Node?)
    ensures Size(t.left) >= Size(t.right) ==>
              t.left.Node? && (!SingleRotation(Weight(t.left.right), Weight(t.left.left)) ==> t.left.right.Node?)
  {
  }

  ghost function MaybeRebalance<K>(t: Tree<K>): Tree<K>
    requires t.Node?
  {
    if IsInBalance(t) then t
    else
      RotationsExist(t);
      if Size(t.left) < Size(t.right) then
        if SingleRotation(Weight(t.right.left), Weight(t.right.right)) then RotateLeft(t) else RotateRightLeft(t)
      else
        if SingleRotation(Weight(t.left.right), Weight(t.left.left)) then RotateRight(t) else RotateLeftRight(t)
  }

  // What rebalancing does to a node, case by case.

  /** With 1/4 <= left_weight / total_weight <= 3/4 nothing. */
  lemma StaysInBalance<K>(t: Tree<K>)
    requires t.Node?
    requires var l, r := Size(t.left) + 1, Size(t.right) + 1; l + r <= 4 * l && 4 * l <= 3 * (l + r)
    ensures MaybeRebalance(t) == t
  {
  }

  /** With less than 1/4 on the left, and less than 2/3 of the right child in its inner half, one
      rotation to the left. */
  lemma TurnsLeft<K>(l: Tree<K>, x: K, inner: Tree<K>, y: K, outer: Tree<K>)
    requires 4 * (Size(l) + 1) < Size(l) + Size(inner) + Size(outer) + 3
    requires 3 * (Size(inner) + 1) < 2 * (Size(inner) + Size(outer) + 2)
    ensures MaybeRebalance(Node(l, x, Node(inner, y, outer))) == Node(Node(l, x, inner), y, outer)
  {
    hide Size;
    SizeParts(Node(inner, y, outer));
  }

  /** Otherwise the key between the halves goes to the top. */
  lemma TurnsRightLeft<K>(l: Tree<K>, x: K, a: Tree<K>, m: K, b: Tree<K>, y: K, outer: Tree<K>)
    requires 4 * (Size(l) + 1) < Size(l) + Size(a) + Size(b) + Size(outer) + 4
    requires 3 * (Size(a) + Size(b) + 2) >= 2 * (Size(a) + Size(b) + Size(outer) + 3)
    ensures MaybeRebalance(Node(l, x, Node(Node(a, m, b), y, outer))) == Node(Node(l, x, a), m, Node(b, y, outer))
  {
    hide Size;
    SizeParts(Node(a, m, b));
    SizeParts(Node(Node(a, m, b), y, outer));
  }

  lemma TurnsRight<K>(outer: Tree<K>, y: K, inner: Tree<K>, x: K, r: Tree<K>)
    requires 4 * (Size(r) + 1) < Size(r) + Size(inner) + Size(outer) + 3
    requires 3 * (Size(inner) + 1) < 2 * (Size(inner) + Size(outer) + 2)
    ensures MaybeRebalance(Node(Node(outer, y, inner), x, r)) == Node(outer, y, Node(inner, x, r))
  {
    hide Size;
    SizeParts(Node(outer, y, inner));
  }

  lemma TurnsLeftRight<K>(outer: Tree<K>, y: K, a: Tree<K>, m: K, b: Tree<K>, x: K, r: Tree<K>)
    requires 4 * (Size(r) + 1) < Size(r) + Size(a) + Size(b) + Size(outer) + 4
    requires 3 * (Size(a) + Size(b) + 2) >= 2 * (Size(a) + Size(b) + Size(outer) + 3)
    ensures MaybeRebalance(Node(Node(outer, y, Node(a, m, b)), x, r)) == Node(Node(outer, y, a), m, Node(b, x, r))
  {
    hide Size;
    SizeParts(Node(a, m, b));
    SizeParts(Node(outer, y, Node(a, m, b)));
  }

  ghost function Insert<K>(t: Tree<K>, k: K, less: (K, K) -> bool): Tree<K> {
    match t
    case Leaf => Node(Leaf, k, Leaf)
    case Node(l, x, r) =>
      if less(x, k) then MaybeRebalance(Node(l, x, Insert(r, k, less)))
      else if less(k, x) then MaybeRebalance(Node(Insert(l, k, less), x, r))
      else MaybeRebalance(t)
  }

  /** The tree without its last key. */
  ghost function UnlinkRightMost<K>(t: Tree<K>): Tree<K>
    requires t.Node?
  {
    if t.right.Node? then MaybeRebalance(Node(t.left, t.key, UnlinkRightMost(t.right))) else t.left
  }

  ghost function RightMost<K>(t: Tree<K>): K
    requires t.Node?
  {
    if t.right.Node? then RightMost(t.right) else t.key
  }

  ghost function DeleteRoot<K>(t: Tree<K>): Tree<K>
    requires t.Node?
  {
    if t.left.Node? then MaybeRebalance(Node(UnlinkRightMost(t.left), RightMost(t.left), t.right)) else t.right
  }

  ghost function Erase<K>(t: Tree<K>, k: K, less: (K, K) -> bool): Tree<K> {
    match t
    case Leaf => Leaf
    case Node(l, x, r) =>
      if less(x, k) then MaybeRebalance(Node(l, x, Erase(r, k, less)))
      else if less(k, x) then MaybeRebalance(Node(Erase(l, k, less), x, r))
      else DeleteRoot(t)
  }

  // ---------------------------------------------------------------- in-order sequence

  lemma RotateLeftInorder<K>(t: Tree<K>)
    requires t.Node? && t.right.Node?
    ensures Inorder(RotateLeft(t)) == Inorder(t)
  {
  }

  lemma RotateRightInorder<K>(t: Tree<K>)
    requires t.Node? && t.left.Node?
    ensures Inorder(RotateRight(t)) == Inorder(t)
  {
  }

  lemma RebalanceInorder<K>(t: Tree<K>)
    requires t.Node?
    ensures MaybeRebalance(t).Node?
    ensures Inorder(MaybeRebalance(t)) == Inorder(t)
    ensures Size(MaybeRebalance(t)) == Size(t)
  {
    InorderSize(t);
    InorderSize(MaybeRebalance(t));
    if !IsInBalance(t) {
      RotationsExist(t);
      if Size(t.left) < Size(t.right) {
        if SingleRotation(Weight(t.right.left), Weight(t.right.right)) {
          RotateLeftInorder(t);
        } else {
          RotateRightInorder(t.right);
          RotateLeftInorder(Node(t.left, t.key, RotateRight(t.right)));
        }
      } else {
        if SingleRotation(Weight(t.left.right), Weight(t.left.left)) {
          RotateRightInorder(t);
        } else {
          RotateLeftInorder(t.left);
          RotateRightInorder(Node(RotateLeft(t.left), t.key, t.right));
        }
      }
    }
  }

  // ---------------------------------------------------------------- balance

  /** A node whose children were in balance before one of them gained or lost one key. */
  ghost predicate NearBalance(lw: int, rw: int) {
    || WeightsInBalance(lw, rw)
    || WeightsInBalance(lw - 1, rw) || WeightsInBalance(lw, rw - 1)
    || WeightsInBalance(lw + 1, rw) || WeightsInBalance(lw, rw + 1)
  }

  lemma SingleLeftWeights(lw: int, rl: int, rr: int)
    requires lw >= 1 && rl >= 1 && rr >= 1 && WeightsInBalance(rl, rr) && NearBalance(lw, rl + rr)
    requires lw < rl + rr && !WeightsInBalance(lw, rl + rr) && SingleRotation(rl, rr)
    ensures WeightsInBalance(lw, rl) && WeightsInBalance(lw + rl, rr)
    ensures WeightsInBalance(rl, lw) && WeightsInBalance(rr, lw + rl)
  {
  }

  lemma DoubleLeftWeights(lw: int, a: int, b: int, rr: int)
    requires lw >= 1 && a >= 1 && b >= 1 && rr >= 1
    requires WeightsInBalance(a + b, rr) && WeightsInBalance(a, b) && NearBalance(lw, a + b + rr)
    requires lw < a + b + rr && !WeightsInBalance(lw, a + b + rr) && !SingleRotation(a + b, rr)
    ensures WeightsInBalance(lw, a) && WeightsInBalance(b, rr) && WeightsInBalance(lw + a, b + rr)
    ensures WeightsInBalance(a, lw) && WeightsInBalance(rr, b) && WeightsInBalance(b + rr, lw + a)
  {
  }

  lemma WeightsSymmetric(a: int, b: int)
    ensures WeightsInBalance(a, b) <==> WeightsInBalance(b, a)
  {
  }

  lemma BalancedNode<K>(l: Tree<K>, k: K, r: Tree<K>)
    requires Balanced(l) && Balanced(r) && WeightsInBalance(Weight(l), Weight(r))
    ensures Balanced(Node(l, k, r))
    ensures Weight(Node(l, k, r)) == Weight(l) + Weight(r)
  {
  }

  lemma BalancedParts<K>(t: Tree<K>)
    requires t.Node? && Balanced(t)
    ensures Balanced(t.left) && Balanced(t.right) && WeightsInBalance(Weight(t.left), Weight(t.right))
    ensures Weight(t) == Weight(t.left) + Weight(t.right)
  {
  }

  lemma WeightIsSize<K>(t: Tree<K>)
    ensures Weight(t) == Size(t) + 1 >= 1
  {
  }

  /** A node near balance that is too heavy on the right. */
  ghost predicate RightHeavy<K>(t: Tree<K>) {
    && t.Node? && Balanced(t.left) && Balanced(t.right)
    && NearBalance(Weight(t.left), Weight(t.right)) && !IsInBalance(t) && Size(t.left) < Size(t.right)
  }

  ghost predicate LeftHeavy<K>(t: Tree<K>) {
    && t.Node? && Balanced(t.left) && Balanced(t.right)
    && NearBalance(Weight(t.left), Weight(t.right)) && !IsInBalance(t) && Size(t.left) > Size(t.right)
  }

  lemma SingleLeftBalances<K>(t: Tree<K>)
    requires RightHeavy(t) && t.right.Node? && SingleRotation(Weight(t.right.left), Weight(t.right.right))
    ensures Balanced(RotateLeft(t))
  {
    hide Balanced, Weight, WeightsInBalance, NearBalance, SingleRotation;
    var l, rl, rr := t.left, t.right.left, t.right.right;
    BalancedParts(t.right);
    WeightIsSize(l);
    WeightIsSize(t.right);
    WeightIsSize(rl);
    WeightIsSize(rr);
    SingleLeftWeights(Weight(l), Weight(rl), Weight(rr));
    BalancedNode(l, t.key, rl);
    BalancedNode(Node(l, t.key, rl), t.right.key, rr);
  }

  lemma DoubleLeftBalances<K>(t: Tree<K>)
    requires RightHeavy(t) && t.right.Node? && !SingleRotation(Weight(t.right.left), Weight(t.right.right))
    requires t.right.left.Node?
    ensures Balanced(RotateRightLeft(t))
  {
    hide Balanced, Weight, WeightsInBalance, NearBalance, SingleRotation;
    var l, rl, rr := t.left, t.right.left, t.right.right;
    BalancedParts(t.right);
    BalancedParts(rl);
    WeightIsSize(l);
    WeightIsSize(t.right);
    WeightIsSize(rr);
    WeightIsSize(rl.left);
    WeightIsSize(rl.right);
    DoubleLeftWeights(Weight(l), Weight(rl.left), Weight(rl.right), Weight(rr));
    BalancedNode(l, t.key, rl.left);
    BalancedNode(rl.right, t.right.key, rr);
    BalancedNode(Node(l, t.key, rl.left), rl.key, Node(rl.right, t.right.key, rr));
  }

  lemma SingleRightBalances<K>(t: Tree<K>)
    requires LeftHeavy(t) && t.left.Node? && SingleRotation(Weight(t.left.right), Weight(t.left.left))
    ensures Balanced(RotateRight(t))
  {
    hide Balanced, Weight, WeightsInBalance, NearBalance, SingleRotation;
    var r, ll, lr := t.right, t.left.left, t.left.right;
    BalancedParts(t.left);
    WeightIsSize(r);
    WeightIsSize(t.left);
    WeightIsSize(ll);
    WeightIsSize(lr);
    WeightsSymmetric(Weight(ll), Weight(lr));
    WeightsSymmetric(Weight(t.left), Weight(r));
    NearSymmetric(Weight(t.left), Weight(r));
    SingleLeftWeights(Weight(r), Weight(lr), Weight(ll));
    BalancedNode(lr, t.key, r);
    BalancedNode(ll, t.left.key, Node(lr, t.key, r));
  }

  lemma DoubleRightBalances<K>(t: Tree<K>)
    requires LeftHeavy(t) && t.left.Node? && !SingleRotation(Weight(t.left.right), Weight(t.left.left))
    requires t.left.right.Node?
    ensures Balanced(RotateLeftRight(t))
  {
    hide Balanced, Weight, WeightsInBalance, NearBalance, SingleRotation;
    var r, ll, lr := t.right, t.left.left, t.left.right;
    BalancedParts(t.left);
    BalancedParts(lr);
    WeightIsSize(r);
    WeightIsSize(t.left);
    WeightIsSize(ll);
    WeightIsSize(lr.left);
    WeightIsSize(lr.right);
    WeightsSymmetric(Weight(ll), Weight(lr));
    WeightsSymmetric(Weight(lr.left), Weight(lr.right));
    WeightsSymmetric(Weight(t.left), Weight(r));
    NearSymmetric(Weight(t.left), Weight(r));
    DoubleLeftWeights(Weight(r), Weight(lr.right), Weight(lr.left), Weight(ll));
    BalancedNode(lr.right, t.key, r);
    BalancedNode(ll, t.left.key, lr.left);
    BalancedNode(Node(ll, t.left.key, lr.left), lr.key, Node(lr.right, t.key, r));
  }

  lemma NearSymmetric(a: int, b: int)
    ensures NearBalance(a, b) <==> NearBalance(b, a)
  {
  }

  /** One rotation repairs a node that one insertion or deletion below it has unbalanced. */
  lemma RebalanceBalances<K>(t: Tree<K>)
    requires t.Node? && Balanced(t.left) && Balanced(t.right) && NearBalance(Weight(t.left), Weight(t.right))
    ensures Balanced(MaybeRebalance(t))
  {
    hide Balanced, Weight, NearBalance, SingleRotation, RotateLeft, RotateRight, RotateLeftRight, RotateRightLeft;
    if IsInBalance(t) {
      BalancedNode(t.left, t.key, t.right);
    } else {
      RotationsExist(t);
      if Size(t.left) < Size(t.right) {
        if SingleRotation(Weight(t.right.left), Weight(t.right.right)) {
          SingleLeftBalances(t);
        } else {
          DoubleLeftBalances(t);
        }
      } else {
        EqualSizesBalance(t);
        if SingleRotation(Weight(t.left.right), Weight(t.left.left)) {
          SingleRightBalances(t);
        } else {
          DoubleRightBalances(t);
        }
      }
    }
  }

  lemma EqualSizesBalance<K>(t: Tree<K>)
    requires t.Node? && !IsInBalance(t)
    ensures Size(t.left) != Size(t.right)
  {
  }

  lemma {:induction false} InsertSize<K>(t: Tree<K>, k: K, less: (K, K) -> bool)
    ensures Size(t) <= Size(Insert(t, k, less)) <= Size(t) + 1
  {
    match t
    case Leaf =>
    case Node(l, x, r) =>
      InsertSize(l, k, less);
      InsertSize(r, k, less);
      RebalanceInorder(Node(l, x, Insert(r, k, less)));
      RebalanceInorder(Node(Insert(l, k, less), x, r));
      RebalanceInorder(t);
  }

  /** Insertion keeps every node in balance. */
  lemma {:induction false} InsertBalanced<K>(t: Tree<K>, k: K, less: (K, K) -> bool)
    requires Balanced(t)
    ensures Balanced(Insert(t, k, less))
  {
    hide MaybeRebalance;
    match t
    case Leaf =>
    case Node(l, x, r) =>
      InsertBalanced(l, k, less);
      InsertBalanced(r, k, less);
      InsertSize(l, k, less);
      InsertSize(r, k, less);
      if less(x, k) {
        RebalanceBalances(Node(l, x, Insert(r, k, less)));
      } else if less(k, x) {
        RebalanceBalances(Node(Insert(l, k, less), x, r));
      } else {
        RebalanceBalances(t);
      }
  }

  lemma {:induction false} UnlinkFacts<K>(t: Tree<K>)
    requires t.Node?
    ensures Size(UnlinkRightMost(t)) == Size(t) - 1
    ensures Inorder(UnlinkRightMost(t)) + [RightMost(t)] == Inorder(t)
    ensures Balanced(t) ==> Balanced(UnlinkRightMost(t))
  {
    hide MaybeRebalance;
    if t.right.Node? {
      UnlinkFacts(t.right);
      var t' := Node(t.left, t.key, UnlinkRightMost(t.right));
      RebalanceInorder(t');
      if Balanced(t) { RebalanceBalances(t'); }
    } else {
      assert Inorder(t.right) == [];
    }
  }

  /** Deleting the root keeps the other keys and the balance. */
  lemma DeleteRootFacts<K>(t: Tree<K>)
    requires t.Node?
    ensures Size(DeleteRoot(t)) == Size(t) - 1
    ensures Inorder(DeleteRoot(t)) == Inorder(t.left) + Inorder(t.right)
    ensures Balanced(t) ==> Balanced(DeleteRoot(t))
  {
    hide MaybeRebalance;
    if t.left.Node? {
      UnlinkFacts(t.left);
      var t' := Node(UnlinkRightMost(t.left), RightMost(t.left), t.right);
      RebalanceInorder(t');
      if Balanced(t) { RebalanceBalances(t'); }
    } else {
      assert Inorder(t.left) == [];
      assert Inorder(t.left) + Inorder(t.right) == Inorder(t.right);
    }
  }

  /** The last key on the left takes the place of a deleted root; where that keeps the weights in
      balance nothing else moves. */
  lemma DeletedRootIsReplaced<K>(t: Tree<K>)
    requires t.Node? && t.left.Node?
    requires var l, r := Size(t.left), Size(t.right) + 1; l + r <= 4 * l && 4 * l <= 3 * (l + r)
    ensures |Inorder(t.left)| == Size(t.left) > 0
    ensures var d, s := DeleteRoot(t), Inorder(t.left);
            d.Node? && d.right == t.right && d.key == s[|s| - 1] && Inorder(d.left) == s[..|s| - 1]
  {
    hide MaybeRebalance, UnlinkRightMost, RightMost;
    InorderSize(t.left);
    UnlinkFacts(t.left);
    var d := Node(UnlinkRightMost(t.left), RightMost(t.left), t.right);
    StaysInBalance(d);
    assert Inorder(t.left) == Inorder(d.left) + [d.key];
  }

  lemma {:induction false} EraseSize<K>(t: Tree<K>, k: K, less: (K, K) -> bool)
    ensures Size(t) - 1 <= Size(Erase(t, k, less)) <= Size(t)
  {
    hide MaybeRebalance, DeleteRoot;
    match t
    case Leaf =>
    case Node(l, x, r) =>
      EraseSize(l, k, less);
      EraseSize(r, k, less);
      RebalanceInorder(Node(l, x, Erase(r, k, less)));
      RebalanceInorder(Node(Erase(l, k, less), x, r));
      DeleteRootFacts(t);
  }

  /** Deletion keeps every node in balance. */
  lemma {:induction false} EraseBalanced<K>(t: Tree<K>, k: K, less: (K, K) -> bool)
    requires Balanced(t)
    ensures Balanced(Erase(t, k, less))
  {
    hide MaybeRebalance, DeleteRoot;
    match t
    case Leaf =>
    case Node(l, x, r) =>
      EraseBalanced(l, k, less);
      EraseBalanced(r, k, less);
      EraseSize(l, k, less);
      EraseSize(r, k, less);
      if less(x, k) {
        RebalanceBalances(Node(l, x, Erase(r, k, less)));
      } else if less(k, x) {
        RebalanceBalances(Node(Erase(l, k, less), x, r));
      } else {
        DeleteRootFacts(t);
      }
  }

  // ---------------------------------------------------------------- height

  /** size + 1 >= (4/3)^height in every balanced tree, so the height is logarithmic. */
  lemma {:induction false} HeightIsLogarithmic<K>(t: Tree<K>)
    requires Balanced(t)
    ensures Pow(4, Height(t)) <= Pow(3, Height(t)) * Weight(t)
  {
    if t.Node? {
      HeightIsLogarithmic(t.left);
      HeightIsLogarithmic(t.right);
      var c := if Height(t.left) >= Height(t.right) then t.left else t.right;
      var h := Height(c);
      // the heavier side has at most three quarters of the weight
      assert 4 * Weight(c) <= 3 * Weight(t);
      HeavyStep(Pow(4, h), Pow(3, h), Weight(c), Weight(t));
    }
  }

  lemma HeavyStep(four: nat, three: nat, w: nat, total: nat)
    requires four <= three * w && 4 * w <= 3 * total
    ensures 4 * four <= 3 * three * total
  {
    assert 4 * (three * w) == three * (4 * w);
    assert three * (4 * w) <= three * (3 * total);
    assert three * (3 * total) == 3 * three * total;
  }
}
