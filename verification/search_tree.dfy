/** The weight-balanced tree as a sorted sequence: insertion, deletion, searching and selection. */
module SearchTrees {
  import opened Trees
  import opened WeightBalanced

  datatype Option<+T> = None | Some(value: T)

  // ---------------------------------------------------------------- sorted sequences

  ghost function InsertSorted<K>(s: seq<K>, k: K, less: (K, K) -> bool): seq<K> {
    if k in s then s
    else
      var r := Rank(s, k, less);
      s[..r] + [k] + s[r..]
  }

  ghost function RemoveSorted<K>(s: seq<K>, k: K, less: (K, K) -> bool): seq<K> {
    if k !in s then s
    else
      var r := Rank(s, k, less);
      if r < |s| then s[..r] + s[r + 1..] else s
  }

  lemma InParts<K(!new)>(a: seq<K>, x: K, b: seq<K>, k: K, less: (K, K) -> bool)
    requires StrictOrder(less) && SortedBy(a + [x] + b, less)
    ensures less(x, k) ==> (k in a + [x] + b <==> k in b)
    ensures less(k, x) ==> (k in a + [x] + b <==> k in a)
  {
    SortedParts(a, x, b, less);
  }

  lemma CutRight<K>(a: seq<K>, x: K, b: seq<K>, r: nat)
    requires r <= |b|
    ensures (a + [x] + b)[..|a| + 1 + r] == a + [x] + b[..r]
    ensures (a + [x] + b)[|a| + 1 + r..] == b[r..]
  {
  }

  lemma CutLeft<K>(a: seq<K>, x: K, b: seq<K>, r: nat)
    requires r <= |a|
    ensures (a + [x] + b)[..r] == a[..r]
    ensures (a + [x] + b)[r..] == a[r..] + [x] + b
  {
  }

  lemma InsertRight<K(!new)>(a: seq<K>, x: K, b: seq<K>, k: K, less: (K, K) -> bool)
    requires StrictOrder(less) && SortedBy(a + [x] + b, less) && less(x, k)
    ensures InsertSorted(a + [x] + b, k, less) == a + [x] + InsertSorted(b, k, less)
  {
    hide StrictOrder, SortedBy, Rank;
    InParts(a, x, b, k, less);
    RankAtNode(a, x, b, k, less);
    CutRight(a, x, b, Rank(b, k, less));
  }

  lemma InsertLeft<K(!new)>(a: seq<K>, x: K, b: seq<K>, k: K, less: (K, K) -> bool)
    requires StrictOrder(less) && SortedBy(a + [x] + b, less) && less(k, x)
    ensures InsertSorted(a + [x] + b, k, less) == InsertSorted(a, k, less) + [x] + b
  {
    hide StrictOrder, SortedBy, Rank;
    InParts(a, x, b, k, less);
    RankAtNode(a, x, b, k, less);
    Asymmetric(k, x, less);
    CutLeft(a, x, b, Rank(a, k, less));
  }

  lemma RemoveRight<K(!new)>(a: seq<K>, x: K, b: seq<K>, k: K, less: (K, K) -> bool)
    requires StrictOrder(less) && SortedBy(a + [x] + b, less) && less(x, k)
    ensures RemoveSorted(a + [x] + b, k, less) == a + [x] + RemoveSorted(b, k, less)
  {
    hide StrictOrder, SortedBy, Rank;
    InParts(a, x, b, k, less);
    RankAtNode(a, x, b, k, less);
    if k in b {
      var rb := Rank(b, k, less);
      PresentRank(b, k, less, a, x, true);
      CutRight(a, x, b, rb);
      CutRight(a, x, b, rb + 1);
    }
  }

  lemma RemoveLeft<K(!new)>(a: seq<K>, x: K, b: seq<K>, k: K, less: (K, K) -> bool)
    requires StrictOrder(less) && SortedBy(a + [x] + b, less) && less(k, x)
    ensures RemoveSorted(a + [x] + b, k, less) == RemoveSorted(a, k, less) + [x] + b
  {
    hide StrictOrder, SortedBy, Rank;
    InParts(a, x, b, k, less);
    RankAtNode(a, x, b, k, less);
    Asymmetric(k, x, less);
    if k in a {
      var ra := Rank(a, k, less);
      PresentRank(a, k, less, b, x, false);
      CutLeft(a, x, b, ra);
      CutLeft(a, x, b, ra + 1);
    }
  }

  lemma RemoveHere<K(!new)>(a: seq<K>, x: K, b: seq<K>, less: (K, K) -> bool)
    requires StrictOrder(less) && SortedBy(a + [x] + b, less)
    ensures RemoveSorted(a + [x] + b, x, less) == a + b
  {
    hide StrictOrder, SortedBy, Rank;
    RankAtNode(a, x, b, x, less);
    assert (a + [x] + b)[|a|] == x;
    CutLeft(a, x, b, |a|);
    CutRight(a, x, b, 0);
  }

  lemma RemoveAtNode<K(!new)>(a: seq<K>, x: K, b: seq<K>, k: K, less: (K, K) -> bool)
    requires StrictOrder(less) && SortedBy(a + [x] + b, less)
    ensures less(x, k) ==> RemoveSorted(a + [x] + b, k, less) == a + [x] + RemoveSorted(b, k, less)
    ensures less(k, x) ==> RemoveSorted(a + [x] + b, k, less) == RemoveSorted(a, k, less) + [x] + b
    ensures k == x ==> RemoveSorted(a + [x] + b, k, less) == a + b
  {
    hide StrictOrder, SortedBy, RemoveSorted;
    if less(x, k) { RemoveRight(a, x, b, k, less); }
    if less(k, x) { RemoveLeft(a, x, b, k, less); }
    RemoveHere(a, x, b, less);
  }

  lemma PresentRank<K(!new)>(s: seq<K>, k: K, less: (K, K) -> bool, other: seq<K>, x: K, right: bool)
    requires StrictOrder(less) && k in s
    requires SortedBy(if right then other + [x] + s else s + [x] + other, less)
    ensures Rank(s, k, less) < |s|
  {
    if right { SortedParts(other, x, s, less); } else { SortedParts(s, x, other, less); }
    var i :| 0 <= i < |s| && s[i] == k;
    RankIsIndex(s, i, less);
  }

  // ---------------------------------------------------------------- insertion and deletion

  /** Insertion is insertion into the sorted sequence. */
  lemma {:induction false} InsertRefines<K(!new)>(t: Tree<K>, k: K, less: (K, K) -> bool)
    requires StrictOrder(less) && SearchTree(t, less)
    ensures Inorder(Insert(t, k, less)) == InsertSorted(Inorder(t), k, less)
  {
    hide MaybeRebalance, InsertSorted, SortedBy, StrictOrder, Rank;
    match t
    case Leaf =>
      InsertNone(k, less);
    case Node(l, x, r) =>
      SortedParts(Inorder(l), x, Inorder(r), less);
      if less(x, k) {
        InsertRight(Inorder(l), x, Inorder(r), k, less);
        InsertRefines(r, k, less);
        RebalanceInorder(Node(l, x, Insert(r, k, less)));
      } else if less(k, x) {
        InsertLeft(Inorder(l), x, Inorder(r), k, less);
        InsertRefines(l, k, less);
        RebalanceInorder(Node(Insert(l, k, less), x, r));
      } else {
        Trichotomy(x, k, less);
        RebalanceInorder(t);
        InsertPresent(Inorder(l), x, Inorder(r), less);
      }
  }

  lemma Trichotomy<K(!new)>(x: K, k: K, less: (K, K) -> bool)
    requires StrictOrder(less) && !less(x, k) && !less(k, x)
    ensures x == k
  {
  }

  lemma InsertNone<K>(k: K, less: (K, K) -> bool)
    ensures InsertSorted([], k, less) == [k]
  {
  }

  lemma InsertPresent<K>(a: seq<K>, x: K, b: seq<K>, less: (K, K) -> bool)
    ensures InsertSorted(a + [x] + b, x, less) == a + [x] + b
  {
    assert (a + [x] + b)[|a|] == x;
  }

  /** Deletion is deletion from the sorted sequence. */
  lemma {:induction false} EraseRefines<K(!new)>(t: Tree<K>, k: K, less: (K, K) -> bool)
    requires StrictOrder(less) && SearchTree(t, less)
    ensures Inorder(Erase(t, k, less)) == RemoveSorted(Inorder(t), k, less)
  {
    hide MaybeRebalance, RemoveSorted, SortedBy, StrictOrder, Rank, DeleteRoot;
    match t
    case Leaf =>
      RemoveNone(k, less);
    case Node(l, x, r) =>
      SortedParts(Inorder(l), x, Inorder(r), less);
      RemoveAtNode(Inorder(l), x, Inorder(r), k, less);
      if less(x, k) {
        EraseRefines(r, k, less);
        RebalanceInorder(Node(l, x, Erase(r, k, less)));
      } else if less(k, x) {
        EraseRefines(l, k, less);
        RebalanceInorder(Node(Erase(l, k, less), x, r));
      } else {
        Trichotomy(x, k, less);
        DeleteRootFacts(t);
      }
  }

  /** In a balanced tree, erasing an absent key changes nothing at all. */
  lemma {:induction false} EraseAbsentUnchanged<K(!new)>(t: Tree<K>, k: K, less: (K, K) -> bool)
    requires StrictOrder(less) && SearchTree(t, less) && Balanced(t) && k !in Inorder(t)
    ensures Erase(t, k, less) == t
  {
    hide SortedBy, StrictOrder;
    match t
    case Leaf =>
    case Node(l, x, r) =>
      SortedParts(Inorder(l), x, Inorder(r), less);
      InParts(Inorder(l), x, Inorder(r), k, less);
      InMiddle(Inorder(l), x, Inorder(r));
      Compare(x, k, less);
      StaysInBalance(t);
      if less(x, k) {
        EraseAbsentUnchanged(r, k, less);
      } else {
        EraseAbsentUnchanged(l, k, less);
      }
  }

  /** Nor does inserting a key that is there. */
  lemma {:induction false} InsertPresentUnchanged<K(!new)>(t: Tree<K>, k: K, less: (K, K) -> bool)
    requires StrictOrder(less) && SearchTree(t, less) && Balanced(t) && k in Inorder(t)
    ensures Insert(t, k, less) == t
  {
    hide SortedBy, StrictOrder;
    match t
    case Leaf =>
    case Node(l, x, r) =>
      SortedParts(Inorder(l), x, Inorder(r), less);
      InParts(Inorder(l), x, Inorder(r), k, less);
      StaysInBalance(t);
      if less(x, k) {
        InsertPresentUnchanged(r, k, less);
      } else if less(k, x) {
        InsertPresentUnchanged(l, k, less);
      }
  }

  lemma RemoveNone<K>(k: K, less: (K, K) -> bool)
    ensures RemoveSorted([], k, less) == []
  {
  }

  lemma InsertKeepsSorted<K(!new)>(s: seq<K>, k: K, less: (K, K) -> bool)
    requires StrictOrder(less) && SortedBy(s, less)
    ensures SortedBy(InsertSorted(s, k, less), less)
  {
    if k !in s {
      var r := Rank(s, k, less);
      RankSplits(s, k, less);
      assert s == s[..r] + s[r..];
      SortedParts(s[..r], k, s[r..], less);
    }
  }

  lemma {:induction false} RankSplits<K(!new)>(s: seq<K>, k: K, less: (K, K) -> bool)
    requires StrictOrder(less) && SortedBy(s, less)
    ensures forall i :: 0 <= i < |s| ==> (less(s[i], k) <==> i < Rank(s, k, less))
  {
    if s != [] {
      var init := s[..|s| - 1];
      RankSplits(init, k, less);
      if less(s[|s| - 1], k) {
        RankAll(init, k, less);
        forall i | 0 <= i < |init| ensures less(init[i], k) { assert less(s[i], s[|s| - 1]); }
      }
    }
  }

  lemma RemoveKeepsSorted<K>(s: seq<K>, k: K, less: (K, K) -> bool)
    requires SortedBy(s, less)
    ensures SortedBy(RemoveSorted(s, k, less), less)
  {
  }

  // ---------------------------------------------------------------- the returned index

  /** The index that insertion returns, computed on the way down from `rankSoFar`. */
  ghost function InsertIdx<K>(t: Tree<K>, k: K, rankSoFar: nat, less: (K, K) -> bool): nat {
    match t
    case Leaf => rankSoFar
    case Node(l, x, r) =>
      if less(x, k) then InsertIdx(r, k, rankSoFar + Size(l) + 1, less)
      else if less(k, x) then InsertIdx(l, k, rankSoFar, less)
      else rankSoFar
  }

  /** Size of the left subtree of the node that holds k, 0 if there is none. */
  ghost function LeftSizeAt<K>(t: Tree<K>, k: K, less: (K, K) -> bool): nat {
    match t
    case Leaf => 0
    case Node(l, x, r) =>
      if less(x, k) then LeftSizeAt(r, k, less)
      else if less(k, x) then LeftSizeAt(l, k, less)
      else Size(l)
  }

  /** The documentation promises the rank of k after the insertion.  That holds exactly when k has
      no keys to its left in its own subtree, so always for a new key. */
  lemma {:induction false} InsertIdxIsRank<K(!new)>(t: Tree<K>, k: K, rankSoFar: nat, less: (K, K) -> bool)
    requires StrictOrder(less) && SearchTree(t, less)
    ensures InsertIdx(t, k, rankSoFar, less) == rankSoFar + Rank(Inorder(t), k, less)
            <==> LeftSizeAt(t, k, less) == 0
    ensures InsertIdx(t, k, rankSoFar, less) + LeftSizeAt(t, k, less) == rankSoFar + Rank(Inorder(t), k, less)
    ensures k !in Inorder(t) ==> LeftSizeAt(t, k, less) == 0
  {
    hide SortedBy, StrictOrder;
    match t
    case Leaf =>
    case Node(l, x, r) =>
      SortedParts(Inorder(l), x, Inorder(r), less);
      RankAtNode(Inorder(l), x, Inorder(r), k, less);
      InorderSize(l);
      if less(x, k) {
        InParts(Inorder(l), x, Inorder(r), k, less);
        InsertIdxIsRank(r, k, rankSoFar + Size(l) + 1, less);
      } else if less(k, x) {
        InParts(Inorder(l), x, Inorder(r), k, less);
        InsertIdxIsRank(l, k, rankSoFar, less);
      } else {
        Trichotomy(x, k, less);
        assert (Inorder(l) + [x] + Inorder(r))[|Inorder(l)|] == x;
      }
  }

  /** After inserting 2 and 1, inserting 2 again does not return its rank. */
  lemma InsertIdxOfPresentKey(less: (int, int) -> bool)
    requires StrictOrder(less) && less(1, 2)
    ensures var t := Insert(Insert(Leaf, 2, less), 1, less);
            InsertIdx(t, 2, 0, less) == 0 && Rank(Inorder(t), 2, less) == 1
  {
    var t := Node(Node(Leaf, 1, Leaf), 2, Leaf);
    TwoInsertions(less);
    assert Inorder(t) == [] + [1] + [] + [2] + [] == [1, 2];
    assert Rank([1, 2][..1], 2, less) == 1 by { assert [1, 2][..1] == [1]; }
  }

  lemma TwoInsertions(less: (int, int) -> bool)
    requires StrictOrder(less) && less(1, 2)
    ensures Insert(Insert(Leaf, 2, less), 1, less) == Node(Node(Leaf, 1, Leaf), 2, Leaf)
  {
    var t := Node(Node(Leaf, 1, Leaf), 2, Leaf);
    assert Insert(Leaf, 2, less) == Node(Leaf, 2, Leaf);
    assert Insert(Leaf, 1, less) == Node(Leaf, 1, Leaf);
    assert Size(t.left) == 1 && IsInBalance(t);
  }

  ghost function EraseIdx<K>(t: Tree<K>, k: K, rankSoFar: nat, less: (K, K) -> bool): nat {
    match t
    case Leaf => rankSoFar
    case Node(l, x, r) =>
      if less(x, k) then EraseIdx(r, k, rankSoFar + 1 + Size(l), less)
      else if less(k, x) then EraseIdx(l, k, rankSoFar, less)
      else rankSoFar + Size(l)
  }

  ghost function First<K>(t: Tree<K>): K
    requires t.Node?
  {
    if t.left.Node? then First(t.left) else t.key
  }

  /** The successor that deletion returns; `after` is the next key right of the subtree. */
  ghost function EraseSuccessor<K>(t: Tree<K>, k: K, after: Option<K>, less: (K, K) -> bool): Option<K> {
    match t
    case Leaf => None
    case Node(l, x, r) =>
      if less(x, k) then EraseSuccessor(r, k, after, less)
      else if less(k, x) then EraseSuccessor(l, k, Some(x), less)
      else if r.Node? then Some(First(r)) else after
  }

  ghost function At<K>(s: seq<K>, i: nat): Option<K> {
    if i < |s| then Some(s[i]) else None
  }

  lemma {:induction false} FirstIsFirst<K>(t: Tree<K>)
    requires t.Node?
    ensures |Inorder(t)| > 0 && Inorder(t)[0] == First(t)
  {
    if t.left.Node? { FirstIsFirst(t.left); }
  }

  /** Deletion returns the rank of k, which is now the rank of the returned successor. */
  lemma {:induction false} EraseIdxIsRank<K(!new)>(t: Tree<K>, k: K, rankSoFar: nat, after: Option<K>,
      less: (K, K) -> bool)
    requires StrictOrder(less) && SearchTree(t, less) && k in Inorder(t)
    ensures EraseIdx(t, k, rankSoFar, less) == rankSoFar + Rank(Inorder(t), k, less)
    ensures var r := Rank(Inorder(t), k, less);
            EraseSuccessor(t, k, after, less) == if r + 1 < |Inorder(t)| then Some(Inorder(t)[r + 1]) else after
  {
    hide SortedBy, StrictOrder, Rank, Size;
    var l, x, r := t.left, t.key, t.right;
    var a, b := Inorder(l), Inorder(r);
    assert Inorder(t) == a + [x] + b;
    SortedParts(a, x, b, less);
    RankAtNode(a, x, b, k, less);
    InorderSize(l);
    InParts(a, x, b, k, less);
    if less(x, k) {
      EraseIdxIsRank(r, k, rankSoFar + Size(l) + 1, after, less);
      PresentRank(b, k, less, a, x, true);
    } else if less(k, x) {
      EraseIdxIsRank(l, k, rankSoFar, Some(x), less);
      PresentRank(a, k, less, b, x, false);
    } else {
      Trichotomy(x, k, less);
      if r.Node? { FirstIsFirst(r); }
    }
  }

  /** Deletion of an absent key returns its rank and no successor. */
  lemma {:induction false} EraseOfAbsentKey<K(!new)>(t: Tree<K>, k: K, rankSoFar: nat, after: Option<K>,
      less: (K, K) -> bool)
    requires StrictOrder(less) && SearchTree(t, less) && k !in Inorder(t)
    ensures EraseIdx(t, k, rankSoFar, less) == rankSoFar + Rank(Inorder(t), k, less)
    ensures EraseSuccessor(t, k, after, less) == None
  {
    hide SortedBy, StrictOrder;
    match t
    case Leaf =>
    case Node(l, x, r) =>
      var a, b := Inorder(l), Inorder(r);
      SortedParts(a, x, b, less);
      RankAtNode(a, x, b, k, less);
      InorderSize(l);
      InParts(a, x, b, k, less);
      Compare(x, k, less);
      InMiddle(a, x, b);
      if less(x, k) {
        EraseOfAbsentKey(r, k, rankSoFar + Size(l) + 1, after, less);
      } else {
        EraseOfAbsentKey(l, k, rankSoFar, Some(x), less);
      }
  }

  lemma InMiddle<K>(a: seq<K>, x: K, b: seq<K>)
    ensures x in a + [x] + b
  {
    assert (a + [x] + b)[|a|] == x;
  }

  /** The documentation promises the first key after k as the successor.  That is what deletion returns
      exactly when k is in the tree, or no key is after it. */
  lemma EraseSuccessorIsNext<K(!new)>(t: Tree<K>, k: K, less: (K, K) -> bool)
    requires StrictOrder(less) && SearchTree(t, less)
    ensures EraseSuccessor(t, k, None, less) == At(Inorder(t), RankUpTo(Inorder(t), k, less))
            <==> k in Inorder(t) || Rank(Inorder(t), k, less) == |Inorder(t)|
    ensures EraseIdx(t, k, 0, less) == Rank(Inorder(t), k, less)
  {
    hide SortedBy, StrictOrder, Rank, RankUpTo, EraseIdx, EraseSuccessor;
    RankUpToIs(Inorder(t), k, less);
    if k in Inorder(t) {
      EraseIdxIsRank(t, k, 0, None, less);
    } else {
      EraseOfAbsentKey(t, k, 0, None, less);
    }
  }

  /** In the tree of the key 2, erasing 1 returns no successor although 2 is after it. */
  lemma EraseSuccessorOfAbsentKey(less: (int, int) -> bool)
    requires StrictOrder(less) && less(1, 2)
    ensures var t := Insert(Leaf, 2, less);
            && EraseSuccessor(t, 1, None, less) == None
            && At(Inorder(t), RankUpTo(Inorder(t), 1, less)) == Some(2)
  {
    var t := Node(Leaf, 2, Leaf);
    assert Insert(Leaf, 2, less) == t;
    assert Inorder(t) == [] + [2] + [] == [2];
    assert [2][..0] == [];
    assert RankUpTo([2], 1, less) == 0;
  }

  // ---------------------------------------------------------------- searching

  ghost function Find<K>(t: Tree<K>, k: K, less: (K, K) -> bool): (nat, Option<K>) {
    match t
    case Leaf => (0, None)
    case Node(l, x, r) =>
      if less(k, x) then Find(l, k, less)
      else if less(x, k) then var (rank, res) := Find(r, k, less); (Size(l) + 1 + rank, res)
      else (Size(l), Some(x))
  }

  ghost function LowerBound<K>(t: Tree<K>, k: K, less: (K, K) -> bool): (nat, Option<K>) {
    match t
    case Leaf => (0, None)
    case Node(l, x, r) =>
      if less(k, x) then
        var (rank, res) := LowerBound(l, k, less);
        if res.None? then (Size(l), Some(x)) else (rank, res)
      else if less(x, k) then var (rank, res) := LowerBound(r, k, less); (Size(l) + 1 + rank, res)
      else (Size(l), Some(x))
  }

  ghost function UpperBound<K>(t: Tree<K>, k: K, less: (K, K) -> bool): (nat, Option<K>) {
    match t
    case Leaf => (0, None)
    case Node(l, x, r) =>
      if less(k, x) then
        var (rank, res) := UpperBound(l, k, less);
        if res.None? then (Size(l), Some(x)) else (rank, res)
      else
        var (rank, res) := UpperBound(r, k, less); (Size(l) + 1 + rank, res)
  }

  ghost function Select<K>(t: Tree<K>, idx: nat): Option<K> {
    match t
    case Leaf => None
    case Node(l, x, r) =>
      if Size(t) <= idx then None
      else if Size(l) == idx then Some(x)
      else if Size(l) > idx then Select(l, idx)
      else Select(r, idx - Size(l) - 1)
  }

  /** Select reads the in-order sequence. */
  lemma {:induction false} SelectIsAt<K>(t: Tree<K>, idx: nat)
    ensures Select(t, idx) == At(Inorder(t), idx)
  {
    InorderSize(t);
    match t
    case Leaf =>
    case Node(l, x, r) =>
      InorderSize(l);
      if Size(l) > idx {
        SelectIsAt(l, idx);
      } else if Size(l) < idx {
        SelectIsAt(r, idx - Size(l) - 1);
      }
  }

  /** Find returns the number of smaller keys, and the key if it is there. */
  lemma {:induction false} FindIsRank<K(!new)>(t: Tree<K>, k: K, less: (K, K) -> bool)
    requires StrictOrder(less) && SearchTree(t, less)
    ensures Find(t, k, less) == (Rank(Inorder(t), k, less), if k in Inorder(t) then Some(k) else None)
  {
    hide SortedBy, StrictOrder;
    match t
    case Leaf =>
    case Node(l, x, r) =>
      SortedParts(Inorder(l), x, Inorder(r), less);
      RankAtNode(Inorder(l), x, Inorder(r), k, less);
      InParts(Inorder(l), x, Inorder(r), k, less);
      InorderSize(l);
      Asymmetric(k, x, less);
      if less(k, x) {
        FindIsRank(l, k, less);
      } else if less(x, k) {
        FindIsRank(r, k, less);
      } else {
        Trichotomy(x, k, less);
        assert (Inorder(l) + [x] + Inorder(r))[|Inorder(l)|] == x;
      }
  }

  lemma Asymmetric<K(!new)>(k: K, x: K, less: (K, K) -> bool)
    requires StrictOrder(less)
    ensures !(less(k, x) && less(x, k))
  {
  }

  /** Select inverts Find on the keys of the tree. */
  lemma SelectInvertsFind<K(!new)>(t: Tree<K>, k: K, less: (K, K) -> bool)
    requires StrictOrder(less) && SearchTree(t, less) && k in Inorder(t)
    ensures Select(t, Find(t, k, less).0) == Some(k)
  {
    FindIsRank(t, k, less);
    var s := Inorder(t);
    var i :| 0 <= i < |s| && s[i] == k;
    RankIsIndex(s, i, less);
    SelectIsAt(t, i);
  }

  /** LowerBound returns the first key that is not smaller than k. */
  lemma {:induction false} LowerBoundIsFirst<K(!new)>(t: Tree<K>, k: K, less: (K, K) -> bool)
    requires StrictOrder(less) && SearchTree(t, less)
    ensures var r := Rank(Inorder(t), k, less); LowerBound(t, k, less) == (r, At(Inorder(t), r))
  {
    hide SortedBy, StrictOrder;
    match t
    case Leaf =>
    case Node(l, x, r) =>
      var a, b := Inorder(l), Inorder(r);
      SortedParts(a, x, b, less);
      RankAtNode(a, x, b, k, less);
      InorderSize(l);
      Asymmetric(k, x, less);
      if less(k, x) {
        LowerBoundIsFirst(l, k, less);
        assert Rank(a, k, less) == |a| ==> (a + [x] + b)[|a|] == x;
      } else if less(x, k) {
        LowerBoundIsFirst(r, k, less);
      } else {
        Trichotomy(x, k, less);
        assert (a + [x] + b)[|a|] == x;
      }
  }

  /** Number of keys of s not after k. */
  ghost function RankUpTo<K>(s: seq<K>, k: K, less: (K, K) -> bool): (r: nat)
    ensures r <= |s|
  {
    if s == [] then 0
    else RankUpTo(s[..|s| - 1], k, less) + if less(k, s[|s| - 1]) then 0 else 1
  }

  lemma SortedInit<K>(init: seq<K>, last: K, k: K, less: (K, K) -> bool)
    requires SortedBy(init + [last], less)
    ensures SortedBy(init, less)
    ensures k in init ==> less(k, last)
  {
    var s := init + [last];
    forall i, j | 0 <= i < j < |init| ensures less(init[i], init[j]) { assert s[i] == init[i] && s[j] == init[j]; }
    forall i | 0 <= i < |init| ensures less(init[i], last) { assert s[i] == init[i] && s[|init|] == last; }
  }

  lemma Compare<K(!new)>(x: K, k: K, less: (K, K) -> bool)
    requires StrictOrder(less)
    ensures !(less(x, k) && less(k, x))
    ensures x == k <==> !less(x, k) && !less(k, x)
  {
  }

  lemma {:induction false} RankUpToIs<K(!new)>(s: seq<K>, k: K, less: (K, K) -> bool)
    requires StrictOrder(less) && SortedBy(s, less)
    ensures RankUpTo(s, k, less) == Rank(s, k, less) + if k in s then 1 else 0
  {
    hide StrictOrder, SortedBy;
    if s != [] {
      var init, last := s[..|s| - 1], s[|s| - 1];
      assert s == init + [last];
      SortedInit(init, last, k, less);
      RankUpToIs(init, k, less);
      Compare(last, k, less);
    }
  }

  /** UpperBound returns the first key after k. */
  lemma {:induction false} UpperBoundIsFirst<K(!new)>(t: Tree<K>, k: K, less: (K, K) -> bool)
    requires StrictOrder(less) && SearchTree(t, less)
    ensures var r := RankUpTo(Inorder(t), k, less); UpperBound(t, k, less) == (r, At(Inorder(t), r))
  {
    hide SortedBy, StrictOrder, RankUpTo;
    match t
    case Leaf =>
      NoneUpTo(k, less);
    case Node(l, x, r) =>
      var a, b := Inorder(l), Inorder(r);
      SortedParts(a, x, b, less);
      RankUpToAtNode(a, x, b, k, less);
      InorderSize(l);
      if less(k, x) {
        UpperBoundIsFirst(l, k, less);
      } else {
        UpperBoundIsFirst(r, k, less);
      }
  }

  lemma NoneUpTo<K>(k: K, less: (K, K) -> bool)
    ensures RankUpTo([], k, less) == 0
  {
  }

  lemma RankUpToAtNode<K(!new)>(a: seq<K>, x: K, b: seq<K>, k: K, less: (K, K) -> bool)
    requires StrictOrder(less) && SortedBy(a + [x] + b, less)
    ensures RankUpTo(a + [x] + b, k, less)
            == if less(k, x) then RankUpTo(a, k, less) else |a| + 1 + RankUpTo(b, k, less)
  {
    SortedParts(a, x, b, less);
    RankAtNode(a, x, b, k, less);
    RankUpToIs(a + [x] + b, k, less);
    RankUpToIs(a, k, less);
    RankUpToIs(b, k, less);
    InParts(a, x, b, k, less);
    if !less(x, k) && !less(k, x) {
      RankAll(b, k, less);
      assert (a + [x] + b)[|a|] == k;
      NotAmong(b, k, less);
    }
  }

  lemma NotAmong<K(!new)>(b: seq<K>, k: K, less: (K, K) -> bool)
    requires StrictOrder(less) && AllAfter(b, k, less)
    ensures k !in b && forall i :: 0 <= i < |b| ==> !less(b[i], k)
  {
  }
}
