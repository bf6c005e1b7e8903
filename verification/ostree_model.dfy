/** The OSTree as a value: a descending list of entries, rebuilt from scratch where it gets out of balance. */
module OSTreeModel {
  import opened Trees
  import opened SearchTrees
  import opened LruQueue
  import opened Partitioning

  datatype Entry = Entry(ts: nat, value: nat)

  type OTree = Tree<Entry>

  ghost function Stamps(s: seq<Entry>): (t: seq<nat>)
    ensures |t| == |s|
  {
    seq(|s|, i requires 0 <= i < |s| => s[i].ts)
  }

  /** Newest first, all timestamps different. */
  ghost predicate Descending(s: seq<Entry>) {
    SortedBy(Stamps(s), Greater)
  }

  // ---------------------------------------------------------------- the operations

  /** Does either side, with the root, weigh more than twice the other? */
  predicate BadWeights(leftSize: nat, rightSize: nat) {
    var lweight, rweight := leftSize + 1, rightSize + 1;
    lweight > 2 * rweight || rweight > 2 * lweight
  }

  ghost predicate BadBalance(t: OTree)
    requires t.Node?
  {
    BadWeights(Size(t.left), Size(t.right))
  }

  /** The tree built from a sequence by taking the middle as root. */
  ghost function FromSeq(s: seq<Entry>): OTree {
    if s == [] then Leaf
    else
      var mid := |s| / 2;
      Node(FromSeq(s[..mid]), s[mid], FromSeq(s[mid + 1..]))
  }

  ghost function Rebalance(t: OTree): OTree {
    FromSeq(Inorder(t))
  }

  ghost function EnsureBalance(t: OTree): (r: OTree)
    requires t.Node?
    ensures r.Node? && Size(r) == Size(t)
  {
    RebuildInorder(Inorder(t));
    InorderSize(t);
    InorderSize(Rebalance(t));
    if BadBalance(t) then Rebalance(t) else t
  }

  ghost function Insert(t: OTree, e: Entry): OTree
    decreases Size(t)
  {
    if t.Leaf? then Node(Leaf, e, Leaf)
    else
      var b := EnsureBalance(t);
      if e.ts > b.key.ts then Node(Insert(b.left, e), b.key, b.right)
      else Node(b.left, b.key, Insert(b.right, e))
  }

  ghost function Remove(t: OTree, rank: nat): OTree
    requires rank < Size(t)
  {
    if rank < Size(t.left) then Node(Remove(t.left, rank), t.key, t.right)
    else if rank > Size(t.left) then Node(t.left, t.key, Remove(t.right, rank - Size(t.left) - 1))
    else if t.left.Leaf? then t.right
    else if t.right.Leaf? then t.left
    else Node(t.left, First(t.right), Remove(t.right, 0))
  }

  // ---------------------------------------------------------------- rebuilding

  lemma {:induction false} RebuildInorder(s: seq<Entry>)
    ensures Inorder(FromSeq(s)) == s
    ensures Size(FromSeq(s)) == |s|
    decreases |s|
  {
    if s != [] {
      var mid := |s| / 2;
      FromSeqAtMiddle(s);
      hide FromSeq;
      RebuildInorder(s[..mid]);
      RebuildInorder(s[mid + 1..]);
    }
  }

  lemma FromSeqAtMiddle(s: seq<Entry>)
    requires s != []
    ensures var mid := |s| / 2; FromSeq(s) == Node(FromSeq(s[..mid]), s[mid], FromSeq(s[mid + 1..]))
    ensures var mid := |s| / 2; s == s[..mid] + [s[mid]] + s[mid + 1..]
  {
    SplitAt(s, |s| / 2);
  }

  lemma SplitAt<T>(s: seq<T>, mid: nat)
    requires mid < |s|
    ensures s == s[..mid] + [s[mid]] + s[mid + 1..]
  {
  }

  /** The middle entry is on top, with half the entries on each side. */
  lemma RebuildMiddle(s: seq<Entry>)
    requires s != []
    ensures var t, mid := FromSeq(s), |s| / 2;
            && t.Node? && t.key == s[mid] && Inorder(t.left) == s[..mid] && Inorder(t.right) == s[mid + 1..]
            && Size(t.left) == mid && Size(t.right) == |s| - mid - 1
  {
    FromSeqAtMiddle(s);
    hide FromSeq;
    RebuildInorder(s[..|s| / 2]);
    RebuildInorder(s[|s| / 2 + 1..]);
  }

  /** A tree of height h holds fewer than 2^h nodes. */
  lemma {:induction false} SizeBelowHeight<K>(t: Tree<K>)
    ensures Size(t) < Pow2(Height(t))
  {
    if t.Node? {
      SizeBelowHeight(t.left);
      SizeBelowHeight(t.right);
      var h := Height(t) - 1;
      Pow2Monotone(Height(t.left), h);
      Pow2Monotone(Height(t.right), h);
    }
  }

  /** The height of the rebuilt tree of n nodes: n has that many binary digits. */
  ghost function LeastHeight(n: nat): nat {
    if n == 0 then 0 else 1 + LeastHeight(n / 2)
  }

  lemma {:induction false} LeastHeightMonotone(m: nat, n: nat)
    requires m <= n
    ensures LeastHeight(m) <= LeastHeight(n)
    decreases n
  {
    if m > 0 { LeastHeightMonotone(m / 2, n / 2); }
  }

  lemma {:induction false} LeastHeightDigits(n: nat)
    requires n > 0
    ensures LeastHeight(n) > 0 && Pow2(LeastHeight(n) - 1) <= n
  {
    if n > 1 { LeastHeightDigits(n / 2); }
  }

  lemma {:induction false} RebuildHeight(s: seq<Entry>)
    ensures Height(FromSeq(s)) == LeastHeight(|s|)
    decreases |s|
  {
    hide LeastHeight;
    NextHeight(|s|);
    if s != [] {
      var mid := |s| / 2;
      RebuildHeight(s[..mid]);
      RebuildHeight(s[mid + 1..]);
      LeastHeightMonotone(|s| - mid - 1, mid);
    }
  }

  lemma NextHeight(n: nat)
    ensures LeastHeight(n) == if n == 0 then 0 else 1 + LeastHeight(n / 2)
  {
  }

  /** Rebuilding gives a tree of the least possible height: no tree with the same entries is lower. */
  lemma RebuildIsLowest(t: OTree, u: OTree)
    requires Inorder(u) == Inorder(t)
    ensures Inorder(Rebalance(t)) == Inorder(t)
    ensures Height(Rebalance(t)) <= Height(u)
  {
    hide Height, FromSeq, Inorder, Size, Pow2, LeastHeight;
    var s := Inorder(t);
    RebuildInorder(s);
    RebuildHeight(s);
    InorderSize(u);
    SizeBelowHeight(u);
    NextHeight(|s|);
    if s != [] {
      LeastHeightDigits(|s|);
      if LeastHeight(|s|) > Height(u) {
        Pow2Monotone(Height(u), LeastHeight(|s|) - 1);
      }
    }
  }

  // ---------------------------------------------------------------- insertion

  ghost function InsertEntry(s: seq<Entry>, e: Entry): seq<Entry> {
    var r := Rank(Stamps(s), e.ts, Greater);
    s[..r] + [e] + s[r..]
  }

  lemma StampsOfSum(a: seq<Entry>, x: Entry, b: seq<Entry>)
    ensures Stamps(a + [x] + b) == Stamps(a) + [x.ts] + Stamps(b)
  {
  }

  lemma InsertEntryAtNode(a: seq<Entry>, x: Entry, b: seq<Entry>, e: Entry)
    requires Descending(a + [x] + b)
    ensures e.ts < x.ts ==> InsertEntry(a + [x] + b, e) == a + [x] + InsertEntry(b, e)
    ensures e.ts > x.ts ==> InsertEntry(a + [x] + b, e) == InsertEntry(a, e) + [x] + b
    ensures Descending(a) && Descending(b)
  {
    hide SortedBy, Rank, Stamps;
    GreaterIsOrder();
    StampsOfSum(a, x, b);
    SortedParts(Stamps(a), x.ts, Stamps(b), Greater);
    RankAtNode(Stamps(a), x.ts, Stamps(b), e.ts, Greater);
    CutRight(a, x, b, Rank(Stamps(b), e.ts, Greater));
    CutLeft(a, x, b, Rank(Stamps(a), e.ts, Greater));
  }

  lemma EnsureBalanceInorder(t: OTree)
    requires t.Node?
    ensures Inorder(EnsureBalance(t)) == Inorder(t)
  {
    RebuildInorder(Inorder(t));
  }

  lemma NotHere(a: seq<Entry>, x: Entry, b: seq<Entry>, e: Entry)
    requires e.ts !in Stamps(a + [x] + b)
    ensures e.ts != x.ts && e.ts !in Stamps(a) && e.ts !in Stamps(b)
  {
    StampsOfSum(a, x, b);
    assert Stamps(a + [x] + b)[|a|] == x.ts;
  }

  /** Insertion of a new timestamp is insertion into the descending list. */
  lemma {:induction false} InsertRefinesList(t: OTree, e: Entry)
    requires Descending(Inorder(t)) && e.ts !in Stamps(Inorder(t))
    ensures Inorder(Insert(t, e)) == InsertEntry(Inorder(t), e)
    decreases Size(t)
  {
    hide SortedBy, Rank, Stamps, EnsureBalance, InsertEntry, Size;
    if t.Leaf? {
      InsertEntryNone(e);
    } else {
      var b := EnsureBalance(t);
      EnsureBalanceInorder(t);
      SizeParts(b);
      InsertEntryAtNode(Inorder(b.left), b.key, Inorder(b.right), e);
      NotHere(Inorder(b.left), b.key, Inorder(b.right), e);
      if e.ts > b.key.ts {
        InsertRefinesList(b.left, e);
      } else {
        InsertRefinesList(b.right, e);
      }
    }
  }

  ghost function RemoveAt(s: seq<Entry>, rank: nat): seq<Entry>
    requires rank < |s|
  {
    s[..rank] + s[rank + 1..]
  }

  lemma InsertKeepsDescending(s: seq<Entry>, e: Entry)
    requires Descending(s) && e.ts !in Stamps(s)
    ensures Descending(InsertEntry(s, e))
    ensures Stamps(InsertEntry(s, e)) == InsertSorted<nat>(Stamps(s), e.ts, Greater)
  {
    hide SortedBy, Rank;
    GreaterIsOrder();
    InsertKeepsSorted<nat>(Stamps(s), e.ts, Greater);
    var r := Rank(Stamps(s), e.ts, Greater);
    StampsOfSum(s[..r], e, s[r..]);
    assert Stamps(s[..r]) == Stamps(s)[..r] && Stamps(s[r..]) == Stamps(s)[r..];
  }

  lemma RemoveKeepsDescending(s: seq<Entry>, rank: nat)
    requires Descending(s) && rank < |s|
    ensures Descending(RemoveAt(s, rank))
    ensures Stamps(RemoveAt(s, rank)) == RemoveSorted<nat>(Stamps(s), s[rank].ts, Greater)
  {
    hide SortedBy, Rank;
    GreaterIsOrder();
    RankIsIndex<nat>(Stamps(s), rank, Greater);
    assert Stamps(s)[rank] == s[rank].ts;
    RemoveKeepsSorted<nat>(Stamps(s), s[rank].ts, Greater);
    assert Stamps(RemoveAt(s, rank)) == Stamps(s)[..rank] + Stamps(s)[rank + 1..];
  }

  lemma InsertEntryNone(e: Entry)
    ensures InsertEntry([], e) == [e]
  {
  }

  /** The node exceeds the balance limit by at most one entry. */
  ghost predicate OffByOne(t: OTree)
    requires t.Node?
  {
    Size(t.left) <= 2 * (Size(t.right) + 1) && Size(t.right) <= 2 * (Size(t.left) + 1)
  }

  /** No node exceeds the balance limit by more than one entry. */
  ghost predicate SlightlyOff(t: OTree) {
    t.Node? ==> OffByOne(t) && SlightlyOff(t.left) && SlightlyOff(t.right)
  }

  /** No node where insertion of ts comes along does. */
  ghost predicate PathSlightlyOff(t: OTree, ts: nat) {
    t.Node? ==> OffByOne(t) && PathSlightlyOff(if ts > t.key.ts then t.left else t.right, ts)
  }

  lemma {:induction false} RebuiltIsBalanced(s: seq<Entry>)
    ensures SlightlyOff(FromSeq(s))
    ensures s != [] ==> !BadBalance(FromSeq(s))
  {
    if s != [] {
      var mid := |s| / 2;
      RebuildInorder(s[..mid]);
      RebuildInorder(s[mid + 1..]);
      RebuiltIsBalanced(s[..mid]);
      RebuiltIsBalanced(s[mid + 1..]);
    }
  }

  /** What insertion does at a node within the limit: it goes on below, and changes nothing else. */
  lemma InsertBelow(l: OTree, x: Entry, r: OTree, e: Entry)
    requires Size(l) + 1 <= 2 * (Size(r) + 1) && Size(r) + 1 <= 2 * (Size(l) + 1)
    ensures EnsureBalance(Node(l, x, r)) == Node(l, x, r)
    ensures Insert(Node(l, x, r), e) == if e.ts > x.ts then Node(Insert(l, e), x, r) else Node(l, x, Insert(r, e))
  {
    assert EnsureBalance(Node(l, x, r)) == Node(l, x, r);
  }

  /** At a node beyond the limit it first puts the middle entry on top, with half the entries on each
      side. */
  lemma RebuiltBeforeInsert(t: OTree)
    requires t.Node?
    requires Size(t.left) + 1 > 2 * (Size(t.right) + 1) || Size(t.right) + 1 > 2 * (Size(t.left) + 1)
    ensures var s, b := Inorder(t), EnsureBalance(t);
            var mid := |s| / 2;
            && |s| == Size(t) && b == FromSeq(s)
            && b.key == s[mid] && Inorder(b.left) == s[..mid] && Inorder(b.right) == s[mid + 1..]
            && Size(b.left) == mid && Size(b.right) == |s| - mid - 1
  {
    hide Inorder, FromSeq;
    InorderSize(t);
    RebuildMiddle(Inorder(t));
  }

  lemma {:induction false} InsertSize(t: OTree, e: Entry)
    ensures Size(Insert(t, e)) == Size(t) + 1
    decreases Size(t)
  {
    hide EnsureBalance;
    if t.Node? {
      var b := EnsureBalance(t);
      if e.ts > b.key.ts { InsertSize(b.left, e); } else { InsertSize(b.right, e); }
    }
  }

  lemma BalancedBefore(t: OTree)
    requires t.Node? && SlightlyOff(t)
    ensures !BadBalance(EnsureBalance(t)) && SlightlyOff(EnsureBalance(t))
  {
    RebuiltIsBalanced(Inorder(t));
    InorderSize(t);
  }

  lemma NotBadAfterwards(t: OTree)
    requires t.Node?
    ensures !BadBalance(EnsureBalance(t))
  {
    RebuiltIsBalanced(Inorder(t));
    InorderSize(t);
  }

  /** In any tree, also after removals, insertion leaves its own path off by at most one entry. */
  lemma {:induction false} InsertPathSlightlyOff(t: OTree, e: Entry)
    ensures PathSlightlyOff(Insert(t, e), e.ts)
    decreases Size(t)
  {
    hide EnsureBalance;
    if t.Node? {
      var b := EnsureBalance(t);
      NotBadAfterwards(t);
      if e.ts > b.key.ts {
        InsertSize(b.left, e);
        InsertPathSlightlyOff(b.left, e);
      } else {
        InsertSize(b.right, e);
        InsertPathSlightlyOff(b.right, e);
      }
    }
  }

  /** All nodes that insertion of ts does not come along, after the rebuilding on the way down. */
  ghost predicate OffPathSlightlyOff(t: OTree, ts: nat)
    decreases Size(t)
  {
    t.Node? ==>
      var b := EnsureBalance(t);
      if ts > b.key.ts then SlightlyOff(b.right) && OffPathSlightlyOff(b.left, ts)
      else SlightlyOff(b.left) && OffPathSlightlyOff(b.right, ts)
  }

  /** So after an insertion no node is off by more than one entry exactly when no node away from its
      path was before. */
  lemma {:induction false} InsertSlightlyOffIff(t: OTree, e: Entry)
    ensures SlightlyOff(Insert(t, e)) <==> OffPathSlightlyOff(t, e.ts)
    decreases Size(t)
  {
    hide EnsureBalance;
    if t.Node? {
      var b := EnsureBalance(t);
      NotBadAfterwards(t);
      if e.ts > b.key.ts {
        InsertSize(b.left, e);
        InsertSlightlyOffIff(b.left, e);
      } else {
        InsertSize(b.right, e);
        InsertSlightlyOffIff(b.right, e);
      }
    }
  }

  /** In a run of insertions no node is ever off by more than one entry. */
  lemma {:induction false} InsertStaysSlightlyOff(t: OTree, e: Entry)
    requires SlightlyOff(t)
    ensures SlightlyOff(Insert(t, e))
    decreases Size(t)
  {
    hide EnsureBalance;
    if t.Node? {
      var b := EnsureBalance(t);
      BalancedBefore(t);
      if e.ts > b.key.ts {
        InsertSize(b.left, e);
        InsertStaysSlightlyOff(b.left, e);
      } else {
        InsertSize(b.right, e);
        InsertStaysSlightlyOff(b.right, e);
      }
    }
  }

  /** The tree after inserting the entries one after the other. */
  ghost function InsertFrom(t: OTree, es: seq<Entry>): OTree {
    if es == [] then t else Insert(InsertFrom(t, es[..|es| - 1]), es[|es| - 1])
  }

  /** In a run of insertions into an empty tree no node is ever off by more than one entry. */
  lemma {:induction false} InsertRunStaysSlightlyOff(es: seq<Entry>)
    ensures SlightlyOff(InsertFrom(Leaf, es)) && Size(InsertFrom(Leaf, es)) == |es|
  {
    hide SlightlyOff, Insert, Size;
    if es == [] {
      EmptyTree();
    } else {
      InsertRunStaysSlightlyOff(es[..|es| - 1]);
      InsertStaysSlightlyOff(InsertFrom(Leaf, es[..|es| - 1]), es[|es| - 1]);
      InsertSize(InsertFrom(Leaf, es[..|es| - 1]), es[|es| - 1]);
    }
  }

  /** size >= (3/2)^(height - 1) where no node is off by more than one entry. */
  lemma {:induction false} SlightlyOffIsLow(t: OTree)
    requires SlightlyOff(t) && t.Node?
    ensures Pow(3, Height(t) - 1) <= Pow(2, Height(t) - 1) * Size(t)
  {
    var c := if Height(t.left) >= Height(t.right) then t.left else t.right;
    if c.Node? {
      SlightlyOffIsLow(c);
      var h := Height(c) - 1;
      // the heavier side has at most two thirds of the entries
      assert 3 * Size(c) <= 2 * Size(t);
      LighterStep(Pow(3, h), Pow(2, h), Size(c), Size(t));
    }
  }

  lemma LighterStep(three: nat, two: nat, size: nat, total: nat)
    requires three <= two * size && 3 * size <= 2 * total
    ensures 3 * three <= 2 * two * total
  {
    assert 3 * (two * size) == two * (3 * size);
    assert two * (3 * size) <= two * (2 * total);
    assert two * (2 * total) == 2 * two * total;
  }

  /** So a run of insertions gives a tree of logarithmic height. */
  lemma InsertRunIsLow(es: seq<Entry>)
    requires es != []
    ensures InsertFrom(Leaf, es).Node?
    ensures Pow(3, Height(InsertFrom(Leaf, es)) - 1) <= Pow(2, Height(InsertFrom(Leaf, es)) - 1) * |es|
  {
    hide InsertFrom;
    InsertRunStaysSlightlyOff(es);
    SlightlyOffIsLow(InsertFrom(Leaf, es));
  }

  /** A subtree rebuilt with n entries is not rebuilt again before n/2 more have entered it. */
  lemma {:induction false} NoRebuildSoon(s: seq<Entry>, es: seq<Entry>)
    requires 2 * |es| < |s|
    ensures var t := InsertFrom(FromSeq(s), es);
            && t.Node? && t.key == s[|s| / 2] && Size(t) == |s| + |es|
            && Size(t.left) >= |s| / 2 && Size(t.right) >= |s| - |s| / 2 - 1
            && Size(t.left) + 1 <= 2 * (Size(t.right) + 1) && Size(t.right) + 1 <= 2 * (Size(t.left) + 1)
            && EnsureBalance(t) == t
  {
    hide Insert, FromSeq, Size, EnsureBalance, Inorder;
    RebuildMiddle(s);
    SizeParts(FromSeq(s));
    var t := InsertFrom(FromSeq(s), es);
    if es != [] {
      var init, e := es[..|es| - 1], es[|es| - 1];
      NoRebuildSoon(s, init);
      var b := InsertFrom(FromSeq(s), init);
      SizeParts(b);
      InsertBelow(b.left, b.key, b.right, e);
      InsertSize(b.left, e);
      InsertSize(b.right, e);
      SizeParts(t);
    }
    InsertBelow(t.left, t.key, t.right, Entry(0, 0));
  }

  lemma EmptyTree()
    ensures SlightlyOff(Leaf) && Size<Entry>(Leaf) == 0
  {
  }

  // ---------------------------------------------------------------- removal

  lemma RemoveInParts(a: seq<Entry>, x: Entry, b: seq<Entry>, rank: nat)
    requires rank < |a| + 1 + |b|
    ensures var s := a + [x] + b;
            s[..rank] + s[rank + 1..] ==
            if rank < |a| then (a[..rank] + a[rank + 1..]) + [x] + b
            else if rank == |a| then a + b
            else a + [x] + (b[..rank - |a| - 1] + b[rank - |a|..])
  {
  }

  /** Removal takes the entry at the rank out of the list; the size drops by one. */
  lemma {:induction false} RemoveRefinesList(t: OTree, rank: nat)
    requires rank < Size(t)
    ensures |Inorder(t)| == Size(t)
    ensures Inorder(Remove(t, rank)) == RemoveAt(Inorder(t), rank)
    ensures Size(Remove(t, rank)) == Size(t) - 1
  {
    InorderSize(t.left);
    InorderSize(t.right);
    RemoveInParts(Inorder(t.left), t.key, Inorder(t.right), rank);
    if rank < Size(t.left) {
      RemoveRefinesList(t.left, rank);
    } else if rank > Size(t.left) {
      RemoveRefinesList(t.right, rank - Size(t.left) - 1);
    } else if t.left.Node? && t.right.Node? {
      RemoveRefinesList(t.right, 0);
      FirstIsFirst(t.right);
      FirstAndRest(Inorder(t.left), Inorder(t.right));
    } else {
      NothingOnOneSide(t.left, t.right);
    }
  }

  lemma FirstAndRest<T>(a: seq<T>, b: seq<T>)
    requires b != []
    ensures a + [b[0]] + (b[..0] + b[1..]) == a + b
  {
  }

  lemma NothingOnOneSide<K>(l: Tree<K>, r: Tree<K>)
    requires l.Leaf? || r.Leaf?
    ensures Inorder(l) + Inorder(r) == if l.Leaf? then Inorder(r) else Inorder(l)
  {
  }

  /** Removal changes a node and its subtrees no more than it must: below a node that stays, only the
      side of the rank; at the node that goes, the other child moves up or the next entry takes over. */
  lemma RemoveShape(t: OTree, rank: nat)
    requires rank < Size(t)
    ensures var u, l := Remove(t, rank), Size(t.left);
            if rank < l then u.Node? && u.key == t.key && u.right == t.right && u.left == Remove(t.left, rank)
            else if rank > l then
              u.Node? && u.key == t.key && u.left == t.left && u.right == Remove(t.right, rank - l - 1)
            else if t.left.Leaf? then u == t.right
            else if t.right.Leaf? then u == t.left
            else u.Node? && u.left == t.left && u.right == Remove(t.right, 0)
                 && |Inorder(t.right)| > 0 && u.key == Inorder(t.right)[0]
  {
    if t.right.Node? { FirstIsFirst(t.right); }
  }

  /** Removal never makes the tree higher. */
  lemma {:induction false} RemoveNotHigher(t: OTree, rank: nat)
    requires rank < Size(t)
    ensures Height(Remove(t, rank)) <= Height(t)
  {
    if rank < Size(t.left) {
      RemoveNotHigher(t.left, rank);
    } else if rank > Size(t.left) {
      RemoveNotHigher(t.right, rank - Size(t.left) - 1);
    } else if t.left.Node? && t.right.Node? {
      RemoveNotHigher(t.right, 0);
    }
  }

  // ---------------------------------------------------------------- searching

  ghost function FindEntry(t: OTree, ts: nat): (nat, nat)
    requires ts in Stamps(Inorder(t)) && Descending(Inorder(t))
    decreases t
  {
    FindGoesRight(t, ts);
    if ts == t.key.ts then (Size(t.left), t.key.value)
    else if ts > t.key.ts then FindEntry(t.left, ts)
    else var (rank, v) := FindEntry(t.right, ts); (rank + 1 + Size(t.left), v)
  }

  lemma SomeStamp(t: OTree, ts: nat)
    requires ts in Stamps(Inorder(t))
    ensures t.Node?
  {
  }

  lemma FindGoesRight(t: OTree, ts: nat)
    requires ts in Stamps(Inorder(t)) && Descending(Inorder(t))
    ensures t.Node? && Descending(Inorder(t.left)) && Descending(Inorder(t.right))
    ensures ts > t.key.ts ==> ts in Stamps(Inorder(t.left))
    ensures ts < t.key.ts ==> ts in Stamps(Inorder(t.right))
  {
    hide SortedBy, Stamps;
    GreaterIsOrder();
    SomeStamp(t, ts);
    var a, x, b := Inorder(t.left), t.key, Inorder(t.right);
    StampsOfSum(a, x, b);
    SortedParts(Stamps(a), x.ts, Stamps(b), Greater);
    InParts(Stamps(a), x.ts, Stamps(b), ts, Greater);
  }

  /** The rank found is the index in the list; the value is the entry's. */
  lemma {:induction false} FindIsIndex(t: OTree, ts: nat)
    requires ts in Stamps(Inorder(t)) && Descending(Inorder(t))
    ensures var (rank, v) := FindEntry(t, ts);
            && rank == Rank(Stamps(Inorder(t)), ts, Greater)
            && rank < |Inorder(t)| == Size(t)
            && Inorder(t)[rank] == Entry(ts, v)
    decreases t
  {
    hide SortedBy, Rank, Stamps;
    GreaterIsOrder();
    FindGoesRight(t, ts);
    InorderSize(t);
    InorderSize(t.left);
    var a, x, b := Inorder(t.left), t.key, Inorder(t.right);
    StampsOfSum(a, x, b);
    RankAtNode(Stamps(a), x.ts, Stamps(b), ts, Greater);
    if ts > x.ts {
      FindIsIndex(t.left, ts);
    } else if ts < x.ts {
      FindIsIndex(t.right, ts);
    }
  }
}
