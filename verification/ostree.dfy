/** The nodes of the OSTree, relinked in place. */
module OSTrees {
  import opened Lru
  import opened Trees
  import opened SearchTrees
  import opened OSTreeModel

  class OSTree {
    var weight: nat
    var left: OSTree?
    var right: OSTree?
    const ts: nat
    const value: nat
    /** The nodes of the subtree, and the subtree as a value. */
    ghost var repr: set<OSTree>
    ghost var tree: OTree

    ghost predicate Valid()
      reads this, repr
      decreases repr
    {
      && this in repr
      && (left != null ==> left in repr && left.repr < repr && this !in left.repr && left.Valid())
      && (right != null ==> right in repr && right.repr < repr && this !in right.repr && right.Valid())
      && (left != null && right != null ==> left.repr !! right.repr)
      && repr == {this} + (if left == null then {} else left.repr) + (if right == null then {} else right.repr)
      && tree == Node(if left == null then Leaf else left.tree, Entry(ts, value),
                      if right == null then Leaf else right.tree)
      && weight == Size(tree)
    }

    constructor (newTs: nat, newVal: nat)
      ensures Valid() && fresh(repr) && tree == Node(Leaf, Entry(newTs, newVal), Leaf)
    {
      weight, left, right, ts, value := 1, null, null, newTs, newVal;
      repr, tree := {this}, Node(Leaf, Entry(newTs, newVal), Leaf);
    }

    ghost function Contents(): Entry {
      Entry(ts, value)
    }
  }

  ghost function Below(n: OSTree?): set<OSTree>
    reads n
  {
    if n == null then {} else n.repr
  }

  ghost function TreeOf(n: OSTree?): OTree
    reads n
  {
    if n == null then Leaf else n.tree
  }

  ghost predicate Owned(n: OSTree?)
    reads n, Below(n)
  {
    n != null ==> n.Valid()
  }

  /** Number of entries of the subtree. */
  function GetWeight(n: OSTree?): (w: nat)
    requires Owned(n)
    reads n, Below(n)
    ensures w == Size(TreeOf(n))
  {
    if n == null then 0 else n.weight
  }

  lemma SelfOwned(n: OSTree?)
    requires Owned(n)
    ensures n != null ==> n in n.repr
  {
  }

  /** What a valid node owns, one level down. */
  lemma Children(n: OSTree)
    requires n.Valid()
    ensures n.weight == Size(n.tree) == 1 + Size(n.tree.left) + Size(n.tree.right)
    ensures n.tree == Node(TreeOf(n.left), n.Contents(), TreeOf(n.right))
    ensures Owned(n.left) && Owned(n.right)
    ensures n !in Below(n.left) && n !in Below(n.right) && Below(n.left) !! Below(n.right)
    ensures n.repr == {n} + Below(n.left) + Below(n.right)
    ensures n.left != null ==> n.left in n.left.repr && n.tree.left.Node?
    ensures n.right != null ==> n.right in n.right.repr && n.tree.right.Node?
  {
    hide Size;
    SizeParts(n.tree);
    if n.left != null { assert n.left.tree.Node?; }
    if n.right != null { assert n.right.tree.Node?; }
  }

  /** Makes n own its two children again, after a change below it or of its links. */
  ghost method Own(n: OSTree)
    requires Owned(n.left) && Owned(n.right)
    requires n !in Below(n.left) && n !in Below(n.right) && Below(n.left) !! Below(n.right)
    requires n.weight == 1 + Size(TreeOf(n.left)) + Size(TreeOf(n.right))
    modifies n`repr, n`tree
    ensures n.Valid() && n.tree == Node(TreeOf(n.left), n.Contents(), TreeOf(n.right))
    ensures n.repr == {n} + Below(n.left) + Below(n.right)
  {
    hide Size, OSTree.Valid;
    SelfOwned(n.left);
    SelfOwned(n.right);
    n.repr := {n} + Below(n.left) + Below(n.right);
    n.tree := Node(TreeOf(n.left), n.Contents(), TreeOf(n.right));
    SizeParts(n.tree);
    Assemble(n);
  }

  lemma Assemble(n: OSTree)
    requires Owned(n.left) && Owned(n.right)
    requires n !in Below(n.left) && n !in Below(n.right) && Below(n.left) !! Below(n.right)
    requires n.repr == {n} + Below(n.left) + Below(n.right)
    requires n.tree == Node(TreeOf(n.left), n.Contents(), TreeOf(n.right))
    requires n.weight == Size(n.tree)
    ensures n.Valid()
  {
    hide Size;
    SelfOwned(n.left);
    SelfOwned(n.right);
  }

  // ---------------------------------------------------------------- rebuilding

  ghost function EntriesOf(s: seq<OSTree>): (e: seq<Entry>)
    ensures |e| == |s|
  {
    seq(|s|, i requires 0 <= i < |s| => s[i].Contents())
  }

  lemma NoNodes()
    ensures Distinct<OSTree>([]) && Elements<OSTree>([]) == {} && EntriesOf([]) == [] && Size<Entry>(Leaf) == 0
  {
  }

  lemma JoinNodes(a: seq<OSTree>, n: OSTree, b: seq<OSTree>)
    requires Distinct(a) && Distinct(b) && n !in Elements(a) && n !in Elements(b) && Elements(a) !! Elements(b)
    ensures var s := a + [n] + b;
            && Distinct(s) && Elements(s) == {n} + Elements(a) + Elements(b)
            && EntriesOf(s) == EntriesOf(a) + [n.Contents()] + EntriesOf(b)
  {
    var s := a + [n] + b;
    forall i, j | 0 <= i < j < |s| ensures s[i] != s[j] {
      if i < |a| { assert s[i] in Elements(a); }
      if j > |a| { assert s[j] in Elements(b); }
    }
  }

  lemma SplitNodes(s: seq<OSTree>, m: nat)
    requires Distinct(s) && m < |s|
    ensures var a, n, b := s[..m], s[m], s[m + 1..];
            && Distinct(a) && Distinct(b) && n !in Elements(a) && n !in Elements(b) && Elements(a) !! Elements(b)
            && Elements(s) == {n} + Elements(a) + Elements(b)
            && EntriesOf(a) == EntriesOf(s)[..m] && EntriesOf(s)[m] == n.Contents()
            && EntriesOf(b) == EntriesOf(s)[m + 1..]
  {
    var a, n, b := s[..m], s[m], s[m + 1..];
    SplitAt(s, m);
    forall x | x in Elements(s) ensures x in {n} + Elements(a) + Elements(b) {
      var i :| 0 <= i < |s| && s[i] == x;
      if i < m { assert a[i] == x; } else if i > m { assert b[i - m - 1] == x; }
    }
    forall x | x in Elements(a) ensures x !in Elements(b) {
      var i :| 0 <= i < |a| && a[i] == x;
      forall j | 0 <= j < |b| ensures b[j] != x { assert s[i] != s[m + 1 + j]; }
    }
  }

  /** The three stretches of the array after a tree was taken apart. */
  lemma JoinSlices<T>(a0: seq<T>, a1: seq<T>, a2: seq<T>, index: nat, here: nat, next: nat,
                      s1: seq<T>, n: T, s2: seq<T>)
    requires |a0| == |a1| == |a2| && index <= here < next <= |a0|
    requires a1[index..here] == s1 && a1[..index] == a0[..index] && a1[here..] == a0[here..]
    requires a2[here + 1..next] == s2 && a2[..here + 1] == a1[..here + 1] && a2[next..] == a1[next..]
    ensures var a3 := a2[here := n];
            && a3[index..next] == s1 + [n] + s2 && a3[..index] == a0[..index] && a3[next..] == a0[next..]
  {
    var a3 := a2[here := n];
    assert forall k :: 0 <= k < index ==> a3[k] == a2[..here + 1][k] == a1[..index][k];
    forall k | index <= k < here ensures a3[k] == s1[k - index] {
      assert a3[k] == a2[..here + 1][k] == a1[index..here][k - index];
    }
    forall k | here < k < next ensures a3[k] == s2[k - here - 1] {
      assert a3[k] == a2[here + 1..next][k - here - 1];
    }
    forall k | next <= k < |a3| ensures a3[k] == a0[k] {
      assert a3[k] == a2[next..][k - next] == a1[here..][k - here] == a0[here..][k - here];
    }
  }

  /** Takes the tree apart into the array, in order, from index on. */
  method ToArray(n: OSTree?, a: array<OSTree?>, index: nat) returns (next: nat, ghost s: seq<OSTree>)
    requires Owned(n) && index + Size(TreeOf(n)) <= a.Length
    modifies a, Below(n)
    ensures next == index + |s| <= a.Length && |s| == old(Size(TreeOf(n)))
    ensures a[index..next] == s && a[..index] == old(a[..index]) && a[next..] == old(a[next..])
    ensures Distinct(s) && Elements(s) == old(Below(n)) && EntriesOf(s) == old(Inorder(TreeOf(n)))
    decreases TreeOf(n)
  {
    hide Size, OSTree.Valid, Distinct, Elements, EntriesOf;
    if n == null {
      NoNodes();
      next, s := index, [];
    } else {
      Children(n);
      var left, right := n.left, n.right;
      ghost var a0 := a[..];
      ghost var s1, s2;
      n.left := null;
      next, s1 := ToArray(left, a, index);
      ghost var a1 := a[..];
      var here := next;
      n.right := null;
      next, s2 := ToArray(right, a, here + 1);
      ghost var a2 := a[..];
      a[here] := n;
      s := s1 + [n] + s2;
      JoinNodes(s1, n, s2);
      JoinSlices<OSTree?>(a0, a1, a2, index, here, next, s1, n, s2);
      assert a[..] == a2[here := n];
    }
  }

  /** The stretch of the array, cut at its middle. */
  lemma SplitSlice<T>(a: seq<T>, lo: nat, mid: nat, hi: nat, s: seq<T>, none: T)
    requires lo <= mid < hi <= |a| && a[lo..hi] == s
    ensures a[mid] == s[mid - lo] && a[mid := none][lo..mid] == s[..mid - lo] && a[mid + 1..hi] == s[mid - lo + 1..]
  {
  }

  /** What working on a[lo..mid] leaves of the rest. */
  lemma LeftDone<T>(a0: seq<T>, a1: seq<T>, lo: nat, mid: nat, hi: nat, none: T)
    requires |a0| == |a1| && lo <= mid < hi <= |a0|
    requires a1[..lo] == a0[mid := none][..lo] && a1[mid..] == a0[mid := none][mid..]
    ensures a1[mid + 1..hi] == a0[mid + 1..hi] && a1[..lo] == a0[..lo] && a1[hi..] == a0[hi..]
  {
    forall k | mid < k < |a0| ensures a1[k] == a0[k] {
      assert a1[k] == a1[mid..][k - mid] == a0[mid := none][mid..][k - mid];
    }
    forall k | 0 <= k < lo ensures a1[k] == a0[k] {
      assert a1[k] == a1[..lo][k] == a0[mid := none][..lo][k];
    }
  }

  lemma RightDone<T>(a1: seq<T>, a2: seq<T>, lo: nat, mid: nat, hi: nat)
    requires |a1| == |a2| && lo <= mid < hi <= |a1|
    requires a2[..mid + 1] == a1[..mid + 1] && a2[hi..] == a1[hi..]
    ensures a2[..lo] == a1[..lo]
  {
    assert a2[..lo] == a2[..mid + 1][..lo];
  }

  lemma SplitMiddle(s: seq<OSTree>)
    requires Distinct(s) && s != []
    ensures var m := |s| / 2;
            var a, n, b := s[..m], s[m], s[m + 1..];
            && Distinct(a) && Distinct(b) && n !in Elements(a) && n !in Elements(b) && Elements(a) !! Elements(b)
            && Elements(s) == {n} + Elements(a) + Elements(b)
            && FromSeq(EntriesOf(s)) == Node(FromSeq(EntriesOf(a)), n.Contents(), FromSeq(EntriesOf(b)))
  {
    hide Distinct, Elements, EntriesOf, FromSeq;
    SplitNodes(s, |s| / 2);
    FromSeqAtMiddle(EntriesOf(s));
  }

  /** Links the nodes of a[lo..hi] into a tree, with the middle one on top. */
  method FromArray(a: array<OSTree?>, lo: nat, hi: nat, ghost s: seq<OSTree>) returns (root: OSTree?)
    requires lo <= hi <= a.Length && a[lo..hi] == s && Distinct(s)
    modifies a, Elements(s)
    ensures Owned(root) && TreeOf(root) == FromSeq(EntriesOf(s)) && Below(root) == Elements(s)
    ensures a[..lo] == old(a[..lo]) && a[hi..] == old(a[hi..])
    decreases hi - lo
  {
    hide Size, OSTree.Valid, FromSeq, Distinct, EntriesOf, Elements;
    if lo >= hi {
      assert s == [];
      NoNodes();
      NoEntries();
      return null;
    }
    var mid := lo + (hi - lo) / 2;
    ghost var m := mid - lo;
    ghost var s1, s2 := s[..m], s[m + 1..];
    SplitMiddle(s);
    ghost var a0 := a[..];
    SplitSlice<OSTree?>(a0, lo, mid, hi, s, null);
    root := a[mid];
    a[mid] := null;
    assert a[..] == a0[mid := null];
    var l := FromArray(a, lo, mid, s1);
    ghost var a1 := a[..];
    LeftDone<OSTree?>(a0, a1, lo, mid, hi, null);
    SelfOwned(l);
    root.left := l;
    var r := FromArray(a, mid + 1, hi, s2);
    RightDone<OSTree?>(a1, a[..], lo, mid, hi);
    SelfOwned(r);
    root.right := r;
    root.weight := 1 + GetWeight(root.left) + GetWeight(root.right);
    Own(root);
  }

  lemma NoEntries()
    ensures FromSeq([]) == Leaf
  {
  }

  /** Rebuilds the subtree from scratch. */
  method Rebalance(n: OSTree) returns (root: OSTree)
    requires n.Valid()
    modifies n.repr
    ensures root.Valid() && root.repr == old(n.repr)
    ensures root.tree == OSTreeModel.Rebalance(old(n.tree))
  {
    hide Size, OSTree.Valid, FromSeq, Inorder;
    Children(n);
    var a := new OSTree?[n.weight](_ => null);
    var index, s := ToArray(n, a, 0);
    assert a[0..a.Length] == s;
    var r := FromArray(a, 0, a.Length, s);
    root := r;
  }

  function IsBadBalance(n: OSTree): (r: bool)
    requires n.Valid()
    reads n, n.repr
    ensures n.tree.Node? && (r <==> BadBalance(n.tree))
    ensures var l, r' := Size(n.tree.left) + 1, Size(n.tree.right) + 1; r <==> l > 2 * r' || r' > 2 * l
  {
    Children(n);
    BadWeights(GetWeight(n.left), GetWeight(n.right))
  }

  /** Rebuilds the subtree if either side, with the root, weighs more than twice the other. */
  method RebalanceIfBad(n: OSTree) returns (root: OSTree)
    requires n.Valid()
    modifies n.repr
    ensures root.Valid() && root.repr == old(n.repr)
    ensures old(n.tree.Node?) && root.tree == EnsureBalance(old(n.tree))
    ensures var t := old(n.tree);
            var l, r := Size(t.left) + 1, Size(t.right) + 1;
            root.tree == if l > 2 * r || r > 2 * l then FromSeq(Inorder(t)) else t
  {
    hide Size, OSTree.Valid, FromSeq, Inorder, BadBalance;
    Children(n);
    root := n;
    if IsBadBalance(n) {
      root := Rebalance(n);
    }
  }

  // ---------------------------------------------------------------- insertion

  /** Inserts a new timestamp, rebuilding every badly balanced subtree on the way down. */
  method Insert(n: OSTree?, newTs: nat, newVal: nat) returns (root: OSTree)
    requires Owned(n)
    modifies Below(n)
    ensures root.Valid() && old(Below(n)) <= root.repr && fresh(root.repr - old(Below(n)))
    ensures root.tree == OSTreeModel.Insert(old(TreeOf(n)), Entry(newTs, newVal))
    decreases Size(TreeOf(n))
  {
    hide Size, OSTree.Valid, OSTreeModel.Insert, EnsureBalance;
    ghost var e := Entry(newTs, newVal);
    InsertStep(TreeOf(n), e);
    if n == null {
      root := new OSTree(newTs, newVal);
    } else {
      root := RebalanceIfBad(n);
      Children(root);
      if newTs > root.ts {
        InsertSize(root.tree.left, e);
        var l := Insert(root.left, newTs, newVal);
        root.left := l;
      } else {
        InsertSize(root.tree.right, e);
        var r := Insert(root.right, newTs, newVal);
        root.right := r;
      }
      root.weight := root.weight + 1;
      Own(root);
    }
  }

  lemma InsertStep(t: OTree, e: Entry)
    ensures t.Leaf? ==> OSTreeModel.Insert(t, e) == Node(Leaf, e, Leaf)
    ensures t.Node? ==>
      var b := EnsureBalance(t);
      && OSTreeModel.Insert(t, e) ==
           (if e.ts > b.key.ts then Node(OSTreeModel.Insert(b.left, e), b.key, b.right)
            else Node(b.left, b.key, OSTreeModel.Insert(b.right, e)))
  {
    hide EnsureBalance;
  }

  // ---------------------------------------------------------------- removal

  /** Takes out the node with `rank` predecessors; a node with two children is replaced by its successor. */
  method Remove(n: OSTree, rank: nat) returns (root: OSTree?, removed: OSTree)
    requires n.Valid() && rank < Size(n.tree)
    modifies n.repr
    ensures Owned(root) && Below(root) == old(n.repr) - {removed} && removed in old(n.repr)
    ensures TreeOf(root) == OSTreeModel.Remove(old(n.tree), rank)
    ensures |old(Inorder(n.tree))| > rank && removed.Contents() == old(Inorder(n.tree))[rank]
    ensures removed.left == null && removed.right == null
    decreases n.tree, 1
  {
    hide Size, OSTree.Valid, OSTreeModel.Remove, Inorder;
    Children(n);
    RemoveStep(n.tree, rank);
    var lweight := GetWeight(n.left);
    if lweight == rank {
      root, removed := RemoveTop(n);
    } else if rank < lweight {
      var l;
      l, removed := Remove(n.left, rank);
      SelfOwned(l);
      SelfOwned(n.right);
      n.left := l;
      n.weight := n.weight - 1;
      Own(n);
      root := n;
    } else {
      var r;
      r, removed := Remove(n.right, rank - lweight - 1);
      SelfOwned(r);
      SelfOwned(n.left);
      n.right := r;
      n.weight := n.weight - 1;
      Own(n);
      root := n;
    }
  }

  /** Takes out the node itself; with two children its successor takes its place. */
  method RemoveTop(n: OSTree) returns (root: OSTree?, removed: OSTree)
    requires n.Valid()
    modifies n.repr
    ensures Owned(root) && Below(root) == old(n.repr) - {n} && n in old(n.repr)
    ensures old(n.tree.Node?) && Size(old(n.tree.left)) < Size(old(n.tree))
    ensures TreeOf(root) == OSTreeModel.Remove(old(n.tree), Size(old(n.tree.left)))
    ensures removed == n
    ensures removed.left == null && removed.right == null
    decreases n.tree, 0
  {
    hide Size, OSTree.Valid, OSTreeModel.Remove, Inorder;
    Children(n);
    RemoveStep(n.tree, Size(n.tree.left));
    removed := n;
    if n.left == null {
      root := n.right;
      removed.right := null;
    } else if n.right == null {
      root := n.left;
      removed.left := null;
    } else {
      var newRight, leftmost := Remove(n.right, 0);
      SelfOwned(newRight);
      SelfOwned(n.left);
      leftmost.left := n.left;
      leftmost.right := newRight;
      leftmost.weight := n.weight - 1;
      Own(leftmost);
      n.left := null;
      n.right := null;
      root := leftmost;
    }
  }

  lemma RemoveStep(t: OTree, rank: nat)
    requires rank < Size(t)
    ensures var l, r := t.left, t.right;
            var m := Size(l);
            && Size(t) == 1 + m + Size(r)
            && |Inorder(t)| == Size(t)
            && |Inorder(l)| == m && |Inorder(r)| == Size(r)
            && (if rank < m then
                  && l.Node?
                  && OSTreeModel.Remove(t, rank) == Node(OSTreeModel.Remove(l, rank), t.key, r)
                  && Inorder(t)[rank] == Inorder(l)[rank]
                  && Size(OSTreeModel.Remove(l, rank)) == m - 1
                else if rank > m then
                  && r.Node?
                  && OSTreeModel.Remove(t, rank) == Node(l, t.key, OSTreeModel.Remove(r, rank - m - 1))
                  && Inorder(t)[rank] == Inorder(r)[rank - m - 1]
                  && Size(OSTreeModel.Remove(r, rank - m - 1)) == Size(r) - 1
                else
                  && Inorder(t)[rank] == t.key
                  && (if l.Leaf? then OSTreeModel.Remove(t, rank) == r
                      else if r.Leaf? then OSTreeModel.Remove(t, rank) == l
                      else
                        && Size(r) > 0
                        && OSTreeModel.Remove(t, rank) == Node(l, Inorder(r)[0], OSTreeModel.Remove(r, 0))
                        && Size(OSTreeModel.Remove(r, 0)) == Size(r) - 1))
  {
    InorderSize(t);
    InorderSize(t.left);
    InorderSize(t.right);
    if rank < Size(t.left) {
      RemoveRefinesList(t.left, rank);
    } else if rank > Size(t.left) {
      RemoveRefinesList(t.right, rank - Size(t.left) - 1);
    } else if t.right.Node? {
      RemoveRefinesList(t.right, 0);
      FirstIsFirst(t.right);
    }
  }

  // ---------------------------------------------------------------- searching

  /** Rank and value of a timestamp of the tree. */
  function Find(n: OSTree?, searchTs: nat): (r: (nat, nat))
    requires Owned(n)
    requires Descending(Inorder(TreeOf(n))) && searchTs in Stamps(Inorder(TreeOf(n)))
    reads n, Below(n)
    ensures r == FindEntry(TreeOf(n), searchTs)
    decreases TreeOf(n)
  {
    FindGoesRight(TreeOf(n), searchTs);
    Children(n);
    if searchTs == n.ts then (GetWeight(n.left), n.value)
    else if searchTs > n.ts then Find(n.left, searchTs)
    else
      var (rank, v) := Find(n.right, searchTs);
      (rank + 1 + GetWeight(n.left), v)
  }
}
