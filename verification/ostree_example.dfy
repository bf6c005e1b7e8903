/** A run of the OSTree, eight insertions and a removal, after which an insertion leaves a node away
    from its path out of balance by more than one entry. */
module OSTreeExample {
  import opened Trees
  import opened OSTreeModel

  ghost function Stamped(ts: nat): Entry {
    Entry(ts, 0)
  }

  ghost function Single(ts: nat): OTree {
    Node(Leaf, Stamped(ts), Leaf)
  }

  lemma InsertBelowLeaf(x: nat, ts: nat)
    ensures Insert(Single(x), Stamped(ts))
            == if ts > x then Node(Single(ts), Stamped(x), Leaf) else Node(Leaf, Stamped(x), Single(ts))
  {
    InsertBelow(Leaf, Stamped(x), Leaf, Stamped(ts));
  }

  /** The subtrees left and right of the root. */
  ghost function UpTo(n: nat): OTree {
    if n == 0 then Single(10)
    else if n == 1 then Node(Leaf, Stamped(10), Single(8))
    else if n == 2 then Node(Single(12), Stamped(10), Single(8))
    else if n == 3 then Node(Node(Single(14), Stamped(12), Leaf), Stamped(10), Single(8))
    else Node(Node(Node(Single(16), Stamped(14), Leaf), Stamped(12), Leaf), Stamped(10), Single(8))
  }

  ghost function Two(): OTree {
    Node(Leaf, Stamped(4), Single(2))
  }

  lemma Sizes()
    ensures Size<Entry>(Leaf) == 0 && Size(Two()) == 2
    ensures forall ts: nat :: Size(Single(ts)) == 1
    ensures forall n: nat :: n <= 4 ==> Size(UpTo(n)) == n + 1
    ensures forall n: nat :: 1 <= n <= 4 ==> Size(UpTo(n).left) == n - 1
  {
    assert Size(Node(Single(14), Stamped(12), Leaf)) == 2;
    assert Size(Node(Single(16), Stamped(14), Leaf)) == 2;
    assert Size(Node(Node(Single(16), Stamped(14), Leaf), Stamped(12), Leaf)) == 3;
  }

  lemma FourInsertions()
    ensures Insert(Insert(Insert(Insert(Leaf, Stamped(6)), Stamped(10)), Stamped(4)), Stamped(2))
            == Node(UpTo(0), Stamped(6), Two())
  {
    hide Insert, Size, EnsureBalance;
    Sizes();
    InsertFirst(Stamped(6));
    InsertBelowLeaf(6, 10);
    InsertBelow(Single(10), Stamped(6), Leaf, Stamped(4));
    InsertFirst(Stamped(4));
    InsertBelow(Single(10), Stamped(6), Single(4), Stamped(2));
    InsertBelowLeaf(4, 2);
  }

  lemma InsertFirst(e: Entry)
    ensures Insert(Leaf, e) == Node(Leaf, e, Leaf)
  {
  }

  /** The insertion after `n` of those of 8, 12, 14 and 16. */
  ghost function NextStamp(n: nat): nat {
    if n == 0 then 8 else if n == 1 then 12 else if n == 2 then 14 else 16
  }

  lemma OneMoreInsertion(n: nat)
    requires n < 4
    ensures Insert(Node(UpTo(n), Stamped(6), Two()), Stamped(NextStamp(n))) == Node(UpTo(n + 1), Stamped(6), Two())
  {
    hide Insert, Size, EnsureBalance;
    Sizes();
    var e := Stamped(NextStamp(n));
    InsertBelow(UpTo(n), Stamped(6), Two(), e);
    if n == 0 {
      InsertBelowLeaf(10, 8);
    } else {
      InsertBelow(UpTo(n).left, Stamped(10), Single(8), e);
      InsertFirst(e);
      InsertBelowLeaf(12, 14);
      InsertBelow(Single(14), Stamped(12), Leaf, e);
      InsertBelowLeaf(14, 16);
    }
  }

  /** The tree after the eight insertions. */
  ghost function Built(): OTree {
    var t := Insert(Insert(Insert(Insert(Leaf, Stamped(6)), Stamped(10)), Stamped(4)), Stamped(2));
    Insert(Insert(Insert(Insert(t, Stamped(8)), Stamped(12)), Stamped(14)), Stamped(16))
  }

  lemma BuiltIs()
    ensures Built() == Node(UpTo(4), Stamped(6), Two())
  {
    hide Insert, UpTo;
    FourInsertions();
    OneMoreInsertion(0);
    OneMoreInsertion(1);
    OneMoreInsertion(2);
    OneMoreInsertion(3);
  }

  lemma RemovedIs(t: OTree)
    requires t == Node(UpTo(4), Stamped(6), Two())
    ensures Size(t) > 3
    ensures Remove(t, 3) == Node(Node(UpTo(4).left, Stamped(8), Leaf), Stamped(6), Two())
  {
    Sizes();
    assert Remove(Single(8), 0) == Leaf;
    assert Remove(UpTo(4), 3) == Node(UpTo(4).left, Stamped(8), Leaf);
  }

  /** Taking 10 out and inserting 1 leaves the node of 8 with three entries on its left and none on
      its right. */
  lemma InsertionAfterRemoval(t: OTree)
    requires t == Built()
    ensures Size(t) > 3
    ensures !SlightlyOff(Insert(Remove(t, 3), Stamped(1))) && !OffPathSlightlyOff(Remove(t, 3), 1)
  {
    hide Insert, EnsureBalance, Built, Remove, OffPathSlightlyOff;
    BuiltIs();
    RemovedIs(t);
    Sizes();
    var l := Node(UpTo(4).left, Stamped(8), Leaf);
    InsertBelow(l, Stamped(6), Two(), Stamped(1));
    assert !SlightlyOff(l);
    InsertSlightlyOffIff(Remove(t, 3), Stamped(1));
  }
}
