/** The managed tree: a root node and the descending list of entries it stands for. */
module OSTreeHeads {
  import opened Trees
  import opened LruQueue
  import opened OSTreeModel
  import opened OSTrees

  /** A tree as the list of entries from the newest to the oldest. */
  class OSTreeHead {
    var head: OSTree?

    ghost predicate Valid()
      reads this, head, Below(head)
    {
      Owned(head) && Descending(Entries())
    }

    ghost function Entries(): seq<Entry>
      reads this, head
    {
      Inorder(TreeOf(head))
    }

    constructor ()
      ensures Valid() && Entries() == [] && fresh(Below(head))
    {
      head := null;
    }

    method Insert(ts: nat, val: nat)
      requires Valid() && ts !in Stamps(Entries())
      modifies this, Below(head)
      ensures Valid() && old(Below(head)) <= Below(head) && fresh(Below(head) - old(Below(head)))
      ensures TreeOf(head) == OSTreeModel.Insert(old(TreeOf(head)), Entry(ts, val))
      ensures Entries() == InsertEntry(old(Entries()), Entry(ts, val))
    {
      hide Descending, Inorder, Stamps, InsertEntry, OSTreeModel.Insert, OSTree.Valid;
      InsertRefinesList(TreeOf(head), Entry(ts, val));
      InsertKeepsDescending(Entries(), Entry(ts, val));
      var r := OSTrees.Insert(head, ts, val);
      head := r;
    }

    /** Removes the entry of the given rank and returns its value. */
    method Remove(rank: nat) returns (val: nat)
      requires Valid() && rank < |Entries()|
      modifies this, Below(head)
      ensures Valid() && Below(head) <= old(Below(head))
      ensures rank < Size(old(TreeOf(head))) && TreeOf(head) == OSTreeModel.Remove(old(TreeOf(head)), rank)
      ensures val == old(Entries())[rank].value
      ensures Entries() == RemoveAt(old(Entries()), rank)
    {
      hide Descending, Inorder, OSTreeModel.Remove, OSTree.Valid, Size;
      InorderSize(TreeOf(head));
      SomeEntry(TreeOf(head), rank);
      RemoveRefinesList(TreeOf(head), rank);
      RemoveKeepsDescending(Entries(), rank);
      var r, deleted := OSTrees.Remove(head, rank);
      val := deleted.value;
      head := r;
    }

    /** The number of newer entries and the value of a timestamp of the tree. */
    function Find(ts: nat): (r: (nat, nat))
      requires Valid() && ts in Stamps(Entries())
      reads this, head, Below(head)
      ensures r.0 == Rank(Stamps(Entries()), ts, Greater)
      ensures r.0 < |Entries()| && Entries()[r.0] == Entry(ts, r.1)
    {
      FindIsIndex(TreeOf(head), ts);
      OSTrees.Find(head, ts)
    }

    function GetWeight(): (w: nat)
      requires Valid()
      reads this, head, Below(head)
      ensures w == |Entries()|
    {
      InorderSize(TreeOf(head));
      OSTrees.GetWeight(head)
    }
  }

  lemma SomeEntry(t: OTree, rank: nat)
    requires rank < Size(t)
    ensures t.Node?
  {
  }
}
