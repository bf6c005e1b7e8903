/** The simulator over the OSTree. */
module OSTSim {
  import opened Lru
  import opened Trees
  import opened SearchTrees
  import opened LruQueue
  import opened OSTreeModel
  import opened OSTrees
  import opened OSTreeHeads
  import IncrementFreeze

  /** The queue holds each page of the trace under its last-access time, newest first. */
  ghost predicate IsQueue(q: seq<Entry>, tr: Trace) {
    Stamps(q) == Times(tr, |tr|) && HoldsPages(q, tr)
  }

  ghost predicate HoldsPages(q: seq<Entry>, tr: Trace) {
    forall i :: 0 <= i < |q| ==> 0 < q[i].ts <= |tr| && tr[q[i].ts - 1] == q[i].value
  }

  class OSTCacheSim {
    var pageHits: seq<nat>
    const lruQueue: OSTreeHead
    var pageTable: map<Id, nat>
    var accessNumber: nat
    ghost var trace: Trace

    ghost predicate Valid()
      reads this, lruQueue, lruQueue.head, Below(lruQueue.head)
    {
      && lruQueue.Valid()
      && IsQueue(lruQueue.Entries(), trace)
      && IsPageTable(pageTable, trace)
      && IsPageHits(pageHits, trace)
      && accessNumber == |trace| + 1
    }

    constructor ()
      ensures Valid() && trace == []
      ensures fresh(lruQueue) && fresh(Below(lruQueue.head))
    {
      pageHits := [];
      lruQueue := new OSTreeHead();
      pageTable := map[];
      accessNumber := 1;
      trace := [];
      new;
      NoRequests();
    }

    method MemoryAccess(addr: Id)
      requires Valid()
      modifies this, lruQueue, Below(lruQueue.head)
      ensures Valid() && trace == old(trace) + [addr]
      ensures fresh(Below(lruQueue.head) - old(Below(lruQueue.head)))
    {
      hide OSTreeHead.Valid, OSTreeHead.Entries, IsQueue, Descending, IsPageTable, IsPageHits, DistinctIds, Depth,
        LastAccess, InsertEntry, RemoveAt, Rank, Stack, Greater, OSTree.Valid, Inorder, Stamps;
      ghost var tr := trace;
      var ts := accessNumber;
      accessNumber := accessNumber + 1;
      PageTableStep(pageTable, tr, addr);
      PageTableOf(pageTable, tr, addr);
      QueueDescends(lruQueue);
      if addr in pageTable {
        RankIsDepth(tr, |tr|, addr);
        QueueMove(lruQueue.Entries(), tr, addr);
        var rank := MoveFrontQueue(pageTable[addr], ts);
        HitStep(pageHits, tr, addr, rank);
        pageHits := pageHits[rank := pageHits[rank] + 1];
        pageTable := pageTable[addr := ts];
      } else {
        MissStep(pageHits, tr, addr);
        QueueAdd(lruQueue.Entries(), tr, addr);
        pageHits := pageHits + [0];
        pageTable := pageTable[addr := ts];
        lruQueue.Insert(ts, addr);
      }
      trace := trace + [addr];
    }

    /** Takes a page out of the queue and puts it back with a new time; returns its old rank. */
    method MoveFrontQueue(oldTs: nat, newTs: nat) returns (rank: nat)
      requires lruQueue.Valid() && oldTs in Stamps(lruQueue.Entries()) && newTs !in Stamps(lruQueue.Entries())
      modifies lruQueue, Below(lruQueue.head)
      ensures lruQueue.Valid() && fresh(Below(lruQueue.head) - old(Below(lruQueue.head)))
      ensures rank == Rank(Stamps(old(lruQueue.Entries())), oldTs, Greater)
      ensures rank < |old(lruQueue.Entries())|
      ensures var q := old(lruQueue.Entries());
              lruQueue.Entries() == InsertEntry(RemoveAt(q, rank), Entry(newTs, q[rank].value))
    {
      hide OSTreeHead.Valid, OSTreeHead.Entries, Rank, InsertEntry, RemoveAt, Stamps, OSTree.Valid;
      var found := lruQueue.Find(oldTs);
      rank := found.0;
      NoNewStamp(lruQueue.Entries(), rank, newTs);
      var v := lruQueue.Remove(rank);
      lruQueue.Insert(newTs, found.1);
    }

    /** success[x] sums the hits of the depths up to x. */
    method GetSuccessFunction() returns (success: seq<nat>)
      requires Valid()
      ensures IsSuccessFunction(success, trace, DistinctIds(trace, |trace|))
    {
      hide CacheHits, DepthCount, DistinctIds, OSTreeHead.Valid, OSTreeHead.Entries, IsPageTable, IsQueue;
      var nhits := 0;
      success := seq(|pageHits| + 1, _ => 0);
      IncrementFreeze.NoHitsWithoutCache(trace);
      for page := 0 to |pageHits|
        invariant |success| == |pageHits| + 1
        invariant nhits == CacheHits(page, trace, |trace|)
        invariant forall x :: 0 <= x <= page ==> success[x] == CacheHits(x, trace, |trace|)
      {
        IncrementFreeze.OneMorePage(trace, page);
        nhits := nhits + pageHits[page];
        success := success[page + 1 := nhits];
      }
    }
  }

  lemma NoNewStamp(q: seq<Entry>, rank: nat, ts: nat)
    requires rank < |q| && ts !in Stamps(q)
    ensures ts !in Stamps(RemoveAt(q, rank))
  {
    forall i | 0 <= i < |q| ensures q[i].ts != ts { assert Stamps(q)[i] == q[i].ts; }
  }

  lemma PageTableOf(table: map<Id, nat>, tr: Trace, x: Id)
    requires IsPageTable(table, tr)
    ensures x in table <==> LastAccess(tr, |tr|, x) > 0
    ensures x in table ==> table[x] == LastAccess(tr, |tr|, x)
  {
  }

  /** The next time is later than every time in the queue. */
  lemma NextIsNew(q: seq<Entry>, tr: Trace)
    requires HoldsPages(q, tr)
    ensures |tr| + 1 !in Stamps(q)
  {
  }

  lemma HoldsAfterRemove(q: seq<Entry>, tr: Trace, rank: nat)
    requires HoldsPages(q, tr) && rank < |q|
    ensures HoldsPages(RemoveAt(q, rank), tr)
  {
  }

  lemma HoldsAfterInsert(q: seq<Entry>, tr: Trace, x: Id)
    requires HoldsPages(q, tr)
    ensures HoldsPages(InsertEntry(q, Entry(|tr| + 1, x)), tr + [x])
  {
    hide Stamps, Rank;
    var e := Entry(|tr| + 1, x);
    forall f | f in q || f == e ensures 0 < f.ts <= |tr| + 1 && (tr + [x])[f.ts - 1] == f.value {}
    var r := Rank(Stamps(q), e.ts, Greater);
    forall i | 0 <= i < |q| + 1 ensures InsertEntry(q, e)[i] in q || InsertEntry(q, e)[i] == e {
      if i < r { assert InsertEntry(q, e)[i] == q[i]; }
      if i > r { assert InsertEntry(q, e)[i] == q[i - 1]; }
    }
  }

  /** The queue after a request for a new page. */
  lemma QueueAdd(q: seq<Entry>, tr: Trace, x: Id)
    requires IsQueue(q, tr) && Descending(q) && LastAccess(tr, |tr|, x) == 0
    ensures |tr| + 1 !in Stamps(q)
    ensures IsQueue(InsertEntry(q, Entry(|tr| + 1, x)), tr + [x])
  {
    hide Descending, Stamps, Times, InsertSorted, InsertEntry, Rank, LastAccess, HoldsPages, Stack, RemoveAt;
    NextIsNew(q, tr);
    NextRequest(tr, x);
    InsertKeepsDescending(q, Entry(|tr| + 1, x));
    HoldsAfterInsert(q, tr, x);
  }

  /** The page with the latest time p is the one that was requested then. */
  lemma PageAt(q: seq<Entry>, tr: Trace, rank: nat, x: Id)
    requires HoldsPages(q, tr) && rank < |q| && LastAccess(tr, |tr|, x) == q[rank].ts
    ensures Stamps(q)[rank] == q[rank].ts && q[rank].value == x
  {
  }

  /** Where a page of the trace is in the queue. */
  lemma QueueFind(q: seq<Entry>, tr: Trace, x: Id)
    requires IsQueue(q, tr) && LastAccess(tr, |tr|, x) > 0
    ensures var rank := Rank(Stamps(q), LastAccess(tr, |tr|, x), Greater);
            && LastAccess(tr, |tr|, x) in Stamps(q)
            && rank + 1 == Depth(tr, |tr|, x)
            && rank < |q| && q[rank] == Entry(LastAccess(tr, |tr|, x), x)
  {
    hide Stamps, Times, Rank, LastAccess, HoldsPages, Depth, Stack, RemoveAt;
    var rank := Rank(Stamps(q), LastAccess(tr, |tr|, x), Greater);
    RankIsDepth(tr, |tr|, x);
    StampAt(q, rank);
    PageAt(q, tr, rank, x);
  }

  lemma MovedStamps(q: seq<Entry>, rank: nat, e: Entry)
    requires Descending(q) && rank < |q| && e.ts !in Stamps(q)
    ensures Stamps(InsertEntry(RemoveAt(q, rank), e))
            == InsertSorted<nat>(RemoveSorted<nat>(Stamps(q), q[rank].ts, Greater), e.ts, Greater)
  {
    hide Descending, Stamps, InsertSorted, InsertEntry, RemoveSorted, Rank, RemoveAt;
    NoNewStamp(q, rank, e.ts);
    RemoveKeepsDescending(q, rank);
    InsertKeepsDescending(RemoveAt(q, rank), e);
  }

  lemma QueueMoved(q: seq<Entry>, tr: Trace, x: Id, rank: nat)
    requires IsQueue(q, tr) && Descending(q) && LastAccess(tr, |tr|, x) > 0
    requires rank < |q| && q[rank].ts == LastAccess(tr, |tr|, x)
    ensures Stamps(InsertEntry(RemoveAt(q, rank), Entry(|tr| + 1, x))) == Times(tr + [x], |tr + [x]|)
    ensures HoldsPages(InsertEntry(RemoveAt(q, rank), Entry(|tr| + 1, x)), tr + [x])
  {
    hide Descending, Stamps, Times, InsertSorted, InsertEntry, RemoveSorted, Rank, LastAccess, HoldsPages, Stack,
      RemoveAt, Greater;
    HoldsAfterRemove(q, tr, rank);
    HoldsAfterInsert(RemoveAt(q, rank), tr, x);
    NextIsNew(q, tr);
    NextRequest(tr, x);
    MovedStamps(q, rank, Entry(|tr| + 1, x));
    assert q[rank].ts == LastAccess(tr, |tr|, x);
    assert Times(tr, |tr|) == Stamps(q);
    assert RemoveSorted<nat>(Stamps(q), q[rank].ts, Greater)
           == RemoveSorted<nat>(Times(tr, |tr|), LastAccess(tr, |tr|, x), Greater);
  }

  /** The queue after a request for a page that is in it. */
  lemma QueueMove(q: seq<Entry>, tr: Trace, x: Id)
    requires IsQueue(q, tr) && Descending(q) && LastAccess(tr, |tr|, x) > 0
    ensures var rank := Rank(Stamps(q), LastAccess(tr, |tr|, x), Greater);
            && LastAccess(tr, |tr|, x) in Stamps(q) && |tr| + 1 !in Stamps(q)
            && rank + 1 == Depth(tr, |tr|, x)
            && rank < |q| && q[rank].value == x
            && IsQueue(InsertEntry(RemoveAt(q, rank), Entry(|tr| + 1, x)), tr + [x])
  {
    hide Descending, Stamps, Times, InsertEntry, Rank, LastAccess, HoldsPages, Depth, Stack, RemoveAt;
    QueueFind(q, tr, x);
    NextIsNew(q, tr);
    QueueMoved(q, tr, x, Rank(Stamps(q), LastAccess(tr, |tr|, x), Greater));
  }

  lemma StampAt(q: seq<Entry>, i: nat)
    requires i < |q|
    ensures Stamps(q)[i] == q[i].ts
  {
  }

  lemma QueueDescends(queue: OSTreeHead)
    requires queue.Valid()
    ensures Descending(queue.Entries())
  {
  }
}
