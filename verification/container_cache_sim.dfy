/** The simulator over the order-statistic set. */
module ContainerSim {
  import opened Lru
  import opened Trees
  import opened SearchTrees
  import opened RawNodes
  import opened OrderedSet
  import opened LruQueue
  import IncrementFreeze

  class ContainerCacheSim {
    var pageHits: seq<nat>
    const lruQueue: OrderStatisticSet<nat>
    var pageTable: map<Id, nat>
    var accessNumber: nat
    ghost var trace: Trace

    ghost predicate Valid()
      reads this, lruQueue, lruQueue.root, Below(lruQueue.root)
    {
      && lruQueue.Valid() && lruQueue.less == Greater
      && lruQueue.Keys() == Times(trace, |trace|)
      && IsPageTable(pageTable, trace)
      && IsPageHits(pageHits, trace)
      && accessNumber == |trace| + 1
    }

    constructor ()
      ensures Valid() && trace == []
      ensures fresh(lruQueue) && fresh(Below(lruQueue.root))
    {
      GreaterIsOrder();
      pageHits := [];
      lruQueue := new OrderStatisticSet(Greater);
      pageTable := map[];
      accessNumber := 1;
      trace := [];
      new;
      NoRequests();
    }

    method MemoryAccess(addr: Id)
      requires Valid()
      modifies this, lruQueue, Below(lruQueue.root)
      ensures Valid() && trace == old(trace) + [addr]
      ensures fresh(Below(lruQueue.root) - old(Below(lruQueue.root)))
    {
      hide OrderStatisticSet.Valid, OrderStatisticSet.Keys, Times, IsPageTable, IsPageHits, DistinctIds, Depth,
        LastAccess, InsertSorted, RemoveSorted, Rank, Stack, Greater, RawNode.Valid, Inorder;
      ghost var tr := trace;
      var ts := accessNumber;
      accessNumber := accessNumber + 1;
      NextRequest(tr, addr);
      PageTableStep(pageTable, tr, addr);
      if addr in pageTable {
        RankIsDepth(tr, |tr|, addr);
        var rank := MoveFrontQueue(pageTable[addr], ts);
        HitStep(pageHits, tr, addr, rank);
        pageHits := pageHits[rank := pageHits[rank] + 1];
        pageTable := pageTable[addr := ts];
      } else {
        MissStep(pageHits, tr, addr);
        pageHits := pageHits + [0];
        pageTable := pageTable[addr := ts];
        var idx, node, didInsert := lruQueue.Insert(ts);
      }
      trace := trace + [addr];
    }

    /** Takes a page out of the queue and puts it back with a new time; returns its old rank. */
    method MoveFrontQueue(oldTs: nat, newTs: nat) returns (rank: nat)
      requires lruQueue.Valid() && lruQueue.less == Greater && oldTs in lruQueue.Keys()
      modifies lruQueue, Below(lruQueue.root)
      ensures lruQueue.Valid() && fresh(Below(lruQueue.root) - old(Below(lruQueue.root)))
      ensures rank == Rank(old(lruQueue.Keys()), oldTs, Greater)
      ensures lruQueue.Keys() == InsertSorted(RemoveSorted(old(lruQueue.Keys()), oldTs, Greater), newTs, Greater)
    {
      hide OrderStatisticSet.Valid, OrderStatisticSet.Keys, Rank, InsertSorted, RemoveSorted, At;
      var found := lruQueue.Find(oldTs);
      rank := found.0;
      var i, successor, erased, extracted := lruQueue.Erase(oldTs);
      var idx, node, didInsert := lruQueue.Insert(newTs);
    }

    /** success[x] sums the hits of the depths up to x. */
    method GetSuccessFunction() returns (success: seq<nat>)
      requires Valid()
      ensures IsSuccessFunction(success, trace, DistinctIds(trace, |trace|))
    {
      hide CacheHits, DepthCount, DistinctIds, OrderStatisticSet.Valid, OrderStatisticSet.Keys, IsPageTable, Times;
      var nhits := 0;
      success := seq(|pageHits| + 1, _ => 0);
      IncrementFreeze.NoHitsWithoutCache(trace);
      for page := 0 to |pageHits|
        invariant |success| == |pageHits| + 1
        invariant nhits == CacheHits(page, trace, |trace|)
        invariant forall x :: 0 <= x <= page ==> success[x] == CacheHits(x, trace, |trace|)
      {
        IncrementFreeze.OneMorePage(trace, page);
        nhits := nhits + pageHits[page];
        success := success[page + 1 := nhits];
      }
    }
  }
}
