/** The four simulators side by side. */
module Agreement {
  import opened Lru
  import Chunks
  import IncrementFreeze
  import BoundedIncrementFreeze
  import OSTSim
  import ContainerSim
  import OSTrees
  import RawNodes

  /** A success function of a trace is unique, and a limited one is a prefix of the full one. */
  lemma LimitedIsPrefix(limited: seq<nat>, full: seq<nat>, tr: Trace, m: nat, n: nat)
    requires IsSuccessFunction(limited, tr, m) && IsSuccessFunction(full, tr, n) && m <= n
    ensures limited == full[..m + 1]
  {
    hide CacheHits;
  }

  /** A cache that holds every id of the trace gets all the hits there are. */
  lemma {:induction false} SaturatesAtDistinctIds(tr: Trace, x: nat)
    requires x >= DistinctIds(tr, |tr|)
    ensures CacheHits(x, tr, |tr|) == CacheHits(DistinctIds(tr, |tr|), tr, |tr|)
    decreases x
  {
    hide CacheHits, DepthCount, DistinctIds;
    if x > DistinctIds(tr, |tr|) {
      SaturatesAtDistinctIds(tr, x - 1);
      IncrementFreeze.OneMorePage(tr, x - 1);
      Chunks.NoDeepRequests(tr, |tr|, x);
    }
  }

  // Each run asks for the success function at any time in between.

  method RunIaf(tr: Trace) returns (success: seq<nat>)
    requires tr != []
    ensures IsSuccessFunction(success, tr, DistinctIds(tr, |tr|))
  {
    hide DistinctIds, CacheHits, IncrementFreeze.IncrementAndFreeze.Valid;
    var sim := new IncrementFreeze.IncrementAndFreeze();
    for i := 0 to |tr|
      invariant sim.Valid() && sim.trace == tr[..i]
    {
      sim.MemoryAccess(tr[i]);
      assert tr[..i + 1] == tr[..i] + [tr[i]];
      if * {
        success := sim.GetSuccessFunction();
      }
    }
    assert tr[..|tr|] == tr;
    success := sim.GetSuccessFunction();
  }

  method RunBounded(tr: Trace, minChunkSize: nat, limit: nat) returns (success: seq<nat>)
    requires tr != []
    ensures IsSuccessFunction(success, tr, Min(DistinctIds(tr, |tr|), limit))
  {
    hide DistinctIds, CacheHits, BoundedIncrementFreeze.BoundedIAF.Valid;
    var sim := new BoundedIncrementFreeze.BoundedIAF(minChunkSize, limit);
    for i := 0 to |tr|
      invariant sim.Valid() && sim.trace == tr[..i]
    {
      sim.MemoryAccess(tr[i]);
      assert tr[..i + 1] == tr[..i] + [tr[i]];
      if * {
        success := sim.GetSuccessFunction();
      }
    }
    assert tr[..|tr|] == tr;
    success := sim.GetSuccessFunction();
  }

  method RunOst(tr: Trace) returns (success: seq<nat>)
    ensures IsSuccessFunction(success, tr, DistinctIds(tr, |tr|))
  {
    hide DistinctIds, CacheHits, OSTSim.OSTCacheSim.Valid;
    var sim := new OSTSim.OSTCacheSim();
    for i := 0 to |tr|
      invariant fresh(OSTrees.Below(sim.lruQueue.head))
      invariant sim.Valid() && sim.trace == tr[..i]
    {
      sim.MemoryAccess(tr[i]);
      assert tr[..i + 1] == tr[..i] + [tr[i]];
      if * {
        success := sim.GetSuccessFunction();
      }
    }
    assert tr[..|tr|] == tr;
    success := sim.GetSuccessFunction();
  }

  method RunContainer(tr: Trace) returns (success: seq<nat>)
    ensures IsSuccessFunction(success, tr, DistinctIds(tr, |tr|))
  {
    hide DistinctIds, CacheHits, ContainerSim.ContainerCacheSim.Valid;
    var sim := new ContainerSim.ContainerCacheSim();
    for i := 0 to |tr|
      invariant fresh(RawNodes.Below(sim.lruQueue.root))
      invariant sim.Valid() && sim.trace == tr[..i]
    {
      sim.MemoryAccess(tr[i]);
      assert tr[..i + 1] == tr[..i] + [tr[i]];
      if * {
        success := sim.GetSuccessFunction();
      }
    }
    assert tr[..|tr|] == tr;
    success := sim.GetSuccessFunction();
  }

  /** All four agree on every trace; the bounded one on the sizes up to its limit. */
  method Compare(tr: Trace, minChunkSize: nat, limit: nat)
    returns (iaf: seq<nat>, bounded: seq<nat>, ost: seq<nat>, container: seq<nat>)
    requires tr != []
    ensures IsSuccessFunction(iaf, tr, DistinctIds(tr, |tr|))
    ensures ost == iaf && container == iaf
    ensures bounded == iaf[..1 + Min(DistinctIds(tr, |tr|), limit)]
  {
    hide DistinctIds, CacheHits;
    iaf := RunIaf(tr);
    bounded := RunBounded(tr, minChunkSize, limit);
    ost := RunOst(tr);
    container := RunContainer(tr);
    LimitedIsPrefix(bounded, iaf, tr, Min(DistinctIds(tr, |tr|), limit), DistinctIds(tr, |tr|));
  }
}
