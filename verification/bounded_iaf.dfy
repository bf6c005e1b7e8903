/** The online simulator: chunks of bounded size, a histogram and the top of the LRU stack. */
module BoundedIncrementFreeze {
  import opened Lru
  import opened Requests
  import opened Populate
  import opened Chunks
  import opened IncrementFreeze

  const MAX_U_MULT: nat := 4
  const MIN_U_MULT: nat := 3

  /** The buffer size after a chunk that leaves `living` requests: kept while it exceeds three times
      their number, otherwise four times their number. */
  ghost function NextU(u: nat, living: nat): nat {
    if 3 * living < u then u else 4 * living
  }

  /** The pending requests are the carried ids and the fresh requests, numbered from 1. */
  ghost predicate Pending(requests: seq<Request>, living: seq<Request>, tr: Trace, done: nat, limit: nat)
    requires done <= |tr|
  {
    && requests == Numbered(Chunk(tr, done, limit))
    && living == requests[..Carried(tr, done, limit)]
    && |requests| == Carried(tr, done, limit) + (|tr| - done)
  }

  lemma StartPending(limit: nat)
    ensures Pending([], [], [], 0, limit)
  {
  }

  lemma PushPending(requests: seq<Request>, living: seq<Request>, tr: Trace, done: nat, limit: nat, x: Id)
    requires done <= |tr| && Pending(requests, living, tr, done, limit)
    ensures Pending(requests + [Request(x, |requests| + 1)], living, tr + [x], done, limit)
  {
    hide Stack, Reverse;
    var tr' := tr + [x];
    StackOfPrefix(tr, tr', done);
    assert tr'[done..] == tr[done..] + [x];
    assert Chunk(tr', done, limit) == Chunk(tr, done, limit) + [x];
    assert Numbered(Chunk(tr', done, limit)) == requests + [Request(x, |requests| + 1)];
  }

  lemma {:induction false} DistinctIdsOfPrefix(a: Trace, b: Trace, n: nat)
    requires n <= |a| && n <= |b| && a[..n] == b[..n]
    ensures DistinctIds(a, n) == DistinctIds(b, n)
  {
  }

  lemma ExactOfPrefix(hits: seq<nat>, tr: Trace, done: nat, limit: nat, x: Id)
    requires done <= |tr| && Exact(hits, tr, done, limit)
    ensures Exact(hits, tr + [x], done, limit)
  {
    hide DepthCount, DistinctIds;
    var tr' := tr + [x];
    assert tr'[..done] == tr[..done];
    DistinctIdsOfPrefix(tr, tr', done);
    forall d: nat ensures DepthCount(tr', done, d) == DepthCount(tr, done, d) {
      DepthCountOfPrefix(tr, tr', done, d);
    }
  }

  lemma NumberedRepresents(tr: Trace)
    ensures Represents(Numbered(tr), tr)
  {
    forall k | 0 <= k < |tr| ensures Request(tr[k], k + 1) in Numbered(tr) {
      assert Numbered(tr)[k] == Request(tr[k], k + 1);
    }
  }

  /** After a chunk the trimmed, renumbered living requests are the pending requests. */
  lemma NextPending(living: seq<Request>, tr: Trace, c: nat, limit: nat, renumbered: seq<Request>)
    requires c <= |tr| && Chunk(tr, c, limit) != []
    requires living == LivingOf(Chunk(tr, c, limit))
    requires var kept := Trimmed(living, limit);
             |renumbered| == |kept| && forall i :: 0 <= i < |kept| ==> renumbered[i] == Request(kept[i].addr, i + 1)
    ensures Pending(renumbered, renumbered, tr, |tr|, limit)
  {
    hide Stack, Reverse, LivingOf, Take;
    TrimmedIsCarried(tr, c, limit);
    var kept := Trimmed(living, limit);
    ChunkSize(tr, |tr|, limit);
    assert tr[|tr|..] == [];
    assert Chunk(tr, |tr|, limit) == Ids(kept);
    assert renumbered == Numbered(Ids(kept));
  }

  class BoundedIAF {
    /** chunk_input: pending requests, living requests carried over, histogram. */
    var chunkInput: ChunkInput
    const iafAlg: IncrementAndFreeze
    var curU: nat
    const maxLivingReq: nat
    var accessNumber: nat
    /** All accesses so far; the histogram counts the first `done`; the total size of the chunks
        that were started by a full buffer. */
    ghost var trace: Trace
    ghost var done: nat
    ghost var autoWork: nat
    ghost const minChunk: nat

    ghost predicate Valid()
      reads this
    {
      && done <= |trace|
      && Pending(chunkInput.requests, chunkInput.output.livingRequests, trace, done, maxLivingReq)
      && Exact(chunkInput.output.hitsVector, trace, done, maxLivingReq)
      && Policy()
      && accessNumber == |trace| + 1
    }

    /** The chunk-size policy: the buffer is at least three times the carried requests, never larger
        than the first size or four times what can be carried, and not full between calls; chunks
        started by a full buffer are at least two thirds fresh. */
    ghost predicate Policy()
      requires done <= |trace|
      reads this
    {
      && SizePolicy(curU, minChunk, |chunkInput.output.livingRequests|, DistinctIds(trace, done), maxLivingReq)
      && (minChunk > 0 ==> |chunkInput.requests| < curU && 2 * autoWork <= 3 * done)
    }

    constructor (minChunkSize: nat, maxCacheSize: nat)
      ensures Valid() && trace == [] && minChunk == minChunkSize && maxLivingReq == maxCacheSize
      ensures fresh(iafAlg)
    {
      chunkInput := ChunkInput(ChunkOutput([], []), []);
      iafAlg := new IncrementAndFreeze();
      curU := minChunkSize;
      maxLivingReq := maxCacheSize;
      accessNumber := 1;
      trace, done, autoWork, minChunk := [], 0, 0, minChunkSize;
      new;
      StartPending(maxCacheSize);
    }

    method UpdateU(numLiving: nat)
      modifies this`curU
      ensures curU == if 3 * numLiving < old(curU) then old(curU) else 4 * numLiving
      ensures curU >= old(curU) && 3 * numLiving <= curU
    {
      var upperU := MAX_U_MULT * numLiving;
      curU := if numLiving * MIN_U_MULT < curU then curU else upperU;
    }

    /** Solves the pending requests as one chunk and carries the top of the stack over. */
    method ProcessRequests()
      requires done < |trace|
      requires Pending(chunkInput.requests, chunkInput.output.livingRequests, trace, done, maxLivingReq)
      requires Exact(chunkInput.output.hitsVector, trace, done, maxLivingReq)
      requires minChunk <= curU <= Max(minChunk, 4 * Min(DistinctIds(trace, done), maxLivingReq))
      requires minChunk > 0 ==> 2 * autoWork <= 3 * |trace|
      requires accessNumber == |trace| + 1
      modifies this`chunkInput, this`curU, this`done, iafAlg
      ensures Valid() && done == |trace|
      ensures curU == NextU(old(curU), Min(DistinctIds(trace, |trace|), maxLivingReq))
    {
      hide Pending, Exact, DistinctIds, Chunk, LivingOf, Represents, SizePolicy, Max, DepthsAdded;
      ghost var curU0 := curU;
      ghost var c, tr, hits0 := done, trace, chunkInput.output.hitsVector;
      PendingRepresents(chunkInput.requests, chunkInput.output.livingRequests, trace, done, maxLivingReq);
      var result := iafAlg.ProcessChunk(chunkInput, Chunk(trace, done, maxLivingReq));
      var hits, living := result.output.hitsVector, result.output.livingRequests;
      ghost var allLiving := living;
      ChunkHits(trace, done, maxLivingReq, hits0, hits);
      hits := Resize(hits, 1 + Min(|living|, maxLivingReq));
      living := TrimAndNumber(living, maxLivingReq);
      NextPending(allLiving, trace, done, maxLivingReq, living);
      CarriedSize(living, living, trace, |trace|, maxLivingReq);
      DistinctIdsGrow(trace, done, |trace|);
      chunkInput := ChunkInput(ChunkOutput(living, hits), []);
      UpdateU(|living|);
      SizePolicyKept(curU0, curU, minChunk, DistinctIds(trace, done), DistinctIds(trace, |trace|), maxLivingReq);
      chunkInput := chunkInput.(requests := living);
      done := |trace|;
    }

    method MemoryAccess(addr: Id)
      requires Valid()
      modifies this`chunkInput, this`curU, this`done, this`trace, this`autoWork, this`accessNumber, iafAlg
      ensures Valid() && trace == old(trace) + [addr]
      ensures done == if |old(chunkInput.requests)| + 1 >= old(curU) then |trace| else old(done)
      ensures |old(chunkInput.requests)| + 1 >= old(curU) ==>
                2 * (|old(chunkInput.requests)| + 1) <= 3 * (|trace| - old(done))
      ensures |old(chunkInput.requests)| + 1 < old(curU) ==>
                var reqs := old(chunkInput.requests);
                chunkInput == old(chunkInput).(requests := reqs + [Request(addr, |reqs| + 1)])
      ensures curU == if |old(chunkInput.requests)| + 1 >= old(curU)
                      then NextU(old(curU), Min(DistinctIds(trace, |trace|), maxLivingReq)) else old(curU)
      ensures old(curU) <= curU <= Max(minChunk, 4 * Min(DistinctIds(trace, done), maxLivingReq))
      ensures autoWork == old(autoWork) + if |old(chunkInput.requests)| + 1 >= old(curU)
                                          then |old(chunkInput.requests)| + 1 else 0
      ensures minChunk > 0 ==> |chunkInput.requests| < curU && 2 * autoWork <= 3 * |trace|
    {
      hide Pending, Exact, DistinctIds, DepthCount;
      accessNumber := accessNumber + 1;
      PushPending(chunkInput.requests, chunkInput.output.livingRequests, trace, done, maxLivingReq, addr);
      ExactOfPrefix(chunkInput.output.hitsVector, trace, done, maxLivingReq, addr);
      assert (trace + [addr])[..done] == trace[..done];
      DistinctIdsOfPrefix(trace, trace + [addr], done);
      chunkInput := chunkInput.(requests := chunkInput.requests + [Request(addr, |chunkInput.requests| + 1)]);
      trace := trace + [addr];
      PendingSize(chunkInput.requests, chunkInput.output.livingRequests, trace, done, maxLivingReq);
      if |chunkInput.requests| >= curU {
        autoWork := autoWork + |chunkInput.requests|;
        ProcessRequests();
      }
    }

    /** The success function of all accesses so far, for every cache size up to the limit. */
    method GetSuccessFunction() returns (success: seq<nat>)
      requires Valid()
      modifies this`chunkInput, this`curU, this`done, iafAlg
      ensures Valid() && done == |trace|
      ensures curU == if old(done) < |trace|
                      then NextU(old(curU), Min(DistinctIds(trace, |trace|), maxLivingReq)) else old(curU)
      ensures old(curU) <= curU <= Max(minChunk, 4 * Min(DistinctIds(trace, |trace|), maxLivingReq))
      ensures trace == [] ==> success == []
      ensures trace != [] ==> IsSuccessFunction(success, trace, Min(DistinctIds(trace, |trace|), maxLivingReq))
    {
      hide Pending, Exact, DistinctIds, DepthCount;
      PendingSize(chunkInput.requests, chunkInput.output.livingRequests, trace, done, maxLivingReq);
      if |chunkInput.requests| - |chunkInput.output.livingRequests| > 0 {
        ProcessRequests();
      }
      ExactNow(chunkInput.output.hitsVector, trace, maxLivingReq);
      success := PrefixSums(chunkInput.output.hitsVector, trace);
    }
  }

  /** success[i] = hits[1] + ... + hits[i] */
  method PrefixSums(hits: seq<nat>, ghost tr: Trace) returns (success: seq<nat>)
    requires IsDepthHistogram(hits, tr)
    ensures |success| == |hits|
    ensures forall x :: 0 <= x < |success| ==> success[x] == CacheHits(x, tr, |tr|)
  {
    hide DepthCount, CacheHits;
    var runningCount := 0;
    success := seq(|hits|, _ => 0);
    NoHitsWithoutCache(tr);
    var i := 1;
    while i < |hits|
      invariant 1 <= i
      invariant |success| == |hits|
      invariant runningCount == CacheHits(i - 1, tr, |tr|)
      invariant forall x :: 0 <= x < i && x < |hits| ==> success[x] == CacheHits(x, tr, |tr|)
    {
      OneMorePage(tr, i - 1);
      runningCount := runningCount + hits[i];
      success := success[i := runningCount];
      i := i + 1;
    }
  }

  /** How the buffer size follows the number of carried requests. */
  ghost predicate SizePolicy(curU: nat, minChunk: nat, living: nat, ids: nat, limit: nat) {
    && 3 * living <= curU
    && minChunk <= curU <= Max(minChunk, 4 * Min(ids, limit))
  }

  lemma SizePolicyKept(curU: nat, curU': nat, minChunk: nat, ids: nat, ids': nat, limit: nat)
    requires minChunk <= curU <= Max(minChunk, 4 * Min(ids, limit)) && ids <= ids'
    requires curU' == NextU(curU, Min(ids', limit))
    ensures SizePolicy(curU', minChunk, Min(ids', limit), ids', limit)
    ensures curU' >= curU && (minChunk > 0 ==> Min(ids', limit) < curU')
  {
  }

  ghost function Trimmed(living: seq<Request>, limit: nat): seq<Request> {
    if |living| > limit then living[|living| - limit..] else living
  }

  /** Keeps the most recent `limit` living requests and numbers them from 1. */
  method TrimAndNumber(living0: seq<Request>, limit: nat) returns (living: seq<Request>)
    ensures var kept := Trimmed(living0, limit);
            |living| == |kept| && forall i :: 0 <= i < |kept| ==> living[i] == Request(kept[i].addr, i + 1)
  {
    living := living0;
    if |living| > limit {
      living := living[|living| - limit..];
    }
    ghost var kept := living;
    for i := 0 to |living|
      invariant |living| == |kept|
      invariant forall k :: 0 <= k < i ==> living[k] == Request(kept[k].addr, k + 1)
      invariant forall k :: i <= k < |kept| ==> living[k] == kept[k]
    {
      living := living[i := Request(living[i].addr, i + 1)];
    }
  }

  function Resize(s: seq<nat>, n: nat): seq<nat> {
    if n <= |s| then s[..n] else s + seq(n - |s|, _ => 0)
  }

  lemma ChunkHits(tr: Trace, c: nat, limit: nat, hits: seq<nat>, hits': seq<nat>)
    requires c < |tr| && Exact(hits, tr, c, limit) && DepthsAdded(hits', hits, Chunk(tr, c, limit))
    ensures var size := 1 + Min(|LivingOf(Chunk(tr, c, limit))|, limit);
            size <= |hits'| && Exact(hits'[..size], tr, |tr|, limit)
  {
    hide Exact, Chunk, DistinctIds, LivingOf, DepthCount;
    ChunkKeepsExact(tr, c, limit, hits, hits');
  }

  lemma PendingRepresents(requests: seq<Request>, living: seq<Request>, tr: Trace, done: nat, limit: nat)
    requires done < |tr| && Pending(requests, living, tr, done, limit)
    ensures Represents(requests, Chunk(tr, done, limit)) && Chunk(tr, done, limit) != []
  {
    hide Stack, Reverse;
    NumberedRepresents(Chunk(tr, done, limit));
    ChunkSize(tr, done, limit);
  }

  lemma PendingSize(requests: seq<Request>, living: seq<Request>, tr: Trace, done: nat, limit: nat)
    requires done <= |tr| && Pending(requests, living, tr, done, limit)
    ensures |requests| == |living| + (|tr| - done)
  {
    hide Stack, Chunk;
  }

  lemma CarriedSize(requests: seq<Request>, living: seq<Request>, tr: Trace, done: nat, limit: nat)
    requires done <= |tr| && Pending(requests, living, tr, done, limit)
    ensures |living| == Min(DistinctIds(tr, done), limit)
  {
    hide Stack, Chunk, DistinctIds;
    StackSize(tr, done);
  }

  lemma ExactNow(hits: seq<nat>, tr: Trace, limit: nat)
    requires Exact(hits, tr, |tr|, limit)
    ensures tr == [] ==> hits == []
    ensures tr != [] ==> |hits| == 1 + Min(DistinctIds(tr, |tr|), limit)
    ensures hits != [] ==> hits[0] == 0
    ensures IsDepthHistogram(hits, tr)
  {
    hide DistinctIds, DepthCount;
  }
}
