/** The simulator: build the operations of the trace, solve them, sum up. */
module IncrementFreeze {
  import opened Lru
  import opened Operations
  import opened Subproblem
  import opened Tallying
  import opened Encoding
  import opened Requests
  import opened Populate
  import opened Projection
  import opened Recursion

  datatype ChunkOutput = ChunkOutput(livingRequests: seq<Request>, hitsVector: seq<nat>)

  datatype ChunkInput = ChunkInput(output: ChunkOutput, requests: seq<Request>)

  function Max(a: nat, b: nat): nat {
    if a >= b then a else b
  }

  /** hits' is hits, grown to hold every depth of the trace, with every repeated request counted at its depth. */
  ghost predicate DepthsAdded(hits': seq<nat>, hits: seq<nat>, tr: Trace) {
    && |hits'| == Max(|hits|, DistinctIds(tr, |tr|) + 1)
    && hits'[0] == (if |hits| > 0 then hits[0] else 0)
    && forall d :: 1 <= d < |hits'| ==> hits'[d] == (if d < |hits| then hits[d] else 0) + DepthCount(tr, |tr|, d)
  }

  ghost predicate FillState(a: seq<Op>, reqs: seq<Request>, tr: Trace, i: nat)
    requires |a| == 2 * |tr| && i <= |reqs|
  {
    && (forall m :: 0 <= m < i ==> Filled(a, tr, reqs[m]))
    && (forall m :: i <= m < |reqs| ==> Empty(a, tr, reqs[m]))
  }

  lemma FillStep(a: seq<Op>, a': seq<Op>, reqs: seq<Request>, tr: Trace, i: nat)
    requires |a'| == |a| == 2 * |tr| && Represents(reqs, tr) && i < |reqs| && FillState(a, reqs, tr, i)
    requires Filled(a', tr, reqs[i])
    requires var n := reqs[i].accessNumber;
             forall s :: 0 <= s < |a| && s != 2 * n - 2 && s != 2 * n - 1 ==> a'[s] == a[s]
    ensures FillState(a', reqs, tr, i + 1)
  {
    hide SlotOp;
    forall m | 0 <= m < |reqs| && m != i ensures reqs[m].accessNumber != reqs[i].accessNumber {
      if m < i { NumbersDistinct(reqs, tr, m, i); } else { NumbersDistinct(reqs, tr, i, m); }
    }
  }

  lemma FillStart(a: seq<Op>, reqs: seq<Request>, tr: Trace)
    requires |a| == 2 * |tr| && Represents(reqs, tr) && forall s :: 0 <= s < |a| ==> a[s] == Null(0)
    ensures FillState(a, reqs, tr, 0)
  {
    RepresentsExactly(reqs, tr);
  }

  /** The loop body's case distinction writes exactly the slots of request i. */
  lemma SlotsOfRequest(reqs: seq<Request>, tr: Trace, i: nat)
    requires SortedRequests(reqs, tr) && i < |reqs|
    ensures var n := reqs[i].accessNumber;
            && 0 < n <= |tr|
            && (i > 0 ==> reqs[i - 1].accessNumber > 0)
            && if i > 0 && reqs[i - 1].addr == reqs[i].addr
               then
                 && SlotOp(tr, 2 * n - 2) == MakePrefix(n - 1, -1)
                 && SlotOp(tr, 2 * n - 1) == Postfix(reqs[i - 1].accessNumber, 0)
               else
                 && SlotOp(tr, 2 * n - 2) == MakePrefix(n - 1, 0)
                 && SlotOp(tr, 2 * n - 1) == Null(0)
  {
    hide LastAccess, SortedRequests;
    NeighbourIsPrevious(reqs, tr, i);
    if i > 0 { NeighbourIsPrevious(reqs, tr, i - 1); }
    var n := reqs[i].accessNumber;
    assert (2 * n - 2) / 2 + 1 == n && (2 * n - 1) / 2 + 1 == n;
  }

  class IncrementAndFreeze {
    /** The trace so far, sorted or not. */
    var requests: seq<Request>
    /** The operations vector: the first numOperations entries of the array. */
    var operations: array<Op>
    var numOperations: nat
    var accessNumber: nat
    ghost var trace: Trace

    ghost predicate Valid()
      reads this
    {
      Represents(requests, trace) && accessNumber == |trace| + 1
    }

    constructor ()
      ensures Valid() && trace == []
    {
      requests := [];
      operations := new Op[0];
      numOperations := 0;
      accessNumber := 1;
      trace := [];
    }

    method MemoryAccess(addr: Id)
      requires Valid()
      modifies this`requests, this`accessNumber, this`trace
      ensures Valid() && trace == old(trace) + [addr]
      ensures requests == old(requests) + [Request(addr, |old(requests)| + 1)]
    {
      RepresentsSnoc(requests, trace, addr);
      accessNumber := accessNumber + 1;
      requests := requests + [Request(addr, |requests| + 1)];
      trace := trace + [addr];
    }

    /** Writes the two operations of request i to their slots; is its id new? */
    method WriteRequest(reqs: seq<Request>, i: nat, ghost tr: Trace) returns (isNew: bool)
      requires SortedRequests(reqs, tr) && i < |reqs|
      requires operations.Length == 2 * |tr| && FillState(operations[..], reqs, tr, i)
      modifies operations
      ensures FillState(operations[..], reqs, tr, i + 1)
      ensures isNew <==> reqs[i].addr !in Addrs(reqs, i)
      ensures isNew && i > 0 ==> reqs[i - 1].addr != reqs[i].addr
    {
      hide SortedRequests, FillState, Represents, Addrs, SlotOp;
      SortedFacts(reqs, tr);
      var addr, accessNum := reqs[i].addr, reqs[i].accessNumber;
      var last := if i == 0 then Request(0, 0) else reqs[i - 1];
      ghost var a := operations[..];
      SlotsOfRequest(reqs, tr, i);
      NewAddr(reqs, tr, i);
      isNew := !(last.accessNumber > 0 && addr == last.addr);
      if isNew {
        EmptySlot(a, reqs, tr, i);
        operations[2 * accessNum - 2] := MakePrefix(accessNum - 1, 0);
      } else {
        operations[2 * accessNum - 2] := MakePrefix(accessNum - 1, -1);
        operations[2 * accessNum - 1] := Postfix(last.accessNumber, 0);
      }
      FillStep(a, operations[..], reqs, tr, i);
    }

    /** Builds the sparse operations array, counts the ids and, with `wantLiving`, collects the last
        request of every id but the last one. */
    method BuildOperations(reqs: seq<Request>, wantLiving: bool, ghost tr: Trace)
      returns (uniqueIds: nat, living: seq<Request>)
      requires SortedRequests(reqs, tr)
      modifies this`operations
      ensures fresh(operations) && operations.Length == 2 * |tr|
      ensures FillState(operations[..], reqs, tr, |reqs|)
      ensures uniqueIds == DistinctIds(tr, |tr|)
      ensures living == if wantLiving then GroupEnds(reqs, |reqs|) else []
    {
      hide SortedRequests, FillState, GroupEnds, Elements, Represents, Addrs;
      SortedFacts(reqs, tr);
      operations := new Op[2 * |reqs|](_ => Null(0));
      uniqueIds := 0;
      living := [];
      FillStart(operations[..], reqs, tr);
      StartCounts(reqs);
      for i := 0 to |reqs|
        invariant fresh(operations) && operations.Length == 2 * |tr|
        invariant FillState(operations[..], reqs, tr, i)
        invariant uniqueIds == |Elements(Addrs(reqs, i))|
        invariant living == if wantLiving then GroupEnds(reqs, i) else []
      {
        NewAddr(reqs, tr, i);
        CountOfSnoc(Addrs(reqs, i), reqs[i].addr);
        GroupEndsStep(reqs, i);
        var isNew := WriteRequest(reqs, i, tr);
        if isNew {
          uniqueIds := uniqueIds + 1;
          if wantLiving && i > 0 {
            living := living + [reqs[i - 1]];
          }
        }
      }
      AddrsAreIds(reqs, tr);
    }

    /** Moves the operations to the front and cuts the vector behind them; without requests this
        makes the vector one Null operation long. */
    method CompactOperations(reqs: seq<Request>, ghost tr: Trace)
      requires Represents(reqs, tr) && operations.Length == 2 * |tr|
      requires FillState(operations[..], reqs, tr, |reqs|)
      modifies this`operations, this`numOperations, operations
      ensures operations == old(operations) || fresh(operations)
      ensures numOperations <= operations.Length
      ensures operations[..numOperations] == OperationsOf(tr)
    {
      hide FillState, Represents, Encode;
      if operations.Length == 0 {
        operations := new Op[1](_ => Null(0));
        numOperations := 1;
      } else {
        FilledIsEncode(operations[..], reqs, tr);
        numOperations := Compact(operations);
      }
    }

    /** Sorts reqs and builds the operations of the trace they represent; with `wantLiving` also
        collects the last access of every id, oldest first. */
    method PopulateOperations(reqs0: seq<Request>, wantLiving: bool, ghost tr: Trace)
      returns (reqs: seq<Request>, uniqueIds: nat, living: seq<Request>)
      requires Represents(reqs0, tr) && (wantLiving ==> tr != [])
      modifies this`operations, this`numOperations
      ensures SortedRequests(reqs, tr) && Represents(reqs, tr) && SortedCopy(reqs, reqs0)
      ensures fresh(operations) && numOperations <= operations.Length
      ensures operations[..numOperations] == OperationsOf(tr)
      ensures uniqueIds == DistinctIds(tr, |tr|)
      ensures living == if wantLiving then LivingOf(tr) else []
    {
      hide SortedRequests, SortedCopy, FillState, Sort, OperationsOf, GroupEnds, Represents, LivingOf, Ends;
      SortRequests(reqs0, tr);
      SortGivesCopy(reqs0, tr);
      reqs := Sort(reqs0, LessByAddr);
      SortedFacts(reqs, tr);
      uniqueIds, living := BuildOperations(reqs, wantLiving, tr);
      CompactOperations(reqs, tr);
      if wantLiving {
        LivingIsSortedEnds(reqs, tr);
        EndsIs(reqs);
        living := Sort(living + [reqs[|reqs| - 1]], LessByAccess);
      }
    }

    /** Adds the depths of the trace that reqs represents to the histogram hits0. */
    method UpdateHitsVector(reqs0: seq<Request>, hits0: seq<nat>, wantLiving: bool, ghost tr: Trace)
      returns (reqs: seq<Request>, hits: seq<nat>, living: seq<Request>)
      requires Represents(reqs0, tr) && tr != []
      modifies this`operations, this`numOperations
      ensures Represents(reqs, tr) && SortedCopy(reqs, reqs0)
      ensures DepthsAdded(hits, hits0, tr)
      ensures living == if wantLiving then LivingOf(tr) else []
    {
      hide WellFormed, View, Counted, Represents, SortedCopy, DistinctIds, Encode, LivingOf;
      var uniqueIds;
      reqs, uniqueIds, living := PopulateOperations(reqs0, wantLiving, tr);
      hits := hits0;
      if |hits| < uniqueIds + 1 {
        hits := hits + seq(uniqueIds + 1 - |hits|, _ => 0);
      }
      var initSeq := ProjSequence(0, numOperations, 1, |reqs|);
      SizeOf(reqs, tr);
      WindowOfAll(initSeq, operations);
      EncodingIsWellFormed(tr);
      FrozenValuesFit(tr, |tr|, |tr|);
      FitsMore(View(Encode(tr, |tr|), 1, |tr|), uniqueIds + 1, |hits|);
      ghost var hits1 := hits;
      ghost var parts;
      hits, parts := DoProjections(hits, initSeq, operations);
      CountedDepths(hits, hits1, tr);
    }

    /** Solves the requests of one chunk: adds their depths to the histogram and collects the
        living requests. */
    method ProcessChunk(input: ChunkInput, ghost tr: Trace) returns (result: ChunkInput)
      requires Represents(input.requests, tr) && tr != []
      modifies this`operations, this`numOperations
      ensures Represents(result.requests, tr) && SortedCopy(result.requests, input.requests)
      ensures DepthsAdded(result.output.hitsVector, input.output.hitsVector, tr)
      ensures result.output.livingRequests == LivingOf(tr)
    {
      var reqs, hits, living := UpdateHitsVector(input.requests, input.output.hitsVector, true, tr);
      result := ChunkInput(ChunkOutput(living, hits), reqs);
    }

    /** S(x), the hits of an LRU cache of size x on the trace, for every x up to the number of ids. */
    method GetSuccessFunction() returns (success: seq<nat>)
      requires Valid() && trace != []
      modifies this
      ensures Valid() && trace == old(trace) && SortedCopy(requests, old(requests))
      ensures IsSuccessFunction(success, trace, DistinctIds(trace, |trace|))
    {
      hide Represents, SortedCopy, DistinctIds, DepthCount, LivingOf, CacheHits;
      var living;
      requests, success, living := UpdateHitsVector(requests, [], false, trace);
      ghost var hits := success;
      var runningCount := 0;
      NoHitsWithoutCache(trace);
      for i := 1 to |success|
        invariant |success| == |hits|
        invariant runningCount == CacheHits(i - 1, trace, |trace|)
        invariant forall x :: 0 <= x < i ==> success[x] == CacheHits(x, trace, |trace|)
        invariant forall x :: i <= x < |success| ==> success[x] == hits[x]
        invariant trace == old(trace) && Represents(requests, trace) && accessNumber == |trace| + 1
        invariant SortedCopy(requests, old(requests))
      {
        OneMorePage(trace, i - 1);
        runningCount := runningCount + success[i];
        success := success[i := runningCount];
      }
    }
  }

  lemma NoHitsWithoutCache(tr: Trace)
    ensures CacheHits(0, tr, |tr|) == 0
  {
    HitsAreShallowDepths(0, tr, |tr|);
  }

  /** One more page of cache adds the requests of exactly that depth to the hits. */
  lemma OneMorePage(tr: Trace, x: nat)
    ensures CacheHits(x + 1, tr, |tr|) == CacheHits(x, tr, |tr|) + DepthCount(tr, |tr|, x + 1)
  {
    HitsAreShallowDepths(x + 1, tr, |tr|);
    HitsAreShallowDepths(x, tr, |tr|);
  }

  lemma SortedFacts(reqs: seq<Request>, tr: Trace)
    requires SortedRequests(reqs, tr)
    ensures Represents(reqs, tr) && |reqs| == |tr|
  {
  }

  lemma SizeOf(reqs: seq<Request>, tr: Trace)
    requires Represents(reqs, tr)
    ensures |reqs| == |tr|
  {
  }

  lemma StartCounts(reqs: seq<Request>)
    ensures |Elements(Addrs(reqs, 0))| == 0 && GroupEnds(reqs, 0) == []
  {
    NoElements<Id>();
    assert Addrs(reqs, 0) == [];
  }

  lemma GroupEndsStep(reqs: seq<Request>, i: nat)
    requires i < |reqs|
    ensures GroupEnds(reqs, i + 1)
            == GroupEnds(reqs, i) + if i > 0 && reqs[i].addr != reqs[i - 1].addr then [reqs[i - 1]] else []
  {
  }

  lemma EmptySlot(a: seq<Op>, reqs: seq<Request>, tr: Trace, i: nat)
    requires |a| == 2 * |tr| && i < |reqs| && FillState(a, reqs, tr, i)
    ensures 0 < reqs[i].accessNumber <= |tr| && a[2 * reqs[i].accessNumber - 1] == Null(0)
  {
    assert Empty(a, tr, reqs[i]);
  }

  lemma FilledIsEncode(a: seq<Op>, reqs: seq<Request>, tr: Trace)
    requires |a| == 2 * |tr| && tr != [] && Represents(reqs, tr) && FillState(a, reqs, tr, |reqs|)
    ensures Compacted(a) == Encode(tr, |tr|)
  {
    hide SlotOp, Encode, NonNull;
    AllFilled(a, reqs, tr);
    CompactedIsEncode(a, tr, |tr|);
    assert a[..2 * |tr|] == a;
  }

  lemma EndsIs(reqs: seq<Request>)
    requires reqs != []
    ensures Ends(reqs) == GroupEnds(reqs, |reqs|) + [reqs[|reqs| - 1]]
  {
  }

  lemma WindowOfAll(w: ProjSequence, ops: array<Op>)
    requires w.opSeq == 0 && InArray(w, ops)
    ensures Projection.Window(w, ops) == ops[..w.numOps]
  {
  }

  lemma FitsMore(v: seq<Event>, n: nat, m: nat)
    requires Fits(v, n) && n <= m
    ensures Fits(v, m)
  {
  }

  lemma {:induction false} NoneFreezeZero(v: seq<Event>, n: nat)
    requires Fits(v, n)
    ensures Tally(v, 0) == 0
  {
    if v != [] {
      assert v == v[..|v| - 1] + [v[|v| - 1]];
      NoneFreezeZero(v[..|v| - 1], n);
    }
  }

  lemma CountedDepths(hits: seq<nat>, hits1: seq<nat>, tr: Trace)
    requires tr != [] && |hits1| > 0 && Counted(hits, hits1, Encode(tr, |tr|), 1, |tr|)
    requires Fits(View(Encode(tr, |tr|), 1, |tr|), |hits1|)
    ensures |hits| == |hits1| && hits[0] == hits1[0]
    ensures forall d :: 1 <= d < |hits| ==> hits[d] == hits1[d] + DepthCount(tr, |tr|, d)
  {
    hide View, Tally, Encode, DepthCount, Fits;
    var v := View(Encode(tr, |tr|), 1, |tr|);
    NoneFreezeZero(v, |hits1|);
    forall d | 1 <= d < |hits| ensures hits[d] == hits1[d] + DepthCount(tr, |tr|, d) {
      TallyIsDepthCount(tr, |tr|, |tr|, d);
    }
  }
}
