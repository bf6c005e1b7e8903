/** Processing a trace in chunks: what the truncated stack carried between chunks preserves. */
module Chunks {
  import opened Lru
  import opened Requests
  import opened Populate

  ghost function Reverse(s: seq<Id>): (r: seq<Id>)
    ensures |r| == |s|
  {
    seq(|s|, i requires 0 <= i < |s| => s[|s| - 1 - i])
  }

  /** The chunk handed to the solver after c requests: the top M of the stack, oldest first, then
      the fresh requests. */
  ghost function Chunk(tr: Trace, c: nat, limit: nat): Trace
    requires c <= |tr|
  {
    Reverse(Take(Stack(tr, c), limit)) + tr[c..]
  }

  ghost function Carried(tr: Trace, c: nat, limit: nat): nat
    requires c <= |tr|
  {
    Min(limit, |Stack(tr, c)|)
  }

  // ---------------------------------------------------------------- functions of a prefix only

  lemma {:induction false} LastAccessOfPrefix(a: Trace, b: Trace, n: nat, x: Id)
    requires n <= |a| && n <= |b| && a[..n] == b[..n]
    ensures LastAccess(a, n, x) == LastAccess(b, n, x)
  {
    if n > 0 {
      assert a[n - 1] == a[..n][n - 1] == b[..n][n - 1] == b[n - 1];
      assert a[..n - 1] == a[..n][..n - 1] == b[..n][..n - 1] == b[..n - 1];
      LastAccessOfPrefix(a, b, n - 1, x);
    }
  }

  lemma {:induction false} StackOfPrefix(a: Trace, b: Trace, n: nat)
    requires n <= |a| && n <= |b| && a[..n] == b[..n]
    ensures Stack(a, n) == Stack(b, n)
  {
    hide Touch;
    if n > 0 {
      assert a[n - 1] == a[..n][n - 1] == b[..n][n - 1] == b[n - 1];
      assert a[..n - 1] == a[..n][..n - 1] == b[..n][..n - 1] == b[..n - 1];
      StackOfPrefix(a, b, n - 1);
    }
  }

  lemma {:induction false} DepthCountOfPrefix(a: Trace, b: Trace, n: nat, d: nat)
    requires n <= |a| && n <= |b| && a[..n] == b[..n]
    ensures DepthCount(a, n, d) == DepthCount(b, n, d)
  {
    hide Stack;
    if n > 0 {
      assert a[n - 1] == a[..n][n - 1] == b[..n][n - 1] == b[n - 1];
      assert a[..n - 1] == a[..n][..n - 1] == b[..n][..n - 1] == b[..n - 1];
      DepthCountOfPrefix(a, b, n - 1, d);
      StackOfPrefix(a, b, n - 1);
    }
  }

  // ---------------------------------------------------------------- replaying the carried ids

  /** Requesting distinct ids in order stacks them up; none of them is found in the stack. */
  lemma {:induction false} StackOfDistinct(tr: Trace, m: nat)
    requires m <= |tr| && Distinct(tr[..m])
    ensures Stack(tr, m) == Reverse(tr[..m])
    ensures forall d :: d > 0 ==> DepthCount(tr, m, d) == 0
  {
    hide Without, IndexOf, Stack, Reverse;
    StackStep(tr, m);
    if m > 0 {
      assert tr[..m - 1] == tr[..m][..m - 1];
      StackOfDistinct(tr, m - 1);
      ReverseSnoc(tr[..m - 1], tr[m - 1]);
      assert tr[..m] == tr[..m - 1] + [tr[m - 1]];
      var rev := Reverse(tr[..m - 1]);
      forall i | 0 <= i < |rev| ensures rev[i] != tr[m - 1] {
        ReverseAt(tr[..m - 1], i);
        assert tr[..m][m - 1 - 1 - i] != tr[..m][m - 1];
      }
      WithoutAbsent(Stack(tr, m - 1), tr[m - 1]);
    } else {
      ReverseNone();
      assert tr[..0] == [];
    }
  }

  lemma ReverseNone()
    ensures Reverse([]) == []
  {
  }

  lemma ReverseAt(s: seq<Id>, i: nat)
    requires i < |s|
    ensures Reverse(s)[i] == s[|s| - 1 - i]
  {
  }

  lemma ReverseSnoc(s: seq<Id>, x: Id)
    ensures Reverse(s + [x]) == [x] + Reverse(s)
  {
  }

  lemma ReverseTwice(s: seq<Id>)
    ensures Reverse(Reverse(s)) == s
  {
  }

  lemma ReverseDistinct(s: seq<Id>)
    requires Distinct(s)
    ensures Distinct(Reverse(s))
  {
  }

  lemma WithoutAbsent(s: seq<Id>, x: Id)
    requires forall i :: 0 <= i < |s| ==> s[i] != x
    ensures Without(s, x) == s && IndexOf(s, x) == |s|
  {
  }

  /** After replaying the carried ids the solver's stack is the top of the true stack. */
  lemma Replayed(tr: Trace, c: nat, limit: nat)
    requires c <= |tr|
    ensures var m := Carried(tr, c, limit);
            && m <= |Chunk(tr, c, limit)|
            && Stack(Chunk(tr, c, limit), m) == Take(Stack(tr, c), limit)
            && forall d :: d > 0 ==> DepthCount(Chunk(tr, c, limit), m, d) == 0
  {
    hide Stack, Reverse, DepthCount;
    StackFacts(tr, c);
    var top := Take(Stack(tr, c), limit);
    var m := Carried(tr, c, limit);
    var ct := Chunk(tr, c, limit);
    ReverseDistinct(top);
    assert ct[..m] == Reverse(top);
    StackOfDistinct(ct, m);
    ReverseTwice(top);
  }

  // ---------------------------------------------------------------- nothing is lost up to the limit

  /** The solver's stack and the true stack have the same top `limit` entries throughout the chunk. */
  lemma {:induction false} SameTop(tr: Trace, c: nat, limit: nat, k: nat)
    requires c + k <= |tr|
    ensures Carried(tr, c, limit) + k <= |Chunk(tr, c, limit)|
    ensures Take(Stack(Chunk(tr, c, limit), Carried(tr, c, limit) + k), limit) == Take(Stack(tr, c + k), limit)
  {
    hide Touch, CacheStep, Stack, Reverse;
    var ct, m := Chunk(tr, c, limit), Carried(tr, c, limit);
    if k == 0 {
      Replayed(tr, c, limit);
    } else {
      SameTop(tr, c, limit, k - 1);
      assert ct[m + k - 1] == tr[c + k - 1];
      StackStep(ct, m + k);
      StackStep(tr, c + k);
      StackFacts(ct, m + k - 1);
      StackFacts(tr, c + k - 1);
      TakeOfTouch(limit, Stack(ct, m + k - 1), ct[m + k - 1]);
      TakeOfTouch(limit, Stack(tr, c + k - 1), tr[c + k - 1]);
    }
  }

  /** A depth up to the limit only depends on the top of the stack. */
  lemma DepthFromTop(a: Trace, n: nat, b: Trace, n': nat, limit: nat, x: Id, d: nat)
    requires n <= |a| && n' <= |b| && Take(Stack(a, n), limit) == Take(Stack(b, n'), limit) && 0 < d <= limit
    ensures Depth(a, n, x) == d <==> Depth(b, n', x) == d
  {
    hide Stack, Take;
    StackFacts(a, n);
    StackFacts(b, n');
    InTake(Stack(a, n), limit, x);
    InTake(Stack(b, n'), limit, x);
  }

  /** The chunk's histogram is the increase of the true histogram, at every depth up to the limit. */
  lemma {:induction false} ChunkCounts(tr: Trace, c: nat, limit: nat, k: nat, d: nat)
    requires c + k <= |tr| && 0 < d <= limit
    ensures Carried(tr, c, limit) + k <= |Chunk(tr, c, limit)|
    ensures DepthCount(tr, c + k, d)
            == DepthCount(tr, c, d) + DepthCount(Chunk(tr, c, limit), Carried(tr, c, limit) + k, d)
  {
    hide Depth, Stack, Reverse, Take;
    SameTop(tr, c, limit, k);
    var ct, m := Chunk(tr, c, limit), Carried(tr, c, limit);
    if k == 0 {
      Replayed(tr, c, limit);
    } else {
      ChunkCounts(tr, c, limit, k - 1, d);
      SameTop(tr, c, limit, k - 1);
      ChunkAt(tr, c, limit, k - 1);
      DepthFromTop(ct, m + k - 1, tr, c + k - 1, limit, tr[c + k - 1], d);
    }
  }

  lemma ChunkSize(tr: Trace, c: nat, limit: nat)
    requires c <= |tr|
    ensures |Chunk(tr, c, limit)| == Carried(tr, c, limit) + (|tr| - c)
  {
    hide Stack, Reverse;
  }

  lemma ChunkAt(tr: Trace, c: nat, limit: nat, k: nat)
    requires c + k < |tr|
    ensures Carried(tr, c, limit) + k < |Chunk(tr, c, limit)|
    ensures Chunk(tr, c, limit)[Carried(tr, c, limit) + k] == tr[c + k]
  {
    hide Stack, Reverse;
  }

  /** Depths beyond the number of ids do not occur. */
  lemma {:induction false} NoDeepRequests(tr: Trace, n: nat, d: nat)
    requires n <= |tr| && d > DistinctIds(tr, n)
    ensures DepthCount(tr, n, d) == 0
  {
    hide Depth, DistinctIds;
    if n > 0 {
      DistinctIdsGrow(tr, n - 1, n);
      NoDeepRequests(tr, n - 1, d);
      DepthBounds(tr, n - 1, tr[n - 1]);
    }
  }

  // ---------------------------------------------------------------- a whole chunk

  /** hits has one entry per depth up to min(ids, limit), counting the first n requests exactly. */
  ghost predicate Exact(hits: seq<nat>, tr: Trace, n: nat, limit: nat)
    requires n <= |tr|
  {
    if n == 0 then hits == []
    else
      && |hits| == 1 + Min(DistinctIds(tr, n), limit)
      && hits[0] == 0
      && forall d :: 1 <= d < |hits| ==> hits[d] == DepthCount(tr, n, d)
  }

  lemma ChunkIds(tr: Trace, c: nat, limit: nat)
    requires c < |tr|
    ensures Chunk(tr, c, limit) != []
    ensures var ct := Chunk(tr, c, limit);
            && |LivingOf(ct)| == DistinctIds(ct, |ct|)
            && Min(DistinctIds(ct, |ct|), limit) == Min(DistinctIds(tr, |tr|), limit)
  {
    hide Stack, Reverse, DistinctIds;
    var ct := Chunk(tr, c, limit);
    ChunkSize(tr, c, limit);
    SameTop(tr, c, limit, |tr| - c);
    StackSize(ct, |ct|);
    StackSize(tr, |tr|);
  }

  /** Adding the chunk's depths and cutting at the limit keeps the histogram exact. */
  lemma ChunkKeepsExact(tr: Trace, c: nat, limit: nat, hits: seq<nat>, hits': seq<nat>)
    requires c < |tr| && Exact(hits, tr, c, limit)
    requires var ct := Chunk(tr, c, limit);
             && |hits'| >= DistinctIds(ct, |ct|) + 1
             && hits'[0] == (if |hits| > 0 then hits[0] else 0)
             && forall d :: 1 <= d < |hits'| ==>
                  hits'[d] == (if d < |hits| then hits[d] else 0) + DepthCount(ct, |ct|, d)
    ensures var size := 1 + Min(|LivingOf(Chunk(tr, c, limit))|, limit);
            size <= |hits'| && Exact(hits'[..size], tr, |tr|, limit)
  {
    hide Chunk, Carried, DepthCount, DistinctIds, LivingOf;
    ChunkIds(tr, c, limit);
    ChunkSize(tr, c, limit);
    var ct := Chunk(tr, c, limit);
    var size := 1 + Min(|LivingOf(ct)|, limit);
    forall d | 1 <= d < size ensures hits'[d] == DepthCount(tr, |tr|, d) {
      ChunkCounts(tr, c, limit, |tr| - c, d);
      if d >= |hits| { OldHitsEnd(tr, c, d, limit, hits); }
    }
  }

  lemma OldHitsEnd(tr: Trace, c: nat, d: nat, limit: nat, hits: seq<nat>)
    requires c <= |tr| && Exact(hits, tr, c, limit) && 0 < d <= limit && d >= |hits|
    ensures DepthCount(tr, c, d) == 0
  {
    hide DistinctIds, Depth;
    if c > 0 { NoDeepRequests(tr, c, d); }
  }

  ghost function Ids(living: seq<Request>): seq<Id> {
    seq(|living|, i requires 0 <= i < |living| => living[i].addr)
  }

  /** The ids of the most recent `limit` living requests. */
  lemma KeptIds(ct: Trace, limit: nat)
    ensures var l := LivingOf(ct);
            Ids(if |l| > limit then l[|l| - limit..] else l) == Reverse(Take(Stack(ct, |ct|), limit))
  {
    hide Stack, LastAccess;
  }

  /** Dropping the oldest living requests leaves the ids of the top of the true stack. */
  lemma TrimmedIsCarried(tr: Trace, c: nat, limit: nat)
    requires c <= |tr| && Chunk(tr, c, limit) != []
    ensures var l := LivingOf(Chunk(tr, c, limit));
            Ids(if |l| > limit then l[|l| - limit..] else l) == Reverse(Take(Stack(tr, |tr|), limit))
  {
    hide Stack, Chunk, Carried, LivingOf, Ids, Reverse, Take;
    SameTop(tr, c, limit, |tr| - c);
    ChunkSize(tr, c, limit);
    KeptIds(Chunk(tr, c, limit), limit);
  }
}
