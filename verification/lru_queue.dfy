/** The LRU stack as a descending list of last-access times: what both tree simulators keep. */
module LruQueue {
  import opened Lru
  import opened Trees
  import opened SearchTrees
  import Chunks

  predicate Greater(a: nat, b: nat) {
    a > b
  }

  lemma GreaterIsOrder()
    ensures StrictOrder(Greater)
  {
  }

  /** Last-access times of the ids of a list. */
  ghost function TimesOf(st: seq<Id>, tr: Trace, n: nat): (t: seq<nat>)
    requires n <= |tr|
    ensures |t| == |st|
  {
    seq(|st|, i requires 0 <= i < |st| => LastAccess(tr, n, st[i]))
  }

  /** Last-access times of the ids in the stack, most recent first. */
  ghost function Times(tr: Trace, n: nat): (t: seq<nat>)
    requires n <= |tr|
    ensures |t| == |Stack(tr, n)|
  {
    TimesOf(Stack(tr, n), tr, n)
  }

  lemma TimesDescend(tr: Trace, n: nat)
    requires n <= |tr|
    ensures SortedBy(Times(tr, n), Greater)
    ensures forall i :: 0 <= i < |Times(tr, n)| ==> 0 < Times(tr, n)[i] <= n
  {
    hide Stack, LastAccess;
    StackSorted(tr, n);
    StackFacts(tr, n);
    forall i | 0 <= i < |Times(tr, n)| ensures 0 < Times(tr, n)[i] <= n {
      assert Stack(tr, n)[i] in Stack(tr, n);
    }
  }

  /** The rank of a page's time in the list is its LRU depth minus one. */
  lemma RankIsDepth(tr: Trace, n: nat, x: Id)
    requires n <= |tr| && LastAccess(tr, n, x) > 0
    ensures var t, p := Times(tr, n), LastAccess(tr, n, x);
            && p in t && Rank(t, p, Greater) + 1 == Depth(tr, n, x)
            && Rank(t, p, Greater) < |t| && t[Rank(t, p, Greater)] == p
  {
    hide Stack, LastAccess, SortedBy, Rank;
    GreaterIsOrder();
    TimesDescend(tr, n);
    StackFacts(tr, n);
    var i := IndexOf(Stack(tr, n), x);
    assert x in Stack(tr, n);
    assert Times(tr, n)[i] == LastAccess(tr, n, x);
    RankIsIndex(Times(tr, n), i, Greater);
  }

  lemma NewestFirst(t: seq<nat>, ts: nat)
    requires forall i :: 0 <= i < |t| ==> t[i] < ts
    ensures InsertSorted(t, ts, Greater) == [ts] + t
  {
    GreaterIsOrder();
    RankAll(t, ts, Greater);
  }

  /** One more request: its time goes to the front, the page's old time is taken out. */
  lemma TimesStep(tr: Trace, n: nat)
    requires n < |tr|
    ensures LastAccess(tr, n, tr[n]) > 0 ==>
              Times(tr, n + 1)
              == InsertSorted<nat>(RemoveSorted<nat>(Times(tr, n), LastAccess(tr, n, tr[n]), Greater), n + 1, Greater)
    ensures LastAccess(tr, n, tr[n]) == 0 ==>
              Times(tr, n + 1) == InsertSorted<nat>(Times(tr, n), n + 1, Greater)
  {
    hide Stack, LastAccess, SortedBy, Rank, InsertSorted, Without;
    var x := tr[n];
    TimesDescend(tr, n);
    StackFacts(tr, n);
    TimesFront(tr, n);
    if LastAccess(tr, n, x) > 0 {
      RankIsDepth(tr, n, x);
      WithoutIsRemove(tr, n, x);
      NewestFirst(RemoveSorted<nat>(Times(tr, n), LastAccess(tr, n, x), Greater), n + 1);
    } else {
      WithoutAbsentId(Stack(tr, n), x);
      NewestFirst(Times(tr, n), n + 1);
    }
  }

  lemma WithoutAbsentId(st: seq<Id>, x: Id)
    requires x !in st
    ensures Without(st, x) == st
  {
  }

  lemma TimesFront(tr: Trace, n: nat)
    requires n < |tr|
    ensures Times(tr, n + 1) == [n + 1] + TimesOf(Without(Stack(tr, n), tr[n]), tr, n)
  {
    hide Stack, Without, LastAccess;
    StackStep(tr, n + 1);
    StackFacts(tr, n);
    WithoutFacts(Stack(tr, n), tr[n]);
    LaterTimes(Without(Stack(tr, n), tr[n]), tr, n);
  }

  lemma LaterTimes(rest: seq<Id>, tr: Trace, n: nat)
    requires n < |tr| && tr[n] !in rest
    ensures TimesOf([tr[n]] + rest, tr, n + 1) == [n + 1] + TimesOf(rest, tr, n)
  {
    forall i | 0 <= i < |rest| ensures LastAccess(tr, n + 1, rest[i]) == LastAccess(tr, n, rest[i]) {
      assert rest[i] in rest;
    }
  }

  lemma WithoutIsRemove(tr: Trace, n: nat, x: Id)
    requires n <= |tr| && LastAccess(tr, n, x) > 0
    ensures TimesOf(Without(Stack(tr, n), x), tr, n) == RemoveSorted<nat>(Times(tr, n), LastAccess(tr, n, x), Greater)
  {
    hide Stack, LastAccess, Rank, SortedBy, TimesOf, Greater;
    RankIsDepth(tr, n, x);
    TimesWithout(tr, n, Stack(tr, n), IndexOf(Stack(tr, n), x));
  }

  lemma TimesWithout(tr: Trace, n: nat, st: seq<Id>, i: nat)
    requires n <= |tr| && i < |st|
    ensures TimesOf(st[..i] + st[i + 1..], tr, n) == TimesOf(st, tr, n)[..i] + TimesOf(st, tr, n)[i + 1..]
  {
    hide LastAccess;
  }

  // ---------------------------------------------------------------- functions of a prefix only

  lemma TimesOfPrefix(tr: Trace, x: Id)
    ensures Times(tr + [x], |tr|) == Times(tr, |tr|)
  {
    hide Stack, LastAccess;
    var tr' := tr + [x];
    assert tr'[..|tr|] == tr[..|tr|];
    Chunks.StackOfPrefix(tr, tr', |tr|);
    forall y: Id ensures LastAccess(tr', |tr|, y) == LastAccess(tr, |tr|, y) {
      Chunks.LastAccessOfPrefix(tr, tr', |tr|, y);
    }
  }

  /** TimesStep for a request appended to a trace. */
  lemma NextRequest(tr: Trace, x: Id)
    ensures LastAccess(tr + [x], |tr|, x) == LastAccess(tr, |tr|, x)
    ensures var t, t' := Times(tr, |tr|), Times(tr + [x], |tr + [x]|);
            && (LastAccess(tr, |tr|, x) > 0 ==>
                  t' == InsertSorted<nat>(RemoveSorted<nat>(t, LastAccess(tr, |tr|, x), Greater), |tr| + 1, Greater))
            && (LastAccess(tr, |tr|, x) == 0 ==> t' == InsertSorted<nat>(t, |tr| + 1, Greater))
  {
    hide Times, InsertSorted, RemoveSorted, LastAccess, Stack, Greater;
    var tr' := tr + [x];
    assert tr'[..|tr|] == tr[..|tr|];
    Chunks.LastAccessOfPrefix(tr, tr', |tr|, x);
    TimesOfPrefix(tr, x);
    TimesStep(tr', |tr|);
  }

  // ---------------------------------------------------------------- the page table and the hits

  ghost predicate IsPageTable(table: map<Id, nat>, tr: Trace) {
    && (forall x :: x in table ==> table[x] == LastAccess(tr, |tr|, x) && table[x] > 0)
    && (forall x :: LastAccess(tr, |tr|, x) > 0 ==> x in table)
  }

  lemma PageTableStep(table: map<Id, nat>, tr: Trace, x: Id)
    requires IsPageTable(table, tr)
    ensures IsPageTable(table[x := |tr| + 1], tr + [x])
    ensures x in table <==> LastAccess(tr + [x], |tr|, x) > 0
    ensures x in table ==> table[x] == LastAccess(tr + [x], |tr|, x)
  {
    var tr' := tr + [x];
    assert tr'[..|tr|] == tr[..|tr|];
    forall y: Id ensures LastAccess(tr', |tr|, y) == LastAccess(tr, |tr|, y) {
      Chunks.LastAccessOfPrefix(tr, tr', |tr|, y);
    }
    assert forall y :: LastAccess(tr', |tr'|, y) == if y == x then |tr'| else LastAccess(tr', |tr|, y);
  }

  /** pageHits[d - 1] counts the requests of depth d, for every depth up to the number of pages. */
  ghost predicate IsPageHits(hits: seq<nat>, tr: Trace) {
    && |hits| == DistinctIds(tr, |tr|)
    && forall d :: 0 <= d < |hits| ==> hits[d] == DepthCount(tr, |tr|, d + 1)
  }

  lemma DepthCountSnoc(tr: Trace, x: Id, d: nat)
    ensures DepthCount(tr + [x], |tr| + 1, d) == DepthCount(tr, |tr|, d) + if Depth(tr, |tr|, x) == d then 1 else 0
  {
    hide Stack;
    var tr' := tr + [x];
    assert tr'[..|tr|] == tr[..|tr|];
    Chunks.DepthCountOfPrefix(tr, tr', |tr|, d);
    Chunks.StackOfPrefix(tr, tr', |tr|);
  }

  lemma DistinctSnoc(tr: Trace, x: Id)
    ensures DistinctIds(tr + [x], |tr| + 1) == DistinctIds(tr, |tr|) + if LastAccess(tr, |tr|, x) > 0 then 0 else 1
  {
    hide Elements;
    var tr' := tr + [x];
    assert tr'[..|tr| + 1] == tr[..|tr|] + [x];
    CountOfSnoc(tr[..|tr|], x);
    InWindow(tr, 0, |tr|, x);
    assert tr[0..|tr|] == tr[..|tr|];
  }

  /** A repeated page adds a hit at its rank. */
  lemma HitStep(hits: seq<nat>, tr: Trace, x: Id, rank: nat)
    requires IsPageHits(hits, tr) && LastAccess(tr, |tr|, x) > 0 && rank + 1 == Depth(tr, |tr|, x)
    ensures rank < |hits| && IsPageHits(hits[rank := hits[rank] + 1], tr + [x])
  {
    hide Depth, DepthCount, DistinctIds, LastAccess;
    DepthBounds(tr, |tr|, x);
    DistinctSnoc(tr, x);
    forall d: nat
      ensures DepthCount(tr + [x], |tr| + 1, d) == DepthCount(tr, |tr|, d) + if Depth(tr, |tr|, x) == d then 1 else 0
    {
      DepthCountSnoc(tr, x, d);
    }
  }

  /** A new page adds a cell to the hits and no hit. */
  lemma MissStep(hits: seq<nat>, tr: Trace, x: Id)
    requires IsPageHits(hits, tr) && LastAccess(tr, |tr|, x) == 0
    ensures IsPageHits(hits + [0], tr + [x])
  {
    hide Depth, DepthCount, DistinctIds, LastAccess;
    DepthBounds(tr, |tr|, x);
    DistinctSnoc(tr, x);
    Chunks.NoDeepRequests(tr, |tr|, |hits| + 1);
    forall d: nat
      ensures DepthCount(tr + [x], |tr| + 1, d) == DepthCount(tr, |tr|, d) + if Depth(tr, |tr|, x) == d then 1 else 0
    {
      DepthCountSnoc(tr, x, d);
    }
  }

  lemma NoRequests()
    ensures Times([], 0) == [] && IsPageTable(map[], []) && IsPageHits([], [])
  {
    NoElements<Id>();
    var none: Trace := [];
    assert none[..0] == [];
  }
}
