/** The state kept across the partition calls of one node of the recursion, with the implicit
    binary tree that counts, for each part, the Postfixes already moved to parts left of it. */
module Partitioning {
  import opened Operations
  import opened SplitPoints

  // ---------------------------------------------------------------- powers of two

  function Pow2(n: nat): (p: nat)
    ensures p > 0
  {
    if n == 0 then 1 else 2 * Pow2(n - 1)
  }

  lemma {:induction false} Pow2Monotone(a: nat, b: nat)
    requires a <= b
    ensures Pow2(a) <= Pow2(b)
    decreases b
  {
    if a < b { Pow2Monotone(a, b - 1); }
  }

  /** Integer logarithm. */
  method CeLog2(n: nat) returns (ans: nat)
    requires n > 0
    ensures Pow2(ans) <= n < Pow2(ans + 1)
  {
    ans := 0;
    var m := n;
    while m > 1
      invariant m > 0
      invariant m * Pow2(ans) <= n < (m + 1) * Pow2(ans)
      decreases m
    {
      HalvingStep(n, m, Pow2(ans));
      ans := ans + 1;
      m := m / 2;
    }
  }

  lemma HalvingStep(n: nat, m: nat, p: nat)
    requires m * p <= n < (m + 1) * p
    ensures m / 2 * (2 * p) <= n < (m / 2 + 1) * (2 * p)
  {
    var h := m / 2;
    assert h * (2 * p) == 2 * h * p;
    assert (h + 1) * (2 * p) == (2 * h + 2) * p;
    if m == 2 * h {
      assert (m + 1) * p + p == (2 * h + 2) * p;
    } else {
      assert (m - 1) * p + p == m * p;
    }
  }

  lemma Log2OfPow2(d: nat, ans: nat)
    requires Pow2(ans) <= Pow2(d) < Pow2(ans + 1)
    ensures ans == d
  {
    if ans < d { Pow2Monotone(ans + 1, d); }
    if d < ans { Pow2Monotone(d + 1, ans); }
  }

  // ---------------------------------------------------------------- counting calls

  /** Number of entries of `calls` in lo..hi-1. */
  ghost function CountIn(calls: seq<nat>, lo: nat, hi: nat): nat {
    if calls == [] then 0
    else
      var c := calls[|calls| - 1];
      CountIn(calls[..|calls| - 1], lo, hi) + if lo <= c < hi then 1 else 0
  }

  /** Number of entries of `calls` smaller than t. */
  ghost function Below(calls: seq<nat>, t: nat): nat {
    CountIn(calls, 0, t)
  }

  lemma CountSnoc(calls: seq<nat>, t: nat, lo: nat, hi: nat)
    ensures CountIn(calls + [t], lo, hi) == CountIn(calls, lo, hi) + if lo <= t < hi then 1 else 0
  {
    assert (calls + [t])[..|calls|] == calls;
  }

  lemma {:induction false} CountSplit(calls: seq<nat>, lo: nat, mid: nat, hi: nat)
    requires lo <= mid <= hi
    ensures CountIn(calls, lo, hi) == CountIn(calls, lo, mid) + CountIn(calls, mid, hi)
  {
    if calls != [] { CountSplit(calls[..|calls| - 1], lo, mid, hi); }
  }

  lemma {:induction false} CountNone(calls: seq<nat>, lo: nat)
    ensures CountIn(calls, lo, lo) == 0
  {
    if calls != [] { CountNone(calls[..|calls| - 1], lo); }
  }

  // ---------------------------------------------------------------- the implicit tree

  /** Array index of node `pre` (from the left) on level d. */
  function NodeIdx(d: nat, pre: nat): nat {
    Pow2(d) - 1 + pre
  }

  lemma NodeIdxInjective(d: nat, pre: nat, d': nat, pre': nat)
    requires pre < Pow2(d) && pre' < Pow2(d') && NodeIdx(d, pre) == NodeIdx(d', pre')
    ensures d == d' && pre == pre'
  {
    if d < d' { Pow2Monotone(d + 1, d'); }
    if d' < d { Pow2Monotone(d' + 1, d); }
  }

  lemma NodeIdxBound(d: nat, pre: nat, depth: nat)
    requires d < depth && pre < Pow2(d)
    ensures NodeIdx(d, pre) < Pow2(depth) - 1
  {
    Pow2Monotone(d + 1, depth);
  }

  /** Calls counted at a node: those for targets below its left child. */
  ghost function Expected(calls: seq<nat>, depth: nat, d: nat, pre: nat): nat
    requires d < depth
  {
    var half := Pow2(depth - d - 1);
    CountIn(calls, 2 * pre * half, (2 * pre + 1) * half)
  }

  lemma QuotientIs(t: nat, n: nat, q: nat)
    requires n > 0 && q * n <= t < q * n + n
    ensures t / n == q
  {
    DivFloor(t, n, q);
    DivFloor(t, n, q + 1);
    assert (q + 1) * n == q * n + n;
  }

  lemma DivPow2(t: nat, h: nat)
    ensures t / Pow2(h) == 2 * (t / Pow2(h + 1)) + t / Pow2(h) % 2
  {
    var p := Pow2(h);
    var a := t / p;
    var b := a / 2;
    DivFloor(t, p, a);
    DivFloor(t, p, 2 * b);
    DivFloor(t, p, 2 * (b + 1));
    assert b * (2 * p) == 2 * b * p;
    assert b * (2 * p) + 2 * p == 2 * (b + 1) * p;
    QuotientIs(t, 2 * p, b);
  }

  /** One more call for t changes exactly the nodes on t's path that it leaves to the left. */
  lemma ExpectedSnoc(calls: seq<nat>, t: nat, depth: nat, d: nat, pre: nat)
    requires d < depth
    ensures Expected(calls + [t], depth, d, pre)
            == Expected(calls, depth, d, pre) + if t / Pow2(depth - d - 1) == 2 * pre then 1 else 0
  {
    var half := Pow2(depth - d - 1);
    CountSnoc(calls, t, 2 * pre * half, (2 * pre + 1) * half);
    assert (2 * pre + 1) * half == 2 * pre * half + half;
    if 2 * pre * half <= t < 2 * pre * half + half { QuotientIs(t, half, 2 * pre); }
    var q := t / half;
    assert q * half <= t < q * half + half;
  }

  /** Does `tree` hold the counts for `calls` on the levels from `from`, and for `calls'` above? */
  ghost predicate Counts(tree: seq<nat>, calls': seq<nat>, calls: seq<nat>, depth: nat, from: nat) {
    && |tree| == Pow2(depth)
    && forall d, pre :: 0 <= d < depth && 0 <= pre < Pow2(d)
                        ==> NodeIdx(d, pre) < |tree|
                            && tree[NodeIdx(d, pre)] == Expected(if d < from then calls' else calls, depth, d, pre)
  }

  lemma CountsInitially(tree: seq<nat>, depth: nat)
    requires |tree| == Pow2(depth) && forall i :: 0 <= i < |tree| ==> tree[i] == 0
    ensures Counts(tree, [], [], depth, depth)
  {
    forall d, pre | 0 <= d < depth && 0 <= pre < Pow2(d)
      ensures NodeIdx(d, pre) < |tree| && Expected([], depth, d, pre) == 0
    {
      NodeIdxBound(d, pre, depth);
    }
  }

  /** Updating the path node of level d moves the boundary down one level. */
  lemma CountsStep(tree: seq<nat>, calls: seq<nat>, t: nat, depth: nat, d: nat)
    requires Counts(tree, calls + [t], calls, depth, d) && d < depth && t < Pow2(depth)
    ensures var idx := NodeIdx(d, PathNode(t, depth - d));
            && idx < |tree|
            && tree[idx] == Expected(calls, depth, d, PathNode(t, depth - d))
            && Counts(tree[idx := tree[idx] + 1 - Bit(t, depth - d - 1)], calls + [t], calls, depth, d + 1)
  {
    hide Expected, NodeIdx, Pow2;
    DivPow2(t, depth - d - 1);
    var pre := PathNode(t, depth - d);
    PathNodeBound(t, depth, d);
    var idx := NodeIdx(d, pre);
    var tree' := tree[idx := tree[idx] + 1 - Bit(t, depth - d - 1)];
    forall d', pre' | 0 <= d' < depth && 0 <= pre' < Pow2(d')
      ensures NodeIdx(d', pre') < |tree'|
              && tree'[NodeIdx(d', pre')]
                 == Expected(if d' < d + 1 then calls + [t] else calls, depth, d', pre')
    {
      assert tree[NodeIdx(d', pre')] == Expected(if d' < d then calls + [t] else calls, depth, d', pre');
      if d' == d {
        ExpectedSnoc(calls, t, depth, d, pre');
      }
      if NodeIdx(d', pre') == idx {
        NodeIdxInjective(d, pre, d', pre');
      }
    }
  }

  lemma PathNodeBound(t: nat, depth: nat, d: nat)
    requires t < Pow2(depth) && d <= depth
    ensures PathNode(t, depth - d) < Pow2(d)
  {
    Pow2Sum(d, depth - d);
    DivFloor(t, Pow2(depth - d), Pow2(d));
  }

  lemma {:induction false} Pow2Sum(a: nat, b: nat)
    ensures Pow2(a) * Pow2(b) == Pow2(a + b)
  {
    if a > 0 {
      Pow2Sum(a - 1, b);
      assert 2 * Pow2(a - 1) * Pow2(b) == 2 * (Pow2(a - 1) * Pow2(b));
    }
  }

  function Quotient(t: nat, n: nat): nat
    requires n > 0
  {
    t / n
  }

  /** The node on level depth - h that t passes, the direction t takes one level below, and the
      first target that passes the same node. */
  function PathNode(t: nat, h: nat): nat {
    Quotient(t, Pow2(h))
  }

  function Bit(t: nat, shift: nat): nat {
    t / Pow2(shift) % 2
  }

  function RangeStart(t: nat, h: nat): nat {
    PathNode(t, h) * Pow2(h)
  }

  /** Going right at a node adds the calls below its left child to those left of its range. */
  lemma SumStep(calls: seq<nat>, t: nat, depth: nat, d: nat)
    requires d < depth
    ensures Below(calls, RangeStart(t, depth - d - 1))
            == Below(calls, RangeStart(t, depth - d))
               + if Bit(t, depth - d - 1) == 1 then Expected(calls, depth, d, PathNode(t, depth - d)) else 0
  {
    DivPow2(t, depth - d - 1);
    var half := Pow2(depth - d - 1);
    var pre := PathNode(t, depth - d);
    assert Pow2(depth - d) == 2 * half;
    assert pre * (2 * half) == 2 * pre * half;
    if Bit(t, depth - d - 1) == 1 {
      assert (2 * pre + 1) * half == 2 * pre * half + half;
      CountSplit(calls, 0, 2 * pre * half, (2 * pre + 1) * half);
    }
  }

  /** With nothing, or everything, updated the boundary level does not matter. */
  lemma CountsEnds(tree: seq<nat>, calls: seq<nat>, calls': seq<nat>, depth: nat)
    ensures Counts(tree, calls, calls, depth, depth) ==> Counts(tree, calls', calls, depth, 0)
    ensures Counts(tree, calls', calls, depth, depth) ==> Counts(tree, calls', calls', depth, depth)
  {
    hide Expected, NodeIdx;
  }

  lemma PathStart(calls: seq<nat>, t: nat, depth: nat)
    requires t < Pow2(depth)
    ensures PathNode(t, depth) == 0 && NodeIdx(0, 0) == 0 && Below(calls, RangeStart(t, depth)) == 0
  {
    QuotientIs(t, Pow2(depth), 0);
    CountNone(calls, 0);
  }

  lemma PathStep(t: nat, depth: nat, d: nat)
    requires d < depth
    ensures Bit(t, depth - d - 1) <= 1
    ensures PathNode(t, depth - d - 1) == 2 * PathNode(t, depth - d) + Bit(t, depth - d - 1)
    ensures NodeIdx(d + 1, PathNode(t, depth - d - 1))
            == 2 * NodeIdx(d, PathNode(t, depth - d)) + Bit(t, depth - d - 1) + 1
  {
    DivPow2(t, depth - d - 1);
  }

  lemma PathEnd(t: nat)
    ensures RangeStart(t, 0) == t
  {
  }

  class PartitionState {
    /** incr_array: the tree, root at 0, children of i at 2i+1 and 2i+2. */
    const incrArray: array<nat>
    const incrTreeDepth: nat
    const divFactor: real
    var allPartitionsFullIncr: int
    /** One stack of moved Postfixes per part but the last; a Null on top says how much full
        increment the part has already been given. */
    var scratchSpaces: seq<seq<Op>>
    var mergeIntoIdx: int
    var curIdx: int
    /** The arguments of all calls of QryAndUpdPartitionIncr so far. */
    ghost var calls: seq<nat>

    ghost predicate Valid()
      reads this, incrArray
    {
      Counts(incrArray[..], calls, calls, incrTreeDepth, incrTreeDepth)
    }

    constructor (branching: nat, split: real, numOps: nat)
      requires exists d: nat :: branching == Pow2(d)
      requires branching > 1
      ensures Valid() && fresh(incrArray)
      ensures Pow2(incrTreeDepth) == branching
      ensures divFactor == split && allPartitionsFullIncr == 0 && calls == []
      ensures curIdx == mergeIntoIdx == numOps - 1
      ensures |scratchSpaces| == branching - 1
      ensures forall p :: 0 <= p < |scratchSpaces| ==> scratchSpaces[p] == [Null(0)]
    {
      var depth := CeLog2(branching);
      incrTreeDepth := depth;
      incrArray := new nat[branching](_ => 0);
      divFactor := split;
      allPartitionsFullIncr := 0;
      scratchSpaces := seq(branching - 1, _ => [Null(0)]);
      mergeIntoIdx := numOps - 1;
      curIdx := numOps - 1;
      calls := [];
      new;
      ghost var d: nat :| branching == Pow2(d);
      Log2OfPow2(d, depth);
      CountsInitially(incrArray[..], depth);
    }

    /** Counts a moved Postfix for every part right of the target and says how many were
        counted for the target before. */
    method QryAndUpdPartitionIncr(partitionTarget: nat) returns (sum: nat)
      requires Valid()
      requires partitionTarget < Pow2(incrTreeDepth) - 1
      modifies this`calls, incrArray
      ensures Valid()
      ensures calls == old(calls) + [partitionTarget]
      ensures sum == Below(old(calls), partitionTarget)
    {
      hide Expected, NodeIdx, Counts, Pow2, Below, PathNode, Bit, RangeStart;
      ghost var t, before := partitionTarget, calls;
      calls := calls + [t];
      var depthShift: int := incrTreeDepth - 1;
      var idx := 0;
      sum := 0;
      PathStart(before, t, incrTreeDepth);
      CountsEnds(incrArray[..], before, calls, incrTreeDepth);
      for depth := 0 to incrTreeDepth
        invariant depthShift == incrTreeDepth - 1 - depth
        invariant idx == NodeIdx(depth, PathNode(t, incrTreeDepth - depth))
        invariant Counts(incrArray[..], before + [t], before, incrTreeDepth, depth)
        invariant sum == Below(before, RangeStart(t, incrTreeDepth - depth))
        invariant calls == before + [t]
      {
        var leftRight := Bit(partitionTarget, depthShift);
        SumStep(before, t, incrTreeDepth, depth);
        CountsStep(incrArray[..], before, t, incrTreeDepth, depth);
        PathStep(t, incrTreeDepth, depth);
        ghost var tree := incrArray[..];
        incrArray[idx] := incrArray[idx] + (1 - leftRight);
        assert incrArray[..] == tree[idx := tree[idx] + 1 - leftRight];
        sum := sum + if leftRight == 1 then incrArray[idx] else 0;
        idx := 2 * idx + leftRight + 1;
        depthShift := depthShift - 1;
      }
      PathEnd(partitionTarget);
      CountsEnds(incrArray[..], before, calls, incrTreeDepth);
    }
  }
}
