/** One thread of the parallel recursion, step by step.

    A thread owns a window of the operations array.  It waits to be started; then it either scans
    its window, one operation a step, or counts the freezes of a small window, one operation a step.
    When the scan reaches a boundary, the part right of it becomes a new waiting thread. */
module Threads {
  import opened Operations
  import opened Subproblem
  import opened SplitPoints
  import opened Scanning
  import opened ScanSteps
  import opened Projection
  import opened Tallying
  import opened BaseCase
  import opened Recursion

  datatype Thread =
    | Waiting(w: ProjSequence)
    | Splitting(w: ProjSequence, node: Node, r: nat, cur: int, merge: int, full: int,
                stacks: seq<seq<Op>>, calls: seq<nat>)
    | Counting(w: ProjSequence, next: nat, local: seq<int>, full: int)
    | Finished(w: ProjSequence)

  /** What a step leaves: the thread, the left part of its window, the thread it created, if any, with
      the right part, and the histogram. */
  datatype Outcome = Outcome(self: Thread, own: seq<Op>, spawned: seq<Thread>, other: seq<Op>, hits: seq<nat>)

  // ---------------------------------------------------------------- what a thread relies on

  /** The window holds a subproblem whose freezes fit a histogram of size n. */
  ghost predicate Solvable(w: ProjSequence, a: seq<Op>, n: nat) {
    0 < w.start && WellFormed(a, w.start, w.end) && Fits(View(a, w.start, w.end), n)
  }

  ghost function ScanIn(t: Thread, a: seq<Op>): Scan
    requires t.Splitting?
  {
    Scan(a, t.cur, t.merge, t.full, t.stacks, t.calls)
  }

  ghost predicate SplittingOK(t: Thread, a: seq<Op>, n: nat)
    requires t.Splitting?
  {
    && 0 < t.r && Inv(t.node, t.r, ScanIn(t, a))
    && t.w.start == t.node.lo && t.w.end == PartHi(t.node, t.r)
    && Fits(View(t.node.ops, t.node.lo, t.node.hi), n)
  }

  ghost predicate CountingOK(t: Thread, a: seq<Op>, n: nat)
    requires t.Counting?
  {
    Solvable(t.w, a, n) && t.next <= |a| && Distances(t.local, t.full, a[..t.next], t.w.start, t.w.end)
  }

  /** The thread can work on window contents a. */
  ghost predicate OwnOK(t: Thread, a: seq<Op>, n: nat) {
    && |a| == t.w.numOps
    && match t
       case Waiting(w) => Solvable(w, a, n)
       case Splitting(_, _, _, _, _, _, _, _) => SplittingOK(t, a, n)
       case Counting(_, _, _, _) => CountingOK(t, a, n)
       case Finished(_) => true
  }

  /** Freezes with value d that the thread, and the threads it will create, have still to count. */
  ghost function Remaining(t: Thread, a: seq<Op>, d: int): int {
    match t
    case Waiting(w) => Tally(View(a, w.start, w.end), d)
    case Splitting(w, nd, r, _, _, _, _, _) => Tally(View(nd.ops, nd.lo, w.end), d)
    case Counting(w, next, _, _) =>
      Tally(View(a, w.start, w.end), d) - Tally(View(if next <= |a| then a[..next] else a, w.start, w.end), d)
    case Finished(_) => 0
  }

  ghost function Cells(w: ProjSequence): int {
    w.end - w.start + 1
  }

  ghost function Square(c: int): int {
    c * c
  }

  /** An upper bound on the number of steps still to come. */
  ghost function Work(t: Thread): int {
    match t
    case Waiting(w) => 4 * Square(Cells(w))
    case Splitting(w, _, _, cur, _, _, _, _) => 4 * Square(Cells(w)) - 4 * Cells(w) + cur + 1
    case Counting(w, next, _, _) => w.numOps - next + 1
    case Finished(_) => 0
  }

  /** What every step must keep. */
  ghost predicate OutcomeOK(t: Thread, a: seq<Op>, hits: seq<nat>, o: Outcome) {
    && Layout(t, a, hits, o)
    && OwnOK(o.self, o.own, |hits|) && (o.spawned != [] ==> OwnOK(o.spawned[0], o.other, |hits|))
    && (forall d :: 0 <= d < |hits| ==> o.hits[d] + RemainingAfter(o, d) == hits[d] + Remaining(t, a, d))
    && 0 <= Work(o.self) && WorkAfter(o) < Work(t)
    && (o.spawned != [] ==> 0 <= Work(o.spawned[0]))
  }

  /** The window is cut in two: the thread keeps the left part, the new thread gets the right part. */
  ghost predicate Layout(t: Thread, a: seq<Op>, hits: seq<nat>, o: Outcome) {
    && |o.own| + |o.other| == |a| && |o.hits| == |hits| && |o.spawned| <= 1
    && o.self.w.opSeq == t.w.opSeq && o.self.w.numOps == |o.own|
    && (if o.spawned == [] then o.other == []
        else o.spawned[0].w.opSeq == t.w.opSeq + |o.own| && o.spawned[0].w.numOps == |o.other|)
  }

  ghost function RemainingAfter(o: Outcome, d: int): int {
    Remaining(o.self, o.own, d) + if o.spawned == [] then 0 else Remaining(o.spawned[0], o.other, d)
  }

  ghost function WorkAfter(o: Outcome): int {
    Work(o.self) + if o.spawned == [] then 0 else Work(o.spawned[0])
  }

  // ---------------------------------------------------------------- starting

  ghost function Parts(w: ProjSequence): nat {
    if Cells(w) < IAF_BRANCHING then (if Cells(w) > 0 then Cells(w) else 0) else IAF_BRANCHING
  }

  /** A started thread counts if its window is small and splits it otherwise. */
  ghost function Begin(t: Thread, a: seq<Op>, hits: seq<nat>): Outcome
    requires t.Waiting?
  {
    var w := t.w;
    var self :=
      if w.end - w.start < IAF_BASE_CASE then Counting(w, 0, seq(IAF_BASE_CASE, _ => 0), 0)
      else
        var s := Start(Node(a, w.start, w.end, Parts(w)), IAF_BRANCHING);
        Splitting(w, Node(a, w.start, w.end, Parts(w)), IAF_BRANCHING - 1, s.cur, s.merge, s.full, s.stacks, s.calls);
    Outcome(self, a, [], [], hits)
  }

  lemma BeginKeeps(t: Thread, a: seq<Op>, hits: seq<nat>)
    requires t.Waiting? && OwnOK(t, a, |hits|)
    ensures OutcomeOK(t, a, hits, Begin(t, a, hits))
  {
    hide WellFormed, View, Tally, Total, Fits, Inv, PartLo, Start;
    var w, o := t.w, Begin(t, a, hits);
    SolvableSize(w, a, |hits|);
    if w.end - w.start < IAF_BASE_CASE {
      NothingCounted(a, w.start, w.end, o.self.local);
    } else {
      var nd := Node(a, w.start, w.end, IAF_BRANCHING);
      StartInv(nd, IAF_BRANCHING);
      StartIs(nd);
      PartRange(nd, IAF_BRANCHING - 1);
    }
    WorkToStart(Cells(w), |a|);
  }

  lemma SolvableSize(w: ProjSequence, a: seq<Op>, n: nat)
    requires Solvable(w, a, n)
    ensures w.start <= w.end && 0 < |a| <= 2 * Cells(w)
  {
    NumOpsBound(a, w.start, w.end);
  }

  lemma NothingCounted(a: seq<Op>, lo: nat, hi: nat, local: seq<int>)
    requires hi - lo < |local| && forall k :: 0 <= k < |local| ==> local[k] == 0
    ensures Distances(local, 0, a[..0], lo, hi)
    ensures forall d: int :: Tally(View(a[..0], lo, hi), d) == 0
  {
    assert a[..0] == [];
  }

  lemma StartIs(nd: Node)
    ensures var s := Start(nd, IAF_BRANCHING); s.a == nd.ops && s.cur == |nd.ops| - 1
  {
  }

  lemma WorkToStart(c: int, ops: int)
    requires c >= 1 && 0 < ops <= 2 * c
    ensures ops + 1 < 4 * Square(c) && 0 <= 4 * Square(c) - 4 * c + ops < 4 * Square(c)
  {
    hide Square;
    SquareGrows(c);
  }

  lemma SquareGrows(c: int)
    requires c >= 1
    ensures Square(c) >= c
  {
    assert c * c >= c;
  }

  lemma SquareOfSum(x: int, y: int)
    requires x >= 1 && y >= 1
    ensures Square(x + y) >= Square(x) + Square(y) + x + y
  {
    assert (x + y) * (x + y) == x * x + 2 * (x * y) + y * y;
    assert x * y >= x && x * y >= y;
  }

  // ---------------------------------------------------------------- counting

  /** The next operation: adds its partial increment to the cells and counts what it freezes. */
  ghost function Count(t: Thread, a: seq<Op>, hits: seq<nat>): Outcome
    requires t.Counting? && OwnOK(t, a, |hits|)
  {
    if t.next == |a| then Outcome(Finished(t.w), a, [], [], hits)
    else
      var op := a[t.next];
      var local := Incremented(t, op);
      CountFacts(t, a, |hits|);
      var hits' :=
        if op.Postfix? then
          var hit := local[op.target - t.w.start] + t.full;
          hits[hit := hits[hit] + 1]
        else hits;
      Outcome(Counting(t.w, t.next + 1, local, t.full + op.full), a, [], [], hits')
  }

  ghost function Incremented(t: Thread, op: Op): (local: seq<int>)
    requires t.Counting?
    ensures |local| == |t.local|
  {
    seq(|t.local|, c requires 0 <= c < |t.local| =>
      t.local[c] + if c <= t.w.end - t.w.start then op.IncAt(t.w.start + c) else 0)
  }

  /** The value read is the one the operations freeze; it is a place in the histogram. */
  lemma CountFacts(t: Thread, a: seq<Op>, n: nat)
    requires t.Counting? && OwnOK(t, a, n) && t.next < |a|
    ensures var op, local := a[t.next], Incremented(t, a[t.next]);
            && AddsInc(local, t.local, op, t.w.start, t.w.end)
            && (op.Postfix? ==>
                  && t.w.start <= op.target <= t.w.end && op.target - t.w.start < |local|
                  && 0 < local[op.target - t.w.start] + t.full < n
                  && local[op.target - t.w.start] + t.full == Total(a[..t.next], op.target) + INC)
  {
    hide Total, View, Good, Fits, Distances;
    var op := a[t.next];
    LocalSize(t, a, n);
    if op.Postfix? {
      assert Visible(op, t.w.start, t.w.end);
      FrozenValue(t.local, Incremented(t, op), t.full, a, t.next, t.w.start, t.w.end, n);
    }
  }

  lemma LocalSize(t: Thread, a: seq<Op>, n: nat)
    requires t.Counting? && OwnOK(t, a, n)
    ensures t.w.start <= t.w.end && t.w.end - t.w.start < |t.local|
  {
    hide Total, View, Good;
  }

  lemma CountKeeps(t: Thread, a: seq<Op>, hits: seq<nat>)
    requires t.Counting? && OwnOK(t, a, |hits|)
    ensures OutcomeOK(t, a, hits, Count(t, a, hits))
  {
    hide WellFormed, View, Tally, Total, Fits, Distances, AddsInc, Incremented;
    var o := Count(t, a, hits);
    if t.next == |a| {
      assert a[..t.next] == a;
    } else {
      var op := a[t.next];
      CountFacts(t, a, |hits|);
      assert a[..t.next + 1] == a[..t.next] + [op];
      DistancesStep(t.local, Incremented(t, op), t.full, a[..t.next], op, t.w.start, t.w.end);
      forall d | 0 <= d < |hits| ensures o.hits[d] + RemainingAfter(o, d) == hits[d] + Remaining(t, a, d) {
        var b := a[..t.next + 1];
        assert b[..|b| - 1] == a[..t.next] && b[|b| - 1] == op;
        TallyOfPrefix(b, t.w.start, t.w.end, d);
      }
    }
  }

  // ---------------------------------------------------------------- splitting

  ghost function WithScan(t: Thread, s: Scan): Thread
    requires t.Splitting?
  {
    t.(cur := s.cur, merge := s.merge, full := s.full, stacks := s.stacks, calls := s.calls)
  }

  /** The next operation of the scan: it stays, moves to a scratch stack, or is the boundary. */
  ghost function ScanNext(t: Thread, a: seq<Op>, hits: seq<nat>): Outcome
    requires t.Splitting? && OwnOK(t, a, |hits|)
  {
    var s, nd := ScanIn(t, a), t.node;
    ScanFacts(nd, t.r, s);
    ScannedOp(nd, t.r, s);
    var rightStart := PartLo(nd, t.r);
    var op := a[t.cur];
    if op.IsBoundaryOp(rightStart - 1) then
      CutRoom(nd, t.r, s);
      CutAt(t, a, hits)
    else
      var s' :=
        if op.MoveToScratch(rightStart) then
          FindPart(nd, t.r, op.target);
          Move(s, PartOf(op.target, t.w.start, DivFactor(nd.hi - nd.lo + 1, nd.parts)))
        else Stay(s, rightStart);
      Outcome(WithScan(t, s'), s'.a, [], [], hits)
  }

  /** There is room to cut part r off. */
  ghost predicate Cuttable(s: Scan, r: nat) {
    && 0 < s.cur <= s.merge < |s.a|
    && 0 < r <= |s.stacks| && |s.stacks[r - 1]| > 0
    && s.cur - 1 + |s.stacks[r - 1]| <= s.merge
  }

  /** The scan after part r was cut off. */
  ghost function CutLeft(s: Scan, r: nat): Scan
    requires Cuttable(s, r)
  {
    LayOut(Cross(s), r)
  }

  /** The window without the part right of the boundary, and that part as a new thread. */
  ghost function CutAt(t: Thread, a: seq<Op>, hits: seq<nat>): Outcome
    requires t.Splitting? && ValidNode(t.node) && Cuttable(ScanIn(t, a), t.r)
  {
    var s, nd := ScanIn(t, a), t.node;
    var s' := CutLeft(s, t.r);
    var left := ProjSequence(t.w.opSeq, t.merge, t.w.start, PartHi(nd, t.r - 1));
    var right := ProjSequence(t.w.opSeq + t.merge, |a| - t.merge, PartLo(nd, t.r), t.w.end);
    var self := if t.r == 1 then Waiting(left) else WithScan(t, s').(w := left, r := t.r - 1);
    Outcome(self, s'.a, [Waiting(right)], CutOff(s), hits)
  }

  lemma CutRoom(nd: Node, r: nat, s: Scan)
    requires Inv(nd, r, s) && r > 0 && BoundaryOf(nd, r, s.cur)
    ensures ValidNode(nd) && r < nd.parts && Cuttable(s, r)
  {
    hide Inv, WellFormed, Shows, PartLo, LayOut, Crossed, BoundaryOf;
    ScanFacts(nd, r, s);
    ScannedOp(nd, r, s);
    CrossKeepsLeft(nd, r, s);
    LayOutGivesInv(nd, r, Cross(s));
  }

  lemma CutFacts(nd: Node, r: nat, s: Scan)
    requires Inv(nd, r, s) && r > 0 && BoundaryOf(nd, r, s.cur)
    requires ValidNode(nd) && r < nd.parts && Cuttable(s, r)
    ensures Inv(nd, r - 1, CutLeft(s, r)) && |CutLeft(s, r).a| == s.merge && CutLeft(s, r).cur == s.cur - 1
    ensures |CutOff(s)| == |s.a| - s.merge
    ensures WellFormed(CutOff(s), PartLo(nd, r), PartHi(nd, r)) && Shows(nd, r, CutOff(s))
  {
    hide Inv, WellFormed, Shows, PartLo, LayOut, Crossed, BoundaryOf;
    CrossKeepsLeft(nd, r, s);
    CutOffIsSubproblem(nd, r, s);
    LayOutGivesInv(nd, r, Cross(s));
    LayOutSize(Cross(s), r);
  }

  lemma ScanKeeps(t: Thread, a: seq<Op>, hits: seq<nat>)
    requires t.Splitting? && OwnOK(t, a, |hits|)
    ensures OutcomeOK(t, a, hits, ScanNext(t, a, hits))
  {
    hide Inv, WellFormed, View, Tally, Fits, PartLo, Stay, Move, CutAt, BoundaryOf, DivFactor, PartOf, Work;
    var s, nd := ScanIn(t, a), t.node;
    ScanFacts(nd, t.r, s);
    ScannedOp(nd, t.r, s);
    PartRange(nd, t.r);
    var op := a[t.cur];
    if op.IsBoundaryOp(PartLo(nd, t.r) - 1) {
      CutRoom(nd, t.r, s);
      CutKeeps(t, a, hits);
    } else if op.MoveToScratch(PartLo(nd, t.r)) {
      FindPart(nd, t.r, op.target);
      var p := PartOf(op.target, t.w.start, DivFactor(nd.hi - nd.lo + 1, nd.parts));
      MoveKeepsInv(nd, t.r, s, p);
      MoveAdvances(s, p);
      ScanWork(t, Move(s, p));
    } else {
      StayKeepsInv(nd, t.r, s);
      StayAdvances(s, PartLo(nd, t.r));
      ScanWork(t, Stay(s, PartLo(nd, t.r)));
    }
  }

  lemma StayAdvances(s: Scan, rightStart: nat)
    requires 0 <= s.cur <= s.merge < |s.a|
    ensures Stay(s, rightStart).cur == s.cur - 1 && |Stay(s, rightStart).a| == |s.a|
  {
  }

  lemma MoveAdvances(s: Scan, p: nat)
    requires 0 <= s.cur <= s.merge < |s.a| && p < |s.stacks| && |s.stacks[p]| > 0
    ensures Move(s, p).cur == s.cur - 1 && |Move(s, p).a| == |s.a|
  {
  }

  lemma ScanWork(t: Thread, s: Scan)
    requires t.Splitting? && s.cur == t.cur - 1 && 0 < t.cur && t.w.start <= t.w.end
    ensures 0 <= Work(WithScan(t, s)) < Work(t)
  {
    hide Square;
    SquareGrows(Cells(t.w));
  }

  lemma CutKeeps(t: Thread, a: seq<Op>, hits: seq<nat>)
    requires t.Splitting? && OwnOK(t, a, |hits|) && BoundaryOf(t.node, t.r, t.cur)
    requires ValidNode(t.node) && t.r < t.node.parts && Cuttable(ScanIn(t, a), t.r)
    ensures OutcomeOK(t, a, hits, CutAt(t, a, hits))
  {
    hide Inv, WellFormed, View, Tally, Fits, PartLo, BoundaryOf, CutLeft, CutOff, Work;
    var s, nd := ScanIn(t, a), t.node;
    CutFacts(nd, t.r, s);
    var o := CutAt(t, a, hits);
    PartsOf(nd, t.r);
    FreezesOfSubrange(nd.ops, nd.lo, nd.hi, PartLo(nd, t.r), PartHi(nd, t.r), |hits|);
    if t.r == 1 {
      LastPart(nd, CutLeft(s, t.r));
      FreezesOfSubrange(nd.ops, nd.lo, nd.hi, nd.lo, PartHi(nd, 0), |hits|);
    }
    forall d | 0 <= d < |hits| ensures o.hits[d] + RemainingAfter(o, d) == hits[d] + Remaining(t, a, d) {
      TallySplit(nd.ops, nd.lo, PartHi(nd, t.r - 1), PartHi(nd, t.r), d);
    }
    CutWork(t, o);
  }

  /** Part r and the parts before it. */
  lemma PartsOf(nd: Node, r: nat)
    requires ValidNode(nd) && 0 < r < nd.parts
    ensures nd.lo <= PartHi(nd, r - 1) && PartHi(nd, r - 1) + 1 == PartLo(nd, r) <= PartHi(nd, r) <= nd.hi
    ensures r == 1 ==> PartLo(nd, 0) == nd.lo
  {
    hide PartLo, WellFormed;
    PartRange(nd, r - 1);
    PartRange(nd, r);
    PartRange(nd, 0);
    PartOrder(nd, r - 1, r);
  }

  lemma CutWork(t: Thread, o: Outcome)
    requires t.Splitting? && 0 < t.cur && |o.spawned| == 1 && o.spawned[0].Waiting?
    requires o.self.Waiting? || (o.self.Splitting? && o.self.cur == t.cur - 1)
    requires t.w.start <= o.self.w.end && o.self.w.start == t.w.start
    requires o.spawned[0].w.start == o.self.w.end + 1 <= o.spawned[0].w.end == t.w.end
    ensures 0 <= Work(o.self) && 0 <= Work(o.spawned[0]) && WorkAfter(o) < Work(t)
  {
    hide Square;
    var x, y := Cells(o.spawned[0].w), Cells(o.self.w);
    assert Cells(t.w) == x + y;
    SquareOfSum(x, y);
    SquareGrows(x);
    SquareGrows(y);
  }

  // ---------------------------------------------------------------- any step

  ghost function Next(t: Thread, a: seq<Op>, hits: seq<nat>): Outcome
    requires !t.Finished? && OwnOK(t, a, |hits|)
  {
    match t
    case Waiting(_) => Begin(t, a, hits)
    case Splitting(_, _, _, _, _, _, _, _) => ScanNext(t, a, hits)
    case Counting(_, _, _, _) => Count(t, a, hits)
  }

  lemma NextKeeps(t: Thread, a: seq<Op>, hits: seq<nat>)
    requires !t.Finished? && OwnOK(t, a, |hits|)
    ensures OutcomeOK(t, a, hits, Next(t, a, hits))
  {
    hide OutcomeOK, OwnOK, Begin, ScanNext, Count;
    match t
    case Waiting(_) => BeginKeeps(t, a, hits);
    case Splitting(_, _, _, _, _, _, _, _) => ScanKeeps(t, a, hits);
    case Counting(_, _, _, _) => CountKeeps(t, a, hits);
  }
}
