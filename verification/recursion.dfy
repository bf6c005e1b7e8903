/** The recursion: split a subproblem into parts in place, solve the parts as tasks, in any order.
    A task runs with all its descendants; `Interleaving` has every interleaving. */
module Recursion {
  import opened Operations
  import opened Subproblem
  import opened SplitPoints
  import opened Partitioning
  import opened Scanning
  import opened ScanSteps
  import opened Projection
  import opened Tallying
  import opened BaseCase
  import opened Tasks

  const IAF_BRANCHING: nat := 16

  // ---------------------------------------------------------------- start and end of a split

  ghost function Start(nd: Node, branching: nat): Scan
    requires branching > 0
  {
    Scan(nd.ops, |nd.ops| - 1, |nd.ops| - 1, 0, seq(branching - 1, _ => [Null(0)]), [])
  }

  lemma {:induction false} NothingPending(stacks: seq<seq<Op>>, r: nat)
    requires r <= |stacks| && forall q :: 0 <= q < r ==> stacks[q] == [Null(0)]
    ensures Pending(stacks, r) == 0
  {
    if r > 0 { NothingPending(stacks, r - 1); }
  }

  lemma StartLeft(nd: Node, branching: nat, q: nat)
    requires ValidNode(nd) && q < nd.parts - 1 && nd.parts <= branching
    ensures Shows(nd, q, LeftImage(Start(nd, branching), q))
  {
    hide View, Total, PartLo, WellFormed, Same, Rev;
    PartRange(nd, q);
    StartFacts(nd, branching);
    var s := Start(nd, branching);
    assert Owed(s, q) == 0;
    assert s.a[..s.cur + 1] == nd.ops;
    assert LeftImage(s, q) == nd.ops + [Null(0)];
    InsertEmpty(nd.ops, PartLo(nd, q), PartHi(nd, q));
    SameView(nd.ops + [Null(0)], nd.ops, PartLo(nd, q), PartHi(nd, q));
  }

  lemma SameView(u: seq<Op>, v: seq<Op>, lo: nat, hi: nat)
    requires Same(u, v, lo, hi)
    ensures View(u, lo, hi) == View(v, lo, hi)
  {
  }

  lemma StartGeometry(nd: Node, branching: nat)
    requires ValidNode(nd) && nd.parts <= branching
    ensures Geometry(nd, nd.parts - 1, Start(nd, branching))
  {
    hide PartLo, View, Good;
    PartRange(nd, nd.parts - 1);
    var r := nd.parts - 1;
    assert BoundaryAhead(nd, r, |nd.ops| - 1);
  }

  /** The state the program starts from satisfies the invariant for the rightmost part. */
  lemma StartInv(nd: Node, branching: nat)
    requires ValidNode(nd) && nd.parts <= branching
    ensures Inv(nd, nd.parts - 1, Start(nd, branching))
  {
    hide PartLo, View, WellFormed, LeftImage, Geometry, Below;
    var s := Start(nd, branching);
    PartRange(nd, nd.parts - 1);
    NothingPending(s.stacks, nd.parts - 1);
    StartGeometry(nd, branching);
    StartFacts(nd, branching);
    forall q | 0 <= q < nd.parts - 1 ensures Shows(nd, q, LeftImage(s, q)) {
      StartLeft(nd, branching, q);
    }
    assert RightImage(s) == nd.ops;
  }

  lemma StartFacts(nd: Node, branching: nat)
    requires ValidNode(nd) && branching > 0
    ensures |nd.ops| > 0
  {
  }

  /** After the last cut the rest of the window is part 0. */
  lemma LastPart(nd: Node, s: Scan)
    requires Inv(nd, 0, s)
    ensures Shows(nd, 0, s.a) && WellFormed(s.a, PartLo(nd, 0), PartHi(nd, 0))
  {
    hide PartLo, View, Good, LeftViews, BoundaryOf;
    PartRange(nd, 0);
    assert RightImage(s) == s.a;
    LastPartShape(nd, s);
    ShownIsGood(nd, 0, s.a);
  }

  lemma LastPartShape(nd: Node, s: Scan)
    requires ValidNode(nd) && Geometry(nd, 0, s) && s.merge == s.cur
    ensures |s.a| > 0 && s.a[0].Null? && forall k :: 0 < k < |s.a| ==> Visible(s.a[k], PartLo(nd, 0), PartHi(nd, 0))
  {
    hide Good, BoundaryOf, Cut;
    PartRange(nd, 0);
  }

  // ---------------------------------------------------------------- the account of a split

  /** What hits and the waiting tasks must add up to once the parts right of cell m are split off. */
  ghost function Goal(hits0: seq<nat>, s: seq<Op>, lo: nat, hi: nat, m: nat): int -> int {
    (d: int) => (if 0 <= d < |hits0| then hits0[d] else 0) + Tally(View(s, lo, hi), d) - Tally(View(s, lo, m), d)
  }

  ghost function FinalGoal(hits0: seq<nat>, s: seq<Op>, lo: nat, hi: nat): int -> int {
    (d: int) => (if 0 <= d < |hits0| then hits0[d] else 0) + Tally(View(s, lo, hi), d)
  }

  lemma GoalAt(hits0: seq<nat>, s: seq<Op>, lo: nat, hi: nat, m: nat, d: int)
    requires 0 <= d < |hits0|
    ensures Goal(hits0, s, lo, hi, m)(d) == hits0[d] + Tally(View(s, lo, hi), d) - Tally(View(s, lo, m), d)
  {
  }

  lemma NothingSplitYet(hits0: seq<nat>, a: seq<Op>, s: seq<Op>, lo: nat, hi: nat)
    ensures Accounted(hits0, [], a, hi - lo, Goal(hits0, s, lo, hi, hi))
  {
    hide View, Tally;
  }

  /** A part cut off becomes a task; together with the others it accounts for what it shows. */
  lemma NewTask(hits: seq<nat>, hits0: seq<nat>, tasks: seq<ProjSequence>, t: ProjSequence, a: seq<Op>, a': seq<Op>,
                bound: int, nd: Node, r: nat)
    requires ValidNode(nd) && 0 < r < nd.parts && bound == nd.hi - nd.lo
    requires |hits| == |hits0| && Fits(View(nd.ops, nd.lo, nd.hi), |hits|)
    requires Accounted(hits, tasks, a, bound, Goal(hits0, nd.ops, nd.lo, nd.hi, PartHi(nd, r)))
    requires forall i :: 0 <= i < |tasks| ==> tasks[i].opSeq + tasks[i].numOps <= |a|
    requires |a'| == |a| && t.opSeq + t.numOps <= |a'|
    requires forall i :: 0 <= i < |tasks| ==> Slice(tasks[i], a') == Slice(tasks[i], a) && Apart(tasks[i], t)
    requires t.start == PartLo(nd, r) && t.end == PartHi(nd, r)
    requires WellFormed(Slice(t, a'), t.start, t.end) && Shows(nd, r, Slice(t, a'))
    ensures Accounted(hits, tasks + [t], a', bound, Goal(hits0, nd.ops, nd.lo, nd.hi, PartHi(nd, r - 1)))
  {
    hide PartLo, View, Tally, WellFormed, Fits, Slice, Apart, Goal, PendingTally;
    PartOrder(nd, r - 1, r);
    PartRange(nd, r);
    PartRange(nd, r - 1);
    FreezesOfSubrange(nd.ops, nd.lo, nd.hi, t.start, t.end, |hits|);
    forall d | 0 <= d < |hits|
      ensures hits[d] + PendingTally(tasks + [t], a', d) == Goal(hits0, nd.ops, nd.lo, nd.hi, PartHi(nd, r - 1))(d)
    {
      PendingKept(tasks, a', a, d);
      PendingSnoc(tasks, t, a', d);
      TallySplit(nd.ops, nd.lo, PartHi(nd, r - 1), PartHi(nd, r), d);
      GoalAt(hits0, nd.ops, nd.lo, nd.hi, PartHi(nd, r - 1), d);
      GoalAt(hits0, nd.ops, nd.lo, nd.hi, PartHi(nd, r), d);
    }
  }

  /** The rest of the window, the leftmost part, is the last task. */
  lemma NewLastTask(hits: seq<nat>, hits0: seq<nat>, tasks: seq<ProjSequence>, t: ProjSequence, a: seq<Op>,
                    bound: int, nd: Node)
    requires ValidNode(nd) && bound == nd.hi - nd.lo
    requires |hits| == |hits0| && Fits(View(nd.ops, nd.lo, nd.hi), |hits|)
    requires Accounted(hits, tasks, a, bound, Goal(hits0, nd.ops, nd.lo, nd.hi, PartHi(nd, 0)))
    requires t.opSeq + t.numOps <= |a| && forall i :: 0 <= i < |tasks| ==> Apart(tasks[i], t)
    requires t.start == PartLo(nd, 0) && t.end == PartHi(nd, 0)
    requires WellFormed(Slice(t, a), t.start, t.end) && Shows(nd, 0, Slice(t, a))
    ensures Accounted(hits, tasks + [t], a, bound, FinalGoal(hits0, nd.ops, nd.lo, nd.hi))
  {
    hide PartLo, View, Tally, WellFormed, Fits, Slice, Apart, Goal, PendingTally;
    PartOrder(nd, 0, 1);
    PartRange(nd, 1);
    PartRange(nd, 0);
    FreezesOfSubrange(nd.ops, nd.lo, nd.hi, t.start, t.end, |hits|);
    forall d | 0 <= d < |hits|
      ensures hits[d] + PendingTally(tasks + [t], a, d) == hits0[d] + Tally(View(nd.ops, nd.lo, nd.hi), d)
    {
      PendingSnoc(tasks, t, a, d);
      GoalAt(hits0, nd.ops, nd.lo, nd.hi, PartHi(nd, 0), d);
    }
  }

  lemma AllCounted(hits: seq<nat>, hits0: seq<nat>, a: seq<Op>, s: seq<Op>, lo: nat, hi: nat)
    requires |hits| == |hits0|
    requires Accounted(hits, [], a, hi - lo, FinalGoal(hits0, s, lo, hi))
    ensures Counted(hits, hits0, s, lo, hi)
  {
    hide View, Tally;
    forall d | 0 <= d < |hits| ensures hits[d] == hits0[d] + Tally(View(s, lo, hi), d) {
      assert PendingTally([], a, d) == 0;
    }
  }

  // ---------------------------------------------------------------- the recursive methods

  /** The scheduler of one node: runs its waiting tasks in any order, each with all its descendants, all
      of them if `all`, otherwise any number. */
  method RunTasks(hits0: seq<nat>, tasks0: seq<ProjSequence>, ops: array<Op>, all: bool,
                  ghost bound: int, ghost goal: int -> int)
    returns (hits: seq<nat>, tasks: seq<ProjSequence>)
    requires Accounted(hits0, tasks0, ops[..], bound, goal)
    modifies ops
    ensures |hits| == |hits0| && SubTasks(tasks, tasks0) && (all ==> tasks == [])
    ensures Accounted(hits, tasks, ops[..], bound, goal)
    ensures Untouched(ops[..], old(ops[..]), tasks0)
    decreases bound, 0
  {
    hide Accounted, Apart, Counted, Outside, Untouched;
    ghost var before := ops[..];
    hits, tasks := hits0, tasks0;
    UntouchedRefl(before, tasks0);
    while tasks != []
      invariant |hits| == |hits0| && SubTasks(tasks, tasks0)
      invariant Accounted(hits, tasks, ops[..], bound, goal)
      invariant Untouched(ops[..], before, tasks0)
      decreases |tasks|
    {
      if !all {
        if * { break; }
      }
      var k :| 0 <= k < |tasks|;
      var t := tasks[k];
      ghost var a := ops[..];
      ghost var hits1 := hits;
      TaskIsCallable(hits, tasks, k, ops, bound, goal);
      ghost var parts;
      hits, parts := DoProjections(hits, t, ops);
      AfterTask(hits1, hits, tasks, k, a, ops[..], bound, goal);
      UntouchedStep(ops[..], a, before, tasks0, t);
      tasks := tasks[..k] + tasks[k + 1..];
    }
  }

  lemma UntouchedRefl(a: seq<Op>, tasks: seq<ProjSequence>)
    ensures Untouched(a, a, tasks)
  {
  }

  lemma TaskIsCallable(hits: seq<nat>, tasks: seq<ProjSequence>, k: nat, ops: array<Op>, bound: int, goal: int -> int)
    requires k < |tasks| && Accounted(hits, tasks, ops[..], bound, goal)
    ensures var t, n := tasks[k], |hits|;
            InArray(t, ops) && Window(t, ops) == Slice(t, ops[..]) && 0 < t.start
            && WellFormed(Window(t, ops), t.start, t.end) && Fits(View(Window(t, ops), t.start, t.end), n)
            && t.start <= t.end && t.end - t.start < bound
  {
  }

  /** The waiting tasks lie between the rest of the window and its old end. */
  ghost predicate RightOf(tasks: seq<ProjSequence>, rest: ProjSequence, cur: ProjSequence) {
    && rest.opSeq == cur.opSeq && rest.numOps <= cur.numOps
    && forall i :: 0 <= i < |tasks| ==> rest.opSeq + rest.numOps <= tasks[i].opSeq
                                        && tasks[i].opSeq + tasks[i].numOps <= cur.opSeq + cur.numOps
  }

  ghost predicate AllInside(tasks: seq<ProjSequence>, cur: ProjSequence) {
    forall i :: 0 <= i < |tasks| ==> cur.opSeq <= tasks[i].opSeq
                                     && tasks[i].opSeq + tasks[i].numOps <= cur.opSeq + cur.numOps
  }

  lemma UntouchedOutside(a': seq<Op>, a: seq<Op>, tasks: seq<ProjSequence>, cur: ProjSequence)
    requires Untouched(a', a, tasks) && AllInside(tasks, cur) && cur.opSeq + cur.numOps <= |a|
    ensures Outside(a', a, cur)
  {
    hide Slice;
    forall k | 0 <= k < |a| && !(cur.opSeq <= k < cur.opSeq + cur.numOps) ensures a'[k] == a[k] {
      var w := ProjSequence(k, 1, 0, 0);
      assert forall i :: 0 <= i < |tasks| ==> Apart(w, tasks[i]);
      OneCell(w, a', a);
    }
  }

  lemma OneCell(w: ProjSequence, a': seq<Op>, a: seq<Op>)
    requires w.numOps == 1 && w.opSeq < |a| == |a'| && Slice(w, a') == Slice(w, a)
    ensures a'[w.opSeq] == a[w.opSeq]
  {
    assert Slice(w, a)[0] == a[w.opSeq] && Slice(w, a')[0] == a'[w.opSeq];
  }

  lemma RunOutside(a': seq<Op>, a: seq<Op>, tasks: seq<ProjSequence>, rest: ProjSequence, cur: ProjSequence)
    requires Untouched(a', a, tasks) && RightOf(tasks, rest, cur) && cur.opSeq + cur.numOps <= |a|
    ensures |a'| == |a| && Slice(rest, a') == Slice(rest, a)
    ensures Outside(a', a, cur)
  {
    hide Slice, Outside;
    assert forall i :: 0 <= i < |tasks| ==> Apart(rest, tasks[i]);
    UntouchedOutside(a', a, tasks, cur);
  }

  lemma CutKeepsTasks(a': seq<Op>, a: seq<Op>, tasks: seq<ProjSequence>, rest: ProjSequence, left: ProjSequence,
                      right: ProjSequence, cur: ProjSequence)
    requires Outside(a', a, rest) && RightOf(tasks, rest, cur) && cur.opSeq + cur.numOps <= |a|
    requires left.opSeq == rest.opSeq && left.numOps + right.numOps == rest.numOps
    requires right.opSeq == rest.opSeq + left.numOps
    ensures |a'| == |a| && Outside(a', a, cur) && RightOf(tasks + [right], left, cur)
    ensures forall i :: 0 <= i < |tasks| ==> Slice(tasks[i], a') == Slice(tasks[i], a) && Apart(tasks[i], right)
  {
    forall i | 0 <= i < |tasks| ensures Slice(tasks[i], a') == Slice(tasks[i], a) {
      OutsideApart(rest, tasks[i], a', a);
    }
  }

  lemma RightOfSub(rest': seq<ProjSequence>, tasks: seq<ProjSequence>, rest: ProjSequence, cur: ProjSequence)
    requires SubTasks(rest', tasks) && RightOf(tasks, rest, cur)
    ensures RightOf(rest', rest, cur)
  {
  }

  lemma WindowIsSlice(w: ProjSequence, ops: array<Op>)
    requires InArray(w, ops)
    ensures Window(w, ops) == Slice(w, ops[..])
  {
  }

  lemma TasksInArray(hits: seq<nat>, tasks: seq<ProjSequence>, a: seq<Op>, bound: int, goal: int -> int)
    requires Accounted(hits, tasks, a, bound, goal)
    ensures forall i :: 0 <= i < |tasks| ==> tasks[i].opSeq + tasks[i].numOps <= |a|
  {
  }

  lemma SplittingKept(nd: Node, r: nat, w: ProjSequence, ops: array<Op>, state: PartitionState, s: Scan)
    requires InArray(w, ops) && StateFor(nd, state) && w.start == nd.lo && w.end == PartHi(nd, r)
    requires Inv(nd, r, s) && ScanOf(w, ops, state) == s
    ensures Splitting(nd, r, w, ops, state)
  {
  }

  /** One round of the split loop: cut part i off as a new task, then let any waiting tasks run. */
  method CutAndRun(hits0: seq<nat>, pending0: seq<ProjSequence>, rest0: ProjSequence, left0: ProjSequence,
                   right0: ProjSequence, i: nat, cur: ProjSequence, ops: array<Op>, state: PartitionState,
                   ghost nd: Node, ghost start: seq<nat>)
    returns (hits: seq<nat>, pending: seq<ProjSequence>, rest: ProjSequence)
    requires i > 0 && Splitting(nd, i, rest0, ops, state) && cur.opSeq + cur.numOps <= ops.Length
    requires left0.start == nd.lo && left0.end + 1 == right0.start == PartLo(nd, i) && right0.end == rest0.end
    requires RightOf(pending0, rest0, cur)
    requires |hits0| == |start| && Fits(View(nd.ops, nd.lo, nd.hi), |hits0|)
    requires Accounted(hits0, pending0, ops[..], nd.hi - nd.lo, Goal(start, nd.ops, nd.lo, nd.hi, PartHi(nd, i)))
    modifies ops, state, state.incrArray
    ensures Splitting(nd, i - 1, rest, ops, state) && rest.end == left0.end
    ensures RightOf(pending, rest, cur)
    ensures |hits| == |start|
    ensures Accounted(hits, pending, ops[..], nd.hi - nd.lo, Goal(start, nd.ops, nd.lo, nd.hi, PartHi(nd, i - 1)))
    ensures Outside(ops[..], old(ops[..]), cur)
    decreases nd.hi - nd.lo, 1
  {
    hide Inv, WellFormed, Shows, PartLo, Window, View, Tally, Fits, Accounted, Outside, Goal, RightOf, Untouched, Slice,
      StateFor, DivFactor, Pow2, Counts;
    ghost var a := ops[..];
    ScanFacts(nd, i, ScanOf(rest0, ops, state));
    var split;
    rest, split := Partition(rest0, left0, right0, i, ops, state, nd);
    ghost var a1 := ops[..];
    CutKeepsTasks(a1, a, pending0, rest0, rest, split, cur);
    WindowIsSlice(split, ops);
    TasksInArray(hits0, pending0, a, nd.hi - nd.lo, Goal(start, nd.ops, nd.lo, nd.hi, PartHi(nd, i)));
    NewTask(hits0, start, pending0, split, a, a1, nd.hi - nd.lo, nd, i);
    WindowIsSlice(rest, ops);
    ghost var s := ScanOf(rest, ops, state);
    var tasks := pending0 + [split];
    hits, pending := RunTasks(hits0, tasks, ops, false, nd.hi - nd.lo,
                              Goal(start, nd.ops, nd.lo, nd.hi, PartHi(nd, i - 1)));
    RunOutside(ops[..], a1, tasks, rest, cur);
    OutsideTransitive(ops[..], a1, a, cur);
    RightOfSub(pending, tasks, rest, cur);
    WindowIsSlice(rest, ops);
    assert ScanOf(rest, ops, state) == s;
    SplittingKept(nd, i - 1, rest, ops, state, s);
  }

  /** Counts every freeze of the window's operations in hits.  `parts` are the first and last cells of the
      subproblems it was cut into, the window itself if it was not. */
  method DoProjections(hits0: seq<nat>, cur: ProjSequence, ops: array<Op>)
    returns (hits: seq<nat>, ghost parts: seq<(nat, nat)>)
    requires InArray(cur, ops) && 0 < cur.start
    requires WellFormed(Window(cur, ops), cur.start, cur.end)
    requires Fits(View(Window(cur, ops), cur.start, cur.end), |hits0|)
    modifies ops
    ensures Counted(hits, hits0, old(Window(cur, ops)), cur.start, cur.end)
    ensures Outside(ops[..], old(ops[..]), cur)
    ensures cur.end - cur.start < 256 ==> parts == [(cur.start, cur.end)] && ops[..] == old(ops[..])
    ensures cur.end - cur.start >= 256 ==> EvenParts(parts, cur)
    decreases cur.end - cur.start, 3
  {
    if cur.end - cur.start < IAF_BASE_CASE {
      hits := DoBaseCase(hits0, cur, ops);
      parts := [(cur.start, cur.end)];
      OutsideReflexive(ops[..], cur);
    } else {
      hits, parts := SplitAndSolve(hits0, cur, ops);
    }
  }

  /** The end of the split: the rest of the window is the last task; all waiting tasks are run. */
  method SolveRest(hits1: seq<nat>, pending: seq<ProjSequence>, rest: ProjSequence, cur: ProjSequence,
                   ops: array<Op>, state: PartitionState, ghost nd: Node, ghost start: seq<nat>)
    returns (hits: seq<nat>)
    requires Splitting(nd, 0, rest, ops, state) && RightOf(pending, rest, cur) && cur.opSeq + cur.numOps <= ops.Length
    requires |hits1| == |start| && Fits(View(nd.ops, nd.lo, nd.hi), |hits1|)
    requires Accounted(hits1, pending, ops[..], nd.hi - nd.lo, Goal(start, nd.ops, nd.lo, nd.hi, PartHi(nd, 0)))
    modifies ops
    ensures Counted(hits, start, nd.ops, nd.lo, nd.hi)
    ensures Outside(ops[..], old(ops[..]), cur)
    decreases nd.hi - nd.lo, 1
  {
    hide Inv, WellFormed, Shows, PartLo, Window, View, Tally, Fits, Accounted, Outside, Goal, RightOf, Untouched, Slice,
      StateFor, DivFactor, Counts, Counted, FinalGoal;
    ghost var a := ops[..];
    ScanFacts(nd, 0, ScanOf(rest, ops, state));
    LastPart(nd, ScanOf(rest, ops, state));
    WindowIsSlice(rest, ops);
    RestIsApart(pending, rest, cur);
    PartRange(nd, 0);
    NewLastTask(hits1, start, pending, rest, a, nd.hi - nd.lo, nd);
    var tasks := pending + [rest];
    var left;
    hits, left := RunTasks(hits1, tasks, ops, true, nd.hi - nd.lo, FinalGoal(start, nd.ops, nd.lo, nd.hi));
    AllCounted(hits, start, ops[..], nd.ops, nd.lo, nd.hi);
    UntouchedOutside(ops[..], a, tasks, cur);
  }

  /** The recursive case: cuts the window into parts from the right, then solves what is left.  `parts`
      are the first and last cells of the subproblems, from the left. */
  method SplitAndSolve(hits0: seq<nat>, cur: ProjSequence, ops: array<Op>)
    returns (hits: seq<nat>, ghost parts: seq<(nat, nat)>)
    requires InArray(cur, ops) && 0 < cur.start && cur.end - cur.start >= IAF_BASE_CASE
    requires WellFormed(Window(cur, ops), cur.start, cur.end)
    requires Fits(View(Window(cur, ops), cur.start, cur.end), |hits0|)
    modifies ops
    ensures Counted(hits, hits0, old(Window(cur, ops)), cur.start, cur.end)
    ensures Outside(ops[..], old(ops[..]), cur)
    ensures EvenParts(parts, cur)
    decreases cur.end - cur.start, 2
  {
    hide Inv, WellFormed, Shows, PartLo, Window, View, Tally, Fits, Accounted, Outside, Goal, RightOf, Untouched, Slice,
      StateFor, DivFactor, Counts, Counted, Start, FinalGoal, PartsFrom,
      EndOf;
    var dist := cur.end - cur.start + 1;
    var numPartitions := if dist < IAF_BRANCHING then dist else IAF_BRANCHING;
    var splitAmount := DivFactor(dist, numPartitions);
    var fractionalEnd := cur.end as real;
    assert IAF_BRANCHING == Pow2(4);
    var state := new PartitionState(IAF_BRANCHING, splitAmount, cur.numOps);
    ghost var nd := Node(Window(cur, ops), cur.start, cur.end, numPartitions);
    ghost var before := ops[..];
    var rest, pending: seq<ProjSequence> := cur, [];
    hits := hits0;
    StartSplit(nd, cur, ops, state);
    NothingSplitYet(hits0, before, nd.ops, nd.lo, nd.hi);
    PartRange(nd, numPartitions - 1);
    FirstEnd(dist, numPartitions, cur.start);
    OutsideReflexive(before, cur);
    NoTasks(cur);
    var i := numPartitions - 1;
    parts := [];
    NoParts(nd);
    while i > 0
      invariant 0 <= i < numPartitions
      invariant fractionalEnd == EndOf(cur.start, i + 1, splitAmount)
      invariant fresh(state) && fresh(state.incrArray)
      invariant Splitting(nd, i, rest, ops, state) && RightOf(pending, rest, cur)
      invariant |hits| == |hits0|
      invariant Accounted(hits, pending, ops[..], nd.hi - nd.lo, Goal(hits0, nd.ops, nd.lo, nd.hi, PartHi(nd, i)))
      invariant Outside(ops[..], before, cur)
      invariant rest.end == PartHi(nd, i) && PartsFrom(parts, nd, i + 1)
      decreases i
    {
      ghost var a := ops[..];
      NextEnd(cur.start, i, splitAmount);
      fractionalEnd := fractionalEnd - splitAmount;
      EndIsCut(nd, i, fractionalEnd, splitAmount);
      assert fractionalEnd >= cur.start as real;
      var right := ProjSequence(0, 0, (fractionalEnd + 1.0).Floor, rest.end);
      var left := ProjSequence(0, 0, cur.start, fractionalEnd.Floor);
      OnePart(parts, nd, i);
      parts := [(right.start, right.end)] + parts;
      hits, pending, rest := CutAndRun(hits, pending, rest, left, right, i, cur, ops, state, nd, hits0);
      OutsideTransitive(ops[..], a, before, cur);
      i := i - 1;
    }
    PartRange(nd, 0);
    OnePart(parts, nd, 0);
    parts := [(cur.start, rest.end)] + parts;
    ghost var a := ops[..];
    hits := SolveRest(hits, pending, rest, cur, ops, state, nd, hits0);
    OutsideTransitive(ops[..], a, before, cur);
    AllParts(parts, nd);
  }

  /** Sixteen parts, cut at every sixteenth of the window rounded down. */
  ghost predicate EvenParts(parts: seq<(nat, nat)>, w: ProjSequence) {
    && |parts| == 16
    && forall i :: 0 <= i < 16 ==>
         var dist := w.end - w.start + 1;
         parts[i] == (w.start + i * dist / 16, w.start + (i + 1) * dist / 16 - 1)
  }

  /** The first and last cells of the parts from i on. */
  ghost predicate PartsFrom(parts: seq<(nat, nat)>, nd: Node, i: nat)
    requires nd.parts > 0 && 0 < nd.lo <= nd.hi
  {
    i + |parts| == nd.parts && forall j :: 0 <= j < |parts| ==> parts[j] == CellsOfPart(nd, i + j)
  }

  ghost function CellsOfPart(nd: Node, i: nat): (int, int)
    requires nd.parts > 0 && 0 < nd.lo <= nd.hi
  {
    (PartLo(nd, i), PartHi(nd, i))
  }

  lemma NoParts(nd: Node)
    requires nd.parts > 0 && 0 < nd.lo <= nd.hi
    ensures PartsFrom([], nd, nd.parts)
  {
  }

  lemma OnePart(parts: seq<(nat, nat)>, nd: Node, i: nat)
    requires nd.parts > 0 && 0 < nd.lo <= nd.hi && PartsFrom(parts, nd, i + 1)
    requires PartHi(nd, i) >= 0
    ensures PartsFrom([(PartLo(nd, i), PartHi(nd, i))] + parts, nd, i)
  {
    hide PartLo, PartHi;
    var all: seq<(nat, nat)> := [(PartLo(nd, i), PartHi(nd, i))] + parts;
    forall j | 0 <= j < |all| ensures all[j] == CellsOfPart(nd, i + j) {
      if j > 0 { assert parts[j - 1] == CellsOfPart(nd, i + 1 + (j - 1)); }
    }
  }

  lemma AllParts(parts: seq<(nat, nat)>, nd: Node)
    requires nd.parts == 16 && 0 < nd.lo <= nd.hi && PartsFrom(parts, nd, 0)
    ensures forall w: ProjSequence :: w.start == nd.lo && w.end == nd.hi ==> EvenParts(parts, w)
  {
    forall i | 0 <= i < 16
      ensures parts[i] == (nd.lo + i * (nd.hi - nd.lo + 1) / 16, nd.lo + (i + 1) * (nd.hi - nd.lo + 1) / 16 - 1)
    {
      assert parts[i] == CellsOfPart(nd, 0 + i);
    }
  }

  lemma StartSplit(nd: Node, cur: ProjSequence, ops: array<Op>, state: PartitionState)
    requires InArray(cur, ops) && nd.ops == Window(cur, ops) && nd.lo == cur.start && nd.hi == cur.end
    requires ValidNode(nd) && nd.parts <= IAF_BRANCHING
    requires state.Valid() && Pow2(state.incrTreeDepth) == IAF_BRANCHING
    requires state.divFactor == DivFactor(nd.hi - nd.lo + 1, nd.parts)
    requires state.curIdx == state.mergeIntoIdx == cur.numOps - 1 && state.allPartitionsFullIncr == 0
    requires |state.scratchSpaces| == IAF_BRANCHING - 1 && state.calls == []
    requires forall p :: 0 <= p < |state.scratchSpaces| ==> state.scratchSpaces[p] == [Null(0)]
    ensures Splitting(nd, nd.parts - 1, cur, ops, state)
  {
    hide Inv, PartLo;
    PartRange(nd, nd.parts - 1);
    StartInv(nd, IAF_BRANCHING);
    assert state.scratchSpaces == Start(nd, IAF_BRANCHING).stacks;
  }

  lemma NoTasks(cur: ProjSequence)
    ensures RightOf([], cur, cur)
  {
  }

  lemma RestIsApart(tasks: seq<ProjSequence>, rest: ProjSequence, cur: ProjSequence)
    requires RightOf(tasks, rest, cur)
    ensures forall i :: 0 <= i < |tasks| ==> Apart(tasks[i], rest)
    ensures AllInside(tasks + [rest], cur)
  {
  }

  /** Where part i ends when lo - 1 is walked up from in steps of d. */
  ghost function EndOf(lo: nat, i: nat, d: real): real {
    (lo - 1) as real + i as real * d
  }

  lemma FirstEnd(dist: nat, parts: nat, lo: nat)
    requires parts > 0
    ensures (lo + dist - 1) as real == EndOf(lo, parts, DivFactor(dist, parts))
  {
  }

  lemma NextEnd(lo: nat, i: nat, d: real)
    ensures EndOf(lo, i + 1, d) - d == EndOf(lo, i, d)
  {
  }

  lemma EndIsCut(nd: Node, i: nat, fractionalEnd: real, splitAmount: real)
    requires ValidNode(nd) && 0 < i < nd.parts && splitAmount == DivFactor(nd.hi - nd.lo + 1, nd.parts)
    requires fractionalEnd == EndOf(nd.lo, i, splitAmount)
    ensures fractionalEnd.Floor + 1 == (fractionalEnd + 1.0).Floor == PartLo(nd, i)
    ensures fractionalEnd >= nd.lo as real
  {
    hide Cut, WellFormed, DivFactor;
    FloorOfEnd(nd.lo, nd.hi - nd.lo + 1, nd.parts, i, fractionalEnd);
    PartOrder(nd, 0, i);
    PartRange(nd, 0);
  }
}
