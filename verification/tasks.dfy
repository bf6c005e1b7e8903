/** Subproblems waiting to be solved: what running one of them leaves alone, and what is conserved. */
module Tasks {
  import opened Operations
  import opened Subproblem
  import opened Tallying
  import opened Projection

  ghost function Slice(t: ProjSequence, a: seq<Op>): seq<Op>
    requires t.opSeq + t.numOps <= |a|
  {
    a[t.opSeq..t.opSeq + t.numOps]
  }

  /** t is a solvable subproblem of at most `bound` + 1 cells, in array contents a, for a histogram of size n. */
  ghost predicate TaskOK(t: ProjSequence, a: seq<Op>, n: nat, bound: int) {
    && t.opSeq + t.numOps <= |a|
    && 0 < t.start
    && WellFormed(Slice(t, a), t.start, t.end)
    && Fits(View(Slice(t, a), t.start, t.end), n)
    && t.end - t.start < bound
  }

  ghost predicate Apart(t: ProjSequence, u: ProjSequence) {
    t.opSeq + t.numOps <= u.opSeq || u.opSeq + u.numOps <= t.opSeq
  }

  ghost predicate TasksOK(tasks: seq<ProjSequence>, a: seq<Op>, n: nat, bound: int) {
    && (forall i :: 0 <= i < |tasks| ==> TaskOK(tasks[i], a, n, bound))
    && (forall i, k :: 0 <= i < k < |tasks| ==> Apart(tasks[i], tasks[k]))
  }

  ghost function TaskTally(t: ProjSequence, a: seq<Op>, d: int): nat
    requires t.opSeq + t.numOps <= |a|
  {
    Tally(View(Slice(t, a), t.start, t.end), d)
  }

  /** Number of freezes with value d still to be counted by the waiting tasks. */
  ghost function PendingTally(tasks: seq<ProjSequence>, a: seq<Op>, d: int): nat
    requires forall i :: 0 <= i < |tasks| ==> tasks[i].opSeq + tasks[i].numOps <= |a|
  {
    if tasks == [] then 0
    else PendingTally(tasks[..|tasks| - 1], a, d) + TaskTally(tasks[|tasks| - 1], a, d)
  }

  /** Only cells of the tasks' windows were written. */
  ghost predicate Untouched(a': seq<Op>, a: seq<Op>, tasks: seq<ProjSequence>) {
    && |a'| == |a|
    && forall w: ProjSequence :: (forall i :: 0 <= i < |tasks| ==> Apart(w, tasks[i])) && w.opSeq + w.numOps <= |a|
                                 ==> Slice(w, a') == Slice(w, a)
  }

  ghost predicate SubTasks(rest: seq<ProjSequence>, tasks: seq<ProjSequence>) {
    forall i :: 0 <= i < |rest| ==> rest[i] in tasks
  }

  lemma OutsideApart(t: ProjSequence, u: ProjSequence, a': seq<Op>, a: seq<Op>)
    requires Outside(a', a, t) && Apart(u, t) && u.opSeq + u.numOps <= |a|
    ensures Slice(u, a') == Slice(u, a)
  {
  }

  lemma {:induction false} PendingKept(tasks: seq<ProjSequence>, a': seq<Op>, a: seq<Op>, d: int)
    requires |a'| == |a|
    requires forall i :: 0 <= i < |tasks| ==> tasks[i].opSeq + tasks[i].numOps <= |a|
    requires forall i :: 0 <= i < |tasks| ==> Slice(tasks[i], a') == Slice(tasks[i], a)
    ensures PendingTally(tasks, a', d) == PendingTally(tasks, a, d)
  {
    hide Slice, View, Tally;
    if tasks != [] {
      PendingKept(tasks[..|tasks| - 1], a', a, d);
    }
  }

  lemma PendingSnoc(tasks: seq<ProjSequence>, t: ProjSequence, a: seq<Op>, d: int)
    requires forall i :: 0 <= i < |tasks| ==> tasks[i].opSeq + tasks[i].numOps <= |a|
    requires t.opSeq + t.numOps <= |a|
    ensures PendingTally(tasks + [t], a, d) == PendingTally(tasks, a, d) + TaskTally(t, a, d)
  {
    assert (tasks + [t])[..|tasks|] == tasks;
  }

  lemma {:induction false} PendingRemove(tasks: seq<ProjSequence>, k: nat, a: seq<Op>, d: int)
    requires k < |tasks| && forall i :: 0 <= i < |tasks| ==> tasks[i].opSeq + tasks[i].numOps <= |a|
    ensures PendingTally(tasks, a, d) == PendingTally(tasks[..k] + tasks[k + 1..], a, d) + TaskTally(tasks[k], a, d)
  {
    hide TaskTally;
    var last := |tasks| - 1;
    var init := tasks[..last];
    if k == last {
      assert tasks[..k] + tasks[k + 1..] == init;
    } else {
      PendingRemove(init, k, a, d);
      assert tasks[..k] + tasks[k + 1..] == (init[..k] + init[k + 1..]) + [tasks[last]];
      PendingSnoc(init[..k] + init[k + 1..], tasks[last], a, d);
    }
  }

  /** hits and the waiting tasks together still account for everything in `goal`. */
  ghost predicate Balanced(hits: seq<nat>, tasks: seq<ProjSequence>, a: seq<Op>, goal: int -> int)
    requires forall i :: 0 <= i < |tasks| ==> tasks[i].opSeq + tasks[i].numOps <= |a|
  {
    forall d :: 0 <= d < |hits| ==> hits[d] + PendingTally(tasks, a, d) == goal(d)
  }

  /** All tasks can be run, and hits and tasks add up to `goal`. */
  ghost predicate Accounted(hits: seq<nat>, tasks: seq<ProjSequence>, a: seq<Op>, bound: int, goal: int -> int) {
    TasksOK(tasks, a, |hits|, bound) && Balanced(hits, tasks, a, goal)
  }

  /** Solving task k moves its freezes from the tasks to the histogram and changes no other task. */
  lemma AfterTask(hits: seq<nat>, hits': seq<nat>, tasks: seq<ProjSequence>, k: nat, a: seq<Op>, a': seq<Op>,
                  bound: int, goal: int -> int)
    requires k < |tasks| && Accounted(hits, tasks, a, bound, goal)
    requires tasks[k].opSeq + tasks[k].numOps <= |a|
    requires Outside(a', a, tasks[k])
    requires Counted(hits', hits, Slice(tasks[k], a), tasks[k].start, tasks[k].end)
    ensures |hits'| == |hits| && Accounted(hits', tasks[..k] + tasks[k + 1..], a', bound, goal)
  {
    hide Slice, View, Tally, WellFormed, Fits, Outside, Apart, PendingTally;
    var rest := tasks[..k] + tasks[k + 1..];
    OutsideLength(a', a, tasks[k]);
    forall i | 0 <= i < |rest| ensures Slice(rest[i], a') == Slice(rest[i], a) {
      var i' := if i < k then i else i + 1;
      assert rest[i] == tasks[i'];
      ApartSymmetric(tasks[k], tasks[i']);
      OutsideApart(tasks[k], rest[i], a', a);
    }
    forall d | 0 <= d < |hits'| ensures hits'[d] + PendingTally(rest, a', d) == goal(d) {
      PendingRemove(tasks, k, a, d);
      PendingKept(rest, a', a, d);
    }
  }

  lemma OutsideLength(a': seq<Op>, a: seq<Op>, w: ProjSequence)
    requires Outside(a', a, w)
    ensures |a'| == |a|
  {
  }

  lemma ApartSymmetric(t: ProjSequence, u: ProjSequence)
    ensures Apart(t, u) <==> Apart(u, t)
  {
  }

  lemma UntouchedStep(a'': seq<Op>, a': seq<Op>, a: seq<Op>, tasks: seq<ProjSequence>, t: ProjSequence)
    requires Untouched(a', a, tasks) && Outside(a'', a', t) && t in tasks
    ensures Untouched(a'', a, tasks)
  {
    hide Slice, Outside, Apart;
    OutsideLength(a'', a', t);
    forall w: ProjSequence | (forall i :: 0 <= i < |tasks| ==> Apart(w, tasks[i])) && w.opSeq + w.numOps <= |a|
      ensures Slice(w, a'') == Slice(w, a)
    {
      OutsideApart(t, w, a'', a');
    }
  }
}
