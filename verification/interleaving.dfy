/** The parallel recursion: any number of threads on one operations array and one histogram, in every
    interleaving of their steps. */
module Interleaving {
  import opened Lru
  import opened Operations
  import opened Subproblem
  import opened Projection
  import opened Tallying
  import opened Tasks
  import opened Threads
  import opened Encoding
  import Recursion
  import IncrementFreeze

  datatype System = System(mem: seq<Op>, hits: seq<nat>, threads: seq<Thread>)

  ghost predicate InMemory(w: ProjSequence, mem: seq<Op>) {
    w.opSeq + w.numOps <= |mem|
  }

  /** The contents of a window. */
  ghost function Contents(w: ProjSequence, mem: seq<Op>): seq<Op> {
    if InMemory(w, mem) then Slice(w, mem) else []
  }

  /** The memory with the contents of the window replaced. */
  ghost function Written(mem: seq<Op>, w: ProjSequence, a: seq<Op>): (mem': seq<Op>)
    requires InMemory(w, mem) && |a| == w.numOps
    ensures |mem'| == |mem|
  {
    mem[..w.opSeq] + a + mem[w.opSeq + w.numOps..]
  }

  // ---------------------------------------------------------------- steps and runs

  ghost predicate Ready(sys: System, k: nat) {
    && k < |sys.threads| && !sys.threads[k].Finished?
    && InMemory(sys.threads[k].w, sys.mem)
    && OwnOK(sys.threads[k], Contents(sys.threads[k].w, sys.mem), |sys.hits|)
  }

  /** Thread k takes a step. */
  ghost function After(sys: System, k: nat): System
    requires Ready(sys, k)
  {
    var t := sys.threads[k];
    var o := Next(t, Contents(t.w, sys.mem), sys.hits);
    NextKeeps(t, Contents(t.w, sys.mem), sys.hits);
    System(Written(sys.mem, t.w, o.own + o.other), o.hits, sys.threads[k := o.self] + o.spawned)
  }

  ghost predicate Step(sys: System, sys': System) {
    exists k: nat :: Ready(sys, k) && sys' == After(sys, k)
  }

  /** A run of the threads from a single waiting one. */
  ghost predicate Run(run: seq<System>, w: ProjSequence, mem: seq<Op>, hits: seq<nat>) {
    && |run| > 0 && run[0] == System(mem, hits, [Waiting(w)])
    && forall i :: 0 <= i < |run| - 1 ==> Step(run[i], run[i + 1])
  }

  ghost predicate AllFinished(sys: System) {
    forall k :: 0 <= k < |sys.threads| ==> sys.threads[k].Finished?
  }

  // ---------------------------------------------------------------- the invariant

  ghost predicate ThreadsOK(sys: System) {
    && (forall k :: 0 <= k < |sys.threads| ==>
          InMemory(sys.threads[k].w, sys.mem)
          && OwnOK(sys.threads[k], Contents(sys.threads[k].w, sys.mem), |sys.hits|)
          && 0 <= Work(sys.threads[k]))
    && (forall i, k :: 0 <= i < k < |sys.threads| ==> Apart(sys.threads[i].w, sys.threads[k].w))
  }

  ghost function TotalRemaining(threads: seq<Thread>, mem: seq<Op>, d: int): int
  {
    if threads == [] then 0
    else
      var t := threads[|threads| - 1];
      TotalRemaining(threads[..|threads| - 1], mem, d) + Remaining(t, Contents(t.w, mem), d)
  }

  ghost function TotalWork(threads: seq<Thread>): int {
    if threads == [] then 0 else TotalWork(threads[..|threads| - 1]) + Work(threads[|threads| - 1])
  }

  /** Threads work on disjoint windows inside w, and the histogram and what they have still to count
      add up to the goal. */
  ghost predicate SystemOK(sys: System, w: ProjSequence, mem: seq<Op>, goal: int -> int) {
    && ThreadsOK(sys)
    && (forall d :: 0 <= d < |sys.hits| ==> sys.hits[d] + TotalRemaining(sys.threads, sys.mem, d) == goal(d))
    && (forall k :: 0 <= k < |sys.threads| ==> Inside(sys.threads[k].w, w))
    && Outside(sys.mem, mem, w)
  }

  ghost predicate Inside(v: ProjSequence, w: ProjSequence) {
    w.opSeq <= v.opSeq && v.opSeq + v.numOps <= w.opSeq + w.numOps
  }

  // ---------------------------------------------------------------- windows

  lemma WrittenSlices(mem: seq<Op>, w: ProjSequence, own: seq<Op>, other: seq<Op>, u: ProjSequence, v: ProjSequence)
    requires InMemory(w, mem) && |own| + |other| == w.numOps
    requires u.opSeq == w.opSeq && u.numOps == |own| && v.opSeq == w.opSeq + |own| && v.numOps == |other|
    ensures InMemory(u, mem) && InMemory(v, mem)
    ensures Contents(u, Written(mem, w, own + other)) == own && Contents(v, Written(mem, w, own + other)) == other
  {
  }

  lemma WrittenOutside(mem: seq<Op>, w: ProjSequence, a: seq<Op>)
    requires InMemory(w, mem) && |a| == w.numOps
    ensures Outside(Written(mem, w, a), mem, w)
  {
  }

  lemma OutsideInside(a: seq<Op>, b: seq<Op>, v: ProjSequence, w: ProjSequence)
    requires Outside(a, b, v) && Inside(v, w)
    ensures Outside(a, b, w)
  {
  }

  // ---------------------------------------------------------------- sums

  lemma {:induction false} RemainingKept(threads: seq<Thread>, mem: seq<Op>, mem': seq<Op>, d: int)
    requires forall k :: 0 <= k < |threads| ==> Contents(threads[k].w, mem') == Contents(threads[k].w, mem)
    ensures TotalRemaining(threads, mem', d) == TotalRemaining(threads, mem, d)
  {
    hide Contents, Remaining;
    if threads != [] { RemainingKept(threads[..|threads| - 1], mem, mem', d); }
  }

  /** The sum after thread k changed and the memory changed in its window only. */
  lemma {:induction false} RemainingUpdate(threads: seq<Thread>, k: nat, t: Thread, mem: seq<Op>, mem': seq<Op>, d: int)
    requires k < |threads|
    requires forall i :: 0 <= i < |threads| && i != k ==> Contents(threads[i].w, mem') == Contents(threads[i].w, mem)
    ensures TotalRemaining(threads[k := t], mem', d)
            == TotalRemaining(threads, mem, d) - Remaining(threads[k], Contents(threads[k].w, mem), d)
               + Remaining(t, Contents(t.w, mem'), d)
  {
    hide Contents, Remaining;
    var last := |threads| - 1;
    if k == last {
      assert threads[k := t][..last] == threads[..last];
      RemainingKept(threads[..last], mem, mem', d);
    } else {
      assert threads[k := t][..last] == threads[..last][k := t];
      RemainingUpdate(threads[..last], k, t, mem, mem', d);
    }
  }

  lemma RemainingAdded(threads: seq<Thread>, t: Thread, mem: seq<Op>, d: int)
    ensures TotalRemaining(threads + [t], mem, d)
            == TotalRemaining(threads, mem, d) + Remaining(t, Contents(t.w, mem), d)
  {
    assert (threads + [t])[..|threads|] == threads;
  }

  lemma {:induction false} WorkUpdate(threads: seq<Thread>, k: nat, t: Thread)
    requires k < |threads|
    ensures TotalWork(threads[k := t]) == TotalWork(threads) - Work(threads[k]) + Work(t)
  {
    hide Work;
    var last := |threads| - 1;
    if k == last {
      assert threads[k := t][..last] == threads[..last];
    } else {
      assert threads[k := t][..last] == threads[..last][k := t];
      WorkUpdate(threads[..last], k, t);
    }
  }

  lemma WorkAdded(threads: seq<Thread>, t: Thread)
    ensures TotalWork(threads + [t]) == TotalWork(threads) + Work(t)
  {
    assert (threads + [t])[..|threads|] == threads;
  }

  lemma {:induction false} WorkIsPositive(threads: seq<Thread>)
    requires forall k :: 0 <= k < |threads| ==> 0 <= Work(threads[k])
    ensures 0 <= TotalWork(threads)
  {
    if threads != [] { WorkIsPositive(threads[..|threads| - 1]); }
  }

  // ---------------------------------------------------------------- every step keeps the invariant

  lemma OtherContents(mem: seq<Op>, w: ProjSequence, a: seq<Op>, v: ProjSequence)
    requires InMemory(w, mem) && |a| == w.numOps && Apart(w, v) && InMemory(v, mem)
    ensures Contents(v, Written(mem, w, a)) == Contents(v, mem)
  {
    WrittenOutside(mem, w, a);
    ApartSymmetric(w, v);
    OutsideApart(w, v, Written(mem, w, a), mem);
  }

  lemma OutcomeLayout(t: Thread, a: seq<Op>, hits: seq<nat>, o: Outcome)
    requires OutcomeOK(t, a, hits, o)
    ensures Layout(t, a, hits, o)
  {
  }

  lemma ReadyFacts(sys: System, k: nat)
    requires ThreadsOK(sys) && k < |sys.threads| && !sys.threads[k].Finished?
    ensures Ready(sys, k)
    ensures |Contents(sys.threads[k].w, sys.mem)| == sys.threads[k].w.numOps
  {
    hide OwnOK, Work;
  }

  /** What thread k leaves. */
  ghost function OutcomeOf(sys: System, k: nat): Outcome
    requires Ready(sys, k)
  {
    Next(sys.threads[k], Contents(sys.threads[k].w, sys.mem), sys.hits)
  }

  /** The windows of the thread and of the one it created hold what the step says. */
  lemma OwnContents(sys: System, k: nat)
    requires ThreadsOK(sys) && Ready(sys, k)
    ensures var t, o, mem' := sys.threads[k], OutcomeOf(sys, k), After(sys, k).mem;
            && OutcomeOK(t, Contents(t.w, sys.mem), sys.hits, o)
            && |mem'| == |sys.mem| && Outside(mem', sys.mem, t.w)
            && InMemory(o.self.w, mem') && Contents(o.self.w, mem') == o.own && Inside(o.self.w, t.w)
            && (o.spawned != [] ==>
                  && InMemory(o.spawned[0].w, mem') && Contents(o.spawned[0].w, mem') == o.other
                  && Inside(o.spawned[0].w, t.w) && Apart(o.self.w, o.spawned[0].w))
  {
    hide OwnOK, Next, OutcomeOK, Work, Written, Outside, Contents;
    var t, o := sys.threads[k], OutcomeOf(sys, k);
    var a := Contents(t.w, sys.mem);
    ReadyFacts(sys, k);
    NextKeeps(t, a, sys.hits);
    OutcomeLayout(t, a, sys.hits, o);
    WrittenOutside(sys.mem, t.w, o.own + o.other);
    var v := if o.spawned == [] then ProjSequence(t.w.opSeq + |o.own|, |o.other|, 0, 0) else o.spawned[0].w;
    WrittenSlices(sys.mem, t.w, o.own, o.other, o.self.w, v);
  }

  /** The other threads do not notice the step. */
  lemma OthersKept(sys: System, k: nat, i: nat)
    requires ThreadsOK(sys) && Ready(sys, k) && i < |sys.threads| && i != k
    ensures Apart(sys.threads[k].w, sys.threads[i].w)
    ensures Contents(sys.threads[i].w, After(sys, k).mem) == Contents(sys.threads[i].w, sys.mem)
  {
    hide OwnOK, Next, OutcomeOK, Work, Written, Contents;
    var t, o := sys.threads[k], OutcomeOf(sys, k);
    ReadyFacts(sys, k);
    NextKeeps(t, Contents(t.w, sys.mem), sys.hits);
    OutcomeLayout(t, Contents(t.w, sys.mem), sys.hits, o);
    if i < k { assert Apart(sys.threads[i].w, sys.threads[k].w); }
    OtherContents(sys.mem, t.w, o.own + o.other, sys.threads[i].w);
  }

  lemma ApartInside(v: ProjSequence, w: ProjSequence, u: ProjSequence)
    requires Apart(w, u) && Inside(v, w)
    ensures Apart(v, u)
  {
  }

  ghost predicate ThreadOK(t: Thread, mem: seq<Op>, n: nat) {
    InMemory(t.w, mem) && OwnOK(t, Contents(t.w, mem), n) && 0 <= Work(t)
  }

  /** Thread i of the system after a step of thread k: unchanged, the stepping one, or the new one. */
  lemma ThreadAfter(sys: System, k: nat, i: nat)
    requires ThreadsOK(sys) && Ready(sys, k) && i < |After(sys, k).threads|
    ensures ThreadOK(After(sys, k).threads[i], After(sys, k).mem, |After(sys, k).hits|)
    ensures var o := OutcomeOf(sys, k);
            After(sys, k).threads[i] ==
              if i == k then o.self else if i < |sys.threads| then sys.threads[i] else o.spawned[0]
  {
    hide OwnOK, Next, Work, Contents, ThreadsOK, Remaining;
    OwnContents(sys, k);
    ReadyThreads(sys, k);
    if i < |sys.threads| && i != k {
      OthersKept(sys, k, i);
      OkThread(sys, i);
    }
  }

  lemma ReadyThreads(sys: System, k: nat)
    requires Ready(sys, k)
    ensures var o := OutcomeOf(sys, k);
            After(sys, k).threads == sys.threads[k := o.self] + o.spawned && After(sys, k).hits == o.hits
  {
    hide OwnOK, Next, Written;
  }

  lemma OkThread(sys: System, i: nat)
    requires ThreadsOK(sys) && i < |sys.threads|
    ensures ThreadOK(sys.threads[i], sys.mem, |sys.hits|)
  {
    hide OwnOK, Work;
  }

  lemma ThreadsKept(sys: System, k: nat)
    requires ThreadsOK(sys) && Ready(sys, k)
    ensures ThreadsOK(After(sys, k))
  {
    hide OwnOK, Next, Work, Contents, After, Ready, OutcomeOf, OutcomeOK;
    var sys' := After(sys, k);
    forall i | 0 <= i < |sys'.threads| ensures ThreadOK(sys'.threads[i], sys'.mem, |sys'.hits|) {
      ThreadAfter(sys, k, i);
    }
    forall i, j | 0 <= i < j < |sys'.threads| ensures Apart(sys'.threads[i].w, sys'.threads[j].w) {
      ApartAfter(sys, k, i, j);
    }
  }

  lemma ApartAfter(sys: System, k: nat, i: nat, j: nat)
    requires ThreadsOK(sys) && Ready(sys, k) && i < j < |After(sys, k).threads|
    ensures Apart(After(sys, k).threads[i].w, After(sys, k).threads[j].w)
  {
    hide OwnOK, Next, Work, Contents, After, Apart, Inside, Outside, Remaining;
    var t, o := sys.threads[k], OutcomeOf(sys, k);
    OwnContents(sys, k);
    ReadyThreads(sys, k);
    var u, v := After(sys, k).threads[i].w, After(sys, k).threads[j].w;
    ThreadAfter(sys, k, i);
    ThreadAfter(sys, k, j);
    if i == k {
      if j < |sys.threads| {
        OthersKept(sys, k, j);
        ApartInside(u, t.w, v);
      }
    } else {
      OthersKept(sys, k, i);
      if j == k || j >= |sys.threads| {
        ApartInside(v, t.w, u);
        ApartSymmetric(v, u);
      } else {
        assert Apart(sys.threads[i].w, sys.threads[j].w);
      }
    }
  }

  /** The step moves its freezes from the threads to the histogram. */
  lemma RemainingAfterStep(sys: System, k: nat, d: int)
    requires ThreadsOK(sys) && Ready(sys, k) && 0 <= d < |sys.hits|
    ensures |After(sys, k).hits| == |sys.hits|
    ensures After(sys, k).hits[d] + TotalRemaining(After(sys, k).threads, After(sys, k).mem, d)
            == sys.hits[d] + TotalRemaining(sys.threads, sys.mem, d)
  {
    hide OwnOK, Next, Work, Contents, ThreadsOK, Remaining, After, TotalRemaining, Outside;
    var t, o, mem' := sys.threads[k], OutcomeOf(sys, k), After(sys, k).mem;
    OwnContents(sys, k);
    ReadyThreads(sys, k);
    forall i | 0 <= i < |sys.threads| && i != k
      ensures Contents(sys.threads[i].w, mem') == Contents(sys.threads[i].w, sys.mem)
    {
      OthersKept(sys, k, i);
    }
    RemainingUpdate(sys.threads, k, o.self, sys.mem, mem', d);
    if o.spawned != [] {
      assert o.spawned == [o.spawned[0]];
      RemainingAdded(sys.threads[k := o.self], o.spawned[0], mem', d);
    } else {
      assert sys.threads[k := o.self] + o.spawned == sys.threads[k := o.self];
    }
  }

  /** The work still to be done decreases. */
  lemma WorkAfterStep(sys: System, k: nat)
    requires ThreadsOK(sys) && Ready(sys, k)
    ensures TotalWork(After(sys, k).threads) < TotalWork(sys.threads)
  {
    hide OwnOK, Next, Work, Contents, ThreadsOK, Remaining, After, TotalWork, Outside;
    var o := OutcomeOf(sys, k);
    OwnContents(sys, k);
    ReadyThreads(sys, k);
    WorkUpdate(sys.threads, k, o.self);
    if o.spawned != [] {
      assert o.spawned == [o.spawned[0]];
      WorkAdded(sys.threads[k := o.self], o.spawned[0]);
    } else {
      assert sys.threads[k := o.self] + o.spawned == sys.threads[k := o.self];
    }
  }

  lemma StepKeeps(sys: System, k: nat, w: ProjSequence, mem: seq<Op>, goal: int -> int)
    requires SystemOK(sys, w, mem, goal) && Ready(sys, k)
    ensures SystemOK(After(sys, k), w, mem, goal) && |After(sys, k).hits| == |sys.hits|
  {
    hide OwnOK, Next, Work, Contents, Ready, After, ThreadsOK, Apart, TotalRemaining, Remaining, OutcomeOf;
    var sys' := After(sys, k);
    ThreadsKept(sys, k);
    KeepsLength(sys, k);
    forall d | 0 <= d < |sys'.hits| ensures sys'.hits[d] + TotalRemaining(sys'.threads, sys'.mem, d) == goal(d) {
      RemainingAfterStep(sys, k, d);
    }
    InsideAfter(sys, k, w);
    OutsideAfter(sys, k, w, mem);
  }

  lemma KeepsLength(sys: System, k: nat)
    requires ThreadsOK(sys) && Ready(sys, k)
    ensures |After(sys, k).hits| == |sys.hits| && k < |sys.threads|
  {
    hide OwnOK, Next, Work, Contents, ThreadsOK, Remaining, After, Outside;
    OwnContents(sys, k);
    ReadyThreads(sys, k);
  }

  lemma InsideAfter(sys: System, k: nat, w: ProjSequence)
    requires ThreadsOK(sys) && Ready(sys, k)
    requires forall i :: 0 <= i < |sys.threads| ==> Inside(sys.threads[i].w, w)
    ensures forall i :: 0 <= i < |After(sys, k).threads| ==> Inside(After(sys, k).threads[i].w, w)
  {
    hide OwnOK, Next, Work, Contents, ThreadsOK, Remaining, After, Outside;
    OwnContents(sys, k);
    ReadyThreads(sys, k);
    forall i | 0 <= i < |After(sys, k).threads| ensures Inside(After(sys, k).threads[i].w, w) {
      ThreadAfter(sys, k, i);
      if i < |sys.threads| { assert Inside(sys.threads[i].w, w); }
      assert Inside(sys.threads[k].w, w);
    }
  }

  lemma OutsideAfter(sys: System, k: nat, w: ProjSequence, mem: seq<Op>)
    requires ThreadsOK(sys) && Ready(sys, k) && Inside(sys.threads[k].w, w) && Outside(sys.mem, mem, w)
    ensures Outside(After(sys, k).mem, mem, w)
  {
    hide OwnOK, Next, Work, Contents, ThreadsOK, Remaining, After, Outside;
    OwnContents(sys, k);
    OutsideInside(After(sys, k).mem, sys.mem, sys.threads[k].w, w);
    OutsideTransitive(After(sys, k).mem, sys.mem, mem, w);
  }

  // ---------------------------------------------------------------- every run

  /** A window of memory that holds a subproblem for a histogram. */
  ghost predicate Startable(w: ProjSequence, mem: seq<Op>, hits: seq<nat>) {
    InMemory(w, mem) && Solvable(w, Slice(w, mem), |hits|)
  }

  ghost function GoalOf(w: ProjSequence, mem: seq<Op>, hits: seq<nat>): int -> int
    requires InMemory(w, mem)
  {
    Recursion.FinalGoal(hits, Slice(w, mem), w.start, w.end)
  }

  lemma StartOK(w: ProjSequence, mem: seq<Op>, hits: seq<nat>)
    requires Startable(w, mem, hits)
    ensures SystemOK(System(mem, hits, [Waiting(w)]), w, mem, GoalOf(w, mem, hits))
    ensures TotalWork([Waiting(w)]) == 4 * Square(Cells(w))
  {
    hide View, Tally, WellFormed, Fits;
    var threads := [Waiting(w)];
    assert threads[..0] == [];
    SolvableSize(w, Slice(w, mem), |hits|);
    SquareGrows(Cells(w));
    forall d ensures TotalRemaining(threads, mem, d) == Tally(View(Slice(w, mem), w.start, w.end), d) {
      assert TotalRemaining([], mem, d) == 0;
    }
  }

  lemma {:induction false} RunKeeps(run: seq<System>, w: ProjSequence, mem: seq<Op>, hits: seq<nat>)
    requires Startable(w, mem, hits) && Run(run, w, mem, hits)
    ensures var last := run[|run| - 1];
            && SystemOK(last, w, mem, GoalOf(w, mem, hits)) && |last.hits| == |hits|
            && TotalWork(last.threads) + |run| - 1 <= 4 * Square(Cells(w))
  {
    hide SystemOK, TotalWork, After, Ready, Solvable;
    if |run| == 1 {
      StartOK(w, mem, hits);
    } else {
      var init := run[..|run| - 1];
      var sys := init[|init| - 1];
      RunOfInit(run, w, mem, hits);
      RunKeeps(init, w, mem, hits);
      var k: nat :| Ready(sys, k) && run[|run| - 1] == After(sys, k);
      StepKeeps(sys, k, w, mem, GoalOf(w, mem, hits));
      SystemThreads(sys, w, mem, GoalOf(w, mem, hits));
      WorkAfterStep(sys, k);
    }
  }

  lemma RunOfInit(run: seq<System>, w: ProjSequence, mem: seq<Op>, hits: seq<nat>)
    requires Run(run, w, mem, hits) && |run| > 1
    ensures Run(run[..|run| - 1], w, mem, hits) && Step(run[|run| - 2], run[|run| - 1])
  {
    hide Step;
    var init := run[..|run| - 1];
    forall i | 0 <= i < |init| - 1 ensures Step(init[i], init[i + 1]) {
      assert Step(run[i], run[i + 1]);
    }
    var i := |run| - 2;
    assert Step(run[i], run[i + 1]);
  }

  lemma SystemThreads(sys: System, w: ProjSequence, mem: seq<Op>, goal: int -> int)
    requires SystemOK(sys, w, mem, goal)
    ensures ThreadsOK(sys) && Outside(sys.mem, mem, w)
  {
    hide ThreadsOK;
  }

  lemma {:induction false} NothingRemains(threads: seq<Thread>, mem: seq<Op>, d: int)
    requires forall k :: 0 <= k < |threads| ==> threads[k].Finished?
    ensures TotalRemaining(threads, mem, d) == 0
  {
    if threads != [] { NothingRemains(threads[..|threads| - 1], mem, d); }
  }

  /** Every interleaving: it is never stuck, ends after at most 4 * cells^2 steps, writes in the window
      only, and has then counted exactly the freezes of the window. */
  lemma EveryInterleaving(run: seq<System>, w: ProjSequence, mem: seq<Op>, hits: seq<nat>)
    requires Startable(w, mem, hits) && Run(run, w, mem, hits)
    ensures var last := run[|run| - 1];
            && |run| <= 1 + 4 * Square(Cells(w))
            && Outside(last.mem, mem, w)
            && (AllFinished(last) ==> Counted(last.hits, hits, Slice(w, mem), w.start, w.end))
            && (!AllFinished(last) ==> exists next :: Step(last, next))
  {
    hide After, Ready, Solvable, Work, OwnOK, View, Tally, TotalWork, Outside, TotalRemaining, ThreadsOK, Square;
    RunKeeps(run, w, mem, hits);
    var last := run[|run| - 1];
    SystemThreads(last, w, mem, GoalOf(w, mem, hits));
    WorkLeft(last);
    if AllFinished(last) {
      forall d | 0 <= d < |hits| ensures last.hits[d] == hits[d] + Tally(View(Slice(w, mem), w.start, w.end), d) {
        NothingRemains(last.threads, last.mem, d);
      }
    } else {
      var k: nat :| k < |last.threads| && !last.threads[k].Finished?;
      ReadyFacts(last, k);
      assert Step(last, After(last, k));
    }
  }

  lemma WorkLeft(sys: System)
    requires ThreadsOK(sys)
    ensures 0 <= TotalWork(sys.threads)
  {
    hide OwnOK, Work, TotalWork;
    WorkIsPositive(sys.threads);
  }

  /** So the histogram does not depend on the schedule; it is the one the recursion returns when it
      runs alone. */
  lemma ScheduleIndependent(run: seq<System>, w: ProjSequence, mem: seq<Op>, hits: seq<nat>, hits': seq<nat>)
    requires Startable(w, mem, hits) && Run(run, w, mem, hits) && AllFinished(run[|run| - 1])
    requires Counted(hits', hits, Slice(w, mem), w.start, w.end)
    ensures run[|run| - 1].hits == hits'
  {
    hide Solvable, Step, View, Tally, AllFinished;
    EveryInterleaving(run, w, mem, hits);
  }

  /** Every interleaving on the operations of a trace adds exactly its LRU depths. */
  lemma DepthsOfTrace(run: seq<System>, w: ProjSequence, mem: seq<Op>, hits: seq<nat>, tr: Trace)
    requires tr != [] && InMemory(w, mem) && Slice(w, mem) == Encode(tr, |tr|) && w.start == 1 && w.end == |tr|
    requires |hits| > DistinctIds(tr, |tr|)
    requires Run(run, w, mem, hits) && AllFinished(run[|run| - 1])
    ensures var hits' := run[|run| - 1].hits;
            && |hits'| == |hits| && hits'[0] == hits[0]
            && forall d :: 1 <= d < |hits| ==> hits'[d] == hits[d] + DepthCount(tr, |tr|, d)
  {
    hide Step, View, Tally, AllFinished, Fits, DistinctIds, Encode, DepthCount, WellFormed, Slice, Counted;
    EncodingIsWellFormed(tr);
    FrozenValuesFit(tr, |tr|, |tr|);
    IncrementFreeze.FitsMore(View(Encode(tr, |tr|), 1, |tr|), DistinctIds(tr, |tr|) + 1, |hits|);
    EveryInterleaving(run, w, mem, hits);
    IncrementFreeze.CountedDepths(run[|run| - 1].hits, hits, tr);
  }
}
