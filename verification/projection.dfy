/** The in-place split of an operation sequence. */
module Projection {
  import opened Operations
  import opened Subproblem
  import opened SplitPoints
  import opened Partitioning
  import opened Scanning
  import opened ScanSteps

  /** A window of the operations array and the cells it is about. */
  datatype ProjSequence = ProjSequence(opSeq: nat, numOps: nat, start: nat, end: nat)

  ghost predicate InArray(w: ProjSequence, ops: array<Op>) {
    w.opSeq + w.numOps <= ops.Length
  }

  ghost function Window(w: ProjSequence, ops: array<Op>): (s: seq<Op>)
    requires InArray(w, ops)
    reads ops
    ensures |s| == w.numOps
  {
    ops[w.opSeq..w.opSeq + w.numOps]
  }

  ghost function ScanOf(w: ProjSequence, ops: array<Op>, state: PartitionState): Scan
    requires InArray(w, ops)
    reads ops, state
  {
    Scan(Window(w, ops), state.curIdx, state.mergeIntoIdx, state.allPartitionsFullIncr,
         state.scratchSpaces, state.calls)
  }

  /** `state` belongs to the split of node nd. */
  ghost predicate StateFor(nd: Node, state: PartitionState)
    reads state, state.incrArray
  {
    && state.Valid()
    && 0 < nd.lo <= nd.hi && 1 < nd.parts <= Pow2(state.incrTreeDepth)
    && state.divFactor == DivFactor(nd.hi - nd.lo + 1, nd.parts)
  }

  lemma FindPart(nd: Node, r: nat, t: nat)
    requires ValidNode(nd) && r < nd.parts && nd.lo <= t < PartLo(nd, r)
    ensures DivFactor(nd.hi - nd.lo + 1, nd.parts) > 0.0
    ensures var p := PartOf(t, nd.lo, DivFactor(nd.hi - nd.lo + 1, nd.parts));
            0 <= p < r && PartLo(nd, p) <= t <= PartHi(nd, p)
  {
    hide Cut, DivFactor, PartOf, WellFormed;
    var dist := nd.hi - nd.lo + 1;
    DivFactorPositive(dist, nd.parts);
    var p := PartExists(t, nd.lo, dist, nd.parts, r);
    PartOfIsInverse(t, nd.lo, dist, nd.parts, p);
  }

  /** The split of nd has reached part r: w is what remains of the window, `state` the scan's state. */
  ghost predicate Splitting(nd: Node, r: nat, w: ProjSequence, ops: array<Op>, state: PartitionState)
    reads ops, state, state.incrArray
  {
    && InArray(w, ops)
    && StateFor(nd, state)
    && w.start == nd.lo && w.end == PartHi(nd, r)
    && Inv(nd, r, ScanOf(w, ops, state))
  }

  /** w holds part r of nd: a subproblem that shows on its cells what nd shows. */
  ghost predicate IsPart(nd: Node, r: nat, w: ProjSequence, ops: array<Op>)
    requires nd.parts > 0 && 0 < nd.lo <= nd.hi
    reads ops
  {
    && InArray(w, ops)
    && w.start == PartLo(nd, r) && w.end == PartHi(nd, r)
    && WellFormed(Window(w, ops), w.start, w.end)
    && Shows(nd, r, Window(w, ops))
  }

  /** Nothing outside the window w was written. */
  ghost predicate Outside(a: seq<Op>, b: seq<Op>, w: ProjSequence) {
    |a| == |b| && forall k :: 0 <= k < |a| && !(w.opSeq <= k < w.opSeq + w.numOps) ==> a[k] == b[k]
  }

  lemma OutsideTransitive(a: seq<Op>, b: seq<Op>, c: seq<Op>, w: ProjSequence)
    requires Outside(a, b, w) && Outside(b, c, w)
    ensures Outside(a, c, w)
  {
  }

  lemma OutsideReflexive(a: seq<Op>, w: ProjSequence)
    ensures Outside(a, a, w)
  {
  }

  ghost predicate InBounds(s: Scan) {
    0 <= s.cur <= s.merge < |s.a|
  }

  // ---------------------------------------------------------------- the three branches of the scan

  /** op_seq[i] */
  function Get(w: ProjSequence, i: int, ops: array<Op>): (op: Op)
    requires InArray(w, ops) && 0 <= i < w.numOps
    reads ops
    ensures op == Window(w, ops)[i]
  {
    ops[w.opSeq + i]
  }

  /** op_seq[i] = op */
  method Put(w: ProjSequence, i: int, op: Op, ops: array<Op>)
    requires InArray(w, ops) && 0 <= i < w.numOps
    modifies ops
    ensures Window(w, ops) == old(Window(w, ops))[i := op]
    ensures Outside(ops[..], old(ops[..]), w)
  {
    ops[w.opSeq + i] := op;
  }

  method PutTwo(w: ProjSequence, i: int, op: Op, i': int, op': Op, ops: array<Op>)
    requires InArray(w, ops) && 0 <= i < w.numOps && 0 <= i' < w.numOps
    modifies ops
    ensures Window(w, ops) == old(Window(w, ops))[i := op][i' := op']
    ensures Outside(ops[..], old(ops[..]), w)
  {
    hide Outside, Window;
    Put(w, i, op, ops);
    ghost var mid := ops[..];
    Put(w, i', op', ops);
    OutsideTransitive(ops[..], mid, old(ops[..]), w);
  }

  /** The boundary operation becomes a full increment of the operation before it, and its full
      amount is merged at the merge index. */
  method CrossBoundary(w: ProjSequence, ops: array<Op>, state: PartitionState)
    requires InArray(w, ops) && InBounds(ScanOf(w, ops, state)) && state.curIdx > 0
    modifies ops, state`curIdx
    ensures ScanOf(w, ops, state) == Cross(old(ScanOf(w, ops, state)))
    ensures Outside(ops[..], old(ops[..]), w)
  {
    hide Outside, Window;
    ghost var before := ops[..];
    var cur, merge := state.curIdx, state.mergeIntoIdx;
    var op, prev := Get(w, cur, ops), Get(w, cur - 1, ops);
    Put(w, cur - 1, prev.AddFull(op.full + INC), ops);
    ghost var mid := ops[..];
    if merge == cur {
      Put(w, cur, op.MakeNull(), ops);
    } else {
      PutTwo(w, merge, Get(w, merge, ops).AddFull(op.full), cur, Null(0), ops);
    }
    OutsideTransitive(ops[..], mid, before, w);
    state.curIdx := cur - 1;
  }

  /** An operation of the part being built moves to the merge index. */
  method KeepRight(w: ProjSequence, rightStart: nat, ops: array<Op>, state: PartitionState)
    requires InArray(w, ops) && InBounds(ScanOf(w, ops, state)) && !Get(w, state.curIdx, ops).Null?
    modifies ops, state`curIdx, state`mergeIntoIdx, state`allPartitionsFullIncr
    ensures ScanOf(w, ops, state) == Stay(old(ScanOf(w, ops, state)), rightStart)
    ensures Outside(ops[..], old(ops[..]), w)
  {
    hide Outside, Window;
    OutsideReflexive(ops[..], w);
    var cur, merge := state.curIdx, state.mergeIntoIdx;
    var op := Get(w, cur, ops);
    state.allPartitionsFullIncr := state.allPartitionsFullIncr + op.FullIncrToLeft(rightStart);
    if merge != cur {
      PutTwo(w, merge, op.AddFull(Get(w, merge, ops).full), cur, Null(0), ops);
    }
    if !Get(w, merge, ops).Null? {
      state.mergeIntoIdx := merge - 1;
    }
    state.curIdx := cur - 1;
  }

  /** A Postfix for part p goes to p's scratch stack, carrying the full increments owed to p, and
      leaves its effect on the part being built. */
  method MoveLeft(w: ProjSequence, p: nat, ops: array<Op>, state: PartitionState)
    requires InArray(w, ops) && InBounds(ScanOf(w, ops, state)) && state.Valid()
    requires p < Pow2(state.incrTreeDepth) - 1 && p < |state.scratchSpaces|
    requires |state.scratchSpaces[p]| > 0 && state.scratchSpaces[p][|state.scratchSpaces[p]| - 1].Null?
    modifies ops, state, state.incrArray
    ensures state.Valid()
    ensures ScanOf(w, ops, state) == Move(old(ScanOf(w, ops, state)), p)
    ensures Outside(ops[..], old(ops[..]), w)
  {
    hide Pow2, Below, Counts, Outside, Window;
    ghost var s := ScanOf(w, ops, state);
    var cur, merge := state.curIdx, state.mergeIntoIdx;
    var op := Get(w, cur, ops);
    // the amount of full increment p still misses goes with the operation
    var st := state.scratchSpaces[p];
    var incrs := state.QryAndUpdPartitionIncr(p);
    var stackFullIncrSum := st[|st| - 1].full;
    st := st[|st| - 1 := op.AddFull(incrs + state.allPartitionsFullIncr - stackFullIncrSum)];
    state.allPartitionsFullIncr := state.allPartitionsFullIncr + op.full;
    // a new Null on top remembers what p has been given
    st := st + [Null(0).AddFull(incrs + state.allPartitionsFullIncr)];
    state.scratchSpaces := state.scratchSpaces[p := st];
    assert st == Move(s, p).stacks[p];
    if cur != merge {
      PutTwo(w, merge, Get(w, merge, ops).AddFull(op.full + INC), cur, Null(0), ops);
    } else {
      Put(w, cur, op.AddFull(INC).MakeNull(), ops);
    }
    state.curIdx := cur - 1;
  }

  /** Lays the scratch stack of the next part out in front of the merge index. */
  method MergeScratch(w: ProjSequence, splitOffIdx: nat, ops: array<Op>, state: PartitionState)
    returns (left: nat)
    requires InArray(w, ops) && state.Valid() && 0 <= state.curIdx < state.mergeIntoIdx < w.numOps
    requires 0 < splitOffIdx < Pow2(state.incrTreeDepth) && splitOffIdx <= |state.scratchSpaces|
    requires |state.scratchSpaces[splitOffIdx - 1]| > 0
    requires state.curIdx + |state.scratchSpaces[splitOffIdx - 1]| <= state.mergeIntoIdx
    modifies ops, state, state.incrArray
    ensures state.Valid()
    ensures left == old(state.mergeIntoIdx)
    ensures ScanOf(w.(numOps := left), ops, state) == LayOut(old(ScanOf(w, ops, state)), splitOffIdx)
    ensures Outside(ops[..], old(ops[..]), w.(numOps := left))
  {
    hide Pow2, Below, Counts;
    ghost var s := ScanOf(w, ops, state);
    ghost var before := ops[..];
    left := state.mergeIntoIdx;
    var st := state.scratchSpaces[splitOffIdx - 1];
    var m := |st| - 1;
    for i := 0 to m
      invariant state.mergeIntoIdx == left - i
      invariant state.curIdx == s.cur && state.Valid() && state.calls == s.calls
      invariant state.scratchSpaces == s.stacks && state.allPartitionsFullIncr == s.full
      invariant ops.Length == |before|
      invariant forall k :: 0 <= k < ops.Length ==>
        ops[k] == if w.opSeq + left - i <= k < w.opSeq + left then st[w.opSeq + left - 1 - k] else before[k]
    {
      state.mergeIntoIdx := state.mergeIntoIdx - 1;
      ops[w.opSeq + state.mergeIntoIdx] := st[i];
    }
    var back := st[m];
    var incrsToEnd := state.QryAndUpdPartitionIncr(splitOffIdx - 1);
    state.mergeIntoIdx := state.mergeIntoIdx - 1;
    var at := w.opSeq + state.mergeIntoIdx;
    ops[at] := ops[at].AddFull(state.allPartitionsFullIncr + incrsToEnd - back.full);
    state.scratchSpaces := state.scratchSpaces[splitOffIdx - 1 := []];
    assert Window(w.(numOps := left), ops) == LayOut(s, splitOffIdx).a;
  }

  // ---------------------------------------------------------------- the split

  /** Scans from right to left up to and including the boundary operation of part `splitOffIdx`;
      s is the state in which the boundary was found. */
  method ScanToBoundary(this_: ProjSequence, leftEnd: nat, rightStart: nat, splitOffIdx: nat,
                        ops: array<Op>, state: PartitionState, ghost nd: Node)
    returns (ghost s: Scan)
    requires splitOffIdx > 0 && Splitting(nd, splitOffIdx, this_, ops, state)
    requires leftEnd + 1 == rightStart == PartLo(nd, splitOffIdx)
    modifies ops, state, state.incrArray
    ensures StateFor(nd, state)
    ensures Inv(nd, splitOffIdx, s) && BoundaryOf(nd, splitOffIdx, s.cur)
    ensures 0 < s.cur <= s.merge < |s.a| && ScanOf(this_, ops, state) == Cross(s)
    ensures Outside(ops[..], old(ops[..]), this_)
  {
    hide Inv, WellFormed, Shows, PartLo, PartHi, Pow2, DivFactor, Below, BoundaryOf, Cross, Stay, Move,
      PartOf, Window, Counts, Outside;
    ghost var before := ops[..];
    s := ScanOf(this_, ops, state);
    OutsideReflexive(before, this_);
    ScanFacts(nd, splitOffIdx, s);
    while state.curIdx >= 0
      invariant Splitting(nd, splitOffIdx, this_, ops, state)
      invariant state.curIdx >= 0
      invariant Outside(ops[..], before, this_)
      decreases state.curIdx
    {
      s := ScanOf(this_, ops, state);
      ScanFacts(nd, splitOffIdx, s);
      ScannedOp(nd, splitOffIdx, s);
      ghost var ops0 := ops[..];
      var op := Get(this_, state.curIdx, ops);
      assert op.Prefix? ==> op.target >= leftEnd;
      if op.IsBoundaryOp(leftEnd) {
        CrossBoundary(this_, ops, state);
        OutsideTransitive(ops[..], ops0, before, this_);
        break;
      }
      if op.MoveToScratch(rightStart) {
        FindPart(nd, splitOffIdx, op.target);
        var partitionTarget := PartOf(op.target, this_.start, state.divFactor);
        MoveKeepsInv(nd, splitOffIdx, s, partitionTarget);
        MoveLeft(this_, partitionTarget, ops, state);
      } else {
        StayKeepsInv(nd, splitOffIdx, s);
        KeepRight(this_, rightStart, ops, state);
      }
      StepsAdvance(s, rightStart);
      OutsideTransitive(ops[..], ops0, before, this_);
      ScanFacts(nd, splitOffIdx, ScanOf(this_, ops, state));
    }
  }

  /** Splits part `splitOffIdx` off the right end of `this_`, in place: the window keeps the
      remaining operations left of the cut and the part's operations right of it. */
  method Partition(this_: ProjSequence, left0: ProjSequence, right0: ProjSequence, splitOffIdx: nat,
                   ops: array<Op>, state: PartitionState, ghost nd: Node)
    returns (left: ProjSequence, right: ProjSequence)
    requires splitOffIdx > 0 && Splitting(nd, splitOffIdx, this_, ops, state)
    requires left0.start == nd.lo && left0.end + 1 == right0.start == PartLo(nd, splitOffIdx)
    requires right0.end == this_.end
    modifies ops, state, state.incrArray
    ensures left == left0.(opSeq := this_.opSeq, numOps := left.numOps)
    ensures right == right0.(opSeq := this_.opSeq + left.numOps, numOps := right.numOps)
    ensures left.numOps + right.numOps == this_.numOps
    ensures Splitting(nd, splitOffIdx - 1, left, ops, state)
    ensures IsPart(nd, splitOffIdx, right, ops)
    ensures Outside(ops[..], old(ops[..]), this_)
  {
    hide Inv, WellFormed, Shows, PartLo, Pow2, DivFactor, Below, BoundaryOf, Crossed, Cross, LayOut,
      CutOff, Window, Counts, Outside;
    ghost var before := ops[..];
    ghost var s := ScanToBoundary(this_, left0.end, right0.start, splitOffIdx, ops, state, nd);
    CrossKeepsLeft(nd, splitOffIdx, s);
    CutOffIsSubproblem(nd, splitOffIdx, s);
    LayOutGivesInv(nd, splitOffIdx, Cross(s));
    ghost var ops1 := ops[..];
    WindowSlice(this_, ops);
    var leftOps := MergeScratch(this_, splitOffIdx, ops, state);
    left := left0.(opSeq := this_.opSeq, numOps := leftOps);
    right := right0.(opSeq := this_.opSeq + leftOps, numOps := this_.numOps - leftOps);
    RightWindowKept(this_, leftOps, ops[..], ops1);
    WindowSlice(left, ops);
    WindowSlice(this_.(numOps := leftOps), ops);
    WindowSlice(right, ops);
    OutsideTransitive(ops[..], ops1, before, this_);
    assert Window(right, ops) == CutOff(s);
  }

  lemma WindowSlice(w: ProjSequence, ops: array<Op>)
    requires InArray(w, ops)
    ensures Window(w, ops) == ops[..][w.opSeq..w.opSeq + w.numOps]
  {
  }

  /** Laying out the stack does not touch what is right of the cut. */
  lemma RightWindowKept(w: ProjSequence, leftOps: nat, a: seq<Op>, a1: seq<Op>)
    requires w.opSeq + w.numOps <= |a1| && leftOps <= w.numOps && Outside(a, a1, w.(numOps := leftOps))
    ensures Outside(a, a1, w)
    ensures a[w.opSeq + leftOps..w.opSeq + w.numOps] == a1[w.opSeq..w.opSeq + w.numOps][leftOps..]
  {
  }

  lemma StepsAdvance(s: Scan, rightStart: nat)
    requires InBounds(s)
    ensures Stay(s, rightStart).cur == s.cur - 1
    ensures forall p: nat :: p < |s.stacks| && |s.stacks[p]| > 0 ==> Move(s, p).cur == s.cur - 1
  {
  }
}
