/** The brute-force solution of a small subproblem. */
module BaseCase {
  import opened Operations
  import opened Subproblem
  import opened Tallying
  import opened Projection

  const IAF_BASE_CASE: nat := 256

  /** The partial increments given so far to the cells of a window; `full` has gone to all of them. */
  ghost predicate Distances(local: seq<int>, full: int, s: seq<Op>, lo: nat, hi: nat) {
    hi - lo < |local| && forall c :: 0 <= c <= hi - lo ==> local[c] + full == Total(s, lo + c)
  }

  /** local' is local with `INC` added to the cells from..to of lo..hi. */
  ghost predicate Incremented(local': seq<int>, local: seq<int>, from: int, to: int, lo: nat, hi: nat) {
    && |local'| == |local| && hi - lo < |local|
    && forall c :: 0 <= c <= hi - lo ==> local'[c] == local[c] + if from <= lo + c <= to then INC else 0
  }

  /** local' is local after the partial increments of op on the cells lo..hi. */
  ghost predicate AddsInc(local': seq<int>, local: seq<int>, op: Op, lo: nat, hi: nat) {
    && |local'| == |local| && hi - lo < |local|
    && forall c :: 0 <= c <= hi - lo ==> local'[c] == local[c] + op.IncAt(lo + c)
  }

  method Increment(local: array<int>, from: nat, to: nat, lo: nat, hi: nat)
    requires lo <= from && to <= hi && hi - lo < local.Length
    modifies local
    ensures Incremented(local[..], old(local[..]), from, to, lo, hi)
  {
    var j := from;
    while j <= to
      invariant from <= j
      invariant forall c :: 0 <= c <= hi - lo ==>
        local[c] == old(local[c]) + if from <= lo + c < j && lo + c <= to then INC else 0
    {
      local[j - lo] := local[j - lo] + INC;
      j := j + 1;
    }
  }

  lemma DistancesStep(local: seq<int>, local': seq<int>, full: int, s: seq<Op>, op: Op, lo: nat, hi: nat)
    requires Distances(local, full, s, lo, hi)
    requires AddsInc(local', local, op, lo, hi)
    ensures Distances(local', full + op.full, s + [op], lo, hi)
  {
    hide Total;
    forall c | 0 <= c <= hi - lo ensures local'[c] + (full + op.full) == Total(s + [op], lo + c) {
      TotalSnoc(s, op, lo + c);
      assert local'[c] == local[c] + op.IncAt(lo + c);
    }
  }

  lemma StartCounting(hits: seq<nat>, s: seq<Op>, local: seq<int>, lo: nat, hi: nat)
    requires hi - lo < |local| && forall k :: 0 <= k < |local| ==> local[k] == 0
    ensures Distances(local, 0, s[..0], lo, hi) && Counted(hits, hits, s[..0], lo, hi)
  {
    assert s[..0] == [];
  }

  lemma IncrementedIsOp(local: seq<int>, local': seq<int>, op: Op, from: int, to: int, lo: nat, hi: nat)
    requires op.Null? ==> local' == local && hi - lo < |local|
    requires !op.Null? ==> Incremented(local', local, from, to, lo, hi)
    requires op.Prefix? ==> from == lo && to == op.target
    requires op.Postfix? ==> from == op.target && to == hi
    ensures AddsInc(local', local, op, lo, hi)
  {
  }

  /** The value the program reads is the value the operations freeze. */
  lemma FrozenValue(local: seq<int>, local': seq<int>, full: int, s: seq<Op>, i: nat, lo: nat, hi: nat, n: nat)
    requires i < |s| && s[i].Postfix? && lo <= s[i].target <= hi
    requires Distances(local, full, s[..i], lo, hi)
    requires AddsInc(local', local, s[i], lo, hi)
    requires Fits(View(s, lo, hi), n)
    ensures local'[s[i].target - lo] + full == Total(s[..i], s[i].target) + INC
    ensures 0 < Total(s[..i], s[i].target) + INC < n
  {
    hide Total, View;
    EventPresent(s, i, lo, hi);
    var c := s[i].target - lo;
    assert local[c] + full == Total(s[..i], lo + c);
  }

  lemma CountedStep(hits: seq<nat>, hits0: seq<nat>, s: seq<Op>, i: nat, lo: nat, hi: nat)
    requires i < |s| && Counted(hits, hits0, s[..i], lo, hi)
    ensures !(s[i].Postfix? && lo <= s[i].target <= hi) ==> Counted(hits, hits0, s[..i + 1], lo, hi)
    ensures s[i].Postfix? && lo <= s[i].target <= hi ==>
              var hit := Total(s[..i], s[i].target) + INC;
              0 <= hit < |hits| ==> Counted(hits[hit := hits[hit] + 1], hits0, s[..i + 1], lo, hi)
  {
    hide Total, View, Tally;
    var t := s[..i + 1];
    assert t[..|t| - 1] == s[..i] && t[|t| - 1] == s[i];
    forall d: int ensures Tally(View(t, lo, hi), d) == Tally(View(s[..i], lo, hi), d)
        + if s[i].Postfix? && lo <= s[i].target <= hi && Total(s[..i], s[i].target) + INC == d then 1 else 0
    {
      TallyOfPrefix(t, lo, hi, d);
    }
  }

  /** Runs the operations of the window one by one on real cells and counts every frozen value. */
  method DoBaseCase(hits0: seq<nat>, cur: ProjSequence, ops: array<Op>) returns (hits: seq<nat>)
    requires InArray(cur, ops) && WellFormed(Window(cur, ops), cur.start, cur.end)
    requires 0 < cur.start && cur.end - cur.start < IAF_BASE_CASE
    requires Fits(View(Window(cur, ops), cur.start, cur.end), |hits0|)
    ensures Counted(hits, hits0, Window(cur, ops), cur.start, cur.end)
  {
    hide Good, View, Total, Window, Tally, Distances, Incremented, Counted, Fits, AddsInc;
    ghost var s := Window(cur, ops);
    ghost var lo, hi := cur.start, cur.end;
    var fullAmnt: int := 0;
    var localDistances := new int[IAF_BASE_CASE](_ => 0);
    hits := hits0;
    StartCounting(hits0, s, localDistances[..], lo, hi);
    CountedSize(hits, hits0, s[..0], lo, hi);
    for i := 0 to cur.numOps
      invariant Window(cur, ops) == s
      invariant Distances(localDistances[..], fullAmnt, s[..i], lo, hi)
      invariant Counted(hits, hits0, s[..i], lo, hi) && |hits| == |hits0|
    {
      var op := Get(cur, i, ops);
      ghost var before := localDistances[..];
      assert s[..i + 1] == s[..i] + [op];
      CountedStep(hits, hits0, s, i, lo, hi);
      if op.Prefix? {
        Increment(localDistances, cur.start, op.target, cur.start, cur.end);
        IncrementedIsOp(before, localDistances[..], op, lo, op.target, lo, hi);
      } else if op.Postfix? {
        var from := if op.target < cur.start then cur.start else op.target;
        Increment(localDistances, from, cur.end, cur.start, cur.end);
        IncrementedIsOp(before, localDistances[..], op, from, hi, lo, hi);
        // freeze the target
        if op.target != 0 {
          FrozenValue(before, localDistances[..], fullAmnt, s, i, lo, hi, |hits|);
          var hit := localDistances[op.target - cur.start] + fullAmnt;
          assert hit > 0;
          assert hit < |hits|;
          hits := hits[hit := hits[hit] + 1];
        }
      } else {
        IncrementedIsOp(before, localDistances[..], op, lo, hi, lo, hi);
      }
      DistancesStep(before, localDistances[..], fullAmnt, s[..i], op, lo, hi);
      fullAmnt := fullAmnt + op.full;
    }
    assert s[..cur.numOps] == s;
  }

  lemma CountedSize(hits: seq<nat>, hits0: seq<nat>, s: seq<Op>, lo: nat, hi: nat)
    requires Counted(hits, hits0, s, lo, hi)
    ensures |hits| == |hits0|
  {
  }
}
