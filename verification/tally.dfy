/** Counting frozen values: what a split conserves. */
module Tallying {
  import opened Operations
  import opened Subproblem

  /** Number of freezes with value d. */
  ghost function Tally(v: seq<Event>, d: int): nat {
    if v == [] then 0
    else
      var e := v[|v| - 1];
      Tally(v[..|v| - 1], d) + if e.Freeze? && e.value == d then 1 else 0
  }

  lemma TallySnoc(v: seq<Event>, e: Event, d: int)
    ensures Tally(v + [e], d) == Tally(v, d) + if e.Freeze? && e.value == d then 1 else 0
  {
    assert (v + [e])[..|v|] == v;
  }

  /** All frozen values are positive and below n. */
  ghost predicate Fits(v: seq<Event>, n: nat) {
    forall e :: e in v ==> e.Freeze? ==> 0 < e.value < n
  }

  /** Freezes seen on a subrange are seen on the whole range, with the same value. */
  lemma FreezesOfSubrange(s: seq<Op>, lo: nat, hi: nat, lo': nat, hi': nat, n: nat)
    requires lo <= lo' <= hi' <= hi && Fits(View(s, lo, hi), n)
    ensures Fits(View(s, lo', hi'), n)
  {
    hide View, Total;
    forall e | e in View(s, lo', hi') && e.Freeze? ensures 0 < e.value < n {
      var k := EventOrigin(s, e, lo', hi');
      EventPresent(s, k, lo, hi);
    }
  }

  lemma TallyOfPrefix(s: seq<Op>, lo: nat, hi: nat, d: int)
    requires s != []
    ensures var before, op := s[..|s| - 1], s[|s| - 1];
            Tally(View(s, lo, hi), d) == Tally(View(before, lo, hi), d)
            + if op.Postfix? && lo <= op.target <= hi && Total(before, op.target) + INC == d then 1 else 0
  {
    hide View, Total, Tally;
    var before, op := s[..|s| - 1], s[|s| - 1];
    ViewOfPrefix(s, lo, hi);
    if Visible(op, lo, hi) {
      TallySnoc(View(before, lo, hi), EventOf(before, op, hi), d);
    } else {
      assert View(s, lo, hi) == View(before, lo, hi);
    }
  }

  /** Every freeze of lo..hi is a freeze of exactly one of lo..mid and mid+1..hi. */
  lemma {:induction false} TallySplit(s: seq<Op>, lo: nat, mid: nat, hi: nat, d: int)
    requires lo <= mid < hi
    ensures Tally(View(s, lo, hi), d) == Tally(View(s, lo, mid), d) + Tally(View(s, mid + 1, hi), d)
  {
    hide View, Total, Tally;
    if s == [] {
      EmptyTally(s, lo, hi, d);
      EmptyTally(s, lo, mid, d);
      EmptyTally(s, mid + 1, hi, d);
    } else {
      TallySplit(s[..|s| - 1], lo, mid, hi, d);
      TallyOfPrefix(s, lo, hi, d);
      TallyOfPrefix(s, lo, mid, d);
      TallyOfPrefix(s, mid + 1, hi, d);
    }
  }

  lemma EmptyTally(s: seq<Op>, lo: nat, hi: nat, d: int)
    requires s == []
    ensures Tally(View(s, lo, hi), d) == 0
  {
  }

  /** hits' is hits with every freeze seen on lo..hi counted. */
  ghost predicate Counted(hits': seq<nat>, hits: seq<nat>, s: seq<Op>, lo: nat, hi: nat) {
    |hits'| == |hits| && forall d :: 0 <= d < |hits| ==> hits'[d] == hits[d] + Tally(View(s, lo, hi), d)
  }
}
