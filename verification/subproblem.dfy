/** The shape every subproblem of the recursion has, and what follows from it. */
module Subproblem {
  import opened Operations

  // ---------------------------------------------------------------- shape of a view

  /** May y follow x?  A Mark comes after everything with a smaller target and nothing else;
      no cell is frozen twice. */
  ghost predicate After(x: Event, y: Event) {
    if y.Mark? then x.target < y.target else x.Freeze? ==> x.target != y.target
  }

  ghost predicate Ordered(v: seq<Event>) {
    forall i, k :: 0 <= i < k < |v| ==> After(v[i], v[k])
  }

  /** What comes before a Mark adds nothing to the cells right of its target. */
  ghost predicate NetZero(v: seq<Event>) {
    forall k :: 0 <= k < |v| ==> v[k].Mark? ==> v[k].value == 0
  }

  ghost predicate Complete(v: seq<Event>, lo: nat, hi: nat) {
    forall b :: lo <= b < hi ==> Mark(b, 0) in v
  }

  ghost predicate Good(v: seq<Event>, lo: nat, hi: nat) {
    Ordered(v) && NetZero(v) && Complete(v, lo, hi)
  }

  ghost predicate AllVisible(s: seq<Op>, lo: nat, hi: nat) {
    forall k :: 0 <= k < |s| ==> s[k].Null? || Visible(s[k], lo, hi)
  }

  /** A subproblem on the cells lo..hi: one leading Null operation, then only Prefixes with
      targets in lo..hi-1 and Postfixes with targets in lo..hi, in good order. */
  ghost predicate WellFormed(s: seq<Op>, lo: nat, hi: nat) {
    && lo <= hi
    && |s| > 0 && s[0].Null?
    && (forall k :: 0 < k < |s| ==> Visible(s[k], lo, hi))
    && Good(View(s, lo, hi), lo, hi)
  }

  // ---------------------------------------------------------------- views and indices

  lemma {:induction false} EventPresent(s: seq<Op>, k: nat, lo: nat, hi: nat)
    requires k < |s| && Visible(s[k], lo, hi)
    ensures EventOf(s[..k], s[k], hi) in View(s, lo, hi)
  {
    hide Total;
    var before := s[..|s| - 1];
    if k == |before| {
      assert s[..k] == before;
    } else {
      assert before[..k] == s[..k];
      EventPresent(before, k, lo, hi);
    }
  }

  lemma {:induction false} EventOrigin(s: seq<Op>, e: Event, lo: nat, hi: nat) returns (k: nat)
    requires e in View(s, lo, hi)
    ensures k < |s| && Visible(s[k], lo, hi) && EventOf(s[..k], s[k], hi) == e
  {
    hide Total;
    var before := s[..|s| - 1];
    if e in View(before, lo, hi) {
      k := EventOrigin(before, e, lo, hi);
      assert before[..k] == s[..k];
    } else {
      k := |s| - 1;
    }
  }

  lemma OrderedPrefix(v: seq<Event>, w: seq<Event>)
    requires Ordered(v + w)
    ensures Ordered(v)
    ensures forall e, f :: e in v && f in w ==> After(e, f)
  {
    forall i, k | 0 <= i < k < |v| ensures After(v[i], v[k]) {
      assert (v + w)[i] == v[i] && (v + w)[k] == v[k];
    }
    forall e, f | e in v && f in w ensures After(e, f) {
      var i :| 0 <= i < |v| && v[i] == e;
      var k :| 0 <= k < |w| && w[k] == f;
      assert (v + w)[i] == e && (v + w)[|v| + k] == f;
    }
  }

  lemma ViewOfPrefix(s: seq<Op>, lo: nat, hi: nat)
    requires s != []
    ensures View(s, lo, hi) == View(s[..|s| - 1], lo, hi)
                               + if Visible(s[|s| - 1], lo, hi) then [EventOf(s[..|s| - 1], s[|s| - 1], hi)] else []
  {
  }

  /** Order of the view, read off the operations. */
  lemma {:induction false} OrderOfOps(s: seq<Op>, i: nat, k: nat, lo: nat, hi: nat)
    requires i < k < |s| && Visible(s[i], lo, hi) && Visible(s[k], lo, hi)
    requires Ordered(View(s, lo, hi))
    ensures s[k].Prefix? ==> s[i].target < s[k].target
    ensures s[k].Postfix? && s[i].Postfix? ==> s[i].target != s[k].target
  {
    hide View, Total, Ordered;
    var before, op := s[..|s| - 1], s[|s| - 1];
    ViewOfPrefix(s, lo, hi);
    OrderedPrefix(View(before, lo, hi), if Visible(op, lo, hi) then [EventOf(before, op, hi)] else []);
    if k == |before| {
      EventPresent(before, i, lo, hi);
      assert EventOf(before[..i], before[i], hi) in View(before, lo, hi);
      assert EventOf(before, op, hi) in [EventOf(before, op, hi)];
    } else {
      OrderOfOps(before, i, k, lo, hi);
    }
  }

  lemma NetZeroOfOps(s: seq<Op>, k: nat, lo: nat, hi: nat)
    requires k < |s| && s[k].Prefix? && Visible(s[k], lo, hi)
    requires NetZero(View(s, lo, hi))
    ensures Total(s[..k], hi) == 0
  {
    hide View, Total;
    EventPresent(s, k, lo, hi);
  }

  // ---------------------------------------------------------------- cells right of all targets

  ghost predicate TargetsBelow(s: seq<Op>, b: nat) {
    forall k :: 0 <= k < |s| ==> s[k].Null? || s[k].target < b
  }

  /** All cells from b on receive the same. */
  lemma {:induction false} TotalFlat(s: seq<Op>, b: nat, j: nat, j': nat)
    requires TargetsBelow(s, b) && b <= j && b <= j'
    ensures Total(s, j) == Total(s, j')
  {
    if s != [] {
      TotalFlat(s[..|s| - 1], b, j, j');
    }
  }

  lemma {:induction false} NothingVisible(s: seq<Op>, b: nat, lo: nat, hi: nat)
    requires TargetsBelow(s, b) && b <= lo
    ensures View(s, lo, hi) == []
  {
    hide Total;
    if s != [] {
      NothingVisible(s[..|s| - 1], b, lo, hi);
    }
  }

  // ---------------------------------------------------------------- the boundary operation

  /** k is the index of Prefix(b), everything before it has a smaller target and adds nothing
      to the cells right of b. */
  ghost predicate IsBoundary(s: seq<Op>, k: nat, b: nat, hi: nat) {
    && 0 < k < |s|
    && s[k].IsBoundaryOp(b)
    && TargetsBelow(s[..k], b)
    && (forall j :: b < j <= hi ==> Total(s[..k], j) == 0)
    && (forall m :: k < m < |s| && s[m].Prefix? ==> b < s[m].target)
  }

  lemma BoundaryExists(s: seq<Op>, b: nat, lo: nat, hi: nat) returns (k: nat)
    requires WellFormed(s, lo, hi) && lo <= b < hi
    ensures IsBoundary(s, k, b, hi)
  {
    hide View, Total, Ordered;
    k := EventOrigin(s, Mark(b, 0), lo, hi);
    forall m | 0 <= m < k ensures s[..k][m].Null? || s[..k][m].target < b {
      if m > 0 { OrderOfOps(s, m, k, lo, hi); }
    }
    forall m | k < m < |s| && s[m].Prefix? ensures b < s[m].target {
      OrderOfOps(s, k, m, lo, hi);
    }
    NetZeroOfOps(s, k, lo, hi);
    forall j | b < j <= hi ensures Total(s[..k], j) == 0 {
      TotalFlat(s[..k], b, j, hi);
    }
  }

  // ---------------------------------------------------------------- subranges

  ghost predicate Within(e: Event, lo: nat, hi: nat) {
    lo <= e.target && if e.Mark? then e.target < hi else e.target <= hi
  }

  ghost function Restrict(v: seq<Event>, lo: nat, hi: nat): seq<Event> {
    if v == [] then []
    else Restrict(v[..|v| - 1], lo, hi) + if Within(v[|v| - 1], lo, hi) then [v[|v| - 1]] else []
  }

  lemma RestrictSnoc(v: seq<Event>, e: Event, lo: nat, hi: nat)
    ensures Restrict(v + [e], lo, hi) == Restrict(v, lo, hi) + if Within(e, lo, hi) then [e] else []
  {
    assert (v + [e])[..|v|] == v;
  }

  lemma {:induction false} RestrictMembers(v: seq<Event>, e: Event, lo: nat, hi: nat)
    ensures e in Restrict(v, lo, hi) <==> e in v && Within(e, lo, hi)
  {
    if v != [] {
      RestrictMembers(v[..|v| - 1], e, lo, hi);
      assert v == v[..|v| - 1] + [v[|v| - 1]];
    }
  }

  lemma OrderedSnoc(v: seq<Event>, e: Event)
    requires Ordered(v) && forall x :: x in v ==> After(x, e)
    ensures Ordered(v + [e])
  {
  }

  lemma {:induction false} RestrictOrdered(v: seq<Event>, lo: nat, hi: nat)
    requires Ordered(v)
    ensures Ordered(Restrict(v, lo, hi))
  {
    hide Ordered, After, Within;
    if v != [] {
      var v', e := v[..|v| - 1], v[|v| - 1];
      assert v == v' + [e];
      OrderedPrefix(v', [e]);
      RestrictOrdered(v', lo, hi);
      if Within(e, lo, hi) {
        forall x | x in Restrict(v', lo, hi) ensures After(x, e) {
          RestrictMembers(v', x, lo, hi);
          assert e in [e];
        }
        OrderedSnoc(Restrict(v', lo, hi), e);
      } else {
        assert Restrict(v, lo, hi) == Restrict(v', lo, hi);
      }
    } else {
      assert Restrict(v, lo, hi) == v;
    }
  }

  lemma RestrictGood(v: seq<Event>, lo: nat, hi: nat, lo': nat, hi': nat)
    requires Good(v, lo, hi) && lo <= lo' <= hi' <= hi
    ensures Good(Restrict(v, lo', hi'), lo', hi')
  {
    hide Restrict, Ordered;
    RestrictOrdered(v, lo', hi');
    var r := Restrict(v, lo', hi');
    forall k | 0 <= k < |r| ensures r[k].Mark? ==> r[k].value == 0 {
      RestrictMembers(v, r[k], lo', hi');
    }
    forall b | lo' <= b < hi' ensures Mark(b, 0) in r {
      RestrictMembers(v, Mark(b, 0), lo', hi');
    }
  }

  lemma TargetsBelowOfView(s: seq<Op>, b: nat, lo: nat, hi: nat)
    requires AllVisible(s, lo, hi) && forall e :: e in View(s, lo, hi) ==> e.target < b
    ensures TargetsBelow(s, b)
  {
    hide View, Total;
    forall k | 0 <= k < |s| ensures s[k].Null? || s[k].target < b {
      if !s[k].Null? { EventPresent(s, k, lo, hi); }
    }
  }

  /** The view of a subrange is the part of the view that speaks about it. */
  lemma {:induction false} ViewOfSubrange(s: seq<Op>, lo: nat, hi: nat, lo': nat, hi': nat)
    requires lo <= lo' <= hi' <= hi && AllVisible(s, lo, hi)
    requires Ordered(View(s, lo, hi)) && NetZero(View(s, lo, hi))
    ensures View(s, lo', hi') == Restrict(View(s, lo, hi), lo', hi')
  {
    hide View, Total, Ordered, NetZero, After, Restrict;
    if s != [] {
      var before, op := s[..|s| - 1], s[|s| - 1];
      var v := View(before, lo, hi);
      ViewOfPrefix(s, lo, hi);
      ViewOfPrefix(s, lo', hi');
      if Visible(op, lo, hi) {
        var e := EventOf(before, op, hi);
        OrderedPrefix(v, [e]);
        NetZeroPrefix(v, [e]);
        ViewOfSubrange(before, lo, hi, lo', hi');
        RestrictSnoc(v, e, lo', hi');
        if op.Prefix? && Visible(op, lo', hi') {
          assert e in [e];
          MarkSeesSame(before, op.target, lo, hi, e);
          TotalFlat(before, op.target, hi, hi');
        }
      } else {
        assert View(s, lo, hi) == v && View(s, lo', hi') == View(before, lo', hi');
        ViewOfSubrange(before, lo, hi, lo', hi');
      }
    } else {
      NoView(s, lo, hi, lo', hi');
    }
  }

  lemma NoView(s: seq<Op>, lo: nat, hi: nat, lo': nat, hi': nat)
    requires s == []
    ensures View(s, lo', hi') == Restrict(View(s, lo, hi), lo', hi')
  {
  }

  lemma NetZeroPrefix(v: seq<Event>, w: seq<Event>)
    requires NetZero(v + w)
    ensures NetZero(v)
  {
    forall k | 0 <= k < |v| ensures v[k].Mark? ==> v[k].value == 0 {
      assert (v + w)[k] == v[k];
    }
  }

  lemma MarkSeesSame(before: seq<Op>, b: nat, lo: nat, hi: nat, e: Event)
    requires AllVisible(before, lo, hi)
    requires e.Mark? && e.target == b && forall x :: x in View(before, lo, hi) ==> After(x, e)
    ensures TargetsBelow(before, b)
  {
    TargetsBelowOfView(before, b, lo, hi);
  }

  /** So a subrange of a subproblem is again in good order. */
  lemma SubrangeGood(s: seq<Op>, lo: nat, hi: nat, lo': nat, hi': nat)
    requires WellFormed(s, lo, hi) && lo <= lo' <= hi' <= hi
    ensures Good(View(s, lo', hi'), lo', hi')
  {
    hide View, Total, Ordered, NetZero;
    ViewOfSubrange(s, lo, hi, lo', hi');
    RestrictGood(View(s, lo, hi), lo, hi, lo', hi');
  }

  // ---------------------------------------------------------------- number of operations

  lemma {:induction false} Pigeonhole(keys: seq<nat>, n: nat)
    requires forall i :: 0 <= i < |keys| ==> keys[i] < n
    requires forall i, k :: 0 <= i < k < |keys| ==> keys[i] != keys[k]
    ensures |keys| <= n
  {
    if keys == [] {
      return;
    }
    assert keys[0] < n;
    if n - 1 in keys {
      var p :| 0 <= p < |keys| && keys[p] == n - 1;
      Pigeonhole(keys[..p] + keys[p + 1..], n - 1);
    } else {
      Pigeonhole(keys, n - 1);
    }
  }

  ghost function Key(op: Op, lo: nat): nat
    requires !op.Null? && lo <= op.target
  {
    2 * (op.target - lo) + if op.Prefix? then 1 else 0
  }

  /** A subproblem never holds more than two operations a cell. */
  lemma NumOpsBound(s: seq<Op>, lo: nat, hi: nat)
    requires WellFormed(s, lo, hi)
    ensures |s| <= 2 * (hi - lo + 1)
  {
    hide View, Total, Ordered;
    var keys := seq(|s| - 1, k requires 0 <= k < |s| - 1 => Key(s[k + 1], lo));
    forall i, k | 0 <= i < k < |keys| ensures keys[i] != keys[k] {
      OrderOfOps(s, i + 1, k + 1, lo, hi);
      if s[i + 1].Prefix? != s[k + 1].Prefix? {
        assert keys[i] % 2 != keys[k] % 2;
      }
    }
    Pigeonhole(keys, 2 * (hi - lo) + 1);
  }
}
