/** The operations a trace is encoded by, and what they freeze. */
module Encoding {
  import opened Lru
  import opened Operations
  import opened Subproblem
  import opened Tallying

  /** The earlier request for the same id as request k (from 1), or 0. */
  function Previous(tr: Trace, k: nat): (p: nat)
    requires 0 < k <= |tr|
    ensures p < k
    ensures p > 0 ==> tr[p - 1] == tr[k - 1]
  {
    LastAccess(tr, k - 1, tr[k - 1])
  }

  /** The operations of request k: a re-access freezes the cell of the previous access. */
  ghost function OpsOf(tr: Trace, k: nat): seq<Op>
    requires 0 < k <= |tr|
  {
    var p := Previous(tr, k);
    if p > 0 then [MakePrefix(k - 1, -1), Postfix(p, 0)] else [MakePrefix(k - 1, 0)]
  }

  ghost function Encode(tr: Trace, n: nat): seq<Op>
    requires n <= |tr|
  {
    if n == 0 then [] else Encode(tr, n - 1) + OpsOf(tr, n)
  }

  // ---------------------------------------------------------------- values of the cells

  lemma TotalOfRequest(tr: Trace, n: nat, j: nat)
    requires 0 < n <= |tr|
    ensures Total(Encode(tr, n), j) == Total(Encode(tr, n - 1), j)
            + (if n > 1 && j <= n - 1 then 1 else 0)
            + if Previous(tr, n) > 0 && Previous(tr, n) > j then -1 else 0
  {
    hide Total;
    var before, p := Encode(tr, n - 1), Previous(tr, n);
    if p > 0 {
      var pre := MakePrefix(n - 1, -1);
      assert Encode(tr, n) == before + [pre] + [Postfix(p, 0)];
      TotalSnoc(before, pre, j);
      TotalSnoc(before + [pre], Postfix(p, 0), j);
    } else {
      TotalSnoc(before, MakePrefix(n - 1, 0), j);
    }
  }

  /** The first n requests add nothing to the cells from n on. */
  lemma {:induction false} LaterCellsUntouched(tr: Trace, n: nat, j: nat)
    requires n <= |tr| && n <= j
    ensures Total(Encode(tr, n), j) == 0
  {
    if n > 0 {
      LaterCellsUntouched(tr, n - 1, j);
      TotalOfRequest(tr, n, j);
    }
  }

  /** Cell p counts the distinct ids requested since request p. */
  lemma {:induction false} CellCountsWindow(tr: Trace, p: nat, n: nat)
    requires 0 < p <= n <= |tr|
    ensures Total(Encode(tr, n), p) == Lru.Window(tr, p, n)
  {
    hide Total, Encode;
    if n == p {
      LaterCellsUntouched(tr, n, p);
    } else {
      CellCountsWindow(tr, p, n - 1);
      TotalOfRequest(tr, n, p);
    }
  }

  /** A re-access freezes its LRU depth. */
  lemma FrozenIsDepth(tr: Trace, n: nat)
    requires 0 < n <= |tr| && Previous(tr, n) > 0
    ensures Total(Encode(tr, n - 1) + [MakePrefix(n - 1, -1)], Previous(tr, n)) + INC == Depth(tr, n - 1, tr[n - 1])
  {
    hide Total, Encode, Depth;
    var p := Previous(tr, n);
    TotalSnoc(Encode(tr, n - 1), MakePrefix(n - 1, -1), p);
    CellCountsWindow(tr, p, n - 1);
    DepthIsWindow(tr, n - 1, tr[n - 1]);
  }

  /** The frozen value counts the distinct ids requested after the previous access, up to this one. */
  lemma FrozenCountsDistinctIds(tr: Trace, n: nat)
    requires 0 < n <= |tr| && Previous(tr, n) > 0
    ensures Total(Encode(tr, n - 1) + [MakePrefix(n - 1, -1)], Previous(tr, n)) + INC
            == |Elements(tr[Previous(tr, n)..n])|
  {
    hide Total, Encode, Depth, Elements;
    var p := Previous(tr, n);
    FrozenIsDepth(tr, n);
    DepthIsWindow(tr, n - 1, tr[n - 1]);
    WindowCountsDistinctIds(tr, p, n);
  }

  // ---------------------------------------------------------------- the view of the encoding

  /** What request n > 1 adds to the view of the cells 1..hi. */
  ghost function EventsOf(tr: Trace, n: nat): seq<Event>
    requires 1 < n <= |tr|
  {
    [Mark(n - 1, 0)] + if Previous(tr, n) > 0 then [Freeze(Previous(tr, n), Depth(tr, n - 1, tr[n - 1]))] else []
  }

  lemma EncodeStep(tr: Trace, n: nat)
    requires 0 < n <= |tr|
    ensures var p := Previous(tr, n);
            Encode(tr, n) == if p > 0 then Encode(tr, n - 1) + [MakePrefix(n - 1, -1)] + [Postfix(p, 0)]
                             else Encode(tr, n - 1) + [MakePrefix(n - 1, 0)]
  {
    hide MakePrefix, Previous;
  }

  lemma ViewOfRequest(tr: Trace, n: nat, hi: nat)
    requires 1 < n <= |tr| && n <= hi
    ensures View(Encode(tr, n), 1, hi) == View(Encode(tr, n - 1), 1, hi) + EventsOf(tr, n)
  {
    hide Total, View, Depth, Encode, Previous;
    var before, p := Encode(tr, n - 1), Previous(tr, n);
    LaterCellsUntouched(tr, n - 1, hi);
    EncodeStep(tr, n);
    if p > 0 {
      var pre := Prefix(n - 1, -1);
      ViewSnoc(before, pre, 1, hi);
      ViewSnoc(before + [pre], Postfix(p, 0), 1, hi);
      FrozenIsDepth(tr, n);
    } else {
      ViewSnoc(before, Prefix(n - 1, 0), 1, hi);
    }
  }

  lemma EncodeNone(tr: Trace)
    ensures Encode(tr, 0) == []
  {
  }

  lemma ViewOfFirst(tr: Trace, hi: nat)
    requires 0 < |tr|
    ensures Encode(tr, 1) == [Null(0)] && View(Encode(tr, 1), 1, hi) == []
  {
    hide View, Total, Encode;
    EncodeNone(tr);
    EncodeStep(tr, 1);
    ViewSnoc([], Null(0), 1, hi);
    EmptyView(hi);
    assert [] + [Null(0)] == [Null(0)];
  }

  lemma EmptyView(hi: nat)
    ensures View([], 1, hi) == []
  {
  }

  /** Every event concerns an earlier request; a frozen cell's id has been requested again. */
  ghost predicate Past(e: Event, tr: Trace, n: nat)
    requires n <= |tr|
  {
    && 0 < e.target < n
    && (e.Freeze? ==> LastAccess(tr, n, tr[e.target - 1]) > e.target)
  }

  lemma PastGrows(e: Event, tr: Trace, n: nat)
    requires 0 < n <= |tr| && Past(e, tr, n - 1)
    ensures Past(e, tr, n)
    ensures After(e, Mark(n - 1, 0))
    ensures Previous(tr, n) > 0 ==> After(e, Freeze(Previous(tr, n), Depth(tr, n - 1, tr[n - 1])))
  {
    hide Depth;
  }

  lemma {:induction false} EncodedView(tr: Trace, n: nat, hi: nat)
    requires 0 < n <= |tr| && n <= hi
    ensures var v := View(Encode(tr, n), 1, hi);
            && Ordered(v) && NetZero(v) && Complete(v, 1, n)
            && forall e :: e in v ==> Past(e, tr, n)
  {
    hide Encode, View, Depth, Ordered, After, LastAccess, Previous;
    if n == 1 {
      ViewOfFirst(tr, hi);
      NoEvents(tr, 1);
    } else {
      EncodedView(tr, n - 1, hi);
      ViewOfRequest(tr, n, hi);
      var v := View(Encode(tr, n - 1), 1, hi);
      ExtendView(tr, n, v);
    }
  }

  lemma NoEvents(tr: Trace, n: nat)
    requires n <= |tr|
    ensures Ordered([]) && NetZero([]) && Complete([], 1, 1) && forall e: Event :: e in [] ==> Past(e, tr, n)
  {
  }

  lemma ExtendView(tr: Trace, n: nat, v: seq<Event>)
    requires 1 < n <= |tr|
    requires Ordered(v) && NetZero(v) && Complete(v, 1, n - 1) && forall e :: e in v ==> Past(e, tr, n - 1)
    ensures var v' := v + EventsOf(tr, n);
            && Ordered(v') && NetZero(v') && Complete(v', 1, n)
            && forall e :: e in v' ==> Past(e, tr, n)
  {
    hide Depth, Ordered, After, Past;
    var p := Previous(tr, n);
    var m := Mark(n - 1, 0);
    forall e | e in v ensures After(e, m) && Past(e, tr, n) { PastGrows(e, tr, n); }
    OrderedSnoc(v, m);
    NewMarkIsPast(tr, n);
    assert v + [m] == v + EventsOf(tr, n) || p > 0;
    if p > 0 {
      var f := Freeze(p, Depth(tr, n - 1, tr[n - 1]));
      forall e | e in v + [m] ensures After(e, f) {
        if e in v { PastGrows(e, tr, n); } else { MarkThenFreeze(m, f); }
      }
      OrderedSnoc(v + [m], f);
      assert v + EventsOf(tr, n) == v + [m] + [f];
      NewFreezeIsPast(tr, n, f);
    }
  }

  lemma MarkThenFreeze(m: Event, f: Event)
    requires m.Mark? && f.Freeze?
    ensures After(m, f)
  {
  }

  lemma NewMarkIsPast(tr: Trace, n: nat)
    requires 1 < n <= |tr|
    ensures Past(Mark(n - 1, 0), tr, n)
  {
  }

  lemma NewFreezeIsPast(tr: Trace, n: nat, f: Event)
    requires 1 < n <= |tr| && f.Freeze? && f.target == Previous(tr, n) > 0
    ensures Past(f, tr, n)
  {
    assert LastAccess(tr, n, tr[n - 1]) == n;
  }

  lemma {:induction false} EncodedShape(tr: Trace, n: nat)
    requires 0 < n <= |tr|
    ensures |Encode(tr, n)| > 0 && Encode(tr, n)[0] == Null(0)
    ensures forall k :: 0 < k < |Encode(tr, n)| ==> Visible(Encode(tr, n)[k], 1, n)
  {
    if n == 1 {
      ViewOfFirst(tr, 1);
    } else {
      EncodedShape(tr, n - 1);
    }
  }

  /** The encoding of a trace is a subproblem on the cells 1..n. */
  lemma EncodingIsWellFormed(tr: Trace)
    requires tr != []
    ensures WellFormed(Encode(tr, |tr|), 1, |tr|)
  {
    hide Encode, View, Ordered, NetZero;
    EncodedShape(tr, |tr|);
    EncodedView(tr, |tr|, |tr|);
  }

  /** The operations built for a trace: a single Null operation if there are no requests. */
  ghost function OperationsOf(tr: Trace): seq<Op> {
    if tr == [] then [Null(0)] else Encode(tr, |tr|)
  }

  /** They are a subproblem on 1..n exactly when there are requests: the range (1, 0) is not one. */
  lemma SolvableIffNonEmpty(tr: Trace)
    ensures WellFormed(OperationsOf(tr), 1, |tr|) <==> tr != []
  {
    if tr != [] { EncodingIsWellFormed(tr); }
  }

  /** The frozen values are exactly the depths of the repeated ids. */
  lemma {:induction false} TallyIsDepthCount(tr: Trace, n: nat, hi: nat, d: nat)
    requires 0 < n <= |tr| && n <= hi && d > 0
    ensures Tally(View(Encode(tr, n), 1, hi), d) == DepthCount(tr, n, d)
  {
    hide Encode, View, Depth, Tally;
    DepthBounds(tr, n - 1, tr[n - 1]);
    if n == 1 {
      ViewOfFirst(tr, hi);
      EmptyTallyView(d);
      FirstDepth(tr, d);
    } else {
      TallyIsDepthCount(tr, n - 1, hi, d);
      ViewOfRequest(tr, n, hi);
      var v, m := View(Encode(tr, n - 1), 1, hi), Mark(n - 1, 0);
      TallySnoc(v, m, d);
      if Previous(tr, n) > 0 {
        var f := Freeze(Previous(tr, n), Depth(tr, n - 1, tr[n - 1]));
        TallySnoc(v + [m], f, d);
        assert v + EventsOf(tr, n) == v + [m] + [f];
      } else {
        assert v + EventsOf(tr, n) == v + [m];
      }
    }
  }

  lemma EmptyTallyView(d: int)
    ensures Tally([], d) == 0
  {
  }

  lemma FirstDepth(tr: Trace, d: nat)
    requires 0 < |tr| && d > 0 && Depth(tr, 0, tr[0]) == 0
    ensures DepthCount(tr, 1, d) == 0
  {
    hide Depth;
    assert DepthCount(tr, 0, d) == 0;
  }

  /** Frozen values are positive and never exceed the number of distinct ids. */
  lemma {:induction false} FrozenValuesFit(tr: Trace, n: nat, hi: nat)
    requires 0 < n <= |tr| && n <= hi
    ensures Fits(View(Encode(tr, n), 1, hi), DistinctIds(tr, n) + 1)
  {
    hide Encode, View, Depth, DistinctIds;
    if n == 1 {
      ViewOfFirst(tr, hi);
    } else {
      FrozenValuesFit(tr, n - 1, hi);
      ViewOfRequest(tr, n, hi);
      DistinctIdsGrow(tr, n - 1, n);
      DepthBounds(tr, n - 1, tr[n - 1]);
    }
  }
}
