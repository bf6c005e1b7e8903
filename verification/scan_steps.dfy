/** What one step of the scan does to the state, and that every step keeps the invariant. */
module ScanSteps {
  import opened Operations
  import opened Subproblem
  import opened Partitioning
  import opened Scanning

  // ---------------------------------------------------------------- the steps

  /** The operation stays in part r: it moves to the merge index and takes along what was merged there. */
  ghost function Stay(s: Scan, rightStart: nat): Scan
    requires 0 <= s.cur <= s.merge < |s.a|
  {
    var op := s.a[s.cur];
    s.(a := if s.merge == s.cur then s.a
            else s.a[s.merge := op.AddFull(s.a[s.merge].full)][s.cur := Null(0)],
       full := s.full + op.FullIncrToLeft(rightStart),
       cur := s.cur - 1,
       merge := s.merge - 1)
  }

  /** The operation is a Postfix for part p: it goes to p's stack and leaves its effect behind. */
  ghost function Move(s: Scan, p: nat): Scan
    requires 0 <= s.cur <= s.merge < |s.a| && p < |s.stacks| && |s.stacks[p]| > 0
  {
    var op := s.a[s.cur];
    var st := s.stacks[p];
    s.(a := if s.merge == s.cur then s.a[s.cur := Null(op.full + INC)]
            else s.a[s.merge := s.a[s.merge].AddFull(op.full + INC)][s.cur := Null(0)],
       full := s.full + op.full,
       stacks := s.stacks[p := st[..|st| - 1] + [op.AddFull(Owed(s, p))]
                               + [Null(Below(s.calls, p) + s.full + op.full)]],
       calls := s.calls + [p],
       cur := s.cur - 1)
  }

  /** The boundary Prefix of part r: a full increment for everything left of it. */
  ghost function Cross(s: Scan): Scan
    requires 0 < s.cur <= s.merge < |s.a|
  {
    var op := s.a[s.cur];
    var a1 := s.a[s.cur - 1 := s.a[s.cur - 1].AddFull(op.full + INC)];
    s.(a := if s.merge == s.cur then a1[s.cur := Null(op.full)]
            else a1[s.merge := a1[s.merge].AddFull(op.full)][s.cur := Null(0)],
       cur := s.cur - 1)
  }

  /** Part r is cut off at the merge index and the stack of part r - 1 is laid out left of it. */
  ghost function LayOut(s: Scan, r: nat): Scan
    requires 0 < r <= |s.stacks| && |s.stacks[r - 1]| > 0
    requires 0 <= s.cur && s.cur + |s.stacks[r - 1]| <= s.merge <= |s.a|
  {
    var st := s.stacks[r - 1];
    var m := |st| - 1;
    var m' := s.merge - m - 1;
    var a1 := s.a[..s.merge - m] + Rev(st[..m]);
    s.(a := a1[m' := a1[m'].AddFull(Owed(s, r - 1))],
       merge := m',
       stacks := s.stacks[r - 1 := []],
       calls := s.calls + [r - 1])
  }

  // ---------------------------------------------------------------- the operation being scanned

  lemma ScannedOp(nd: Node, r: nat, s: Scan)
    requires Inv(nd, r, s) && r > 0
    ensures s.cur > 0 && Visible(s.a[s.cur], nd.lo, PartHi(nd, r))
    ensures PartLo(nd, r) > 0
    ensures s.a[s.cur].IsBoundaryOp(PartLo(nd, r) - 1) <==> BoundaryOf(nd, r, s.cur)
    ensures s.a[s.cur].Prefix? ==> s.a[s.cur].target >= PartLo(nd, r) - 1
  {
    hide LeftViews, Shows, WellFormed, PartLo, Total, TargetsBelow;
    var k := FindBoundary(nd, r);
    assert k <= s.cur;
  }

  /** What the scan may rely on before it looks at the next operation. */
  lemma ScanFacts(nd: Node, r: nat, s: Scan)
    requires Inv(nd, r, s)
    ensures ValidNode(nd)
    ensures 0 <= s.cur <= s.merge < |s.a|
    ensures s.cur < s.merge ==> s.a[s.merge].Null?
    ensures r < nd.parts <= |s.stacks| + 1
    ensures forall q :: 0 <= q < r ==> |s.stacks[q]| > 0 && s.stacks[q][|s.stacks[q]| - 1].Null?
  {
    hide LeftViews, Shows, WellFormed, PartLo, BoundaryOf;
  }

  // ---------------------------------------------------------------- Stay

  lemma StayLeft(nd: Node, r: nat, s: Scan, q: nat)
    requires Inv(nd, r, s) && 0 < r && q < r && s.cur > 0
    requires Visible(s.a[s.cur], PartLo(nd, r), PartHi(nd, r))
    ensures Shows(nd, q, LeftImage(Stay(s, PartLo(nd, r)), q))
  {
    hide Shows, PartLo, Below, View, WellFormed;
    PartOrder(nd, q, r);
    var op := s.a[s.cur];
    var s' := Stay(s, PartLo(nd, r));
    var pre := s.a[..s.cur];
    var amount := op.FullIncrToLeft(PartLo(nd, r));
    var st := s.stacks[q];
    var z := Rev(st[..|st| - 1]);
    assert LeftImage(s, q) == pre + [op] + [Null(Owed(s, q))] + z;
    assert s'.a[..s'.cur + 1] == pre;
    assert LeftImage(s', q) == pre + [Null(Owed(s, q) + amount)] + z;
    AbsorbIn(pre, op, amount, Owed(s, q), z, PartLo(nd, q), PartHi(nd, q));
    ShowsTrans(nd, q, LeftImage(s, q), LeftImage(s', q));
  }

  lemma StayRight(nd: Node, r: nat, s: Scan)
    requires Inv(nd, r, s) && 0 < r && s.cur > 0
    ensures Shows(nd, r, RightImage(Stay(s, PartLo(nd, r))))
  {
    hide Shows, PartLo, Below, View, WellFormed, LeftViews;
    PartRange(nd, r);
    var op := s.a[s.cur];
    var s' := Stay(s, PartLo(nd, r));
    var pre := s.a[..s.cur];
    var z := s.a[s.merge + 1..];
    assert s'.a[..s'.cur + 1] == pre;
    if s.merge == s.cur {
      assert RightImage(s) == pre + s.a[s.cur..];
      assert RightImage(s') == RightImage(s);
    } else {
      var n := s.a[s.merge].full;
      assert RightImage(s) == pre + [op] + [Null(n)] + z;
      assert s'.a[s'.merge] == Null(0);
      assert s'.a[s'.merge + 1..] == [op.AddFull(n)] + z;
      assert RightImage(s') == pre + [Null(0)] + [op.AddFull(n)] + z;
      SlideIn(pre, op, n, z, PartLo(nd, r), PartHi(nd, r));
      ShowsTrans(nd, r, RightImage(s), RightImage(s'));
    }
  }

  lemma StayGeometry(nd: Node, r: nat, s: Scan)
    requires ValidNode(nd) && Geometry(nd, r, s) && 0 < r && s.cur > 0
    requires Visible(s.a[s.cur], PartLo(nd, r), PartHi(nd, r))
    requires !BoundaryOf(nd, r, s.cur)
    ensures Geometry(nd, r, Stay(s, PartLo(nd, r)))
  {
    hide PartLo, WellFormed, BoundaryOf;
  }

  lemma StayKeepsInv(nd: Node, r: nat, s: Scan)
    requires Inv(nd, r, s) && 0 < r && s.cur > 0
    requires Visible(s.a[s.cur], PartLo(nd, r), PartHi(nd, r))
    requires !BoundaryOf(nd, r, s.cur)
    ensures Inv(nd, r, Stay(s, PartLo(nd, r)))
  {
    hide PartLo, WellFormed, LeftImage, RightImage, Shows, BoundaryOf, Geometry, Visible;
    ScanFacts(nd, r, s);
    StayGeometry(nd, r, s);
    forall q | 0 <= q < r ensures Shows(nd, q, LeftImage(Stay(s, PartLo(nd, r)), q)) {
      StayLeft(nd, r, s, q);
    }
    StayRight(nd, r, s);
  }

  // ---------------------------------------------------------------- Move

  lemma MoveLeft(nd: Node, r: nat, s: Scan, p: nat, q: nat)
    requires Inv(nd, r, s) && p < r && q < r && s.cur > 0
    requires s.a[s.cur].Postfix? && PartLo(nd, p) <= s.a[s.cur].target <= PartHi(nd, p)
    requires q != p
    ensures Shows(nd, q, LeftImage(Move(s, p), q))
  {
    hide Shows, PartLo, Below, View, WellFormed;
    PartRange(nd, q);
    if p < q { PartOrder(nd, p, q); } else { PartOrder(nd, q, p); }
    var op := s.a[s.cur];
    var s' := Move(s, p);
    var pre := s.a[..s.cur];
    var amount := op.full + if p < q then INC else 0;
    var st := s.stacks[q];
    var z := Rev(st[..|st| - 1]);
    assert LeftImage(s, q) == pre + [op] + [Null(Owed(s, q))] + z;
    assert s'.a[..s'.cur + 1] == pre;
    assert Owed(s', q) == Owed(s, q) + amount by { BelowSnoc(s.calls, p, q); }
    assert LeftImage(s', q) == pre + [Null(Owed(s, q) + amount)] + z;
    AbsorbIn(pre, op, amount, Owed(s, q), z, PartLo(nd, q), PartHi(nd, q));
    ShowsTrans(nd, q, LeftImage(s, q), LeftImage(s', q));
  }

  lemma BelowSnoc(calls: seq<nat>, p: nat, q: nat)
    ensures Below(calls + [p], q) == Below(calls, q) + if p < q then 1 else 0
  {
    CountSnoc(calls, p, 0, q);
  }

  lemma MoveOwn(nd: Node, r: nat, s: Scan, p: nat)
    requires Inv(nd, r, s) && p < r && s.cur > 0
    requires s.a[s.cur].Postfix?
    ensures Shows(nd, p, LeftImage(Move(s, p), p))
  {
    hide Shows, PartLo, Below, View, WellFormed, Rev;
    PartRange(nd, p);
    var op := s.a[s.cur];
    var s' := Move(s, p);
    var pre := s.a[..s.cur];
    var st, st' := s.stacks[p], s'.stacks[p];
    var n := Owed(s, p);
    var z := Rev(st[..|st| - 1]);
    assert LeftImage(s, p) == pre + [op] + [Null(n)] + z;
    assert s'.a[..s'.cur + 1] == pre;
    assert Owed(s', p) == 0 by { BelowSnoc(s.calls, p, p); }
    assert st'[..|st'| - 1] == st[..|st| - 1] + [op.AddFull(n)];
    RevSnoc(st[..|st| - 1], op.AddFull(n));
    assert LeftImage(s', p) == pre + [Null(0)] + [op.AddFull(n)] + z;
    SlideIn(pre, op, n, z, PartLo(nd, p), PartHi(nd, p));
    ShowsTrans(nd, p, LeftImage(s, p), LeftImage(s', p));
  }

  /** The operations of the part being built, before and after the move. */
  lemma MoveShape(s: Scan, p: nat)
    requires 0 < s.cur <= s.merge < |s.a| && p < |s.stacks| && |s.stacks[p]| > 0
    requires s.cur < s.merge ==> s.a[s.merge].Null?
    ensures var op, pre, z := s.a[s.cur], s.a[..s.cur], s.a[s.merge + 1..];
            && 0 <= Move(s, p).cur <= Move(s, p).merge < |Move(s, p).a|
            && (if s.merge == s.cur then
                  && RightImage(s) == pre + [op] + z
                  && RightImage(Move(s, p)) == pre + [Null(op.full + INC)] + z
                else
                  && RightImage(s) == pre + [op] + [Null(s.a[s.merge].full)] + z
                  && RightImage(Move(s, p)) == pre + [Null(s.a[s.merge].full + op.full + INC)] + z)
  {
    hide Below, Owed;
    var s' := Move(s, p);
    assert s'.a[..s'.cur + 1] == s.a[..s.cur];
    assert s'.a[s'.merge + 1..] == s.a[s.merge + 1..];
  }

  lemma MoveRight(nd: Node, r: nat, s: Scan, p: nat)
    requires Inv(nd, r, s) && p < r && s.cur > 0
    requires s.a[s.cur].MoveToScratch(PartLo(nd, r))
    ensures Shows(nd, r, RightImage(Move(s, p)))
  {
    hide Shows, PartLo, WellFormed, Geometry, LeftViews, RightImage, Move, Same;
    ScanFacts(nd, r, s);
    PartRange(nd, r);
    MoveShape(s, p);
    var op, pre, z := s.a[s.cur], s.a[..s.cur], s.a[s.merge + 1..];
    if s.merge == s.cur {
      ReplaceIn(pre, op, op.full + INC, z, PartLo(nd, r), PartHi(nd, r));
    } else {
      AbsorbIn(pre, op, op.full + INC, s.a[s.merge].full, z, PartLo(nd, r), PartHi(nd, r));
    }
    ShowsTrans(nd, r, RightImage(s), RightImage(Move(s, p)));
  }

  lemma MoveGeometry(nd: Node, r: nat, s: Scan, p: nat)
    requires ValidNode(nd) && Geometry(nd, r, s) && 0 < r && s.cur > 0
    requires p < |s.stacks| && |s.stacks[p]| > 0 && !BoundaryOf(nd, r, s.cur)
    ensures Geometry(nd, r, Move(s, p))
  {
    hide PartLo, WellFormed, BoundaryOf, Below, Owed;
  }

  lemma MoveKeepsInv(nd: Node, r: nat, s: Scan, p: nat)
    requires Inv(nd, r, s) && p < r && s.cur > 0
    requires s.a[s.cur].MoveToScratch(PartLo(nd, r))
    requires PartLo(nd, p) <= s.a[s.cur].target <= PartHi(nd, p)
    requires !BoundaryOf(nd, r, s.cur)
    ensures Inv(nd, r, Move(s, p))
  {
    hide PartLo, Below, WellFormed, LeftImage, RightImage, Shows, BoundaryOf, Geometry;
    ScanFacts(nd, r, s);
    MoveGeometry(nd, r, s, p);
    var s' := Move(s, p);
    forall q | 0 <= q < r ensures Shows(nd, q, LeftImage(s', q)) {
      if q == p { MoveOwn(nd, r, s, p); } else { MoveLeft(nd, r, s, p, q); }
    }
    MoveRight(nd, r, s, p);
    PendingUpdate(s.stacks, r, p, s'.stacks[p]);
  }

  // ---------------------------------------------------------------- Cross

  /** The part cut off at the boundary. */
  ghost function CutOff(s: Scan): seq<Op>
    requires 0 < s.cur <= s.merge < |s.a|
  {
    Cross(s).a[s.merge..]
  }

  lemma BoundaryDrops(nd: Node, r: nat, s: Scan, z: seq<Op>)
    requires Inv(nd, r, s) && r > 0 && BoundaryOf(nd, r, s.cur)
    ensures Same(s.a[..s.cur] + z, z, PartLo(nd, r), PartHi(nd, r))
  {
    hide PartLo, WellFormed, LeftViews, Shows, View;
    PartRange(nd, r);
    var pre := s.a[..s.cur];
    assert pre == nd.ops[..s.cur];
    NothingVisible(pre, PartLo(nd, r) - 1, PartLo(nd, r), PartHi(nd, r));
    EmptySequence(PartLo(nd, r), PartHi(nd, r));
    assert Same(pre, [], PartLo(nd, r), PartHi(nd, r));
    Congruence(pre, [], z, PartLo(nd, r), PartHi(nd, r));
    assert [] + z == z;
  }

  lemma EmptySequence(lo: nat, hi: nat)
    ensures View([], lo, hi) == [] && forall j :: lo <= j <= hi ==> Total([], j) == 0
  {
  }

  /** The part cut off shows what the node shows, and is itself a subproblem. */
  lemma CutOffIsSubproblem(nd: Node, r: nat, s: Scan)
    requires Inv(nd, r, s) && r > 0 && BoundaryOf(nd, r, s.cur)
    ensures Shows(nd, r, CutOff(s))
    ensures WellFormed(CutOff(s), PartLo(nd, r), PartHi(nd, r))
  {
    hide PartLo, View, Shows, Good, Below, LeftViews;
    PartRange(nd, r);
    var op := s.a[s.cur];
    var pre := s.a[..s.cur];
    var z := s.a[s.merge + 1..];
    var right := CutOff(s);
    if s.merge == s.cur {
      assert RightImage(s) == pre + [op] + z;
      assert right == [Null(op.full)] + z;
      ReplaceIn(pre, op, op.full, z, PartLo(nd, r), PartHi(nd, r));
    } else {
      var n := s.a[s.merge].full;
      assert RightImage(s) == pre + [op] + [Null(n)] + z;
      assert right == [Null(n + op.full)] + z;
      AbsorbIn(pre, op, op.full, n, z, PartLo(nd, r), PartHi(nd, r));
    }
    assert pre + right == pre + [right[0]] + z;
    ShowsTrans(nd, r, RightImage(s), pre + right);
    BoundaryDrops(nd, r, s, right);
    ShowsTrans(nd, r, pre + right, right);
    ShownIsGood(nd, r, right);
  }

  lemma ShownIsGood(nd: Node, r: nat, v: seq<Op>)
    requires ValidNode(nd) && r < nd.parts && Shows(nd, r, v)
    ensures Good(View(v, PartLo(nd, r), PartHi(nd, r)), PartLo(nd, r), PartHi(nd, r))
  {
    hide PartLo, View, Good, WellFormed;
    PartRange(nd, r);
    SubrangeGood(nd.ops, nd.lo, nd.hi, PartLo(nd, r), PartHi(nd, r));
  }

  lemma CrossLeft(nd: Node, r: nat, s: Scan, q: nat)
    requires Inv(nd, r, s) && q < r && BoundaryOf(nd, r, s.cur)
    ensures Shows(nd, q, LeftImage(Cross(s), q))
  {
    hide PartLo, View, Shows, Below, WellFormed, Total, TargetsBelow;
    PartOrder(nd, q, r);
    var op, prev := s.a[s.cur], s.a[s.cur - 1];
    var s' := Cross(s);
    var pre := s.a[..s.cur - 1];
    var st := s.stacks[q];
    var z := [Null(Owed(s, q))] + Rev(st[..|st| - 1]);
    assert LeftImage(s, q) == pre + [prev] + [op] + z;
    assert s'.a[..s'.cur + 1] == pre + [prev.AddFull(op.full + INC)];
    assert LeftImage(s', q) == pre + [prev.AddFull(op.full + INC)] + z;
    AbsorbLeftIn(pre, prev, op, op.full + INC, z, PartLo(nd, q), PartHi(nd, q));
    ShowsTrans(nd, q, LeftImage(s, q), LeftImage(s', q));
  }

  /** Between the boundary and the next part: as `Inv`, for the left side only. */
  ghost predicate Crossed(nd: Node, r: nat, s: Scan) {
    && ValidNode(nd)
    && 0 < r < nd.parts <= |s.stacks| + 1
    && 0 <= s.cur < s.merge < |s.a|
    && s.cur < |nd.ops|
    && (forall k :: 0 <= k < s.cur ==> s.a[k] == nd.ops[k])
    && s.a[s.cur].SameKind(nd.ops[s.cur])
    && (forall k :: s.cur < k < s.merge ==> s.a[k] == Null(0))
    && (forall k :: 0 < k <= s.cur ==> Visible(nd.ops[k], nd.lo, PartHi(nd, r - 1)))
    && (r > 1 ==> BoundaryAhead(nd, r - 1, s.cur))
    && StacksOK(nd, r, s)
    && s.merge - s.cur == Pending(s.stacks, r) + 1
    && LeftViews(nd, r, s)
  }

  lemma BoundariesInOrder(nd: Node, r: nat, k: nat)
    requires ValidNode(nd) && 1 < r < nd.parts && BoundaryOf(nd, r, k)
    ensures BoundaryAhead(nd, r - 1, k - 1)
  {
    hide PartLo, WellFormed, Total, TargetsBelow;
    PartOrder(nd, r - 1, r);
  }

  lemma CrossKeepsLeft(nd: Node, r: nat, s: Scan)
    requires Inv(nd, r, s) && r > 0 && BoundaryOf(nd, r, s.cur)
    ensures Crossed(nd, r, Cross(s))
    ensures |Cross(s).a| == |s.a| && CutOff(s) == Cross(s).a[Cross(s).merge..]
  {
    hide PartLo, LeftImage, RightImage, Shows, View, Total, Good;
    var s' := Cross(s);
    forall q | 0 <= q < r ensures Shows(nd, q, LeftImage(s', q)) {
      CrossLeft(nd, r, s, q);
    }
    PartOrder(nd, r - 1, r);
    forall k | 0 < k <= s'.cur ensures Visible(nd.ops[k], nd.lo, PartHi(nd, r - 1)) {
      assert nd.ops[..s.cur][k] == nd.ops[k];
    }
    if r > 1 {
      BoundariesInOrder(nd, r, s.cur);
    }
  }

  // ---------------------------------------------------------------- LayOut

  lemma LayOutRoom(nd: Node, r: nat, s: Scan)
    requires Crossed(nd, r, s)
    ensures |s.stacks[r - 1]| > 0
    ensures Pending(s.stacks, r) == Pending(s.stacks, r - 1) + |s.stacks[r - 1]| - 1
    ensures Pending(s.stacks, r - 1) >= 0
    ensures s.cur + |s.stacks[r - 1]| <= s.merge
  {
    hide LeftViews, PartLo, ValidNode;
    PendingBounds(s.stacks, r - 1);
  }

  /** The operations of part r - 1, before and after its stack is laid out. */
  lemma LayOutShape(s: Scan, r: nat)
    requires 0 < r <= |s.stacks| && |s.stacks[r - 1]| > 0
    requires 0 <= s.cur && s.cur + |s.stacks[r - 1]| <= s.merge < |s.a|
    requires forall k :: s.cur < k < s.merge ==> s.a[k] == Null(0)
    ensures var s', st, d := LayOut(s, r), s.stacks[r - 1], Owed(s, r - 1);
            var z := Rev(st[..|st| - 1]);
            && s'.cur == s.cur <= s'.merge < |s'.a|
            && (if s'.merge == s.cur then
                  && LeftImage(s, r - 1) == s.a[..s.cur] + [s.a[s.cur]] + [Null(d)] + z
                  && RightImage(s') == s.a[..s.cur] + [s.a[s.cur].AddFull(d)] + z
                else RightImage(s') == LeftImage(s, r - 1))
  {
    hide Below, Rev;
    var s' := LayOut(s, r);
    var d := Owed(s, r - 1);
    assert s'.a[s'.merge + 1..] == Rev(s.stacks[r - 1][..|s.stacks[r - 1]| - 1]);
    if s'.merge != s.cur {
      assert s'.a[s'.merge] == Null(d);
      assert s'.a[..s.cur + 1] == s.a[..s.cur + 1];
    }
  }

  lemma LayOutRight(nd: Node, r: nat, s: Scan)
    requires Crossed(nd, r, s) && |s.stacks[r - 1]| > 0 && s.cur + |s.stacks[r - 1]| <= s.merge
    ensures Shows(nd, r - 1, RightImage(LayOut(s, r)))
  {
    hide PartLo, Shows, BoundaryOf, WellFormed, Rev, Owed, LayOut, LeftImage, RightImage, Same;
    PartRange(nd, r - 1);
    LayOutShape(s, r);
    var s', st, d := LayOut(s, r), s.stacks[r - 1], Owed(s, r - 1);
    if s'.merge == s.cur {
      var lo, hi := PartLo(nd, r - 1), PartHi(nd, r - 1);
      AbsorbLeftIn(s.a[..s.cur], s.a[s.cur], Null(d), d, Rev(st[..|st| - 1]), lo, hi);
      ShowsTrans(nd, r - 1, LeftImage(s, r - 1), RightImage(s'));
    }
  }

  /** The full amount of the last operation that can be seen is never seen. */
  lemma LastFullUnseen(pre: seq<Op>, x: Op, d: int, n: int, lo: nat, hi: nat)
    ensures View(pre + [x.AddFull(d)] + [Null(n)], lo, hi) == View(pre + [x] + [Null(n)], lo, hi)
  {
    hide Total, View;
    ViewSnoc(pre, x, lo, hi);
    ViewSnoc(pre + [x], Null(n), lo, hi);
    ViewSnoc(pre, x.AddFull(d), lo, hi);
    ViewSnoc(pre + [x.AddFull(d)], Null(n), lo, hi);
  }

  lemma LayOutLeft(nd: Node, r: nat, s: Scan, q: nat)
    requires Crossed(nd, r, s) && |s.stacks[r - 1]| > 0 && s.cur + |s.stacks[r - 1]| <= s.merge
    requires q < r - 1
    requires s.merge - |s.stacks[r - 1]| == s.cur ==> |s.stacks[q]| == 1
    ensures Shows(nd, q, LeftImage(LayOut(s, r), q))
  {
    hide PartLo, View, Below, WellFormed, Total, Rev;
    PartRange(nd, q);
    var s' := LayOut(s, r);
    assert Owed(s', q) == Owed(s, q) by { BelowSnoc(s.calls, r - 1, q); }
    assert Shows(nd, q, LeftImage(s, q));
    if s'.merge == s.cur {
      var pre, x := s.a[..s.cur], s.a[s.cur];
      assert LeftImage(s, q) == pre + [x] + [Null(Owed(s, q))];
      assert LeftImage(s', q) == pre + [x.AddFull(Owed(s, r - 1))] + [Null(Owed(s, q))];
      LastFullUnseen(pre, x, Owed(s, r - 1), Owed(s, q), PartLo(nd, q), PartHi(nd, q));
    } else {
      assert s'.a[..s.cur + 1] == s.a[..s.cur + 1];
      assert LeftImage(s', q) == LeftImage(s, q);
    }
  }

  lemma LayOutGeometry(nd: Node, r: nat, s: Scan)
    requires Crossed(nd, r, s) && |s.stacks[r - 1]| > 0 && s.cur + |s.stacks[r - 1]| <= s.merge
    ensures Geometry(nd, r - 1, LayOut(s, r))
  {
    hide PartLo, LeftViews, BoundaryOf, WellFormed, Below;
  }

  lemma LayOutStacks(nd: Node, r: nat, s: Scan)
    requires Crossed(nd, r, s) && |s.stacks[r - 1]| > 0 && s.cur + |s.stacks[r - 1]| <= s.merge
    ensures StacksOK(nd, r - 1, LayOut(s, r))
    ensures LayOut(s, r).merge - LayOut(s, r).cur == Pending(LayOut(s, r).stacks, r - 1)
  {
    hide PartLo, LeftViews, BoundaryOf, WellFormed, Below, Rev;
    LayOutRoom(nd, r, s);
    PendingUpdate(s.stacks, r - 1, r - 1, []);
  }

  lemma LayOutGivesInv(nd: Node, r: nat, s: Scan)
    requires Crossed(nd, r, s)
    ensures 0 < r < nd.parts <= |s.stacks| + 1 && 0 <= s.cur < s.merge < |s.a|
    ensures |s.stacks[r - 1]| > 0 && s.cur + |s.stacks[r - 1]| <= s.merge
    ensures Inv(nd, r - 1, LayOut(s, r))
    ensures |LayOut(s, r).a| == s.merge
  {
    hide PartLo, LeftImage, RightImage, Shows, BoundaryOf, WellFormed, Geometry, LayOut;
    LayOutRoom(nd, r, s);
    LayOutGeometry(nd, r, s);
    LayOutStacks(nd, r, s);
    LayOutSize(s, r);
    PendingBounds(s.stacks, r - 1);
    forall q | 0 <= q < r - 1 ensures Shows(nd, q, LeftImage(LayOut(s, r), q)) {
      LayOutLeft(nd, r, s, q);
    }
    LayOutRight(nd, r, s);
  }

  lemma LayOutSize(s: Scan, r: nat)
    requires 0 < r <= |s.stacks| && |s.stacks[r - 1]| > 0
    requires 0 <= s.cur && s.cur + |s.stacks[r - 1]| <= s.merge <= |s.a|
    ensures |LayOut(s, r).a| == s.merge && LayOut(s, r).cur == s.cur
  {
  }
}
