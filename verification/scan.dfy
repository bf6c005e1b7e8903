/** One node of the recursion being split, part by part from the right.

    `Node` is the sequence being split; `Scan` is the program's state while it walks over it:
    the window of the operations array (rewritten in place), the two indices, the pending full
    increment, and the scratch stacks.  The invariant `Inv` says what the state means: for
    every part still to come, the unscanned operations followed by that part's scratch stack
    show the same view of the part as the original sequence, and for the part being built the
    same holds with the operations already placed at the right end. */
module Scanning {
  import opened Operations
  import opened Subproblem
  import opened SplitPoints
  import opened Partitioning

  datatype Node = Node(ops: seq<Op>, lo: nat, hi: nat, parts: nat)

  datatype Scan = Scan(a: seq<Op>, cur: int, merge: int, full: int, stacks: seq<seq<Op>>, calls: seq<nat>)

  // ---------------------------------------------------------------- the parts of a node

  ghost predicate ValidNode(nd: Node) {
    && 0 < nd.lo <= nd.hi
    && 1 < nd.parts <= nd.hi - nd.lo + 1
    && WellFormed(nd.ops, nd.lo, nd.hi)
  }

  function PartLo(nd: Node, p: nat): (c: nat)
    requires nd.parts > 0 && 0 < nd.lo <= nd.hi
    ensures c >= nd.lo
  {
    Cut(nd.lo, nd.hi - nd.lo + 1, nd.parts, p)
  }

  function PartHi(nd: Node, p: nat): nat
    requires nd.parts > 0 && 0 < nd.lo <= nd.hi
  {
    PartLo(nd, p + 1) - 1
  }

  /** Parts are non-empty, in order, and inside the node. */
  lemma PartRange(nd: Node, p: nat)
    requires ValidNode(nd) && p < nd.parts
    ensures 0 < nd.lo <= PartLo(nd, p) <= PartHi(nd, p) <= nd.hi
    ensures p == 0 ==> PartLo(nd, p) == nd.lo
    ensures p + 1 == nd.parts ==> PartHi(nd, p) == nd.hi
  {
    hide Cut;
    var dist := nd.hi - nd.lo + 1;
    CutEnds(nd.lo, dist, nd.parts);
    CutsMonotone(nd.lo, dist, nd.parts, 0, p);
    CutsMonotone(nd.lo, dist, nd.parts, p, p + 1);
    CutsMonotone(nd.lo, dist, nd.parts, p + 1, nd.parts);
  }

  lemma PartOrder(nd: Node, p: nat, r: nat)
    requires ValidNode(nd) && p < r < nd.parts
    ensures 0 < PartLo(nd, p) <= PartHi(nd, p) < PartLo(nd, r) <= PartHi(nd, r)
  {
    hide Cut;
    PartRange(nd, p);
    PartRange(nd, r);
    CutsMonotone(nd.lo, nd.hi - nd.lo + 1, nd.parts, p + 1, r);
  }

  /** k is the index of the operation at which part r is split off. */
  ghost predicate BoundaryOf(nd: Node, r: nat, k: nat)
    requires nd.parts > 0 && 0 < nd.lo <= nd.hi
  {
    IsBoundary(nd.ops, k, PartLo(nd, r) - 1, nd.hi)
  }

  /** The scan, now at cur, has not passed the boundary of part r. */
  ghost predicate BoundaryAhead(nd: Node, r: nat, cur: int)
    requires nd.parts > 0 && 0 < nd.lo <= nd.hi
  {
    forall k: nat :: BoundaryOf(nd, r, k) ==> k <= cur
  }

  lemma FindBoundary(nd: Node, r: nat) returns (k: nat)
    requires ValidNode(nd) && 0 < r < nd.parts
    ensures BoundaryOf(nd, r, k)
  {
    hide WellFormed, IsBoundary, PartLo;
    PartOrder(nd, r - 1, r);
    PartRange(nd, r - 1);
    PartRange(nd, r);
    k := BoundaryExists(nd.ops, PartLo(nd, r) - 1, nd.lo, nd.hi);
  }

  /** v shows the same as the node's sequence on part p. */
  ghost predicate Shows(nd: Node, p: nat, v: seq<Op>)
    requires nd.parts > 0 && 0 < nd.lo <= nd.hi
  {
    View(v, PartLo(nd, p), PartHi(nd, p)) == View(nd.ops, PartLo(nd, p), PartHi(nd, p))
  }

  /** Every freeze of the node is a freeze, with the same value, of exactly one part: the one that
      holds its target. */
  lemma FreezeInOnePart(nd: Node, e: Event) returns (p: nat)
    requires ValidNode(nd) && e.Freeze? && e in View(nd.ops, nd.lo, nd.hi)
    ensures p < nd.parts && PartLo(nd, p) <= e.target <= PartHi(nd, p)
    ensures forall q :: 0 <= q < nd.parts ==> (e in View(nd.ops, PartLo(nd, q), PartHi(nd, q)) <==> q == p)
  {
    hide View, Total, PartLo, Good, WellFormed;
    var k := EventOrigin(nd.ops, e, nd.lo, nd.hi);
    p := PartOfCell(nd, e.target);
    forall q | 0 <= q < nd.parts ensures e in View(nd.ops, PartLo(nd, q), PartHi(nd, q)) <==> q == p {
      SeenInPart(nd, e, q);
      if q < p { PartOrder(nd, q, p); }
      if p < q { PartOrder(nd, p, q); }
    }
  }

  lemma PartOfCell(nd: Node, t: nat) returns (p: nat)
    requires ValidNode(nd) && nd.lo <= t <= nd.hi
    ensures p < nd.parts && PartLo(nd, p) <= t <= PartHi(nd, p)
  {
    hide Cut, WellFormed;
    var dist := nd.hi - nd.lo + 1;
    CutEnds(nd.lo, dist, nd.parts);
    p := PartExists(t, nd.lo, dist, nd.parts, nd.parts);
  }

  lemma SeenInPart(nd: Node, e: Event, q: nat)
    requires ValidNode(nd) && q < nd.parts && e.Freeze? && e in View(nd.ops, nd.lo, nd.hi)
    ensures e in View(nd.ops, PartLo(nd, q), PartHi(nd, q)) <==> PartLo(nd, q) <= e.target <= PartHi(nd, q)
  {
    hide View, Total, PartLo, Ordered, NetZero, Restrict;
    PartRange(nd, q);
    ViewOfSubrange(nd.ops, nd.lo, nd.hi, PartLo(nd, q), PartHi(nd, q));
    RestrictMembers(View(nd.ops, nd.lo, nd.hi), e, PartLo(nd, q), PartHi(nd, q));
  }

  // ---------------------------------------------------------------- scratch stacks

  ghost function Rev(s: seq<Op>): (r: seq<Op>)
    ensures |r| == |s|
  {
    seq(|s|, k requires 0 <= k < |s| => s[|s| - 1 - k])
  }

  lemma RevSnoc(s: seq<Op>, x: Op)
    ensures Rev(s + [x]) == [x] + Rev(s)
  {
  }

  ghost predicate StackOK(st: seq<Op>, lo: nat, hi: nat) {
    && |st| > 0
    && st[|st| - 1].Null?
    && forall k :: 0 <= k < |st| - 1 ==> st[k].Postfix? && lo <= st[k].target <= hi
  }

  /** Postfixes on the first r stacks. */
  ghost function Pending(stacks: seq<seq<Op>>, r: nat): int
    requires r <= |stacks|
  {
    if r == 0 then 0 else Pending(stacks, r - 1) + |stacks[r - 1]| - 1
  }

  lemma {:induction false} PendingUpdate(stacks: seq<seq<Op>>, r: nat, p: nat, st: seq<Op>)
    requires r <= |stacks| && p < |stacks|
    ensures Pending(stacks[p := st], r) == Pending(stacks, r) + if p < r then |st| - |stacks[p]| else 0
  {
    if r > 0 { PendingUpdate(stacks, r - 1, p, st); }
  }

  lemma {:induction false} PendingBounds(stacks: seq<seq<Op>>, r: nat)
    requires r <= |stacks| && forall q :: 0 <= q < r ==> |stacks[q]| > 0
    ensures Pending(stacks, r) >= 0
    ensures Pending(stacks, r) == 0 ==> forall q :: 0 <= q < r ==> |stacks[q]| == 1
  {
    if r > 0 { PendingBounds(stacks, r - 1); }
  }

  // ---------------------------------------------------------------- the invariant

  /** Full increment owed to part q since the last push on its stack. */
  ghost function Owed(s: Scan, q: nat): int
    requires q < |s.stacks| && |s.stacks[q]| > 0
  {
    var st := s.stacks[q];
    s.full + Below(s.calls, q) - st[|st| - 1].full
  }

  /** The operations part q, left of the one being built, will be made from. */
  ghost function LeftImage(s: Scan, q: nat): seq<Op>
    requires 0 <= s.cur < |s.a| && q < |s.stacks| && |s.stacks[q]| > 0
  {
    var st := s.stacks[q];
    s.a[..s.cur + 1] + [Null(Owed(s, q))] + Rev(st[..|st| - 1])
  }

  ghost function Accumulator(s: Scan): seq<Op>
    requires 0 <= s.merge < |s.a|
  {
    if s.merge == s.cur then [] else [s.a[s.merge]]
  }

  /** The operations the part being built will be made from. */
  ghost function RightImage(s: Scan): seq<Op>
    requires 0 <= s.cur <= s.merge < |s.a|
  {
    s.a[..s.cur + 1] + Accumulator(s) + s.a[s.merge + 1..]
  }

  /** Where everything lies in the window. */
  ghost predicate Geometry(nd: Node, r: nat, s: Scan)
    requires nd.parts > 0 && 0 < nd.lo <= nd.hi
  {
    && r < nd.parts <= |s.stacks| + 1
    && 0 <= s.cur <= s.merge < |s.a|
    && s.cur < |nd.ops|
    && (forall k :: 0 <= k < s.cur ==> s.a[k] == nd.ops[k])
    && s.a[s.cur].SameKind(nd.ops[s.cur])
    && (forall k :: s.cur < k < s.merge ==> s.a[k] == Null(0))
    && (s.cur < s.merge ==> s.a[s.merge].Null?)
    && (forall k :: s.merge < k < |s.a| ==> Visible(s.a[k], PartLo(nd, r), PartHi(nd, r)))
    && (forall k :: 0 < k <= s.cur ==> Visible(nd.ops[k], nd.lo, PartHi(nd, r)))
    && (r > 0 ==> BoundaryAhead(nd, r, s.cur))
  }

  ghost predicate StacksOK(nd: Node, r: nat, s: Scan)
    requires nd.parts > 0 && 0 < nd.lo <= nd.hi
  {
    r <= |s.stacks| && forall q :: 0 <= q < r ==> StackOK(s.stacks[q], PartLo(nd, q), PartHi(nd, q))
  }

  ghost predicate LeftViews(nd: Node, r: nat, s: Scan)
    requires nd.parts > 0 && 0 < nd.lo <= nd.hi
    requires 0 <= s.cur < |s.a| && StacksOK(nd, r, s)
  {
    forall q :: 0 <= q < r ==> Shows(nd, q, LeftImage(s, q))
  }

  /** State before scanning, while scanning, and, for r == 0, after the last call: parts above r
      are split off, part r is being built, parts below r are on the stacks. */
  ghost predicate Inv(nd: Node, r: nat, s: Scan) {
    && ValidNode(nd)
    && Geometry(nd, r, s)
    && StacksOK(nd, r, s)
    && s.merge - s.cur == Pending(s.stacks, r)
    && LeftViews(nd, r, s)
    && Shows(nd, r, RightImage(s))
  }

  // ---------------------------------------------------------------- small rewriting lemmas

  lemma ShowsTrans(nd: Node, p: nat, u: seq<Op>, v: seq<Op>)
    requires nd.parts > 0 && 0 < nd.lo <= nd.hi
    requires Shows(nd, p, u) && Same(u, v, PartLo(nd, p), PartHi(nd, p))
    ensures Shows(nd, p, v)
  {
    hide View, Total, PartLo;
  }

  lemma AbsorbIn(pre: seq<Op>, op: Op, amount: int, n: int, z: seq<Op>, lo: nat, hi: nat)
    requires Uniform(op, amount, lo, hi) && lo <= hi
    ensures Same(pre + [op] + [Null(n)] + z, pre + [Null(n + amount)] + z, lo, hi)
  {
    hide Same;
    Absorb(pre, op, amount, n, lo, hi);
    Congruence(pre + [op] + [Null(n)], pre + [Null(n + amount)], z, lo, hi);
  }

  lemma ReplaceIn(pre: seq<Op>, op: Op, amount: int, z: seq<Op>, lo: nat, hi: nat)
    requires Uniform(op, amount, lo, hi) && lo <= hi
    ensures Same(pre + [op] + z, pre + [Null(amount)] + z, lo, hi)
  {
    hide Same;
    Replace(pre, op, amount, lo, hi);
    Congruence(pre + [op], pre + [Null(amount)], z, lo, hi);
  }

  /** Giving the full amount of the Null after op to op itself. */
  lemma SlideIn(pre: seq<Op>, op: Op, n: int, z: seq<Op>, lo: nat, hi: nat)
    requires lo <= hi
    ensures Same(pre + [op] + [Null(n)] + z, pre + [Null(0)] + [op.AddFull(n)] + z, lo, hi)
  {
    hide View, Total;
    AbsorbLeft(pre, op, Null(n), n, lo, hi);
    InsertEmpty(pre, lo, hi);
    SameSnoc(pre + [Null(0)], pre, op.AddFull(n), lo, hi);
    Congruence(pre + [op] + [Null(n)], pre + [Null(0)] + [op.AddFull(n)], z, lo, hi);
  }

  lemma AbsorbLeftIn(pre: seq<Op>, op: Op, next: Op, amount: int, z: seq<Op>, lo: nat, hi: nat)
    requires Uniform(next, amount, lo, hi) && lo <= hi
    ensures Same(pre + [op] + [next] + z, pre + [op.AddFull(amount)] + z, lo, hi)
  {
    hide Same;
    AbsorbLeft(pre, op, next, amount, lo, hi);
    Congruence(pre + [op] + [next], pre + [op.AddFull(amount)], z, lo, hi);
  }
}
