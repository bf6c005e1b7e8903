/** The operations of Increment-and-Freeze and what a sequence of them means.

    Operations act on an imaginary array of cells.  Prefix(t) adds 1 to the cells up to t,
    Postfix(t) adds 1 to the cells from t on and then freezes cell t; afterwards every
    operation adds its full amount to all cells.  What a sequence means for the cells
    lo..hi is recorded by `View`: in order, every freeze with the frozen value, and every
    Prefix that tells two of the cells apart, with the value cell hi had just before it. */
module Operations {

  datatype Op =
    | Null(full: int)
    | Prefix(target: nat, full: int)
    | Postfix(target: nat, full: int)
  {
    function AddFull(amount: int): Op {
      this.(full := full + amount)
    }

    function MakeNull(): Op {
      Null(full)
    }

    /** Is this a Postfix that freezes a cell left of `projStart`? */
    predicate MoveToScratch(projStart: nat) {
      Postfix? && target < projStart
    }

    predicate IsBoundaryOp(leftEnd: nat) {
      Prefix? && target == leftEnd
    }

    /** What the operation adds to every cell left of `rightStart`, if it does not freeze one of them. */
    function FullIncrToLeft(rightStart: nat): int {
      if Prefix? && target >= rightStart then INC + full else full
    }

    /** The partial increment this operation gives to cell j. */
    function IncAt(j: nat): int {
      match this
      case Null(_) => 0
      case Prefix(t, _) => if j <= t then INC else 0
      case Postfix(t, _) => if t <= j then INC else 0
    }

    function EffectAt(j: nat): int {
      IncAt(j) + full
    }

    /** Same operation up to its full amount. */
    ghost predicate SameKind(other: Op) {
      this.(full := 0) == other.(full := 0)
    }
  }

  const INC: int := 1

  /** The two-argument constructor: a Prefix, which is a Null operation if the target is 0. */
  function MakePrefix(target: nat, full: int): Op {
    if target == 0 then Null(full) else Prefix(target, full)
  }

  /** What the whole sequence adds to cell j. */
  ghost function Total(s: seq<Op>, j: nat): int {
    if s == [] then 0 else Total(s[..|s| - 1], j) + s[|s| - 1].EffectAt(j)
  }

  datatype Event = Freeze(target: nat, value: int) | Mark(target: nat, value: int)

  ghost predicate Visible(op: Op, lo: nat, hi: nat) {
    match op
    case Null(_) => false
    case Prefix(t, _) => lo <= t < hi
    case Postfix(t, _) => lo <= t <= hi
  }

  ghost function EventOf(before: seq<Op>, op: Op, hi: nat): Event
    requires !op.Null?
  {
    if op.Postfix? then Freeze(op.target, Total(before, op.target) + INC)
    else Mark(op.target, Total(before, hi))
  }

  ghost function View(s: seq<Op>, lo: nat, hi: nat): seq<Event> {
    if s == [] then []
    else
      var before, op := s[..|s| - 1], s[|s| - 1];
      View(before, lo, hi) + if Visible(op, lo, hi) then [EventOf(before, op, hi)] else []
  }

  // ---------------------------------------------------------------- unfolding at the end

  lemma TotalSnoc(s: seq<Op>, op: Op, j: nat)
    ensures Total(s + [op], j) == Total(s, j) + op.EffectAt(j)
  {
    assert (s + [op])[..|s|] == s;
  }

  lemma ViewSnoc(s: seq<Op>, op: Op, lo: nat, hi: nat)
    ensures View(s + [op], lo, hi) == View(s, lo, hi) + if Visible(op, lo, hi) then [EventOf(s, op, hi)] else []
  {
    assert (s + [op])[..|s|] == s;
  }

  // ---------------------------------------------------------------- equivalence of sequences

  ghost predicate SameTotals(u: seq<Op>, v: seq<Op>, lo: nat, hi: nat) {
    forall j :: lo <= j <= hi ==> Total(u, j) == Total(v, j)
  }

  /** u and v cannot be told apart on the cells lo..hi, whatever follows them. */
  ghost predicate Same(u: seq<Op>, v: seq<Op>, lo: nat, hi: nat) {
    View(u, lo, hi) == View(v, lo, hi) && SameTotals(u, v, lo, hi)
  }

  lemma SameSnoc(u: seq<Op>, v: seq<Op>, op: Op, lo: nat, hi: nat)
    requires Same(u, v, lo, hi) && lo <= hi
    ensures Same(u + [op], v + [op], lo, hi)
  {
    hide Total, View;
    ViewSnoc(u, op, lo, hi);
    ViewSnoc(v, op, lo, hi);
    forall j | lo <= j <= hi ensures Total(u + [op], j) == Total(v + [op], j) {
      TotalSnoc(u, op, j);
      TotalSnoc(v, op, j);
    }
  }

  /** Equivalent beginnings may be exchanged. */
  lemma {:induction false} Congruence(u: seq<Op>, v: seq<Op>, z: seq<Op>, lo: nat, hi: nat)
    requires Same(u, v, lo, hi) && lo <= hi
    ensures Same(u + z, v + z, lo, hi)
  {
    hide Same;
    if z == [] {
      assert u + z == u && v + z == v;
    } else {
      var z', op := z[..|z| - 1], z[|z| - 1];
      Congruence(u, v, z', lo, hi);
      SameSnoc(u + z', v + z', op, lo, hi);
      assert u + z == u + z' + [op] && v + z == v + z' + [op];
    }
  }

  /** An operation that is not visible on lo..hi and adds the same amount to all its cells. */
  ghost predicate Uniform(op: Op, amount: int, lo: nat, hi: nat) {
    !Visible(op, lo, hi) && forall j :: lo <= j <= hi ==> op.EffectAt(j) == amount
  }

  /** Such an operation may be folded into a Null operation that follows it. */
  lemma Absorb(pre: seq<Op>, op: Op, amount: int, n: int, lo: nat, hi: nat)
    requires Uniform(op, amount, lo, hi) && lo <= hi
    ensures Same(pre + [op] + [Null(n)], pre + [Null(n + amount)], lo, hi)
  {
    hide Total, View;
    var none := Null(n + amount);
    ViewSnoc(pre, op, lo, hi);
    ViewSnoc(pre + [op], Null(n), lo, hi);
    ViewSnoc(pre, none, lo, hi);
    forall j | lo <= j <= hi ensures Total(pre + [op] + [Null(n)], j) == Total(pre + [none], j) {
      TotalSnoc(pre, op, j);
      TotalSnoc(pre + [op], Null(n), j);
      TotalSnoc(pre, none, j);
    }
  }

  lemma Replace(pre: seq<Op>, op: Op, amount: int, lo: nat, hi: nat)
    requires Uniform(op, amount, lo, hi) && lo <= hi
    ensures Same(pre + [op], pre + [Null(amount)], lo, hi)
  {
    hide Total, View;
    ViewSnoc(pre, op, lo, hi);
    ViewSnoc(pre, Null(amount), lo, hi);
    forall j | lo <= j <= hi ensures Total(pre + [op], j) == Total(pre + [Null(amount)], j) {
      TotalSnoc(pre, op, j);
      TotalSnoc(pre, Null(amount), j);
    }
  }

  /** Such an operation may also be folded into the operation before it. */
  lemma AbsorbLeft(pre: seq<Op>, op: Op, next: Op, amount: int, lo: nat, hi: nat)
    requires Uniform(next, amount, lo, hi) && lo <= hi
    ensures Same(pre + [op] + [next], pre + [op.AddFull(amount)], lo, hi)
  {
    hide Total, View;
    var sum := op.AddFull(amount);
    ViewSnoc(pre, op, lo, hi);
    ViewSnoc(pre + [op], next, lo, hi);
    ViewSnoc(pre, sum, lo, hi);
    forall j | lo <= j <= hi ensures Total(pre + [op] + [next], j) == Total(pre + [sum], j) {
      TotalSnoc(pre, op, j);
      TotalSnoc(pre + [op], next, j);
      TotalSnoc(pre, sum, j);
    }
  }

  /** An empty Null operation can be inserted anywhere. */
  lemma InsertEmpty(pre: seq<Op>, lo: nat, hi: nat)
    requires lo <= hi
    ensures Same(pre + [Null(0)], pre, lo, hi)
  {
    hide Total, View;
    ViewSnoc(pre, Null(0), lo, hi);
    forall j | lo <= j <= hi ensures Total(pre + [Null(0)], j) == Total(pre, j) {
      TotalSnoc(pre, Null(0), j);
    }
  }
}
