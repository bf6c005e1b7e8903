/** How a range of cells is cut into parts, and how the part of a cell is found again.

    The program walks down from the right end by `dist / parts` and rounds each cut down; it
    finds the part of a target by dividing by the same amount and rounding up.  Both are
    exact here (`real`). */
module SplitPoints {

  /** First cell of part i of the `parts` parts of lo..lo+dist-1. */
  function Cut(lo: nat, dist: nat, parts: nat, i: nat): (c: nat)
    requires parts > 0
    ensures c >= lo
  {
    lo + i * dist / parts
  }

  function Ceil(x: real): int {
    -(-x).Floor
  }

  function DivFactor(dist: nat, parts: nat): real
    requires parts > 0
  {
    dist as real / parts as real
  }

  lemma DivFloor(a: int, n: int, q: int)
    requires n > 0
    ensures q <= a / n <==> q * n <= a
  {
    var k := a / n;
    assert k * n <= a < k * n + n;
    Ordering(q, k, n);
    Ordering(k + 1, q, n);
    assert (k + 1) * n == k * n + n;
  }

  lemma Ordering(x: int, y: int, n: int)
    requires n > 0
    ensures x <= y ==> x * n <= y * n
  {
    if x <= y {
      assert (y - x) * n >= 0;
      assert (y - x) * n == y * n - x * n;
    }
  }

  lemma CutEnds(lo: nat, dist: nat, parts: nat)
    requires parts > 0
    ensures Cut(lo, dist, parts, 0) == lo
    ensures Cut(lo, dist, parts, parts) == lo + dist
  {
    DivFloor(parts * dist, parts, dist);
    DivFloor(parts * dist, parts, dist + 1);
    assert (dist + 1) * parts > parts * dist;
    assert 0 * dist / parts == 0;
  }

  /** No part is empty as long as there are at least as many cells as parts. */
  lemma CutsIncrease(lo: nat, dist: nat, parts: nat, i: nat)
    requires 0 < parts <= dist
    ensures Cut(lo, dist, parts, i) < Cut(lo, dist, parts, i + 1)
  {
    var q := i * dist / parts;
    DivFloor(i * dist, parts, q);
    assert (i + 1) * dist == i * dist + dist;
    assert (q + 1) * parts == q * parts + parts;
    DivFloor((i + 1) * dist, parts, q + 1);
  }

  /** The parts differ by at most one cell. */
  lemma CutsEven(lo: nat, dist: nat, parts: nat, i: nat)
    requires 0 < parts
    ensures dist / parts <= Cut(lo, dist, parts, i + 1) - Cut(lo, dist, parts, i) <= dist / parts + 1
  {
    var q, e := i * dist / parts, dist / parts;
    DivFloor(i * dist, parts, q);
    DivFloor(i * dist, parts, q + 1);
    DivFloor(dist, parts, e);
    DivFloor(dist, parts, e + 1);
    assert (i + 1) * dist == i * dist + dist;
    assert (q + e) * parts == q * parts + e * parts;
    assert (q + e + 2) * parts == (q + 1) * parts + (e + 1) * parts;
    DivFloor((i + 1) * dist, parts, q + e);
    DivFloor((i + 1) * dist, parts, q + e + 2);
  }

  lemma {:induction false} CutsMonotone(lo: nat, dist: nat, parts: nat, i: nat, k: nat)
    requires 0 < parts <= dist && i <= k
    ensures Cut(lo, dist, parts, i) <= Cut(lo, dist, parts, k)
    ensures i < k ==> Cut(lo, dist, parts, i) < Cut(lo, dist, parts, k)
    decreases k
  {
    hide Cut;
    if i < k {
      CutsMonotone(lo, dist, parts, i, k - 1);
      CutsIncrease(lo, dist, parts, k - 1);
    }
  }

  /** Cell t is in part p exactly when p * dist < (t - lo + 1) * parts <= (p + 1) * dist. */
  lemma InPart(lo: nat, dist: nat, parts: nat, t: nat, p: nat)
    requires 0 < parts && lo <= t
    ensures Cut(lo, dist, parts, p) <= t <==> p * dist < (t - lo + 1) * parts
    ensures t < Cut(lo, dist, parts, p + 1) <==> (t - lo + 1) * parts <= (p + 1) * dist
  {
    var u := t - lo + 1;
    DivFloor(p * dist, parts, u);
    DivFloor((p + 1) * dist, parts, u);
  }

  /** ceil((t - (lo-1)) / divFactor) - 1, the part the program assigns to target t. */
  function PartOf(t: int, lo: int, divFactor: real): int
    requires divFactor > 0.0
  {
    Ceil((t - (lo - 1)) as real / divFactor) - 1
  }

  lemma CeilIs(x: real, p: int)
    requires p as real < x <= (p + 1) as real
    ensures Ceil(x) == p + 1
  {
  }

  lemma Scale(x: real, y: real, k: real)
    requires k > 0.0
    ensures x < y <==> x * k < y * k
  {
    if x < y { assert (y - x) * k > 0.0; }
    if y < x { assert (x - y) * k > 0.0; }
  }

  lemma RealQuotient(u: int, dist: nat, parts: nat, p: int)
    requires dist > 0 && parts > 0
    ensures u as real / DivFactor(dist, parts) <= p as real <==> u * parts <= p * dist
  {
    var d, k := dist as real, parts as real;
    var f := d / k;
    var x := u as real / f;
    assert f > 0.0 && f * k == d;
    assert x * f == u as real;
    assert x * d == u as real * k by {
      assert x * d == x * (f * k) == (x * f) * k;
    }
    assert (u * parts) as real == u as real * k;
    assert (p * dist) as real == p as real * d;
    Scale(p as real, x, d);
  }

  /** The program finds for every target the one part that contains it. */
  lemma PartOfIsInverse(t: nat, lo: nat, dist: nat, parts: nat, p: nat)
    requires 0 < parts && dist > 0 && lo <= t
    ensures PartOf(t, lo, DivFactor(dist, parts)) == p
            <==> Cut(lo, dist, parts, p) <= t < Cut(lo, dist, parts, p + 1)
  {
    hide Cut, DivFactor;
    var u := t - lo + 1;
    InPart(lo, dist, parts, t, p);
    RealQuotient(u, dist, parts, p);
    RealQuotient(u, dist, parts, p + 1);
    DivFactorPositive(dist, parts);
    var x := u as real / DivFactor(dist, parts);
    if p as real < x <= (p + 1) as real {
      CeilIs(x, p);
    }
  }

  lemma DivFactorPositive(dist: nat, parts: nat)
    requires dist > 0 && parts > 0
    ensures DivFactor(dist, parts) > 0.0
  {
  }

  lemma PartExists(t: nat, lo: nat, dist: nat, parts: nat, k: nat) returns (p: nat)
    requires 0 < parts && dist > 0 && lo <= t < Cut(lo, dist, parts, k)
    ensures p < k && Cut(lo, dist, parts, p) <= t < Cut(lo, dist, parts, p + 1)
  {
    hide Cut;
    CutEnds(lo, dist, parts);
    p := 0;
    while t >= Cut(lo, dist, parts, p + 1)
      invariant p < k && Cut(lo, dist, parts, p) <= t
      decreases k - p
    {
      p := p + 1;
    }
  }

  /** Walking down from hi by `dist / parts` and rounding down gives the cuts. */
  lemma FloorOfEnd(lo: nat, dist: nat, parts: nat, i: nat, fractionalEnd: real)
    requires lo > 0 && dist > 0 && parts > 0
    requires fractionalEnd == (lo - 1) as real + i as real * DivFactor(dist, parts)
    ensures fractionalEnd.Floor == Cut(lo, dist, parts, i) - 1
    ensures (fractionalEnd + 1.0).Floor == Cut(lo, dist, parts, i)
  {
    var x := i as real * DivFactor(dist, parts);
    FloorOfMultiple(dist, parts, i);
    var q := i * dist / parts;
    assert x.Floor == q;
  }

  lemma FloorOfMultiple(dist: nat, parts: nat, i: nat)
    requires parts > 0
    ensures (i as real * DivFactor(dist, parts)).Floor == i * dist / parts
  {
    var d, k := dist as real, parts as real;
    var x := i as real * (d / k);
    var q := i * dist / parts;
    Undivided(i as real, d, k);
    DivFloor(i * dist, parts, q);
    DivFloor(i * dist, parts, q + 1);
    assert (i * dist) as real == i as real * d;
    assert (q * parts) as real == q as real * k;
    assert ((q + 1) * parts) as real == (q + 1) as real * k;
    Scale(x, q as real, k);
    Scale(x, (q + 1) as real, k);
  }

  lemma Undivided(x: real, d: real, k: real)
    requires k > 0.0
    ensures x * (d / k) * k == x * d
  {
    assert (d / k) * k == d;
    assert x * (d / k) * k == x * ((d / k) * k);
  }
}
