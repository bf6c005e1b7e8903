/** From the sorted requests to the operations array, the number of ids and the living requests. */
module Populate {
  import opened Lru
  import opened Operations
  import opened Encoding
  import opened Requests

  // ---------------------------------------------------------------- the sparse operations array

  /** Slot s of the uncompacted array: requests 1, 2, ... own two slots each. */
  function SlotOp(tr: Trace, s: nat): Op
    requires s < 2 * |tr|
  {
    var k := s / 2 + 1;
    var p := Previous(tr, k);
    if s % 2 == 0 then MakePrefix(k - 1, if p > 0 then -1 else 0)
    else if p > 0 then Postfix(p, 0) else Null(0)
  }

  lemma NumbersDistinct(reqs: seq<Request>, tr: Trace, i: nat, k: nat)
    requires Represents(reqs, tr) && i < k < |reqs|
    ensures reqs[i].accessNumber != reqs[k].accessNumber
  {
    RepresentsExactly(reqs, tr);
  }

  /** Request m is written to its slots. */
  ghost predicate Filled(a: seq<Op>, tr: Trace, r: Request)
    requires |a| == 2 * |tr|
  {
    && 0 < r.accessNumber <= |tr|
    && a[2 * r.accessNumber - 2] == SlotOp(tr, 2 * r.accessNumber - 2)
    && a[2 * r.accessNumber - 1] == SlotOp(tr, 2 * r.accessNumber - 1)
  }

  ghost predicate Empty(a: seq<Op>, tr: Trace, r: Request)
    requires |a| == 2 * |tr|
  {
    && 0 < r.accessNumber <= |tr|
    && a[2 * r.accessNumber - 1] == Null(0)
  }

  lemma AllFilled(a: seq<Op>, reqs: seq<Request>, tr: Trace)
    requires |a| == 2 * |tr| && Represents(reqs, tr)
    requires forall m :: 0 <= m < |reqs| ==> Filled(a, tr, reqs[m])
    ensures forall s :: 0 <= s < |a| ==> a[s] == SlotOp(tr, s)
  {
    hide SlotOp;
    forall s | 0 <= s < |a| ensures a[s] == SlotOp(tr, s) {
      var k := s / 2;
      assert Request(tr[k], k + 1) in reqs;
      assert s == 2 * (k + 1) - 2 || s == 2 * (k + 1) - 1;
    }
  }

  // ---------------------------------------------------------------- compaction

  ghost function NonNull(s: seq<Op>): seq<Op> {
    if s == [] then []
    else NonNull(s[..|s| - 1]) + if s[|s| - 1].Null? then [] else [s[|s| - 1]]
  }

  lemma NonNullSnoc(s: seq<Op>, op: Op)
    ensures NonNull(s + [op]) == NonNull(s) + if op.Null? then [] else [op]
  {
    assert (s + [op])[..|s|] == s;
  }

  ghost function Compacted(a: seq<Op>): seq<Op>
    requires a != []
  {
    [a[0]] + NonNull(a[1..])
  }

  /** Compacting the sparse array gives the encoding. */
  lemma {:induction false} CompactedIsEncode(a: seq<Op>, tr: Trace, n: nat)
    requires 0 < n <= |tr| && |a| == 2 * |tr|
    requires forall s :: 0 <= s < |a| ==> a[s] == SlotOp(tr, s)
    ensures Compacted(a[..2 * n]) == Encode(tr, n)
  {
    hide NonNull, Encode, Previous;
    EncodeStep(tr, n);
    EncodeNone(tr);
    assert a[2 * n - 2] == SlotOp(tr, 2 * n - 2) && a[2 * n - 1] == SlotOp(tr, 2 * n - 1);
    if n == 1 {
      assert a[..2][1..] == [] + [a[1]];
      NonNullSnoc([], a[1]);
      NonNullNone();
    } else {
      CompactedIsEncode(a, tr, n - 1);
      CompactTwoMore(a, n - 1);
    }
  }

  lemma CompactTwoMore(a: seq<Op>, m: nat)
    requires 0 < m && 2 * m + 2 <= |a|
    ensures Compacted(a[..2 * m + 2]) == Compacted(a[..2 * m])
            + (if a[2 * m].Null? then [] else [a[2 * m]]) + (if a[2 * m + 1].Null? then [] else [a[2 * m + 1]])
  {
    hide NonNull;
    var mid := a[..2 * m][1..];
    assert a[..2 * m + 2][1..] == mid + [a[2 * m]] + [a[2 * m + 1]];
    NonNullSnoc(mid, a[2 * m]);
    NonNullSnoc(mid + [a[2 * m]], a[2 * m + 1]);
  }

  lemma NonNullNone()
    ensures NonNull([]) == []
  {
  }

  /** Moves the non-null operations to the front, in place, and returns how many there are. */
  method Compact(a: array<Op>) returns (placeIdx: nat)
    requires a.Length > 0
    modifies a
    ensures placeIdx <= a.Length
    ensures a[..placeIdx] == Compacted(old(a[..]))
  {
    hide NonNull;
    ghost var s := a[..];
    placeIdx := 1;
    NonNullNone();
    assert s[1..1] == [];
    for curIdx := 1 to a.Length
      invariant 1 <= placeIdx <= curIdx
      invariant a[..placeIdx] == [s[0]] + NonNull(s[1..curIdx])
      invariant forall k :: curIdx <= k < a.Length ==> a[k] == s[k]
    {
      NonNullSnoc(s[1..curIdx], s[curIdx]);
      assert s[1..curIdx + 1] == s[1..curIdx] + [s[curIdx]];
      if !a[curIdx].Null? {
        a[placeIdx] := a[curIdx];
        placeIdx := placeIdx + 1;
      }
    }
    assert s[1..a.Length] == s[1..];
  }

  // ---------------------------------------------------------------- counting ids

  ghost function Addrs(reqs: seq<Request>, i: nat): seq<Id>
    requires i <= |reqs|
  {
    seq(i, k requires 0 <= k < i => reqs[k].addr)
  }

  lemma NewAddr(reqs: seq<Request>, tr: Trace, i: nat)
    requires SortedRequests(reqs, tr) && i < |reqs|
    ensures Addrs(reqs, i + 1) == Addrs(reqs, i) + [reqs[i].addr]
    ensures reqs[i].addr in Addrs(reqs, i) <==> i > 0 && reqs[i - 1].addr == reqs[i].addr
  {
    if i > 0 && reqs[i - 1].addr == reqs[i].addr {
      assert Addrs(reqs, i)[i - 1] == reqs[i].addr;
    } else if i > 0 {
      forall m | 0 <= m < i ensures reqs[m].addr != reqs[i].addr {
        PositionOrder(reqs, m, i);
        PositionOrder(reqs, i - 1, i);
        PositionOrder(reqs, m, i - 1);
      }
    }
  }

  lemma AddrsAreIds(reqs: seq<Request>, tr: Trace)
    requires Represents(reqs, tr)
    ensures |Elements(Addrs(reqs, |reqs|))| == DistinctIds(tr, |tr|)
  {
    RepresentsExactly(reqs, tr);
    var addrs := Addrs(reqs, |reqs|);
    forall x ensures x in Elements(addrs) <==> x in Elements(tr) {
      if x in addrs {
        var i :| 0 <= i < |addrs| && addrs[i] == x;
        assert tr[reqs[i].accessNumber - 1] == x;
      }
      if x in tr {
        var k :| 0 <= k < |tr| && tr[k] == x;
        assert Request(x, k + 1) in reqs;
        var i :| 0 <= i < |reqs| && reqs[i] == Request(x, k + 1);
        assert addrs[i] == x;
      }
    }
    assert Elements(addrs) == Elements(tr);
    assert tr[..|tr|] == tr;
  }

  // ---------------------------------------------------------------- living requests

  /** The requests before i that are the last of their id in the sorted list. */
  ghost function GroupEnds(reqs: seq<Request>, i: nat): seq<Request>
    requires i <= |reqs|
  {
    if i <= 1 then []
    else GroupEnds(reqs, i - 1) + if reqs[i - 1].addr != reqs[i - 2].addr then [reqs[i - 2]] else []
  }

  lemma {:induction false} GroupEndsMembers(reqs: seq<Request>, i: nat, x: Request)
    requires i <= |reqs|
    ensures x in GroupEnds(reqs, i) <==> exists m :: 0 <= m < i - 1 && reqs[m] == x && reqs[m + 1].addr != x.addr
  {
    if i > 1 {
      GroupEndsMembers(reqs, i - 1, x);
    }
  }

  lemma {:induction false} GroupEndsDistinct(reqs: seq<Request>, i: nat)
    requires 0 < i <= |reqs| && Distinct(reqs)
    ensures Distinct(GroupEnds(reqs, i)) && reqs[i - 1] !in GroupEnds(reqs, i)
  {
    GroupEndsMembers(reqs, i, reqs[i - 1]);
    if i > 1 {
      GroupEndsDistinct(reqs, i - 1);
    }
  }

  /** The living requests of a trace: its last access of every id, oldest first. */
  ghost function LivingOf(tr: Trace): seq<Request> {
    var st := Stack(tr, |tr|);
    seq(|st|, i requires 0 <= i < |st| => Request(st[|st| - 1 - i], LastAccess(tr, |tr|, st[|st| - 1 - i])))
  }

  lemma LivingSorted(tr: Trace)
    ensures StrictlySorted(LivingOf(tr), LessByAccess)
  {
    hide Stack, LastAccess;
    StackSorted(tr, |tr|);
  }

  lemma LivingMembers(tr: Trace, x: Request)
    ensures x in LivingOf(tr) <==> x.accessNumber > 0 && LastAccess(tr, |tr|, x.addr) == x.accessNumber
  {
    hide Stack, LastAccess;
    StackFacts(tr, |tr|);
    var st, l := Stack(tr, |tr|), LivingOf(tr);
    if x in l {
      var i :| 0 <= i < |l| && l[i] == x;
      assert st[|st| - 1 - i] in st;
    }
    if x.addr in st && LastAccess(tr, |tr|, x.addr) == x.accessNumber {
      var j :| 0 <= j < |st| && st[j] == x.addr;
      assert l[|st| - 1 - j] == x;
    }
  }

  ghost function Ends(reqs: seq<Request>): seq<Request>
    requires reqs != []
  {
    GroupEnds(reqs, |reqs|) + [reqs[|reqs| - 1]]
  }

  lemma EndsAre(reqs: seq<Request>, x: Request)
    requires reqs != []
    ensures x in Ends(reqs) <==>
            exists m :: 0 <= m < |reqs| && reqs[m] == x && (m == |reqs| - 1 || reqs[m + 1].addr != x.addr)
  {
    hide GroupEnds;
    GroupEndsMembers(reqs, |reqs|, x);
  }

  lemma EndsMembers(reqs: seq<Request>, tr: Trace, x: Request)
    requires SortedRequests(reqs, tr) && reqs != []
    ensures x in Ends(reqs) <==> x in LivingOf(tr)
  {
    hide Ends, LivingOf, LastAccess, StrictlySorted, Represents;
    EndsAre(reqs, x);
    LivingMembers(tr, x);
    if x in Ends(reqs) {
      var m :| 0 <= m < |reqs| && reqs[m] == x && (m == |reqs| - 1 || reqs[m + 1].addr != x.addr);
      LastOfGroup(reqs, tr, m);
    }
    if x in LivingOf(tr) {
      var m := PlaceOfRequest(reqs, tr, x.accessNumber);
      if m < |reqs| - 1 { LastIsGroupEnd(reqs, tr, m); }
    }
  }

  /** Sorting the ends of the groups by access number gives the living requests. */
  lemma LivingIsSortedEnds(reqs: seq<Request>, tr: Trace)
    requires SortedRequests(reqs, tr) && reqs != []
    ensures Sort(Ends(reqs), LessByAccess) == LivingOf(tr)
  {
    hide GroupEnds, LivingOf, Sort;
    var ends := Ends(reqs);
    var s := Sort(ends, LessByAccess);
    OrderByAccess();
    SortIsSorted(ends, LessByAccess);
    SameMembers(s, ends);
    forall x ensures x in s <==> x in LivingOf(tr) { EndsMembers(reqs, tr, x); }
    RepresentsExactly(reqs, tr);
    GroupEndsDistinct(reqs, |reqs|);
    assert Distinct(ends);
    SortKeepsDistinct(s, ends);
    forall i, k | 0 <= i < k < |s| ensures LessByAccess(s[i], s[k]) {
      LivingMembers(tr, s[i]);
      LivingMembers(tr, s[k]);
      assert s[i] in s && s[k] in s;
    }
    LivingSorted(tr);
    StrictlySortedUnique(s, LivingOf(tr), LessByAccess);
  }

  lemma SortKeepsDistinct(s: seq<Request>, t: seq<Request>)
    requires SameElements(s, t) && Distinct(t)
    ensures Distinct(s)
  {
    SameMembers(s, t);
    ElementsOfDistinct(t);
    ElementsBound(s);
    assert Elements(s) == Elements(t);
  }
}
