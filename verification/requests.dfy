/** Numbered requests, their two sort orders, and what a sorted list of them tells. */
module Requests {
  import opened Lru

  datatype Request = Request(addr: Id, accessNumber: nat)

  /** By id, then by access number. */
  predicate LessByAddr(a: Request, b: Request) {
    a.addr < b.addr || (a.addr == b.addr && a.accessNumber < b.accessNumber)
  }

  predicate LessByAccess(a: Request, b: Request) {
    a.accessNumber < b.accessNumber
  }

  /** reqs holds, in some order, every request of the trace with its number. */
  ghost predicate Represents(reqs: seq<Request>, tr: Trace) {
    && |reqs| == |tr|
    && forall k :: 0 <= k < |tr| ==> Request(tr[k], k + 1) in reqs
  }

  // ---------------------------------------------------------------- sorting

  ghost predicate Sorted(s: seq<Request>, less: (Request, Request) -> bool) {
    forall i, k :: 0 <= i < k < |s| ==> !less(s[k], s[i])
  }

  ghost predicate StrictlySorted(s: seq<Request>, less: (Request, Request) -> bool) {
    forall i, k :: 0 <= i < k < |s| ==> less(s[i], s[k])
  }

  ghost predicate SameElements(a: seq<Request>, b: seq<Request>) {
    multiset(a) == multiset(b)
  }

  ghost predicate Order(less: (Request, Request) -> bool) {
    && (forall x, y, z :: less(x, y) && less(y, z) ==> less(x, z))
    && (forall x, y, z :: !less(y, x) && !less(z, y) ==> !less(z, x))
    && (forall x, y :: less(x, y) ==> !less(y, x))
  }

  function Insert(s: seq<Request>, x: Request, less: (Request, Request) -> bool): (r: seq<Request>)
    ensures |r| == |s| + 1
  {
    if s == [] || !less(x, s[|s| - 1]) then s + [x]
    else Insert(s[..|s| - 1], x, less) + [s[|s| - 1]]
  }

  function Sort(s: seq<Request>, less: (Request, Request) -> bool): (r: seq<Request>)
    ensures |r| == |s|
  {
    if s == [] then [] else Insert(Sort(s[..|s| - 1], less), s[|s| - 1], less)
  }

  lemma {:induction false} InsertMembers(s: seq<Request>, x: Request, less: (Request, Request) -> bool, y: Request)
    ensures y in Insert(s, x, less) <==> y in s || y == x
  {
    if s != [] && less(x, s[|s| - 1]) {
      assert s == s[..|s| - 1] + [s[|s| - 1]];
      InsertMembers(s[..|s| - 1], x, less, y);
    }
  }

  lemma {:induction false} InsertSorted(s: seq<Request>, x: Request, less: (Request, Request) -> bool)
    requires Order(less) && Sorted(s, less)
    ensures Sorted(Insert(s, x, less), less)
  {
    if s == [] || !less(x, s[|s| - 1]) {
      assert forall i :: 0 <= i < |s| ==> !less(s[|s| - 1], s[i]);
    } else {
      var last, init := s[|s| - 1], s[..|s| - 1];
      InsertSorted(init, x, less);
      var r := Insert(init, x, less);
      forall i | 0 <= i < |r| ensures !less(last, r[i]) {
        InsertMembers(init, x, less, r[i]);
      }
    }
  }

  lemma {:induction false} InsertMultiset(s: seq<Request>, x: Request, less: (Request, Request) -> bool)
    ensures multiset(Insert(s, x, less)) == multiset(s + [x])
  {
    if s != [] && less(x, s[|s| - 1]) {
      assert s == s[..|s| - 1] + [s[|s| - 1]];
      InsertMultiset(s[..|s| - 1], x, less);
    }
  }

  /** std::sort: a sorted permutation. */
  lemma {:induction false} SortIsSorted(s: seq<Request>, less: (Request, Request) -> bool)
    requires Order(less)
    ensures Sorted(Sort(s, less), less)
    ensures multiset(Sort(s, less)) == multiset(s)
  {
    hide Order;
    if s != [] {
      var init, last := s[..|s| - 1], s[|s| - 1];
      SortIsSorted(init, less);
      InsertSorted(Sort(init, less), last, less);
      InsertMultiset(Sort(init, less), last, less);
      assert s == init + [last];
    }
  }

  lemma SameMembers(a: seq<Request>, b: seq<Request>)
    requires SameElements(a, b)
    ensures |a| == |b| && forall x :: x in a <==> x in b
  {
    assert |multiset(a)| == |a| && |multiset(b)| == |b|;
    forall x ensures x in a <==> x in b {
      assert x in multiset(a) <==> x in a;
      assert x in multiset(b) <==> x in b;
    }
  }

  /** Sorting leaves a list unchanged exactly when it is sorted already. */
  lemma SortUnchanged(s: seq<Request>, less: (Request, Request) -> bool)
    requires Order(less)
    ensures Sort(s, less) == s <==> Sorted(s, less)
  {
    hide Order, Sorted;
    SortIsSorted(s, less);
    if Sorted(s, less) { SortOfSorted(s, less); }
  }

  lemma {:induction false} SortOfSorted(s: seq<Request>, less: (Request, Request) -> bool)
    requires Sorted(s, less)
    ensures Sort(s, less) == s
  {
    if s != [] {
      SortOfSorted(s[..|s| - 1], less);
    }
  }

  /** The list of the trace 2, 1 does not come back as it was. */
  lemma SortChangesTrace21()
    ensures var s := [Request(2, 1), Request(1, 2)];
            Represents(s, [2, 1]) && Sort(s, LessByAddr) == [Request(1, 2), Request(2, 1)] != s
  {
    var s := [Request(2, 1), Request(1, 2)];
    assert s[0] in s && s[1] in s;
    assert s[..1] == [Request(2, 1)];
    assert [Request(2, 1)][..0] == [];
    assert Sort(s[..1], LessByAddr) == [Request(2, 1)];
    assert Insert([], Request(1, 2), LessByAddr) == [Request(1, 2)];
  }

  lemma OrderByAddr()
    ensures Order(LessByAddr)
  {
  }

  lemma OrderByAccess()
    ensures Order(LessByAccess)
  {
  }

  lemma InInit(a: seq<Request>, x: Request, less: (Request, Request) -> bool)
    requires Order(less) && StrictlySorted(a, less) && a != []
    ensures x in a[..|a| - 1] <==> x in a && x != a[|a| - 1]
  {
    var init, last := a[..|a| - 1], a[|a| - 1];
    assert a == init + [last];
    forall j | 0 <= j < |init| ensures init[j] != last {
      assert less(a[j], a[|a| - 1]);
    }
  }

  /** Two strictly sorted lists with the same elements are the same list. */
  lemma {:induction false} StrictlySortedUnique(a: seq<Request>, b: seq<Request>, less: (Request, Request) -> bool)
    requires Order(less) && StrictlySorted(a, less) && StrictlySorted(b, less)
    requires forall x :: x in a <==> x in b
    ensures a == b
  {
    if b != [] { assert b[|b| - 1] in a; }
    if a != [] {
      assert a[|a| - 1] in b;
      var i, k := |a| - 1, |b| - 1;
      assert a[i] == b[k];
      forall x ensures x in a[..i] <==> x in b[..k] {
        InInit(a, x, less);
        InInit(b, x, less);
      }
      StrictlySortedUnique(a[..i], b[..k], less);
      assert a == a[..i] + [a[i]] && b == b[..k] + [b[k]];
    }
  }

  // ---------------------------------------------------------------- the requests of a trace

  lemma {:induction false} ElementsBound<T>(s: seq<T>)
    ensures |Elements(s)| <= |s|
    ensures |Elements(s)| == |s| ==> Distinct(s)
  {
    hide Elements;
    if s == [] {
      NoElements<T>();
    } else {
      var init, last := s[..|s| - 1], s[|s| - 1];
      ElementsBound(init);
      CountOfSnoc(init, last);
      assert s == init + [last];
    }
  }

  ghost function Numbered(tr: Trace): seq<Request> {
    seq(|tr|, i requires 0 <= i < |tr| => Request(tr[i], i + 1))
  }

  /** So the list has no duplicates and holds nothing else. */
  lemma RepresentsExactly(reqs: seq<Request>, tr: Trace)
    requires Represents(reqs, tr)
    ensures Distinct(reqs)
    ensures forall i :: 0 <= i < |reqs| ==>
              0 < reqs[i].accessNumber <= |tr| && tr[reqs[i].accessNumber - 1] == reqs[i].addr
  {
    var all := Numbered(tr);
    ElementsOfDistinct(all);
    ElementsBound(reqs);
    assert Elements(all) <= Elements(reqs);
    SubsetSize(Elements(all), Elements(reqs));
    forall i | 0 <= i < |reqs|
      ensures 0 < reqs[i].accessNumber <= |tr| && tr[reqs[i].accessNumber - 1] == reqs[i].addr
    {
      assert reqs[i] in Elements(reqs);
      assert reqs[i] in Elements(all);
    }
  }

  lemma SubsetSize<T>(a: set<T>, b: set<T>)
    requires a <= b
    ensures |a| <= |b|
    ensures |a| == |b| ==> a == b
  {
    assert b == a + (b - a);
  }

  lemma RepresentsSnoc(reqs: seq<Request>, tr: Trace, x: Id)
    requires Represents(reqs, tr)
    ensures Represents(reqs + [Request(x, |reqs| + 1)], tr + [x])
  {
    var reqs' := reqs + [Request(x, |reqs| + 1)];
    forall k | 0 <= k < |tr + [x]| ensures Request((tr + [x])[k], k + 1) in reqs' {
      if k == |tr| { assert reqs'[|reqs|] == Request(x, k + 1); }
    }
  }

  /** A list of requests sorted by id. */
  ghost predicate SortedRequests(reqs: seq<Request>, tr: Trace) {
    Represents(reqs, tr) && StrictlySorted(reqs, LessByAddr)
  }

  lemma SortRequests(reqs: seq<Request>, tr: Trace)
    requires Represents(reqs, tr)
    ensures SortedRequests(Sort(reqs, LessByAddr), tr)
  {
    var s := Sort(reqs, LessByAddr);
    OrderByAddr();
    SortIsSorted(reqs, LessByAddr);
    SameMembers(s, reqs);
    RepresentsExactly(s, tr);
  }

  /** a is b in ascending order, by id and then by access number. */
  ghost predicate SortedCopy(a: seq<Request>, b: seq<Request>) {
    && multiset(a) == multiset(b)
    && forall i, k :: 0 <= i < k < |a| ==>
         a[i].addr < a[k].addr || (a[i].addr == a[k].addr && a[i].accessNumber < a[k].accessNumber)
  }

  lemma SortGivesCopy(reqs: seq<Request>, tr: Trace)
    requires Represents(reqs, tr)
    ensures SortedCopy(Sort(reqs, LessByAddr), reqs)
  {
    hide Sort;
    OrderByAddr();
    SortIsSorted(reqs, LessByAddr);
    SortRequests(reqs, tr);
  }

  lemma PositionOrder(reqs: seq<Request>, i: nat, k: nat)
    requires StrictlySorted(reqs, LessByAddr) && i < |reqs| && k < |reqs|
    ensures LessByAddr(reqs[i], reqs[k]) <==> i < k
  {
    if k < i { assert LessByAddr(reqs[k], reqs[i]); }
  }

  lemma PlaceOfRequest(reqs: seq<Request>, tr: Trace, q: nat) returns (m: nat)
    requires Represents(reqs, tr) && 0 < q <= |tr|
    ensures m < |reqs| && reqs[m] == Request(tr[q - 1], q)
  {
    assert Request(tr[q - 1], q - 1 + 1) in reqs;
    m :| 0 <= m < |reqs| && reqs[m] == Request(tr[q - 1], q);
  }

  /** In the sorted list the left neighbour is the previous access to the same id, if there is one. */
  lemma NeighbourIsPrevious(reqs: seq<Request>, tr: Trace, i: nat)
    requires SortedRequests(reqs, tr) && i < |reqs|
    ensures 0 < reqs[i].accessNumber <= |tr| && tr[reqs[i].accessNumber - 1] == reqs[i].addr
    ensures LastAccess(tr, reqs[i].accessNumber - 1, reqs[i].addr)
            == if i > 0 && reqs[i - 1].addr == reqs[i].addr then reqs[i - 1].accessNumber else 0
  {
    hide LastAccess, StrictlySorted, Distinct;
    RepresentsExactly(reqs, tr);
    var x, n := reqs[i].addr, reqs[i].accessNumber;
    var q := LastAccess(tr, n - 1, x);
    if q > 0 {
      var m := PlaceOfRequest(reqs, tr, q);
      PositionOrder(reqs, m, i);
      PositionOrder(reqs, i - 1, i);
      PositionOrder(reqs, m, i - 1);
      PositionOrder(reqs, i - 1, m);
    } else if i > 0 {
      PositionOrder(reqs, i - 1, i);
    }
  }

  /** In the sorted list the last entry of each id is its last access. */
  lemma LastOfGroup(reqs: seq<Request>, tr: Trace, i: nat)
    requires SortedRequests(reqs, tr) && i < |reqs|
    requires i == |reqs| - 1 || reqs[i + 1].addr != reqs[i].addr
    ensures LastAccess(tr, |tr|, reqs[i].addr) == reqs[i].accessNumber > 0
  {
    RepresentsExactly(reqs, tr);
    var x, n := reqs[i].addr, reqs[i].accessNumber;
    var q := LastAccess(tr, |tr|, x);
    assert q >= n;
    var m := PlaceOfRequest(reqs, tr, q);
    PositionOrder(reqs, m, i);
    PositionOrder(reqs, i, m);
    if i < |reqs| - 1 {
      PositionOrder(reqs, i, i + 1);
      PositionOrder(reqs, i + 1, m);
    }
  }

  lemma LastIsGroupEnd(reqs: seq<Request>, tr: Trace, i: nat)
    requires SortedRequests(reqs, tr) && i < |reqs| - 1
    requires LastAccess(tr, |tr|, reqs[i].addr) == reqs[i].accessNumber
    ensures reqs[i + 1].addr != reqs[i].addr
  {
    RepresentsExactly(reqs, tr);
    PositionOrder(reqs, i, i + 1);
    assert tr[reqs[i + 1].accessNumber - 1] == reqs[i + 1].addr;
  }
}
