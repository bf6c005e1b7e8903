/** What the simulators are meant to compute.

    A trace is the sequence of requested ids, oldest first; every function below speaks of
    its first n requests.  The LRU stack lists the ids seen so far, most recently used
    first; the depth of a request is the position (from 1) of its id in the stack just
    before the request, and 0 if the id is new.  Independently of the stack, `Cache` runs an
    actual LRU cache of a given capacity, evicting as it goes.  The theorems connect the
    two: one pass over the depths answers every capacity. */
module Lru {
  type Id = nat
  type Trace = seq<Id>

  // ---------------------------------------------------------------- sequences of ids

  ghost predicate Distinct<T>(s: seq<T>) {
    forall i, j :: 0 <= i < j < |s| ==> s[i] != s[j]
  }

  ghost function Elements<T>(s: seq<T>): set<T> {
    set x | x in s
  }

  function Min(a: nat, b: nat): nat {
    if a <= b then a else b
  }

  function Take<T>(s: seq<T>, n: nat): (r: seq<T>) {
    s[..Min(n, |s|)]
  }

  /** A position of x in s (the position, when s has no duplicates), or |s| if there is none. */
  ghost function IndexOf(s: seq<Id>, x: Id): (i: nat)
    ensures i <= |s|
    ensures i < |s| ==> s[i] == x
    ensures i == |s| <==> x !in s
  {
    if x in s then var i :| 0 <= i < |s| && s[i] == x; i else |s|
  }

  ghost function Without(s: seq<Id>, x: Id): (r: seq<Id>) {
    var i := IndexOf(s, x);
    if i < |s| then s[..i] + s[i + 1..] else s
  }

  lemma {:induction false} ElementsOfDistinct<T>(s: seq<T>)
    requires Distinct(s)
    ensures |Elements(s)| == |s|
  {
    hide Elements;
    if s != [] {
      var s' := s[..|s| - 1];
      ElementsOfDistinct(s');
      CountOfSnoc(s', s[|s| - 1]);
      assert s == s' + [s[|s| - 1]];
      assert s[|s| - 1] !in s';
    } else {
      NoElements<T>();
    }
  }

  lemma ElementsOfSnoc<T>(a: seq<T>, x: T)
    ensures Elements(a + [x]) == Elements(a) + {x}
  {
  }

  lemma NoElements<T>()
    ensures |Elements<T>([])| == 0
  {
    assert Elements<T>([]) == {};
  }

  lemma CountOfSnoc<T>(a: seq<T>, x: T)
    ensures |Elements(a + [x])| == |Elements(a)| + if x in a then 0 else 1
  {
    ElementsOfSnoc(a, x);
    if x in a { assert Elements(a) + {x} == Elements(a); }
  }

  lemma IndexOfIs(s: seq<Id>, k: nat)
    requires Distinct(s) && k < |s|
    ensures IndexOf(s, s[k]) == k
  {
    assert s[k] in s;
  }

  lemma WithoutFacts(s: seq<Id>, x: Id)
    requires Distinct(s)
    ensures Distinct(Without(s, x)) && x !in Without(s, x)
    ensures forall y :: y in Without(s, x) <==> y in s && y != x
  {
    var r := Without(s, x);
    var i := IndexOf(s, x);
    forall y | y in s && y != x ensures y in r {
      var k :| 0 <= k < |s| && s[k] == y;
      assert y == if k < i then r[k] else r[k - 1];
    }
  }

  ghost function Touch(stack: seq<Id>, x: Id): seq<Id> {
    [x] + Without(stack, x)
  }

  lemma TouchFacts(st: seq<Id>, x: Id)
    requires Distinct(st)
    ensures Distinct(Touch(st, x))
    ensures forall y :: y in Touch(st, x) <==> y in st || y == x
  {
    WithoutFacts(st, x);
    var r := Without(st, x);
    forall k | 0 <= k < |r| ensures r[k] != x { assert r[k] in r; }
  }

  lemma TouchIsFirst(st: seq<Id>, x: Id)
    requires Distinct(st)
    ensures |Touch(st, x)| > 0 && IndexOf(Touch(st, x), x) == 0
  {
    TouchFacts(st, x);
    IndexOfIs(Touch(st, x), 0);
  }

  /** Touching y pushes x down by one place exactly when y was below x, or new. */
  lemma IndexAfterTouch(st: seq<Id>, x: Id, y: Id)
    requires Distinct(st) && IndexOf(st, x) < |st| && x != y
    ensures IndexOf(Touch(st, y), x) == IndexOf(st, x) + if IndexOf(st, x) < IndexOf(st, y) then 1 else 0
    ensures IndexOf(Touch(st, y), x) < |Touch(st, y)|
  {
    TouchFacts(st, y);
    var i := IndexOf(st, x);
    var i' := i + if i < IndexOf(st, y) then 1 else 0;
    assert Touch(st, y)[i'] == x;
    IndexOfIs(Touch(st, y), i');
  }

  // ---------------------------------------------------------------- the LRU stack

  /** The ids among the first n requests, most recently used first. */
  ghost function Stack(tr: Trace, n: nat): seq<Id>
    requires n <= |tr|
  {
    if n == 0 then [] else Touch(Stack(tr, n - 1), tr[n - 1])
  }

  lemma StackStep(tr: Trace, n: nat)
    requires n <= |tr|
    ensures Stack(tr, n) == if n == 0 then [] else Touch(Stack(tr, n - 1), tr[n - 1])
  {
  }

  /** 1-based position of the last request for x among the first n, 0 if there is none. */
  function LastAccess(tr: Trace, n: nat, x: Id): (p: nat)
    requires n <= |tr|
    ensures p <= n
    ensures p > 0 ==> tr[p - 1] == x
    ensures forall k :: p <= k < n ==> tr[k] != x
  {
    if n == 0 then 0
    else if tr[n - 1] == x then n
    else LastAccess(tr, n - 1, x)
  }

  lemma {:induction false} StackFacts(tr: Trace, n: nat)
    requires n <= |tr|
    ensures Distinct(Stack(tr, n))
    ensures forall x {:trigger x in Stack(tr, n)} :: x in Stack(tr, n) <==> LastAccess(tr, n, x) > 0
  {
    hide Touch, Without;
    if n > 0 {
      StackFacts(tr, n - 1);
      TouchFacts(Stack(tr, n - 1), tr[n - 1]);
    }
  }

  ghost predicate SortedByLastAccess(st: seq<Id>, tr: Trace, n: nat)
    requires n <= |tr|
  {
    forall i, j :: 0 <= i < j < |st| ==> LastAccess(tr, n, st[i]) > LastAccess(tr, n, st[j])
  }

  lemma WithoutByIndex(s: seq<Id>, x: Id, k: nat)
    requires Distinct(s) && k < |Without(s, x)|
    ensures k + (if k < IndexOf(s, x) then 0 else 1) < |s|
    ensures Without(s, x)[k] == s[if k < IndexOf(s, x) then k else k + 1] != x
  {
    if x !in s { assert s[k] in s; }
  }

  lemma SortedWithout(st: seq<Id>, tr: Trace, n: nat)
    requires 0 < n <= |tr| && Distinct(st) && SortedByLastAccess(st, tr, n - 1)
    ensures SortedByLastAccess(Without(st, tr[n - 1]), tr, n)
  {
    hide Without;
    var rest := Without(st, tr[n - 1]);
    forall i, j | 0 <= i < j < |rest| ensures LastAccess(tr, n, rest[i]) > LastAccess(tr, n, rest[j]) {
      WithoutByIndex(st, tr[n - 1], i);
      WithoutByIndex(st, tr[n - 1], j);
    }
  }

  /** The stack is sorted by last access, most recent first. */
  lemma {:induction false} StackSorted(tr: Trace, n: nat)
    requires n <= |tr|
    ensures SortedByLastAccess(Stack(tr, n), tr, n)
  {
    hide Stack, Without;
    StackStep(tr, n);
    if n > 0 {
      StackSorted(tr, n - 1);
      StackFacts(tr, n - 1);
      var st, y := Stack(tr, n - 1), tr[n - 1];
      SortedWithout(st, tr, n);
      forall k | 0 <= k < |Without(st, y)| ensures LastAccess(tr, n, Without(st, y)[k]) < n {
        WithoutByIndex(st, y, k);
      }
    }
  }

  lemma RecencyOrder(tr: Trace, n: nat, x: Id, y: Id)
    requires n <= |tr| && x != y && LastAccess(tr, n, x) > 0
    ensures IndexOf(Stack(tr, n), x) < |Stack(tr, n)|
    ensures IndexOf(Stack(tr, n), x) < IndexOf(Stack(tr, n), y) <==> LastAccess(tr, n, y) < LastAccess(tr, n, x)
  {
    hide Stack, LastAccess;
    StackFacts(tr, n);
    StackSorted(tr, n);
  }

  // ---------------------------------------------------------------- depths

  /** Depth at which x would be found by a request following the first n; 0 for a new id. */
  ghost function Depth(tr: Trace, n: nat, x: Id): (d: nat)
    requires n <= |tr|
  {
    var i := IndexOf(Stack(tr, n), x);
    if i < |Stack(tr, n)| then i + 1 else 0
  }

  /** Requests at positions p+1..n that are the first for their id since position p. */
  ghost function Window(tr: Trace, p: nat, n: nat): nat
    requires n <= |tr|
  {
    if n <= p then 0
    else Window(tr, p, n - 1) + if LastAccess(tr, n - 1, tr[n - 1]) <= p then 1 else 0
  }

  lemma InWindow(tr: Trace, p: nat, n: nat, y: Id)
    requires p <= n <= |tr|
    ensures y in tr[p..n] <==> LastAccess(tr, n, y) > p
  {
    var q := LastAccess(tr, n, y);
    if q > p { assert tr[p..n][q - 1 - p] == y; }
  }

  lemma {:induction false} WindowCountsDistinctIds(tr: Trace, p: nat, n: nat)
    requires p <= n <= |tr|
    ensures Window(tr, p, n) == |Elements(tr[p..n])|
  {
    hide Elements, LastAccess;
    if p < n {
      var y := tr[n - 1];
      WindowCountsDistinctIds(tr, p, n - 1);
      assert tr[p..n] == tr[p..n - 1] + [y];
      CountOfSnoc(tr[p..n - 1], y);
      InWindow(tr, p, n - 1, y);
    } else {
      assert tr[p..n] == [];
      NoElements<Id>();
    }
  }

  /** The depth of a repeated id counts the distinct ids requested since its last use. */
  lemma {:induction false} DepthIsWindow(tr: Trace, n: nat, x: Id)
    requires n <= |tr| && LastAccess(tr, n, x) > 0
    ensures Depth(tr, n, x) == 1 + Window(tr, LastAccess(tr, n, x), n)
  {
    hide Touch, Without, Stack;
    var y := tr[n - 1];
    StackStep(tr, n);
    StackFacts(tr, n - 1);
    if x != y {
      DepthIsWindow(tr, n - 1, x);
      RecencyOrder(tr, n - 1, x, y);
      IndexAfterTouch(Stack(tr, n - 1), x, y);
    } else {
      TouchIsFirst(Stack(tr, n - 1), y);
    }
  }

  /** The number of distinct ids among the first n requests. */
  ghost function DistinctIds(tr: Trace, n: nat): nat
    requires n <= |tr|
  {
    |Elements(tr[..n])|
  }

  lemma {:induction false} StackSize(tr: Trace, n: nat)
    requires n <= |tr|
    ensures |Stack(tr, n)| == DistinctIds(tr, n)
  {
    StackFacts(tr, n);
    ElementsOfDistinct(Stack(tr, n));
    forall x ensures x in Elements(Stack(tr, n)) <==> x in Elements(tr[..n]) {
      var p := LastAccess(tr, n, x);
      if p > 0 { assert tr[..n][p - 1] == x; }
    }
    assert Elements(Stack(tr, n)) == Elements(tr[..n]);
  }

  /** Longer prefixes have no fewer ids. */
  lemma {:induction false} DistinctIdsGrow(tr: Trace, m: nat, n: nat)
    requires m <= n <= |tr|
    ensures DistinctIds(tr, m) <= DistinctIds(tr, n)
  {
    hide Elements;
    if m < n {
      DistinctIdsGrow(tr, m, n - 1);
      assert tr[..n] == tr[..n - 1] + [tr[n - 1]];
      CountOfSnoc(tr[..n - 1], tr[n - 1]);
    }
  }

  lemma DepthBounds(tr: Trace, n: nat, x: Id)
    requires n <= |tr|
    ensures Depth(tr, n, x) <= DistinctIds(tr, n)
    ensures Depth(tr, n, x) == 0 <==> LastAccess(tr, n, x) == 0
  {
    StackSize(tr, n);
    StackFacts(tr, n);
  }

  /** Number of the first n requests whose depth is exactly d. */
  ghost function DepthCount(tr: Trace, n: nat, d: nat): nat
    requires n <= |tr|
  {
    if n == 0 then 0
    else DepthCount(tr, n - 1, d) + if Depth(tr, n - 1, tr[n - 1]) == d then 1 else 0
  }

  /** Number of the first n requests with depth in 1..x. */
  ghost function DepthsUpTo(tr: Trace, n: nat, x: nat): nat
    requires n <= |tr|
  {
    if x == 0 then 0 else DepthsUpTo(tr, n, x - 1) + DepthCount(tr, n, x)
  }

  // ---------------------------------------------------------------- an actual cache

  /** One request against an LRU cache holding at most `capacity` ids, most recent first. */
  ghost function CacheStep(capacity: nat, cache: seq<Id>, x: Id): seq<Id> {
    if x in cache then [x] + Without(cache, x)
    else Take([x] + cache, capacity)      // evicts the least recently used id when full
  }

  ghost function Cache(capacity: nat, tr: Trace, n: nat): seq<Id>
    requires n <= |tr|
  {
    if n == 0 then [] else CacheStep(capacity, Cache(capacity, tr, n - 1), tr[n - 1])
  }

  /** Hits of the cache over the first n requests. */
  ghost function CacheHits(capacity: nat, tr: Trace, n: nat): nat
    requires n <= |tr|
  {
    if n == 0 then 0
    else CacheHits(capacity, tr, n - 1) + if tr[n - 1] in Cache(capacity, tr, n - 1) then 1 else 0
  }

  lemma InTake(s: seq<Id>, n: nat, x: Id)
    requires Distinct(s)
    ensures x in Take(s, n) <==> IndexOf(s, x) < |s| && IndexOf(s, x) < n
    ensures x in Take(s, n) ==> IndexOf(Take(s, n), x) == IndexOf(s, x)
  {
    var i := IndexOf(s, x);
    if i < |s| && i < n {
      assert Take(s, n)[i] == x;
      IndexOfIs(Take(s, n), i);
    }
  }

  lemma TakeOfTouch(n: nat, st: seq<Id>, x: Id)
    requires Distinct(st)
    ensures CacheStep(n, Take(st, n), x) == Take(Touch(st, x), n)
  {
    hide Touch, Without, Take;
    InTake(st, n, x);
    if x in Take(st, n) {
      TakeOfTouchInside(n, st, x);
    } else {
      TakeOfTouchOutside(n, st, x);
    }
  }

  lemma TakeOfTouchInside(n: nat, st: seq<Id>, x: Id)
    requires IndexOf(st, x) < n && IndexOf(st, x) < |st|
    requires IndexOf(Take(st, n), x) == IndexOf(st, x)
    ensures [x] + Without(Take(st, n), x) == Take(Touch(st, x), n)
  {
    var m, i := Min(n, |st|), IndexOf(st, x);
    assert Without(st[..m], x) == (st[..i] + st[i + 1..])[..m - 1];
  }

  lemma TakeOfTouchOutside(n: nat, st: seq<Id>, x: Id)
    requires n <= IndexOf(st, x) || |st| <= IndexOf(st, x)
    ensures Take([x] + Take(st, n), n) == Take(Touch(st, x), n)
  {
    if n > 0 {
      var m := Min(n - 1, |st|);
      assert Without(st, x)[..m] == st[..m];
      assert Take([x] + Take(st, n), n) == [x] + st[..m];
    }
  }

  /** Inclusion property: the cache of any capacity is the top of the one LRU stack. */
  lemma {:induction false} CacheIsTopOfStack(capacity: nat, tr: Trace, n: nat)
    requires n <= |tr|
    ensures Cache(capacity, tr, n) == Take(Stack(tr, n), capacity)
  {
    hide Touch, CacheStep;
    if n > 0 {
      CacheIsTopOfStack(capacity, tr, n - 1);
      StackFacts(tr, n - 1);
      TakeOfTouch(capacity, Stack(tr, n - 1), tr[n - 1]);
    }
  }

  lemma HitIffShallow(capacity: nat, tr: Trace, n: nat, x: Id)
    requires n <= |tr|
    ensures x in Cache(capacity, tr, n) <==> 1 <= Depth(tr, n, x) <= capacity
  {
    CacheIsTopOfStack(capacity, tr, n);
    StackFacts(tr, n);
    InTake(Stack(tr, n), capacity, x);
  }

  lemma {:induction false} DepthsUpToStep(tr: Trace, n: nat, x: nat)
    requires 0 < n <= |tr|
    ensures DepthsUpTo(tr, n, x) == DepthsUpTo(tr, n - 1, x)
                                    + if 1 <= Depth(tr, n - 1, tr[n - 1]) <= x then 1 else 0
  {
    hide Depth;
    if x > 0 { DepthsUpToStep(tr, n, x - 1); }
  }

  lemma {:induction false} NoDepths(tr: Trace, x: nat)
    ensures DepthsUpTo(tr, 0, x) == 0
  {
    if x > 0 { NoDepths(tr, x - 1); }
  }

  /** Counting depths up to x gives the hits of a real LRU cache of capacity x. */
  lemma {:induction false} HitsAreShallowDepths(capacity: nat, tr: Trace, n: nat)
    requires n <= |tr|
    ensures CacheHits(capacity, tr, n) == DepthsUpTo(tr, n, capacity)
  {
    hide Cache, Depth, DepthsUpTo;
    if n > 0 {
      HitsAreShallowDepths(capacity, tr, n - 1);
      HitIffShallow(capacity, tr, n - 1, tr[n - 1]);
      DepthsUpToStep(tr, n, capacity);
    } else {
      NoDepths(tr, capacity);
    }
  }

  // ---------------------------------------------------------------- the success function

  /** `success` answers every capacity up to `limit` for the trace. */
  ghost predicate IsSuccessFunction(success: seq<nat>, tr: Trace, limit: nat) {
    && |success| == 1 + limit
    && forall x :: 0 <= x <= limit ==> success[x] == CacheHits(x, tr, |tr|)
  }

  /** `hits` is the histogram of the depths 1..|hits|-1 of the trace. */
  ghost predicate IsDepthHistogram(hits: seq<nat>, tr: Trace) {
    forall d :: 1 <= d < |hits| ==> hits[d] == DepthCount(tr, |tr|, d)
  }
}
