// The cache of validated tokens (DataFormat_JWT/jwt_cache.cpp): a queue, a map and a
// byte counter that bound each other.
module JwtCaches {
  import opened Common

  function Sum(q: seq<string>): nat {
    if q == [] then 0 else |q[0]| + Sum(q[1..])
  }

  // What the mutex protects; the map holds the payloads it maps to true.
  datatype Store = Store(queue: seq<string>, tokens: set<string>, counter: nat)

  // evictCache: pop while the counter is above the limit. None where it reads the
  // front of an empty queue.
  function Evicted(s: Store, limit: nat): Option<Store>
    decreases |s.queue|
  {
    if s.counter <= limit then Some(s)
    else if s.queue == [] then None
    else Evicted(Store(s.queue[1..], s.tokens - {s.queue[0]}, Sub64(s.counter, |s.queue[0]|)), limit)
  }

  // The first locked half of add.
  function Pushed(s: Store, p: string): Store {
    Store(s.queue + [p], s.tokens + {p}, Add64(s.counter, |p|))
  }

  // The longest suffix whose bytes fit.
  function Kept(q: seq<string>, limit: nat): seq<string> {
    if q == [] || Sum(q) <= limit then q else Kept(q[1..], limit)
  }

  lemma {:induction false} SumConcat(a: seq<string>, b: seq<string>)
    ensures Sum(a + b) == Sum(a) + Sum(b)
  {
    if a == [] {
      assert a + b == b;
    } else {
      assert (a + b)[1..] == a[1..] + b;
      SumConcat(a[1..], b);
    }
  }

  // The last n payloads.
  function Last(q: seq<string>, n: nat): (r: seq<string>)
    requires n <= |q|
    ensures |r| == n
  {
    q[|q| - n..]
  }

  lemma LastOfLast(q: seq<string>, m: nat, n: nat)
    requires n <= m <= |q|
    ensures Last(Last(q, m), n) == Last(q, n)
    ensures Last(q, |q|) == q
    ensures Sum(Last(q, n)) <= Sum(Last(q, m))
  {
    assert Last(q, m) == q[|q| - m..|q| - n] + Last(q, n);
    SumConcat(q[|q| - m..|q| - n], Last(q, n));
  }

  lemma {:induction false} KeptMeaning(q: seq<string>, limit: nat)
    ensures var k := |Kept(q, limit)|;
            k <= |q| && Kept(q, limit) == Last(q, k) && Sum(Last(q, k)) <= limit
    ensures forall n: nat | |Kept(q, limit)| < n <= |q| :: Sum(Last(q, n)) > limit
  {
    hide Sum, Last;
    NothingSums();
    LastOfLast(q, |q|, |q|);
    if q != [] && Sum(q) > limit {
      var k := |Kept(q[1..], limit)|;
      KeptMeaning(q[1..], limit);
      LastButFirst(q, k);
      forall n: nat | k < n <= |q|
        ensures Sum(Last(q, n)) > limit
      {
        if n < |q| {
          LastButFirst(q, n);
        }
      }
    }
  }

  lemma NothingSums()
    ensures Sum([]) == 0
  {
  }

  lemma LastButFirst(q: seq<string>, n: nat)
    requires n < |q|
    ensures Last(q[1..], n) == Last(q, n)
  {
  }

  // Only a longer queue can lose its front, so evicting early loses nothing.
  lemma {:induction false} KeptLater(q: seq<string>, more: seq<string>, limit: nat)
    ensures Kept(Kept(q, limit) + more, limit) == Kept(q + more, limit)
  {
    if q != [] && Sum(q) > limit {
      KeptLater(q[1..], more, limit);
      SumConcat(q, more);
      assert (q + more)[1..] == q[1..] + more;
    }
  }

  // ---- What eviction does ---------------------------------------------------------------

  // The counter is never below the bytes in the queue; clear() and switching off leave
  // it above them. Eviction runs into an empty queue exactly when that excess alone is
  // above the limit; otherwise it keeps the longest suffix that fits beside the excess.
  lemma {:induction false} EvictedMeaning(s: Store, drift: nat, limit: nat)
    requires s.counter == Sum(s.queue) + drift < SIZE_LIMIT
    ensures Evicted(s, limit) == None <==> drift > limit
    ensures drift <= limit ==>
              && var t := Evicted(s, limit).value;
              t.queue == Kept(s.queue, limit - drift) && t.counter == Sum(t.queue) + drift <= s.counter
    decreases |s.queue|
  {
    if s.counter > limit && s.queue != [] {
      EvictedMeaning(Store(s.queue[1..], s.tokens - {s.queue[0]}, Sub64(s.counter, |s.queue[0]|)), drift, limit);
    }
  }

  // Every cached payload is in the queue.
  ghost predicate Backed(s: Store) {
    forall p | p in s.tokens :: p in s.queue
  }

  predicate Distinct(q: seq<string>) {
    forall i, j | 0 <= i < j < |q| :: q[i] != q[j]
  }

  ghost predicate AllCached(s: Store) {
    forall p | p in s.queue :: p in s.tokens
  }

  lemma {:induction false} EvictedTokens(s: Store, limit: nat)
    requires Backed(s) && Evicted(s, limit).Some?
    ensures Backed(Evicted(s, limit).value)
    ensures AllCached(s) && Distinct(s.queue) ==> AllCached(Evicted(s, limit).value)
    decreases |s.queue|
  {
    if s.counter > limit && s.queue != [] {
      EvictedTokens(Store(s.queue[1..], s.tokens - {s.queue[0]}, Sub64(s.counter, |s.queue[0]|)), limit);
    }
  }

  // ---- The object --------------------------------------------------------------------

  class Cache {
    var cacheQueue: seq<string>
    var tokenCache: set<string>
    var cacheCurrentByteCount: nat
    var cacheMaxByteCount: nat
    var enabled: bool

    ghost function Value(): Store
      reads this
    {
      Store(cacheQueue, tokenCache, cacheCurrentByteCount)
    }

    // With the limit and the flag.
    ghost function Whole(): State
      reads this
    {
      State(Value(), cacheMaxByteCount, enabled)
    }

    // The bytes counted that are not in the queue any more.
    ghost function Drift(): int
      reads this
    {
      cacheCurrentByteCount - Sum(cacheQueue)
    }

    ghost predicate Valid()
      reads this
    {
      Drift() >= 0 && cacheCurrentByteCount < SIZE_LIMIT && Backed(Value())
    }

    // The source leaves the flag uninitialised.
    constructor (enabled: bool)
      ensures Valid() && Drift() == 0 && Value() == Store([], {}, 0)
      ensures cacheMaxByteCount == 1048576 && this.enabled == enabled
    {
      cacheQueue, tokenCache, cacheCurrentByteCount, cacheMaxByteCount := [], {}, 0, 1048576;
      this.enabled := enabled;
    }

    // evictCache, up to the first read of the front of an empty queue, if any.
    method EvictCache() returns (broke: bool)
      requires Valid()
      modifies this`cacheQueue, this`tokenCache, this`cacheCurrentByteCount
      ensures broke <==> old(Drift()) > cacheMaxByteCount
      ensures broke <==> Evicted(old(Value()), cacheMaxByteCount).None?
      ensures !broke ==>
                && Some(Value()) == Evicted(old(Value()), cacheMaxByteCount)
                && Valid() && Drift() == old(Drift())
                && cacheQueue == Kept(old(cacheQueue), cacheMaxByteCount - Drift())
    {
      EvictedMeaning(Value(), Drift(), cacheMaxByteCount);
      if Evicted(Value(), cacheMaxByteCount).Some? {
        EvictedTokens(Value(), cacheMaxByteCount);
      }
      while cacheCurrentByteCount > cacheMaxByteCount
        invariant Evicted(Value(), cacheMaxByteCount) == Evicted(old(Value()), cacheMaxByteCount)
        decreases |cacheQueue|
      {
        if cacheQueue == [] {
          return true;
        }
        var evictedToken := cacheQueue[0];
        cacheCurrentByteCount := Sub64(cacheCurrentByteCount, |evictedToken|);
        tokenCache := tokenCache - {evictedToken};
        cacheQueue := cacheQueue[1..];
      }
      return false;
    }

    // add. The payloads held and the new one are in memory together.
    method Add(payload: string) returns (broke: bool)
      requires Valid() && cacheCurrentByteCount + |payload| < SIZE_LIMIT
      modifies this`cacheQueue, this`tokenCache, this`cacheCurrentByteCount
      ensures !enabled ==> !broke && Value() == old(Value())
      ensures enabled ==> (broke <==> old(Drift()) > cacheMaxByteCount)
      ensures !broke ==> Valid() && Drift() == old(Drift())
      ensures enabled && !broke ==>
                && Some(Value()) == Evicted(Pushed(old(Value()), payload), cacheMaxByteCount)
                && Drift() <= cacheMaxByteCount
                && cacheQueue == Kept(old(cacheQueue) + [payload], cacheMaxByteCount - Drift())
      ensures enabled && !broke ==> PerformAll(old(Whole()), [AddHalf(payload), EvictHalf]) == Some(Whole())
    {
      if !enabled {
        return false;
      }
      SumConcat(cacheQueue, [payload]);
      PerformTwo(Whole(), AddHalf(payload), EvictHalf);
      cacheQueue := cacheQueue + [payload];
      tokenCache := tokenCache + {payload};
      cacheCurrentByteCount := Add64(cacheCurrentByteCount, |payload|);
      broke := EvictCache();
    }

    // A payload reported cached is in the queue.
    method CheckToken(payload: string) returns (found: bool)
      requires Valid()
      ensures found <==> enabled && payload in tokenCache
      ensures found ==> payload in cacheQueue
    {
      if !enabled {
        return false;
      }
      found := payload in tokenCache;
    }

    // clear: the counter stays, so all its bytes become excess.
    method Clear()
      requires Valid()
      modifies this`cacheQueue, this`tokenCache
      ensures Valid() && cacheQueue == [] && tokenCache == {} && Drift() == cacheCurrentByteCount
      ensures PerformAll(old(Whole()), [ClearAll]) == Some(Whole())
    {
      cacheQueue, tokenCache := [], {};
    }

    method SetEnabled(newEnabled: bool)
      requires Valid()
      modifies this`cacheQueue, this`tokenCache, this`enabled
      ensures Valid() && enabled == newEnabled
      ensures Value() == if newEnabled then old(Value()) else Store([], {}, cacheCurrentByteCount)
      ensures PerformAll(old(Whole()), [Switch(newEnabled)]) == Some(Whole())
    {
      if !newEnabled {
        cacheQueue, tokenCache := [], {};
      }
      enabled := newEnabled;
    }

    method SetCacheMaxByteCount(limit: nat) returns (broke: bool)
      requires Valid()
      modifies this`cacheQueue, this`tokenCache, this`cacheCurrentByteCount, this`cacheMaxByteCount
      ensures cacheMaxByteCount == limit && (broke <==> old(Drift()) > limit)
      ensures !broke ==> Valid() && Drift() == old(Drift()) && cacheQueue == Kept(old(cacheQueue), limit - Drift())
      ensures !broke ==> PerformAll(old(Whole()), [LimitHalf(limit), EvictHalf]) == Some(Whole())
    {
      PerformTwo(Whole(), LimitHalf(limit), EvictHalf);
      cacheMaxByteCount := limit;
      broke := EvictCache();
    }
  }

  // ---- Whole runs --------------------------------------------------------------------

  // The locked regions of any number of concurrent adds, in any order, under a limit
  // that does not change.
  datatype Region = Push(p: string) | Evict

  function Step(s: Store, r: Region, limit: nat): Option<Store> {
    match r
    case Push(p) => Some(Pushed(s, p))
    case Evict => Evicted(s, limit)
  }

  function Run(s: Store, regions: seq<Region>, limit: nat): Option<Store>
    decreases |regions|
  {
    if regions == [] then Some(s)
    else
      match Step(s, regions[0], limit)
      case None => None
      case Some(t) => Run(t, regions[1..], limit)
  }

  // The payloads pushed, in order.
  function Adds(regions: seq<Region>): seq<string> {
    if regions == [] then []
    else (if regions[0].Push? then [regions[0].p] else []) + Adds(regions[1..])
  }

  // The payloads in the queue always fit in memory.
  predicate InMemory(s: Store, regions: seq<Region>, limit: nat)
    decreases |regions|
  {
    regions == [] ||
    ((regions[0].Push? ==> Sum(s.queue) + |regions[0].p| < SIZE_LIMIT) &&
     match Step(s, regions[0], limit)
     case None => true
     case Some(t) => InMemory(t, regions[1..], limit))
  }

  // A store that came about by adding a history: what is left of the history is a
  // suffix that has lost nothing that would still fit, and the counter is its size.
  ghost predicate Holds(s: Store, history: seq<string>, limit: nat) {
    && |s.queue| <= |history| && s.queue == Last(history, |s.queue|)
    && (|s.queue| < |history| ==> Sum(Last(history, |s.queue| + 1)) > limit)
    && s.counter == Sum(s.queue) < SIZE_LIMIT && Backed(s) && (Distinct(history) ==> AllCached(s))
  }

  lemma PushHolds(s: Store, p: string, history: seq<string>, limit: nat)
    requires Holds(s, history, limit) && Sum(s.queue) + |p| < SIZE_LIMIT
    ensures Holds(Pushed(s, p), history + [p], limit)
  {
    hide Distinct, Sum, Last;
    var m := |s.queue|;
    SumConcat(s.queue, [p]);
    OneSum(p);
    LastPushed(history, p, m);
    if m < |history| {
      LastPushed(history, p, m + 1);
      SumConcat(Last(history, m + 1), [p]);
    }
    if Distinct(history + [p]) {
      DistinctParts(history + [p], |history|);
      assert (history + [p])[..|history|] == history;
    }
  }

  lemma OneSum(p: string)
    ensures Sum([p]) == |p|
  {
    assert [p][1..] == [];
  }

  lemma LastPushed(q: seq<string>, p: string, n: nat)
    requires n <= |q|
    ensures Last(q + [p], n + 1) == Last(q, n) + [p]
  {
  }

  lemma DistinctParts(q: seq<string>, n: nat)
    requires Distinct(q) && n <= |q|
    ensures Distinct(q[..n]) && Distinct(Last(q, n))
  {
  }

  lemma EvictHolds(s: Store, history: seq<string>, limit: nat)
    requires Holds(s, history, limit)
    ensures Evicted(s, limit).Some? && Holds(Evicted(s, limit).value, history, limit)
    ensures Evicted(s, limit).value.counter <= limit
  {
    hide Distinct, Sum, Last, Kept, Evicted, Backed, AllCached;
    var m := |s.queue|;
    EvictedMeaning(s, 0, limit);
    EvictedTokens(s, limit);
    KeptMeaning(s.queue, limit);
    var k := |Kept(s.queue, limit)|;
    LastOfLast(history, m, k);
    LastOfLast(history, m, m);
    if k < m {
      LastOfLast(history, m, k + 1);
      assert Sum(Last(s.queue, k + 1)) > limit;
    }
    LastOfLast(s.queue, m, k);
    if Distinct(history) {
      DistinctParts(history, m);
    }
  }

  lemma {:induction false} RunHolds(s: Store, regions: seq<Region>, history: seq<string>, limit: nat)
    requires Holds(s, history, limit) && InMemory(s, regions, limit)
    ensures Run(s, regions, limit).Some? && Holds(Run(s, regions, limit).value, history + Adds(regions), limit)
    decreases |regions|
  {
    hide Holds, Evicted, Pushed, Sum;
    if regions == [] {
      assert history + [] == history;
    } else {
      var r := regions[0];
      var first := if r.Push? then [r.p] else [];
      match r {
        case Push(p) => PushHolds(s, p, history, limit);
        case Evict =>
          EvictHolds(s, history, limit);
          assert history + [] == history;
      }
      RunHolds(Step(s, r, limit).value, regions[1..], history + first, limit);
      ConcatAssoc(history, first, Adds(regions[1..]));
    }
  }

  // A suffix that fits, one longer than which does not, is the longest that fits.
  lemma HoldsIsKept(s: Store, history: seq<string>, limit: nat)
    requires Holds(s, history, limit) && s.counter <= limit
    ensures s.queue == Kept(history, limit)
  {
    hide Distinct, Sum, Last, Kept, Backed, AllCached;
    var m, k := |s.queue|, |Kept(history, limit)|;
    KeptMeaning(history, limit);
    if m < k {
      LastOfLast(history, k, m + 1);
    }
  }

  // After any run of adds that ends with an eviction, the queue is the longest suffix
  // of everything added that fits, the counter is its exact size, a cached payload is
  // in it, and if no payload was added twice, everything in it is cached.
  lemma FifoExactly(regions: seq<Region>, limit: nat)
    requires InMemory(Store([], {}, 0), regions, limit)
    ensures var r := Run(Store([], {}, 0), regions, limit);
            && r.Some? && Evicted(r.value, limit).Some?
            && var t := Evicted(r.value, limit).value;
            && t.queue == Kept(Adds(regions), limit) && t.counter == Sum(t.queue)
            && Backed(t) && (Distinct(Adds(regions)) ==> AllCached(t))
  {
    var s := Store([], {}, 0);
    assert Holds(s, [], limit);
    RunHolds(s, regions, [], limit);
    assert [] + Adds(regions) == Adds(regions);
    var r := Run(s, regions, limit).value;
    EvictHolds(r, Adds(regions), limit);
    HoldsIsKept(Evicted(r, limit).value, Adds(regions), limit);
  }

  // ---- Which payloads are cached ---------------------------------------------------

  // The payloads that a region takes off the front of the queue.
  function Popped(s: Store, r: Region, limit: nat): seq<string>
    requires Step(s, r, limit).Some?
  {
    if r.Push? then []
    else
      EvictedIsSuffix(s, limit);
      s.queue[..|s.queue| - |Evicted(s, limit).value.queue|]
  }

  lemma {:induction false} EvictedIsSuffix(s: Store, limit: nat)
    requires Evicted(s, limit).Some?
    ensures var t := Evicted(s, limit).value; |t.queue| <= |s.queue| && t.queue == Last(s.queue, |t.queue|)
    decreases |s.queue|
  {
    hide Sub64;
    if s.counter > limit && s.queue != [] {
      EvictedIsSuffix(Store(s.queue[1..], s.tokens - {s.queue[0]}, Sub64(s.counter, |s.queue[0]|)), limit);
    }
  }

  // Popping one copy of a payload takes it out of the map.
  lemma {:induction false} EvictedUncaches(s: Store, limit: nat, p: string)
    requires Evicted(s, limit).Some?
    ensures p in Evicted(s, limit).value.tokens <==> p in s.tokens && p !in Popped(s, Evict, limit)
    decreases |s.queue|
  {
    EvictedIsSuffix(s, limit);
    if s.counter > limit && s.queue != [] {
      var t := Store(s.queue[1..], s.tokens - {s.queue[0]}, Sub64(s.counter, |s.queue[0]|));
      hide Evicted;
      EvictedUncaches(t, limit, p);
      PoppedStep(s, limit);
    }
  }

  lemma PoppedStep(s: Store, limit: nat)
    requires s.counter > limit && s.queue != [] && Evicted(s, limit).Some?
    ensures var t := Store(s.queue[1..], s.tokens - {s.queue[0]}, Sub64(s.counter, |s.queue[0]|));
            && Evicted(t, limit) == Evicted(s, limit)
            && Popped(s, Evict, limit) == [s.queue[0]] + Popped(t, Evict, limit)
  {
    EvictedIsSuffix(s, limit);
    var t := Store(s.queue[1..], s.tokens - {s.queue[0]}, Sub64(s.counter, |s.queue[0]|));
    assert Evicted(t, limit) == Evicted(s, limit);
    hide Evicted;
    EvictedIsSuffix(t, limit);
  }

  // Some region of the run pops p.
  predicate PopsOne(s: Store, regions: seq<Region>, limit: nat, p: string)
    requires Run(s, regions, limit).Some?
    decreases |regions|
  {
    regions != [] &&
    (p in Popped(s, regions[0], limit) || PopsOne(Step(s, regions[0], limit).value, regions[1..], limit, p))
  }

  // Some region of the run pushes p, and none after it pops p.
  predicate PushesForGood(s: Store, regions: seq<Region>, limit: nat, p: string)
    requires Run(s, regions, limit).Some?
    decreases |regions|
  {
    regions != [] &&
    var t, rest := Step(s, regions[0], limit).value, regions[1..];
    (regions[0] == Push(p) && !PopsOne(t, rest, limit, p)) || PushesForGood(t, rest, limit, p)
  }

  // A run caches what it pushes for good, and what was cached and it never pops.
  lemma {:induction false} RunCaches(s: Store, regions: seq<Region>, limit: nat, p: string)
    requires Run(s, regions, limit).Some?
    ensures p in Run(s, regions, limit).value.tokens <==>
              (p in s.tokens && !PopsOne(s, regions, limit, p)) || PushesForGood(s, regions, limit, p)
    decreases |regions|
  {
    if regions != [] {
      RunCaches(Step(s, regions[0], limit).value, regions[1..], limit, p);
      if regions[0].Evict? {
        EvictedUncaches(s, limit, p);
      }
    }
  }

  // After any run of adds, duplicates or not: a payload is cached if and only if no copy
  // of it was popped after its last push.
  lemma CachedExactly(regions: seq<Region>, limit: nat, p: string)
    requires InMemory(Store([], {}, 0), regions, limit)
    ensures var s := Store([], {}, 0);
            && Run(s, regions, limit).Some?
            && (p in Run(s, regions, limit).value.tokens <==> PushesForGood(s, regions, limit, p))
  {
    var s := Store([], {}, 0);
    assert Holds(s, [], limit);
    RunHolds(s, regions, [], limit);
    RunCaches(s, regions, limit, p);
  }

  // ---- Runs with everything ----------------------------------------------------------

  datatype State = State(store: Store, limit: nat, enabled: bool)

  // The locked regions of all calls: the two halves of add, of which the second is
  // also the second half of setCacheMaxByteCount, and the others.
  datatype Locked = AddHalf(p: string) | EvictHalf | ClearAll | Switch(on: bool) | LimitHalf(n: nat)

  function Emptied(s: Store): Store {
    Store([], {}, s.counter)
  }

  // None where eviction reads the front of an empty queue.
  function Perform(s: State, r: Locked): Option<State> {
    match r
    case AddHalf(p) => if s.enabled then Some(s.(store := Pushed(s.store, p))) else Some(s)
    case EvictHalf =>
      (match Evicted(s.store, s.limit)
       case None => None
       case Some(t) => Some(s.(store := t)))
    case ClearAll => Some(s.(store := Emptied(s.store)))
    case Switch(on) => Some(State(if on then s.store else Emptied(s.store), s.limit, on))
    case LimitHalf(n) => Some(s.(limit := n))
  }

  // The bytes that a region takes out of the queue without counting them.
  function Dropped(s: State, r: Locked): nat {
    if r.ClearAll? || (r.Switch? && !r.on) then Sum(s.store.queue) else 0
  }

  function PerformAll(s: State, rs: seq<Locked>): Option<State>
    decreases |rs|
  {
    if rs == [] then Some(s)
    else
      match Perform(s, rs[0])
      case None => None
      case Some(t) => PerformAll(t, rs[1..])
  }

  lemma PerformTwo(s: State, a: Locked, b: Locked)
    ensures PerformAll(s, [a, b]) == if Perform(s, a).None? then None else Perform(Perform(s, a).value, b)
  {
    hide Perform;
    assert [a, b][1..] == [b] && [b][1..] == [];
    if Perform(s, a).Some? {
      var t := Perform(s, a).value;
      assert PerformAll(t, [b]) == if Perform(t, b).None? then None else PerformAll(Perform(t, b).value, []);
    }
  }

  function DroppedAll(s: State, rs: seq<Locked>): nat
    decreases |rs|
  {
    if rs == [] then 0
    else
      Dropped(s, rs[0]) +
      match Perform(s, rs[0])
      case None => 0
      case Some(t) => DroppedAll(t, rs[1..])
  }

  // The byte counter never wraps.
  predicate CounterFits(s: State, rs: seq<Locked>)
    decreases |rs|
  {
    rs == [] ||
    ((rs[0].AddHalf? ==> s.store.counter + |rs[0].p| < SIZE_LIMIT) &&
     match Perform(s, rs[0])
     case None => true
     case Some(t) => CounterFits(t, rs[1..]))
  }

  lemma PerformCounts(s: State, r: Locked, drift: nat)
    requires s.store.counter == Sum(s.store.queue) + drift < SIZE_LIMIT
    requires r.AddHalf? ==> s.store.counter + |r.p| < SIZE_LIMIT
    ensures Perform(s, r).None? <==> r.EvictHalf? && drift > s.limit
    ensures Perform(s, r).Some? ==>
              && var t := Perform(s, r).value.store;
              t.counter == Sum(t.queue) + drift + Dropped(s, r) < SIZE_LIMIT
  {
    match r
    case AddHalf(p) =>
      SumConcat(s.store.queue, [p]);
      OneSum(p);
    case EvictHalf =>
      EvictedMeaning(s.store, drift, s.limit);
    case _ =>
  }

  // On every run of all calls, at every point of it: the counter is the bytes queued
  // and the bytes dropped by clearing and switching off since the start, and an
  // eviction at that point reads the front of an empty queue if and only if the bytes
  // dropped are more than the limit in force.
  lemma {:induction false} EvictionFailsExactly(s: State, rs: seq<Locked>, drift: nat)
    requires s.store.counter == Sum(s.store.queue) + drift < SIZE_LIMIT && CounterFits(s, rs)
    requires PerformAll(s, rs).Some?
    ensures var t, d := PerformAll(s, rs).value, drift + DroppedAll(s, rs);
            && t.store.counter == Sum(t.store.queue) + d < SIZE_LIMIT
            && (Perform(t, EvictHalf).None? <==> d > t.limit)
    decreases |rs|
  {
    hide Perform, Dropped, Sum;
    if rs == [] {
      PerformCounts(s, EvictHalf, drift);
    } else {
      PerformCounts(s, rs[0], drift);
      EvictionFailsExactly(Perform(s, rs[0]).value, rs[1..], drift + Dropped(s, rs[0]));
    }
  }

  // From a new cache.
  lemma NewCacheFailsExactly(limit: nat, enabled: bool, rs: seq<Locked>)
    requires var s := State(Store([], {}, 0), limit, enabled); CounterFits(s, rs) && PerformAll(s, rs).Some?
    ensures var s := State(Store([], {}, 0), limit, enabled);
            var t := PerformAll(s, rs).value;
            && t.store.counter == Sum(t.store.queue) + DroppedAll(s, rs)
            && (Perform(t, EvictHalf).None? <==> DroppedAll(s, rs) > t.limit)
  {
    EvictionFailsExactly(State(Store([], {}, 0), limit, enabled), rs, 0);
  }
}
