// The life of a query and of its connector (DB/sqlconnector.cpp, DB/query.cpp):
// attaching, the timed database lock, detaching, and the connector's destruction.
module SqlConnectors {
  import opened Common

  // std::timed_mutex, with the query that holds it.
  class TimedMutex {
    var owner: Option<nat>

    constructor ()
      ensures owner == None
    {
      owner := None;
    }
  }

  // The set after a query attaches, which a closing connector does not let it, and
  // after one detaches.
  function AfterAttach(finalized: bool, querySet: set<nat>, query: nat): set<nat> {
    if finalized then querySet else querySet + {query}
  }

  function AfterDetach(querySet: set<nat>, query: nat): set<nat> {
    querySet - {query}
  }

  class SQLConnector {
    const databaseLockMutex: TimedMutex
    const maxQueryLockMilliseconds: nat
    var querySet: set<nat>
    var finalized: bool

    constructor (milliseconds: nat)
      ensures querySet == {} && !finalized && maxQueryLockMilliseconds == milliseconds
      ensures fresh(databaseLockMutex) && databaseLockMutex.owner == None
    {
      querySet, finalized, maxQueryLockMilliseconds := {}, false, milliseconds;
      databaseLockMutex := new TimedMutex();
    }

    method AttachQuery(query: nat) returns (ok: bool)
      modifies this`querySet
      ensures ok <==> !finalized
      ensures querySet == AfterAttach(finalized, old(querySet), query)
    {
      if finalized {
        return false;
      }
      querySet := querySet + {query};
      return true;
    }

    // It returns whether the empty-set condition was notified.
    method DetachQuery(query: nat) returns (notified: bool)
      modifies this`querySet
      ensures querySet == AfterDetach(old(querySet), query)
      ensures notified <==> querySet == {}
    {
      querySet := querySet - {query};
      notified := querySet == {};
    }

    // The destructor up to its first wait, or to its end.
    method Close() returns (done: bool)
      modifies this`finalized
      ensures finalized && (done <==> querySet == {})
    {
      finalized := true;
      done := querySet == {};
    }
  }

  class Query {
    const address: nat
    var pSQLConnector: SQLConnector?
    var databaseLockMutex: TimedMutex?

    constructor (address: nat)
      ensures this.address == address && pSQLConnector == null && databaseLockMutex == null
    {
      this.address, pSQLConnector, databaseLockMutex := address, null, null;
    }

    // setSqlConnector, as of the moment the lock call comes back. An unlimited wait
    // comes back only when the mutex is free; a limited one can time out.
    method SetSqlConnector(c: SQLConnector, m: TimedMutex, milliseconds: nat) returns (ok: bool)
      requires milliseconds == 0 ==> m.owner == None
      modifies this, m
      ensures pSQLConnector == c
      ensures ok ==> old(m.owner) == None && m.owner == Some(address) && databaseLockMutex == m
      ensures !ok ==> milliseconds > 0 && m.owner == old(m.owner) && databaseLockMutex == null
    {
      databaseLockMutex := m;
      pSQLConnector := c;
      if milliseconds == 0 {
        m.owner := Some(address);
      } else {
        var acquired :| acquired ==> m.owner == None;
        if !acquired {
          databaseLockMutex := null;
          return false;
        }
        m.owner := Some(address);
      }
      return true;
    }

    // ~Query: the set first, the lock after it.
    method Destroy()
      requires databaseLockMutex != null ==> databaseLockMutex.owner == Some(address)
      modifies pSQLConnector, databaseLockMutex
      ensures pSQLConnector != null ==> pSQLConnector.querySet == AfterDetach(old(pSQLConnector.querySet), address)
      ensures pSQLConnector != null ==> pSQLConnector.finalized == old(pSQLConnector.finalized)
      ensures databaseLockMutex != null ==> databaseLockMutex.owner == None
    {
      if pSQLConnector != null {
        var notified := pSQLConnector.DetachQuery(address);
      }
      if databaseLockMutex != null {
        databaseLockMutex.owner := None;
      }
    }
  }

  // createQuery: the errors leave nothing behind but what the query's destructor undoes.
  datatype QueryError = ReadyOK | UnableToAcquireLock | ConnectorFinished

  method CreateQuery(c: SQLConnector, address: nat) returns (query: Query, error: QueryError)
    requires c.maxQueryLockMilliseconds == 0 && !c.finalized ==> c.databaseLockMutex.owner == None
    requires address !in c.querySet
    modifies c, c.databaseLockMutex
    ensures c.finalized == old(c.finalized)
    ensures error.ConnectorFinished? <==> c.finalized
    ensures error.ReadyOK? ==> old(c.databaseLockMutex.owner) == None && c.databaseLockMutex.owner == Some(address)
                               && c.querySet == old(c.querySet) + {address}
    ensures !error.ReadyOK? ==> c.databaseLockMutex.owner == old(c.databaseLockMutex.owner)
                                && c.querySet == old(c.querySet)
  {
    query := new Query(address);
    var attached := c.AttachQuery(address);
    if !attached {
      query.Destroy();
      return query, ConnectorFinished;
    }
    var locked := query.SetSqlConnector(c, c.databaseLockMutex, c.maxQueryLockMilliseconds);
    if !locked {
      query.Destroy();
      return query, UnableToAcquireLock;
    }
    return query, ReadyOK;
  }

  // ---- Whole runs --------------------------------------------------------------------

  // Where the thread that owns a query stands: it has built it; attached it; set its
  // two pointers and waits for the lock; got the lock; timed out; was turned away; or
  // its destructor has passed the detaching.
  datatype Phase = Created | Attached | Trying | Ready | TimedOut | Rejected | Detached

  datatype QueryState = QueryState(phase: Phase, connected: bool, mutex: bool)

  datatype Stage = Running | Asleep | Woken | Done

  datatype System = System(finalized: bool, querySet: set<nat>, owner: Option<nat>, queries: map<nat, QueryState>,
                           stage: Stage, wrongUnlock: bool)

  datatype Action =
    | Create(q: nat)
    | Attach(q: nat)
    | Begin(q: nat)
    | Acquire(q: nat)
    | TimeOut(q: nat)
    | Detach(q: nat)
    | Finish(q: nat)
    | CloseConnector
    | WakeConnector
    | Recheck

  // `limited` says whether the connector's lock wait has a limit. A connector is not
  // used any more once it is gone.
  predicate Enabled(u: System, limited: bool, a: Action) {
    match a
    case Create(q) => q !in u.queries
    case Attach(q) => q in u.queries && u.queries[q].phase.Created? && !u.stage.Done?
    case Begin(q) => q in u.queries && u.queries[q].phase.Attached?
    case Acquire(q) => q in u.queries && u.queries[q].phase.Trying? && u.owner == None
    case TimeOut(q) => q in u.queries && u.queries[q].phase.Trying? && limited
    case Detach(q) =>
      q in u.queries && (u.queries[q].phase.Ready? || u.queries[q].phase.TimedOut? || u.queries[q].phase.Rejected?)
    case Finish(q) => q in u.queries && u.queries[q].phase.Detached?
    case CloseConnector => u.stage.Running?
    case WakeConnector => u.stage.Asleep?
    case Recheck => u.stage.Woken?
  }

  function Do(u: System, a: Action): System {
    match a
    case Create(q) => u.(queries := u.queries[q := QueryState(Created, false, false)])
    case Attach(q) =>
      var phase := if u.finalized then Rejected else Attached;
      u.(querySet := AfterAttach(u.finalized, u.querySet, q),
         queries := u.queries[q := QueryState(phase, false, false)])
    case Begin(q) => u.(queries := u.queries[q := QueryState(Trying, true, true)])
    case Acquire(q) => u.(owner := Some(q), queries := u.queries[q := QueryState(Ready, true, true)])
    case TimeOut(q) => u.(queries := u.queries[q := QueryState(TimedOut, true, false)])
    case Detach(q) =>
      if q !in u.queries then u
      else
        var x := u.queries[q];
        var rest := if x.connected then AfterDetach(u.querySet, q) else u.querySet;
        u.(querySet := rest, queries := u.queries[q := x.(phase := Detached)],
           stage := if x.connected && rest == {} && u.stage.Asleep? then Woken else u.stage)
    case Finish(q) =>
      if q !in u.queries then u
      else if u.queries[q].mutex then
        u.(owner := None, wrongUnlock := u.wrongUnlock || u.owner != Some(q), queries := u.queries - {q})
      else u.(queries := u.queries - {q})
    case CloseConnector => u.(finalized := true, stage := if u.querySet == {} then Done else Asleep)
    case WakeConnector => u.(stage := Woken)
    case Recheck => u.(stage := if u.querySet == {} then Done else Asleep)
  }

  function Initial(): System {
    System(false, {}, None, map[], Running, false)
  }

  function Run(u: System, actions: seq<Action>): System
    decreases |actions|
  {
    if actions == [] then u else Run(Do(u, actions[0]), actions[1..])
  }

  predicate Possible(u: System, limited: bool, actions: seq<Action>)
    decreases |actions|
  {
    actions == [] || (Enabled(u, limited, actions[0]) && Possible(Do(u, actions[0]), limited, actions[1..]))
  }

  // A query that was attached and whose destructor has not detached it.
  predicate IsAttached(x: QueryState) {
    x.phase.Attached? || x.phase.Trying? || x.phase.Ready? || x.phase.TimedOut?
  }

  // A query that will unlock the database.
  predicate Holds(x: QueryState) {
    x.mutex && (x.phase.Ready? || x.phase.Detached?)
  }

  // The two pointers of a query in each phase.
  predicate Pointers(x: QueryState) {
    match x.phase
    case Created => !x.connected && !x.mutex
    case Attached => !x.connected && !x.mutex
    case Trying => x.connected && x.mutex
    case Ready => x.connected && x.mutex
    case TimedOut => x.connected && !x.mutex
    case Rejected => !x.connected && !x.mutex
    case Detached => true
  }

  ghost predicate Inv(u: System) {
    && (forall q :: q in u.querySet <==> q in u.queries && IsAttached(u.queries[q]))
    && (forall q | q in u.queries :: Pointers(u.queries[q]))
    && (forall q :: u.owner == Some(q) <==> q in u.queries && Holds(u.queries[q]))
    && !u.wrongUnlock
    && (u.finalized <==> !u.stage.Running?)
    && (u.stage.Asleep? ==> u.querySet != {})
    && (u.stage.Done? ==> u.querySet == {})
  }

  lemma StepKeepsInv(u: System, limited: bool, a: Action)
    requires Inv(u) && Enabled(u, limited, a)
    ensures Inv(Do(u, a))
  {
    match a
    case Create(q) => QueryStepKeepsInv(u, limited, a);
    case Attach(q) => QueryStepKeepsInv(u, limited, a);
    case Begin(q) => LockStepKeepsInv(u, limited, a);
    case Acquire(q) => LockStepKeepsInv(u, limited, a);
    case TimeOut(q) => LockStepKeepsInv(u, limited, a);
    case Detach(q) => DetachKeepsInv(u, limited, q);
    case Finish(q) => FinishKeepsInv(u, limited, q);
    case _ =>
  }

  lemma QueryStepKeepsInv(u: System, limited: bool, a: Action)
    requires Inv(u) && Enabled(u, limited, a)
    requires a.Create? || a.Attach?
    ensures Inv(Do(u, a))
  {
    var v := Do(u, a);
    assert forall q | q != a.q ::
        (q in v.queries <==> q in u.queries) && (q in v.queries ==> v.queries[q] == u.queries[q]);
  }

  lemma LockStepKeepsInv(u: System, limited: bool, a: Action)
    requires Inv(u) && Enabled(u, limited, a)
    requires a.Begin? || a.Acquire? || a.TimeOut?
    ensures Inv(Do(u, a))
  {
    var v := Do(u, a);
    assert forall q | q != a.q ::
        (q in v.queries <==> q in u.queries) && (q in v.queries ==> v.queries[q] == u.queries[q]);
  }

  lemma DetachKeepsInv(u: System, limited: bool, q: nat)
    requires Inv(u) && Enabled(u, limited, Detach(q))
    ensures Inv(Do(u, Detach(q)))
  {
  }

  lemma FinishKeepsInv(u: System, limited: bool, q: nat)
    requires Inv(u) && Enabled(u, limited, Finish(q))
    ensures Inv(Do(u, Finish(q)))
  {
    assert u.queries[q].mutex ==> u.owner == Some(q);
  }

  // Every run: the set is the attached queries, the lock's owner is the one query that
  // will unlock it, no query unlocks what it does not hold, and the connector's
  // destructor never sleeps on an empty set nor ends on another.
  lemma {:induction false} EveryRun(u: System, limited: bool, actions: seq<Action>)
    requires Inv(u) && Possible(u, limited, actions)
    ensures Inv(Run(u, actions))
    decreases |actions|
  {
    hide Inv, Do, Enabled;
    if actions != [] {
      StepKeepsInv(u, limited, actions[0]);
      EveryRun(Do(u, actions[0]), limited, actions[1..]);
    }
  }

  lemma InitialInv()
    ensures Inv(Initial())
  {
  }

  lemma OneHolder(u: System, p: nat, q: nat)
    requires Inv(u) && p in u.queries && q in u.queries && Holds(u.queries[p]) && Holds(u.queries[q])
    ensures p == q
  {
    assert u.owner == Some(p);
  }

  // The lock changes hands only through a query that gets it free, and one that holds
  // it; one that failed to get it is neither.
  lemma OwnerChanges(u: System, limited: bool, a: Action)
    requires Inv(u) && Enabled(u, limited, a) && Do(u, a).owner != u.owner
    ensures (a.Acquire? && u.owner == None && Do(u, a).owner == Some(a.q))
         || (a.Finish? && u.owner == Some(a.q) && Do(u, a).owner == None)
    ensures !u.queries[a.q].phase.TimedOut? && !u.queries[a.q].phase.Rejected?
  {
  }

  // A query that timed out, or was turned away, never has the lock again, up to and
  // including its end.
  lemma {:induction false} FailedNeverUnlocks(u: System, limited: bool, actions: seq<Action>, q: nat)
    requires Inv(u) && Possible(u, limited, actions) && q in u.queries && !u.queries[q].mutex
    requires u.queries[q].phase.TimedOut? || u.queries[q].phase.Rejected? || u.queries[q].phase.Detached?
    requires Create(q) !in actions
    ensures var v := Run(u, actions);
            v.owner != Some(q) && (q in v.queries ==> !v.queries[q].mutex)
    decreases |actions|
  {
    hide Inv, Do, Enabled;
    FailedOwnsNothing(u, q);
    if actions != [] {
      assert actions[0] in actions;
      StepKeepsInv(u, limited, actions[0]);
      FailedStaysFailed(u, limited, actions[0], q);
      var v := Do(u, actions[0]);
      if q in v.queries {
        FailedNeverUnlocks(v, limited, actions[1..], q);
      } else {
        GoneStaysGone(v, limited, actions[1..], q);
      }
    }
  }

  lemma FailedOwnsNothing(u: System, q: nat)
    requires Inv(u) && q in u.queries && !u.queries[q].mutex
    ensures u.owner != Some(q)
  {
  }

  lemma FailedStaysFailed(u: System, limited: bool, a: Action, q: nat)
    requires Enabled(u, limited, a) && q in u.queries && !u.queries[q].mutex && a != Create(q)
    requires u.queries[q].phase.TimedOut? || u.queries[q].phase.Rejected? || u.queries[q].phase.Detached?
    ensures var v := Do(u, a);
            q in v.queries ==>
              && !v.queries[q].mutex
              && (v.queries[q].phase.TimedOut? || v.queries[q].phase.Rejected? || v.queries[q].phase.Detached?)
  {
  }

  lemma {:induction false} GoneStaysGone(u: System, limited: bool, actions: seq<Action>, q: nat)
    requires Inv(u) && Possible(u, limited, actions) && q !in u.queries && Create(q) !in actions
    ensures q !in Run(u, actions).queries && Run(u, actions).owner != Some(q)
    decreases |actions|
  {
    if actions != [] {
      StepKeepsInv(u, limited, actions[0]);
      assert actions[0] in actions;
      GoneStaysGone(Do(u, actions[0]), limited, actions[1..], q);
    }
  }

  // Without a limit on the wait no query times out.
  lemma {:induction false} UnlimitedNeverTimesOut(u: System, actions: seq<Action>)
    requires Possible(u, false, actions) && forall q | q in u.queries :: !u.queries[q].phase.TimedOut?
    ensures forall q | q in Run(u, actions).queries :: !Run(u, actions).queries[q].phase.TimedOut?
    decreases |actions|
  {
    hide Do, Enabled;
    if actions != [] {
      StepTimesNoneOut(u, actions[0]);
      UnlimitedNeverTimesOut(Do(u, actions[0]), actions[1..]);
    }
  }

  lemma StepTimesNoneOut(u: System, a: Action)
    requires Enabled(u, false, a) && forall q | q in u.queries :: !u.queries[q].phase.TimedOut?
    ensures forall q | q in Do(u, a).queries :: !Do(u, a).queries[q].phase.TimedOut?
  {
  }

  // After the connector's destructor has begun, queries only leave the set.
  lemma {:induction false} NoneAttachesAfterFinalized(u: System, limited: bool, actions: seq<Action>)
    requires Inv(u) && Possible(u, limited, actions) && u.finalized
    ensures Run(u, actions).finalized && Run(u, actions).querySet <= u.querySet
    decreases |actions|
  {
    if actions != [] {
      StepKeepsInv(u, limited, actions[0]);
      NoneAttachesAfterFinalized(Do(u, actions[0]), limited, actions[1..]);
    }
  }

  // With the set empty, the lock is free exactly when no query stands between the two
  // halves of its destructor; the owner is such a query.
  lemma EmptySetAndLock(u: System)
    requires Inv(u) && u.querySet == {}
    ensures u.owner == None <==> forall q | q in u.queries :: !(u.queries[q].phase.Detached? && u.queries[q].mutex)
    ensures u.owner.Some? ==> u.owner.value in u.queries && u.queries[u.owner.value].phase.Detached?
  {
    if u.owner.Some? {
      assert Holds(u.queries[u.owner.value]);
      assert u.owner.value !in u.querySet;
    }
  }

  lemma {:induction false} RunConcat(u: System, limited: bool, a: seq<Action>, b: seq<Action>)
    ensures Run(u, a + b) == Run(Run(u, a), b)
    ensures Possible(u, limited, a + b) <==> Possible(u, limited, a) && Possible(Run(u, a), limited, b)
    decreases |a|
  {
    hide Do, Enabled;
    if a == [] {
      assert a + b == b;
    } else {
      assert (a + b)[1..] == a[1..] + b;
      RunConcat(Do(u, a[0]), limited, a[1..], b);
    }
  }

  // At step i of a run query q got the lock, and its destructor has not returned since.
  ghost predicate HasLock(actions: seq<Action>, q: nat, i: nat) {
    i < |actions| && actions[i] == Acquire(q) && Finish(q) !in actions[i..]
  }

  // What a run's history says of a state: who owns the lock, and whether the owner
  // has detached.
  ghost predicate Told(u: System, actions: seq<Action>) {
    && (forall q: nat, i: nat | HasLock(actions, q, i) :: u.owner == Some(q))
    && (u.owner.Some? ==> exists i: nat :: HasLock(actions, u.owner.value, i))
    && (forall q: nat, i: nat | HasLock(actions, q, i) ::
          q in u.queries && (u.queries[q].phase.Detached? <==> Detach(q) in actions[i..]))
  }

  lemma {:induction false} HistoryTells(limited: bool, actions: seq<Action>)
    requires Possible(Initial(), limited, actions)
    ensures Inv(Run(Initial(), actions)) && Told(Run(Initial(), actions), actions)
    decreases |actions|
  {
    hide Inv, Told, Do, Enabled;
    InitialInv();
    EveryRun(Initial(), limited, actions);
    if actions == [] {
      NothingTold();
    } else {
      var before, a := actions[..|actions| - 1], actions[|actions| - 1];
      assert actions == before + [a];
      RunConcat(Initial(), limited, before, [a]);
      assert [a][1..] == [];
      HistoryTells(limited, before);
      StepTells(Run(Initial(), before), limited, before, a);
    }
  }

  lemma NothingTold()
    ensures Told(Initial(), [])
  {
  }

  lemma StepTells(u: System, limited: bool, before: seq<Action>, a: Action)
    requires Inv(u) && Enabled(u, limited, a) && Told(u, before)
    ensures Told(Do(u, a), before + [a])
  {
    hide Inv, Told, Do, Enabled;
    forall q: nat, i: nat
      ensures HasLock(before + [a], q, i) <==>
                (HasLock(before, q, i) && a != Finish(q)) || (i == |before| && a == Acquire(q))
      ensures i <= |before| ==> (Detach(q) in (before + [a])[i..] <==> Detach(q) in before[i..] || a == Detach(q))
    {
      LockSince(before, a, q, i);
    }
    StepTellsOwner(u, limited, before, a);
  }

  lemma LockSince(before: seq<Action>, a: Action, q: nat, i: nat)
    ensures HasLock(before + [a], q, i) <==>
              (HasLock(before, q, i) && a != Finish(q)) || (i == |before| && a == Acquire(q))
    ensures i <= |before| ==> (Detach(q) in (before + [a])[i..] <==> Detach(q) in before[i..] || a == Detach(q))
  {
    if i <= |before| {
      assert (before + [a])[i..] == before[i..] + [a];
    }
  }

  lemma StepTellsOwner(u: System, limited: bool, before: seq<Action>, a: Action)
    requires Inv(u) && Enabled(u, limited, a) && Told(u, before)
    requires forall q: nat, i: nat ::
               HasLock(before + [a], q, i) <==>
                 (HasLock(before, q, i) && a != Finish(q)) || (i == |before| && a == Acquire(q))
    requires forall q: nat, i: nat | i <= |before| ::
               Detach(q) in (before + [a])[i..] <==> Detach(q) in before[i..] || a == Detach(q)
    ensures Told(Do(u, a), before + [a])
  {
    hide HasLock;
    var v, actions := Do(u, a), before + [a];
    if v.owner.Some? {
      var q := v.owner.value;
      if a == Acquire(q) {
        assert HasLock(actions, q, |before|);
      } else {
        assert u.owner == Some(q) && a != Finish(q);
        var i: nat :| HasLock(before, q, i);
        assert HasLock(actions, q, i);
      }
    }
    forall q: nat, i: nat | HasLock(actions, q, i)
      ensures i < |actions|
    {
      LockBefore(actions, q, i);
    }
    forall q: nat, i: nat | i < |actions| && HasLock(actions, q, i)
      ensures v.owner == Some(q)
      ensures q in v.queries && (v.queries[q].phase.Detached? <==> Detach(q) in actions[i..])
    {
      if HasLock(before, q, i) {
        assert u.owner == Some(q) && Holds(u.queries[q]);
        LockBefore(before, q, i);
      }
    }
  }

  lemma LockBefore(before: seq<Action>, q: nat, i: nat)
    requires HasLock(before, q, i)
    ensures i < |before|
  {
  }

  // Every destructor that let the set go, of a query that had got the lock, has
  // returned: what a user of the connector sees of a run.
  ghost predicate DestructorsReturned(actions: seq<Action>) {
    forall q: nat, i, j | 0 <= i < j < |actions| && actions[i] == Acquire(q) && actions[j] == Detach(q) ::
      Finish(q) in actions[i..]
  }

  // When the connector is gone its lock is free exactly if all those destructors have
  // returned.
  lemma ConnectorGoneLockExactly(limited: bool, actions: seq<Action>)
    requires Possible(Initial(), limited, actions) && Run(Initial(), actions).stage.Done?
    ensures Run(Initial(), actions).owner == None <==> DestructorsReturned(actions)
  {
    hide Do, Enabled;
    var u := Run(Initial(), actions);
    HistoryTells(limited, actions);
    if u.owner.Some? {
      var q := u.owner.value;
      var i: nat :| HasLock(actions, q, i);
      EmptySetAndLock(u);
      assert Detach(q) in actions[i..];
      var j :| 0 <= j < |actions[i..]| && actions[i..][j] == Detach(q);
      assert actions[i + j] == Detach(q);
      assert !DestructorsReturned(actions);
    }
    forall q: nat, i, j | 0 <= i < j < |actions| && actions[i] == Acquire(q) && actions[j] == Detach(q)
      ensures u.owner == None ==> Finish(q) in actions[i..]
    {
      assert Finish(q) !in actions[i..] ==> HasLock(actions, q, i);
    }
  }

  // In particular it is free if every query's destructor had returned before the
  // connector's began.
  lemma FreeAfterDestructors(limited: bool, before: seq<Action>, after: seq<Action>)
    requires Possible(Initial(), limited, before + after) && Run(Initial(), before + after).stage.Done?
    requires forall q: nat :: Detach(q) !in after
    requires forall q: nat, j | 0 <= j < |before| && before[j] == Detach(q) :: Finish(q) in before[j..]
    ensures Run(Initial(), before + after).owner == None
  {
    var actions := before + after;
    forall q: nat, j | |before| <= j < |actions|
      ensures actions[j] != Detach(q)
    {
      assert actions[j] in after;
    }
    forall q: nat, i, j | 0 <= i < j < |actions| && actions[i] == Acquire(q) && actions[j] == Detach(q)
      ensures Finish(q) in actions[i..]
    {
      assert Finish(q) in before[j..];
      var k :| 0 <= k < |before[j..]| && before[j..][k] == Finish(q);
      assert actions[i..][j - i + k] == Finish(q);
    }
    ConnectorGoneLockExactly(limited, actions);
  }

  function DetachBeforeUnlock(): seq<Action> {
    [Create(1), Attach(1), Begin(1), Acquire(1), Detach(1), CloseConnector]
  }

  // The connector can be gone with its lock still held.
  lemma ConnectorGoneLockHeld()
    ensures Possible(Initial(), false, DetachBeforeUnlock())
    ensures var u := Run(Initial(), DetachBeforeUnlock());
            u.stage.Done? && u.querySet == {} && u.owner == Some(1)
  {
    hide Run, Possible;
    var s := DetachBeforeUnlock();
    var u0 := Initial();
    var u1, u2, u3 := Do(u0, s[0]), Do(Do(u0, s[0]), s[1]), Do(Do(Do(u0, s[0]), s[1]), s[2]);
    RunOfThree(u0, false, s);
    assert u2.querySet == {1};
    assert u3 == System(false, {1}, None, map[1 := QueryState(Trying, true, true)], Running, false);
    RunOfThree(u3, false, s[3..]);
    var u6 := System(true, {}, Some(1), map[1 := QueryState(Detached, true, true)], Done, false);
    assert Do(Do(Do(u3, s[3]), s[4]), s[5]) == u6;
    assert s[3..][3..] == [];
    EmptyRun(u6);
  }

  lemma EmptyRun(u: System)
    ensures Run(u, []) == u && Possible(u, false, [])
  {
  }

  lemma RunOfThree(u: System, limited: bool, s: seq<Action>)
    requires |s| >= 3
    ensures var v := Do(Do(Do(u, s[0]), s[1]), s[2]);
            && Run(u, s) == Run(v, s[3..])
            && (Possible(u, limited, s) <==>
                  && Enabled(u, limited, s[0]) && Enabled(Do(u, s[0]), limited, s[1])
                  && Enabled(Do(Do(u, s[0]), s[1]), limited, s[2]) && Possible(v, limited, s[3..]))
  {
    hide Do, Enabled;
    var s1, s2 := s[1..], s[2..];
    assert s1[1..] == s2 && s2[1..] == s[3..];
    assert Run(u, s) == Run(Do(u, s[0]), s1) == Run(Do(Do(u, s[0]), s[1]), s2);
    assert Possible(u, limited, s) <==> Enabled(u, limited, s[0]) && Possible(Do(u, s[0]), limited, s1);
    assert Possible(Do(u, s[0]), limited, s1)
      <==> Enabled(Do(u, s[0]), limited, s[1]) && Possible(Do(Do(u, s[0]), s[1]), limited, s2);
  }
}
