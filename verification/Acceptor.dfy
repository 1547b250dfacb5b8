// The multithreaded acceptor (Net_Sockets/acceptor_multithreaded.cpp): admission of
// clients under two limits, the accounting of connections per address, and shutdown.
module Acceptors {
  import opened Common

  const UINT32_MAX: nat := UINT32_LIMIT - 1

  // A client thread; its address does not change.
  datatype Client = Client(id: nat, ip: string)

  // What the clients' mutex protects.
  datatype State = State(finalized: bool, list: seq<Client>, counts: map<string, nat>,
                         maxClients: nat, maxPerIP: nat)

  datatype Outcome = MustWait | Refused | OverLimit | Admitted

  // How many listed clients have an address.
  function Listed(list: seq<Client>, ip: string): nat {
    if list == [] then 0 else (if list[0].ip == ip then 1 else 0) + Listed(list[1..], ip)
  }

  // std::list::remove.
  function Without(list: seq<Client>, x: Client): seq<Client> {
    if list == [] then [] else (if list[0] == x then [] else [list[0]]) + Without(list[1..], x)
  }

  predicate Distinct(list: seq<Client>) {
    forall i, j | 0 <= i < j < |list| :: list[i] != list[j]
  }

  function Increment(counts: map<string, nat>, ip: string): map<string, nat> {
    if ip !in counts then counts[ip := 1]
    else if counts[ip] != UINT32_MAX then counts[ip := counts[ip] + 1]
    else counts
  }

  // None where decrementIPUsage throws. A count of zero would wrap around.
  function Decrement(counts: map<string, nat>, ip: string): Option<map<string, nat>> {
    if ip !in counts then None
    else if counts[ip] == 1 then Some(counts - {ip})
    else Some(counts[ip := (counts[ip] - 1) % UINT32_LIMIT])
  }

  // processClient, from the moment it holds the mutex and looks at the condition of
  // its loop until it waits or returns.
  function Admission(s: State, x: Client): Outcome {
    if |s.list| >= s.maxClients && !s.finalized then MustWait
    else if s.finalized then Refused
    else if Increment(s.counts, x.ip)[x.ip] > s.maxPerIP then OverLimit
    else Admitted
  }

  // None if the call throws.
  function AfterAdmission(s: State, x: Client): Option<State> {
    match Admission(s, x)
    case MustWait => Some(s)
    case Refused => Some(s)
    case OverLimit =>
      (match Decrement(Increment(s.counts, x.ip), x.ip)
       case None => None
       case Some(counts) => Some(s.(counts := counts)))
    case Admitted => Some(s.(counts := Increment(s.counts, x.ip), list := s.list + [x]))
  }

  // finalizeThreadElement.
  function AfterFinish(s: State, x: Client): Option<State> {
    if x !in s.list then Some(s)
    else
      match Decrement(s.counts, x.ip)
      case None => None
      case Some(counts) => Some(s.(list := Without(s.list, x), counts := counts))
  }

  // ---- The accounting ----------------------------------------------------------------

  // Each count is the number of listed clients with that address, and none is zero.
  ghost predicate Exact(list: seq<Client>, counts: map<string, nat>) {
    && (forall ip | ip in counts :: counts[ip] == Listed(list, ip) > 0)
    && (forall x | x in list :: x.ip in counts)
  }

  ghost predicate Sound(s: State) {
    && Exact(s.list, s.counts) && Distinct(s.list)
    && |s.list| <= UINT32_MAX && s.maxClients <= UINT32_MAX && s.maxPerIP <= UINT32_MAX
  }

  lemma {:induction false} ListedAdd(list: seq<Client>, x: Client, ip: string)
    ensures Listed(list + [x], ip) == Listed(list, ip) + (if x.ip == ip then 1 else 0)
  {
    if list == [] {
      assert list + [x] == [x];
    } else {
      assert (list + [x])[1..] == list[1..] + [x];
      ListedAdd(list[1..], x, ip);
    }
  }

  lemma {:induction false} ListedBound(list: seq<Client>, ip: string)
    ensures Listed(list, ip) <= |list|
    ensures Listed(list, ip) > 0 <==> exists x | x in list :: x.ip == ip
  {
    if list != [] {
      ListedBound(list[1..], ip);
      assert forall x :: x in list <==> x == list[0] || x in list[1..];
    }
  }

  lemma {:induction false} WithoutMeaning(list: seq<Client>, x: Client)
    requires Distinct(list)
    ensures Distinct(Without(list, x)) && |Without(list, x)| == |list| - (if x in list then 1 else 0)
    ensures forall y :: y in Without(list, x) <==> y in list && y != x
    ensures forall ip :: Listed(Without(list, x), ip)
                      == Listed(list, ip) - (if x in list && x.ip == ip then 1 else 0)
  {
    if list != [] {
      var rest := list[1..];
      WithoutMeaning(rest, x);
      assert forall y :: y in list <==> y == list[0] || y in rest;
      assert list[0] !in rest;
      if list[0] == x {
        assert Without(list, x) == Without(rest, x);
      } else {
        assert Without(list, x) == [list[0]] + Without(rest, x);
        assert Without(list, x)[1..] == Without(rest, x);
      }
    }
  }

  // A call that finds room, with the mutex held, admits its client if and only if
  // the acceptor is not closing and the address stays within its limit; in no case
  // does the count saturate or the call throw, and a rejected client leaves no trace.
  lemma AdmissionMeaning(s: State, x: Client)
    requires Sound(s) && x !in s.list
    ensures Admission(s, x).Admitted? <==>
            !s.finalized && |s.list| < s.maxClients && Listed(s.list, x.ip) < s.maxPerIP
    ensures !Admission(s, x).MustWait? && !s.finalized ==> Listed(s.list, x.ip) < UINT32_MAX
    ensures !Admission(s, x).Admitted? ==> AfterAdmission(s, x) == Some(s)
    ensures Admission(s, x).Admitted? ==>
              && var counts := s.counts[x.ip := Listed(s.list, x.ip) + 1];
              AfterAdmission(s, x) == Some(s.(list := s.list + [x], counts := counts))
  {
    ListedBound(s.list, x.ip);
    if Admission(s, x).OverLimit? {
      var counts := Increment(s.counts, x.ip);
      assert Decrement(counts, x.ip).Some?;
      assert Decrement(counts, x.ip).value == s.counts;
    }
  }

  lemma AdmissionSound(s: State, x: Client)
    requires Sound(s) && x !in s.list
    ensures AfterAdmission(s, x).Some? && Sound(AfterAdmission(s, x).value)
  {
    AdmissionMeaning(s, x);
    if Admission(s, x).Admitted? {
      var t := AfterAdmission(s, x).value;
      forall ip | ip in t.counts
        ensures t.counts[ip] == Listed(t.list, ip) > 0
      {
        ListedAdd(s.list, x, ip);
        ListedBound(s.list, ip);
      }
    }
  }

  lemma FinishSound(s: State, x: Client)
    requires Sound(s)
    ensures AfterFinish(s, x).Some? && Sound(AfterFinish(s, x).value)
    ensures var t := AfterFinish(s, x).value;
            && (forall y :: y in t.list <==> y in s.list && y != x)
            && |t.list| == |s.list| - (if x in s.list then 1 else 0)
            && forall ip :: Listed(t.list, ip) == Listed(s.list, ip) - (if x in s.list && x.ip == ip then 1 else 0)
  {
    hide Listed, Without, Distinct;
    if x in s.list {
      WithoutMeaning(s.list, x);
      ListedBound(s.list, x.ip);
      var t := AfterFinish(s, x).value;
      forall ip | ip in t.counts
        ensures t.counts[ip] == Listed(t.list, ip) > 0
      {
      }
      forall y | y in t.list
        ensures y.ip in t.counts
      {
        ListedBound(t.list, y.ip);
      }
    }
  }

  lemma EmptyListEmptyMap(s: State)
    requires Sound(s) && s.list == []
    ensures s.counts == map[]
  {
    assert forall ip :: ip !in s.counts;
  }

  // ---- The object --------------------------------------------------------------------

  class MultiThreaded {
    var finalized: bool
    var threadList: seq<Client>
    var connectionsPerIP: map<string, nat>
    var maxConcurrentClients: nat
    var maxConnectionsPerIP: nat

    ghost function Value(): State
      reads this
    {
      State(finalized, threadList, connectionsPerIP, maxConcurrentClients, maxConnectionsPerIP)
    }

    constructor (maxClients: nat, maxPerIP: nat)
      ensures Value() == State(false, [], map[], maxClients, maxPerIP)
    {
      finalized, threadList, connectionsPerIP := false, [], map[];
      maxConcurrentClients, maxConnectionsPerIP := maxClients, maxPerIP;
    }

    method IncrementIPUsage(ip: string) returns (n: nat)
      modifies this`connectionsPerIP
      ensures connectionsPerIP == Increment(old(connectionsPerIP), ip)
      ensures n == connectionsPerIP[ip]
      ensures n == if ip !in old(connectionsPerIP) then 1
                   else if old(connectionsPerIP)[ip] == 0xFFFF_FFFF then 0xFFFF_FFFF else old(connectionsPerIP)[ip] + 1
      ensures connectionsPerIP - {ip} == old(connectionsPerIP) - {ip}
    {
      if ip !in connectionsPerIP {
        connectionsPerIP := connectionsPerIP[ip := 1];
      } else if connectionsPerIP[ip] != UINT32_MAX {
        connectionsPerIP := connectionsPerIP[ip := connectionsPerIP[ip] + 1];
      }
      n := connectionsPerIP[ip];
    }

    method DecrementIPUsage(ip: string) returns (threw: bool)
      modifies this`connectionsPerIP
      ensures threw <==> Decrement(old(connectionsPerIP), ip).None?
      ensures connectionsPerIP == if threw then old(connectionsPerIP) else Decrement(old(connectionsPerIP), ip).value
      ensures threw <==> ip !in old(connectionsPerIP)
      ensures !threw ==>
                && var n := old(connectionsPerIP)[ip];
                && (ip in connectionsPerIP <==> n != 1)
                && (1 < n <= 0xFFFF_FFFF ==> connectionsPerIP[ip] == n - 1)
                && (n == 0 ==> connectionsPerIP[ip] == 0xFFFF_FFFF)
      ensures connectionsPerIP - {ip} == old(connectionsPerIP) - {ip}
    {
      if ip !in connectionsPerIP {
        return true;
      }
      if connectionsPerIP[ip] == 1 {
        connectionsPerIP := connectionsPerIP - {ip};
      } else {
        connectionsPerIP := connectionsPerIP[ip := (connectionsPerIP[ip] - 1) % UINT32_LIMIT];
      }
      threw := false;
    }

    // One locked region of processClient. On a sound state it never throws and does
    // what AdmissionMeaning says.
    method ProcessClient(x: Client) returns (outcome: Outcome, threw: bool)
      requires Sound(Value()) && x !in threadList
      modifies this`connectionsPerIP, this`threadList
      ensures !threw && Sound(Value())
      ensures outcome == Admission(old(Value()), x) && Some(Value()) == AfterAdmission(old(Value()), x)
    {
      AdmissionSound(Value(), x);
      if |threadList| >= maxConcurrentClients && !finalized {
        return MustWait, false;
      }
      if finalized {
        return Refused, false;
      }
      var n := IncrementIPUsage(x.ip);
      if n > maxConnectionsPerIP {
        threw := DecrementIPUsage(x.ip);
        return OverLimit, threw;
      }
      threadList := threadList + [x];
      return Admitted, false;
    }

    method FinalizeThreadElement(x: Client) returns (found: bool, threw: bool)
      requires Sound(Value())
      modifies this`connectionsPerIP, this`threadList
      ensures !threw && Sound(Value())
      ensures found <==> x in old(threadList)
      ensures Some(Value()) == AfterFinish(old(Value()), x)
    {
      FinishSound(Value(), x);
      if x !in threadList {
        return false, false;
      }
      threadList := Without(threadList, x);
      threw := DecrementIPUsage(x.ip);
      found := true;
    }
  }

  // ---- Whole runs --------------------------------------------------------------------

  // The destructor: before it starts; the flag set but nobody told; everybody told;
  // asleep on the empty condition, not yet signalled; signalled or woken; finished.
  datatype Stage = Running | Marked | Told | Asleep | Woken | Done

  // The protected state, the clients whose processClient call waits for room, those
  // among them that have been notified, the broadcasts that limit changes owe, the
  // destructor, and whether an exception escaped.
  datatype System = System(s: State, waiting: set<Client>, notified: set<Client>, owed: nat,
                           stage: Stage, crashed: bool)

  datatype Action =
    | Enter(x: Client)
    | Resume(x: Client)
    | TimeOut(x: Client)
    | Finish(x: Client, wakes: Option<Client>)
    | SetMaxClients(v: nat)
    | SetMaxPerIP(v: nat)
    | Broadcast
    | MarkFinalized
    | TellAll
    | CheckEmpty
    | WakeDestructor

  // A waiting call may wake up without a notification. notify_one wakes one of the
  // threads still asleep, if there is any.
  predicate Enabled(u: System, a: Action) {
    match a
    case Enter(x) => x !in u.s.list && x !in u.waiting
    case Resume(x) => x in u.waiting
    case TimeOut(x) => x in u.waiting
    case Finish(x, wakes) =>
      if x in u.s.list && u.waiting - u.notified != {} then wakes.Some? && wakes.value in u.waiting - u.notified
      else wakes.None?
    case SetMaxClients(v) => v <= UINT32_MAX
    case SetMaxPerIP(v) => v <= UINT32_MAX
    case Broadcast => u.owed > 0
    case MarkFinalized => u.stage.Running?
    case TellAll => u.stage.Marked?
    case CheckEmpty => u.stage.Told? || u.stage.Woken?
    case WakeDestructor => u.stage.Asleep?
  }

  // Evaluating the loop of processClient for x, which then waits or has returned.
  function Try(u: System, x: Client): System {
    match AfterAdmission(u.s, x)
    case None => u.(crashed := true)
    case Some(s) =>
      var waits := Admission(u.s, x).MustWait?;
      u.(s := s, waiting := if waits then u.waiting + {x} else u.waiting - {x}, notified := u.notified - {x})
  }

  function Do(u: System, a: Action): System {
    match a
    case Enter(x) => Try(u, x)
    case Resume(x) => Try(u, x)
    case TimeOut(x) => u.(waiting := u.waiting - {x}, notified := u.notified - {x})
    case Finish(x, wakes) =>
      (match AfterFinish(u.s, x)
       case None => u.(crashed := true)
       case Some(s) =>
         u.(s := s,
            notified := if wakes.Some? then u.notified + {wakes.value} else u.notified,
            stage := if x in u.s.list && s.list == [] && u.stage.Asleep? then Woken else u.stage))
    case SetMaxClients(v) => u.(s := u.s.(maxClients := v), owed := u.owed + 1)
    case SetMaxPerIP(v) => u.(s := u.s.(maxPerIP := v))
    case Broadcast => u.(owed := if u.owed > 0 then u.owed - 1 else 0, notified := u.waiting)
    case MarkFinalized => u.(s := u.s.(finalized := true), stage := Marked)
    case TellAll => u.(stage := Told, notified := u.waiting)
    case CheckEmpty => u.(stage := if u.s.list == [] then Done else Asleep)
    case WakeDestructor => u.(stage := Woken)
  }

  function Initial(maxClients: nat, maxPerIP: nat): System {
    System(State(false, [], map[], maxClients, maxPerIP), {}, {}, 0, Running, false)
  }

  function Run(u: System, actions: seq<Action>): System
    decreases |actions|
  {
    if actions == [] then u else Run(Do(u, actions[0]), actions[1..])
  }

  predicate Possible(u: System, actions: seq<Action>)
    decreases |actions|
  {
    actions == [] || (Enabled(u, actions[0]) && Possible(Do(u, actions[0]), actions[1..]))
  }

  // What every reachable system satisfies.
  ghost predicate Inv(u: System) {
    && Sound(u.s) && !u.crashed
    && (forall x | x in u.waiting :: x !in u.s.list)
    && u.notified <= u.waiting
    && (u.s.finalized <==> !u.stage.Running?)
    // Once the destructor has told everybody, no processClient call sleeps on.
    && (!u.stage.Running? && !u.stage.Marked? ==> u.waiting == u.notified)
    // The destructor never sleeps on an empty list.
    && (u.stage.Asleep? ==> u.s.list != [])
    && (u.stage.Done? ==> u.s.list == [] && u.s.counts == map[])
  }

  lemma StepKeepsInv(u: System, a: Action)
    requires Inv(u) && Enabled(u, a)
    ensures Inv(Do(u, a))
  {
    match a
    case Enter(x) => AdmissionSound(u.s, x); AdmissionMeaning(u.s, x);
    case Resume(x) => AdmissionSound(u.s, x); AdmissionMeaning(u.s, x);
    case Finish(x, wakes) =>
      FinishSound(u.s, x);
      if AfterFinish(u.s, x).value.list == [] {
        EmptyListEmptyMap(AfterFinish(u.s, x).value);
      }
    case CheckEmpty =>
      if u.s.list == [] {
        EmptyListEmptyMap(u.s);
      }
    case _ =>
  }

  // Every run, whatever the threads do and in whatever order: the counts stay exact,
  // nothing throws, and the destructor ends only with the list and the map empty.
  lemma {:induction false} EveryRun(u: System, actions: seq<Action>)
    requires Inv(u) && Possible(u, actions)
    ensures Inv(Run(u, actions))
    decreases |actions|
  {
    if actions != [] {
      StepKeepsInv(u, actions[0]);
      EveryRun(Do(u, actions[0]), actions[1..]);
    }
  }

  lemma InitialInv(maxClients: nat, maxPerIP: nat)
    requires maxClients <= UINT32_MAX && maxPerIP <= UINT32_MAX
    ensures Inv(Initial(maxClients, maxPerIP)) && WithinLimits(Initial(maxClients, maxPerIP).s)
    ensures NoSlotMissed(Initial(maxClients, maxPerIP))
  {
  }

  // ---- What a call of processClient does -------------------------------------------------

  // A call that looks at the acceptor admits its client exactly if the acceptor is open
  // and both limits in force leave room; it waits exactly if it is open and full.
  lemma EntersExactly(u: System, a: Action)
    requires Inv(u) && Enabled(u, a) && (a.Enter? || a.Resume?)
    ensures var (s, v) := (u.s, Do(u, a));
            && (a.x in v.s.list <==>
                  !s.finalized && |s.list| < s.maxClients && Listed(s.list, a.x.ip) < s.maxPerIP)
            && v.s.list == (if a.x in v.s.list then s.list + [a.x] else s.list)
            && (a.x in v.waiting <==> !s.finalized && |s.list| >= s.maxClients)
  {
    AdmissionMeaning(u.s, a.x);
  }

  // Nothing else lengthens the list.
  lemma OnlyCallsEnter(u: System, a: Action)
    requires Inv(u) && Enabled(u, a) && !a.Enter? && !a.Resume?
    ensures forall y | y in Do(u, a).s.list :: y in u.s.list
    ensures |Do(u, a).s.list| <= |u.s.list|
  {
    if a.Finish? {
      FinishSound(u.s, a.x);
    }
  }

  // The limits in force are those set last.
  lemma {:induction false} LimitsInForce(u: System, actions: seq<Action>)
    requires Inv(u) && Possible(u, actions)
    ensures var s := Run(u, actions).s;
            && (forall i | 0 <= i < |actions| && actions[i].SetMaxClients? ::
                  (forall j | i < j < |actions| :: !actions[j].SetMaxClients?) ==> s.maxClients == actions[i].v)
            && ((forall a | a in actions :: !a.SetMaxClients?) ==> s.maxClients == u.s.maxClients)
            && (forall i | 0 <= i < |actions| && actions[i].SetMaxPerIP? ::
                  (forall j | i < j < |actions| :: !actions[j].SetMaxPerIP?) ==> s.maxPerIP == actions[i].v)
            && ((forall a | a in actions :: !a.SetMaxPerIP?) ==> s.maxPerIP == u.s.maxPerIP)
    decreases |actions|
  {
    hide Inv, Enabled, Do;
    if actions != [] {
      var rest := actions[1..];
      StepKeepsInv(u, actions[0]);
      StepSetsLimits(u, actions[0]);
      LimitsInForce(Do(u, actions[0]), rest);
      assert forall j | 0 < j < |actions| :: actions[j] == rest[j - 1] && rest[j - 1] in rest;
    }
  }

  lemma StepSetsLimits(u: System, a: Action)
    requires Inv(u) && Enabled(u, a)
    ensures Do(u, a).s.maxClients == if a.SetMaxClients? then a.v else u.s.maxClients
    ensures Do(u, a).s.maxPerIP == if a.SetMaxPerIP? then a.v else u.s.maxPerIP
  {
    if a.Enter? || a.Resume? {
      AdmissionMeaning(u.s, a.x);
    } else if a.Finish? {
      FinishSound(u.s, a.x);
    }
  }

  // The destructor asleep is woken by the client that leaves last, and then ends.
  lemma DestructorEnds(u: System, x: Client, wakes: Option<Client>)
    requires Inv(u) && u.stage.Asleep? && u.s.list == [x] && Enabled(u, Finish(x, wakes))
    ensures var v := Do(u, Finish(x, wakes)); Enabled(v, CheckEmpty) && Do(v, CheckEmpty).stage.Done?
  {
    FinishSound(u.s, x);
  }

  // ---- The limits --------------------------------------------------------------------

  ghost predicate WithinLimits(s: State) {
    |s.list| <= s.maxClients && forall ip :: Listed(s.list, ip) <= s.maxPerIP
  }

  predicate FixedLimits(actions: seq<Action>) {
    forall a | a in actions :: !a.SetMaxClients? && !a.SetMaxPerIP?
  }

  lemma StepKeepsLimits(u: System, a: Action)
    requires Inv(u) && Enabled(u, a) && WithinLimits(u.s) && !a.SetMaxClients? && !a.SetMaxPerIP?
    ensures WithinLimits(Do(u, a).s)
    ensures Do(u, a).s.maxClients == u.s.maxClients && Do(u, a).s.maxPerIP == u.s.maxPerIP
  {
    match a
    case Enter(x) => AdmissionKeepsLimits(u.s, x);
    case Resume(x) => AdmissionKeepsLimits(u.s, x);
    case Finish(x, wakes) => FinishSound(u.s, x);
    case _ =>
  }

  lemma AdmissionKeepsLimits(s: State, x: Client)
    requires Sound(s) && x !in s.list && WithinLimits(s)
    ensures AfterAdmission(s, x).Some? && WithinLimits(AfterAdmission(s, x).value)
  {
    AdmissionMeaning(s, x);
    if Admission(s, x).Admitted? {
      forall ip
        ensures Listed(s.list + [x], ip) <= s.maxPerIP
      {
        ListedAdd(s.list, x, ip);
      }
    }
  }

  // With fixed limits, both hold throughout every run.
  lemma {:induction false} LimitsHold(u: System, actions: seq<Action>)
    requires Inv(u) && Possible(u, actions) && WithinLimits(u.s) && FixedLimits(actions)
    ensures var v := Run(u, actions).s;
            WithinLimits(v) && v.maxClients == u.s.maxClients && v.maxPerIP == u.s.maxPerIP
    decreases |actions|
  {
    if actions != [] {
      assert actions[0] in actions;
      StepKeepsInv(u, actions[0]);
      StepKeepsLimits(u, actions[0]);
      LimitsHold(Do(u, actions[0]), actions[1..]);
    }
  }

  // Nothing is admitted once the destructor has marked the acceptor: from there on,
  // clients only leave.
  lemma {:induction false} NothingAdmittedAfterFinalized(u: System, actions: seq<Action>)
    requires Inv(u) && Possible(u, actions) && u.s.finalized
    ensures var v := Run(u, actions).s;
            v.finalized && |v.list| <= |u.s.list| && forall x | x in v.list :: x in u.s.list
    decreases |actions|
  {
    if actions != [] {
      var a := actions[0];
      StepKeepsInv(u, a);
      if a.Finish? {
        FinishSound(u.s, a.x);
      } else if a.Enter? || a.Resume? {
        AdmissionMeaning(u.s, a.x);
      }
      NothingAdmittedAfterFinalized(Do(u, a), actions[1..]);
    }
  }

  // ---- Lost wake-ups -----------------------------------------------------------------

  // No more than m calls of processClient wait at any time.
  predicate AtMostWait(u: System, actions: seq<Action>, m: nat)
    decreases |actions|
  {
    |u.waiting| <= m && (actions == [] || AtMostWait(Do(u, actions[0]), actions[1..], m))
  }

  // A call that sleeps with no notification on its way sleeps because there is no room.
  ghost predicate NoSlotMissed(u: System) {
    forall x | x in u.waiting && x !in u.notified && u.owed == 0 :: |u.s.list| >= u.s.maxClients
  }

  // On no run on which at most m calls wait at a time is a place missed.
  ghost predicate SlotLaw(maxClients: nat, maxPerIP: nat, m: nat) {
    var u := Initial(maxClients, maxPerIP);
    forall actions | Possible(u, actions) && AtMostWait(u, actions, m) :: NoSlotMissed(Run(u, actions))
  }

  lemma StepMissesNoSlot(u: System, a: Action)
    requires Inv(u) && Enabled(u, a) && |u.waiting| <= 1 && NoSlotMissed(u)
    ensures NoSlotMissed(Do(u, a))
  {
    match a
    case Enter(x) => AdmissionMeaning(u.s, x);
    case Resume(x) => AdmissionMeaning(u.s, x);
    case Finish(x, wakes) =>
      FinishSound(u.s, x);
      forall y | y in u.waiting && x in u.s.list
        ensures y in Do(u, a).notified
      {
        if y !in u.notified {
          assert y in u.waiting - u.notified;
          OneElement(u.waiting, y, wakes.value);
        }
      }
    case _ =>
  }

  lemma OneElement(s: set<Client>, x: Client, y: Client)
    requires |s| <= 1 && x in s && y in s
    ensures x == y
  {
    if x != y {
      assert {x, y} <= s;
      Fewer({x, y}, s);
    }
  }

  lemma {:induction false} Fewer(a: set<Client>, b: set<Client>)
    requires a <= b
    ensures |a| <= |b|
  {
    if a != {} {
      var x :| x in a;
      Fewer(a - {x}, b - {x});
    }
  }

  lemma {:induction false} OneAcceptorMissesNoSlot(u: System, actions: seq<Action>)
    requires Inv(u) && Possible(u, actions) && AtMostWait(u, actions, 1) && NoSlotMissed(u)
    ensures NoSlotMissed(Run(u, actions))
    decreases |actions|
  {
    hide NoSlotMissed, Inv, Do, Enabled;
    if actions != [] {
      StepKeepsInv(u, actions[0]);
      StepMissesNoSlot(u, actions[0]);
      OneAcceptorMissesNoSlot(Do(u, actions[0]), actions[1..]);
    }
  }

  lemma {:induction false} FewerWait(u: System, actions: seq<Action>, m: nat)
    requires AtMostWait(u, actions, m) && m <= 1
    ensures AtMostWait(u, actions, 1)
    decreases |actions|
  {
    if actions != [] {
      FewerWait(Do(u, actions[0]), actions[1..], m);
    }
  }

  // With two calls waiting, the one notification a freed place gives can go to a call
  // that times out at that moment, and the other sleeps on beside a free place. A
  // call turned away by the limit per address wastes its notification just so.
  function Guest(i: nat): Client {
    Client(i, seq(i, _ => 'x'))
  }

  function Guests(n: nat): seq<Client> {
    seq(n, i requires 0 <= i => Guest(i))
  }

  function Entering(n: nat): seq<Action> {
    seq(n, i requires 0 <= i => Enter(Guest(i)))
  }

  function UnluckyEnd(n: nat): seq<Action> {
    [Enter(Guest(n)), Enter(Guest(n + 1)), Finish(Guest(0), Some(Guest(n))), TimeOut(Guest(n))]
  }

  // An acceptor with n guests, open, and nobody waiting.
  ghost predicate Holding(u: System, n: nat, maxClients: nat, maxPerIP: nat) {
    && Inv(u) && u.s.list == Guests(n) && u.s.maxClients == maxClients && u.s.maxPerIP == maxPerIP
    && u.waiting == {} && u.owed == 0 && u.stage.Running?
  }

  lemma GuestsListed(n: nat, i: nat)
    requires i >= n
    ensures Guest(i) !in Guests(n) && Listed(Guests(n), Guest(i).ip) == 0
  {
    ListedBound(Guests(n), Guest(i).ip);
    forall x | x in Guests(n)
      ensures x.ip != Guest(i).ip
    {
      assert |Guest(i).ip| == i;
    }
  }

  lemma GuestEnters(u: System, n: nat, maxClients: nat, maxPerIP: nat)
    requires Holding(u, n, maxClients, maxPerIP) && n < maxClients && 1 <= maxPerIP
    ensures Enabled(u, Enter(Guest(n))) && Holding(Do(u, Enter(Guest(n))), n + 1, maxClients, maxPerIP)
  {
    GuestsListed(n, n);
    AdmissionMeaning(u.s, Guest(n));
    StepKeepsInv(u, Enter(Guest(n)));
    assert Guests(n) + [Guest(n)] == Guests(n + 1);
  }

  lemma {:induction false} GuestsEnter(n: nat, maxClients: nat, maxPerIP: nat, m: nat)
    requires n <= maxClients <= UINT32_MAX && 1 <= maxPerIP <= UINT32_MAX
    ensures var u := Initial(maxClients, maxPerIP);
            && Possible(u, Entering(n)) && AtMostWait(u, Entering(n), m)
            && Holding(Run(u, Entering(n)), n, maxClients, maxPerIP)
  {
    hide Inv, Do, Enabled;
    var u := Initial(maxClients, maxPerIP);
    if n == 0 {
      InitialInv(maxClients, maxPerIP);
    } else {
      GuestsEnter(n - 1, maxClients, maxPerIP, m);
      var v := Run(u, Entering(n - 1));
      GuestEnters(v, n - 1, maxClients, maxPerIP);
      OneStep(v, Enter(Guest(n - 1)), m);
      assert Entering(n) == Entering(n - 1) + [Enter(Guest(n - 1))];
      RunConcat(u, Entering(n - 1), [Enter(Guest(n - 1))], m);
    }
  }

  lemma OneStep(u: System, a: Action, m: nat)
    requires Enabled(u, a) && |u.waiting| <= m && |Do(u, a).waiting| <= m
    ensures Possible(u, [a]) && AtMostWait(u, [a], m) && Run(u, [a]) == Do(u, a)
  {
    assert [a][1..] == [];
  }

  lemma {:induction false} RunConcat(u: System, a: seq<Action>, b: seq<Action>, m: nat)
    ensures Run(u, a + b) == Run(Run(u, a), b)
    ensures Possible(u, a + b) <==> Possible(u, a) && Possible(Run(u, a), b)
    ensures AtMostWait(u, a + b, m) <==> AtMostWait(u, a, m) && AtMostWait(Run(u, a), b, m)
    decreases |a|
  {
    hide Do, Enabled;
    if a == [] {
      assert a + b == b;
    } else {
      assert (a + b)[1..] == a[1..] + b;
      RunConcat(Do(u, a[0]), a[1..], b, m);
    }
  }

  lemma CallWaits(u: System, x: Client)
    requires Inv(u) && x !in u.s.list && x !in u.waiting && |u.s.list| >= u.s.maxClients && !u.s.finalized
    ensures Enabled(u, Enter(x)) && Inv(Do(u, Enter(x)))
    ensures Do(u, Enter(x)) == u.(waiting := u.waiting + {x}, notified := u.notified - {x})
  {
    hide Inv;
    StepKeepsInv(u, Enter(x));
  }

  // A guest leaves; the notification goes to a waiting call, which times out.
  lemma NotificationWasted(u: System, x: Client, b: Client, c: Client)
    requires Inv(u) && x in u.s.list && u.waiting == {b, c} && u.notified == {} && b != c && u.stage.Running?
    ensures Enabled(u, Finish(x, Some(b))) && Enabled(Do(u, Finish(x, Some(b))), TimeOut(b))
    ensures Do(u, Finish(x, Some(b))).waiting == {b, c}
    ensures var v := Do(Do(u, Finish(x, Some(b))), TimeOut(b));
            && v.waiting == {c} && v.notified == {} && v.owed == u.owed
            && |v.s.list| == |u.s.list| - 1 && v.s.maxClients == u.s.maxClients
  {
    hide Sound;
    FinishSound(u.s, x);
    assert b in u.waiting - u.notified;
  }

  lemma FourSteps(u: System, a: Action, b: Action, c: Action, d: Action, m: nat)
    requires Enabled(u, a) && Enabled(Do(u, a), b) && Enabled(Do(Do(u, a), b), c)
    requires Enabled(Do(Do(Do(u, a), b), c), d)
    requires |u.waiting| <= m && |Do(u, a).waiting| <= m && |Do(Do(u, a), b).waiting| <= m
    requires |Do(Do(Do(u, a), b), c).waiting| <= m && |Do(Do(Do(Do(u, a), b), c), d).waiting| <= m
    ensures Possible(u, [a, b, c, d]) && AtMostWait(u, [a, b, c, d], m)
    ensures Run(u, [a, b, c, d]) == Do(Do(Do(Do(u, a), b), c), d)
  {
    hide Do, Enabled, Run, Possible, AtMostWait;
    var u1, u2, u3 := Do(u, a), Do(Do(u, a), b), Do(Do(Do(u, a), b), c);
    OneStep(u, a, m);
    OneStep(u1, b, m);
    OneStep(u2, c, m);
    OneStep(u3, d, m);
    RunConcat(u, [a], [b], m);
    RunConcat(u, [a] + [b], [c], m);
    RunConcat(u, [a] + [b] + [c], [d], m);
    assert [a] + [b] + [c] + [d] == [a, b, c, d];
  }

  lemma TwoAcceptorsMissASlot(u: System, n: nat, maxPerIP: nat, m: nat)
    requires 1 <= n && 2 <= m && Holding(u, n, n, maxPerIP) && u.notified == {}
    ensures Possible(u, UnluckyEnd(n)) && AtMostWait(u, UnluckyEnd(n), m)
    ensures FixedLimits(UnluckyEnd(n)) && !NoSlotMissed(Run(u, UnluckyEnd(n)))
  {
    hide Inv, Do, Enabled, Run, Possible, AtMostWait;
    var b, c, a := Guest(n), Guest(n + 1), UnluckyEnd(n);
    var u1 := Do(u, a[0]);
    GuestsListed(n, n);
    GuestsListed(n, n + 1);
    OpenWhileRunning(u);
    CallWaits(u, b);
    CallWaits(u1, c);
    var u2 := Do(u1, a[1]);
    assert u2.waiting == {b, c} && u2.notified == {};
    assert Guests(n)[0] == Guest(0);
    NotificationWasted(u2, Guest(0), b, c);
    FourSteps(u, a[0], a[1], a[2], a[3], m);
    assert c in Run(u, a).waiting;
  }

  lemma OpenWhileRunning(u: System)
    requires Inv(u) && u.stage.Running?
    ensures !u.s.finalized
  {
  }

  // A free place is never missed exactly when no more than one call waits at a time.
  lemma SlotLawExactly(maxClients: nat, maxPerIP: nat, m: nat)
    requires 1 <= maxClients <= UINT32_MAX && 1 <= maxPerIP <= UINT32_MAX
    ensures SlotLaw(maxClients, maxPerIP, m) <==> m <= 1
  {
    hide Inv, Do, Enabled, Run, Possible, AtMostWait, NoSlotMissed;
    var u := Initial(maxClients, maxPerIP);
    InitialInv(maxClients, maxPerIP);
    if m <= 1 {
      forall actions | Possible(u, actions) && AtMostWait(u, actions, m)
        ensures NoSlotMissed(Run(u, actions))
      {
        FewerWait(u, actions, m);
        OneAcceptorMissesNoSlot(u, actions);
      }
    } else {
      GuestsEnter(maxClients, maxClients, maxPerIP, m);
      var v := Run(u, Entering(maxClients));
      NobodyNotified(v);
      TwoAcceptorsMissASlot(v, maxClients, maxPerIP, m);
      RunConcat(u, Entering(maxClients), UnluckyEnd(maxClients), m);
    }
  }

  lemma NobodyNotified(u: System)
    requires Inv(u) && u.waiting == {}
    ensures u.notified == {}
  {
  }
}
