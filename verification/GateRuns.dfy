/**
 Every interleaving of route calls on one confirmation gate.  The steps are the gate's
 locked regions and the executor calls made after the lock is released; `issued`,
 `takings`, `expired` and `executed` record history and never influence a step.
 */
module GateRuns {
  import opened Bytes
  import Json
  import Ids
  import Messages
  import opened Gate

  datatype Flight = Flight(id: string, entry: PendingAction)
  datatype Taking = Taking(caller: string, at: nat)
  datatype Execution = Execution(id: string, params: string)

  datatype State = State(
    pending: Pending,
    counter: nat,
    now: nat,
    inFlight: map<nat, Flight>,
    issued: map<string, PendingAction>,
    takings: map<string, Taking>,
    expired: set<string>,
    executed: seq<Execution>)

  function Initial(counter: nat, now: nat): State {
    State(map[], counter, now, map[], map[], map[], {}, [])
  }

  datatype Step =
    | Call(thread: nat, req: ActionRequest, r: Readings)
    | Execute(thread: nat)
    | OtherGate(count: nat)

  predicate Enabled(s: State, step: Step) {
    match step
    case Call(thread, _, r) =>
      && thread !in s.inFlight && s.now <= r.now <= r.createdAt
      && r.sequence == s.counter < Ids.COUNTER_LIMIT
    case Execute(thread) => thread in s.inFlight
    case OtherGate(count) => s.counter + count <= Ids.COUNTER_LIMIT
  }

  /** Identifiers dropped by a sweep at `now`. */
  function Dropped(pending: Pending, ttl: int, now: nat): set<string> {
    pending.Keys - Swept(pending, ttl, now).Keys
  }

  function AfterRequest(c: Config, s: State, req: ActionRequest, r: Readings): State {
    var id := Ids.Identifier(TAG, r.millis, r.sequence);
    s.(pending := Stored(s.pending, c.ttl, id, req, r.now, r.createdAt),
       expired := s.expired + Dropped(s.pending, c.ttl, r.now),
       issued := s.issued[id := Entry(req, r.createdAt)],
       counter := s.counter + 1,
       now := r.createdAt)
  }

  function AfterConfirm(c: Config, s: State, thread: nat, caller: string, id: string, now: nat): State {
    var (after, taken) := Taken(s.pending, c.ttl, id, now);
    var swept := s.(pending := after, expired := s.expired + Dropped(s.pending, c.ttl, now), now := now);
    if taken.Found?
    then swept.(takings := s.takings[id := Taking(caller, now)],
                inFlight := s.inFlight[thread := Flight(id, taken.value)])
    else swept
  }

  function Next(c: Config, s: State, step: Step): State
    requires Enabled(s, step)
  {
    match step
    case Call(thread, req, r) =>
      (match Decide(c, req)
       case Request => AfterRequest(c, s, req, r)
       case Confirm(id) => AfterConfirm(c, s, thread, req.caller, id, r.now)
       case _ => s.(now := r.now))
    case Execute(thread) =>
      var flight := s.inFlight[thread];
      s.(executed := s.executed + [Execution(flight.id, flight.entry.params)], inFlight := s.inFlight - {thread})
    case OtherGate(count) => s.(counter := s.counter + count)
  }

  function Run(c: Config, s: State, steps: seq<Step>): Option<State>
    decreases steps
  {
    if steps == [] then Some(s)
    else if Enabled(s, steps[0]) then Run(c, Next(c, s, steps[0]), steps[1..])
    else None
  }

  ghost predicate Reachable(c: Config, s: State) {
    exists counter: nat, now: nat, steps :: Run(c, Initial(counter, now), steps) == Some(s)
  }

  // ---------------------------------------------------------------------
  // Invariants

  /** Issued ids are exactly the pending, the taken and the expired ones, each in one place. */
  ghost predicate Ledger(s: State) {
    && Split(s.issued.Keys, s.pending.Keys, s.takings.Keys, s.expired)
    && (forall id <- s.pending.Keys :: s.pending[id] == s.issued[id])
  }

  ghost predicate Numbered(id: string, counter: nat) {
    exists m: nat, k: nat :: k < counter && id == Ids.Identifier(TAG, m, k)
  }

  /** No id carries a number the counter has yet to reach. */
  ghost predicate IdsBelowCounter(s: State) {
    forall id <- s.issued.Keys :: Numbered(id, s.counter)
  }

  /** What was issued came from request_<op>, in the past. */
  ghost predicate IssuedByRequests(c: Config, s: State) {
    forall id <- s.issued.Keys :: s.issued[id].action == "request_" + c.op && s.issued[id].createdAt <= s.now
  }

  /** What was taken was still young, and an allowlisted caller confirmed it. */
  ghost predicate TakenProperly(c: Config, s: State) {
    forall id <- s.takings.Keys :: id in s.issued
      && s.takings[id].at - s.issued[id].createdAt < c.ttl && MayConfirm(c.confirmCallers, s.takings[id].caller)
  }

  /** What expired had its full time. */
  ghost predicate ExpiredInTime(c: Config, s: State) {
    forall id <- s.expired :: id in s.issued && s.now - s.issued[id].createdAt >= c.ttl
  }

  /** Taken entries on their way to the executor: the stored ones, one thread each, not executed yet. */
  ghost predicate FlightsAreTaken(s: State) {
    && (forall t <- s.inFlight.Keys :: s.inFlight[t].id in s.takings && s.inFlight[t].id in s.issued
          && s.inFlight[t].entry == s.issued[s.inFlight[t].id])
    && (forall t, u :: t in s.inFlight && u in s.inFlight && s.inFlight[t].id == s.inFlight[u].id ==> t == u)
    && (forall t, i :: t in s.inFlight && 0 <= i < |s.executed| ==> s.executed[i].id != s.inFlight[t].id)
  }

  /** Executions: stored parameters, taken ids, never the same id twice. */
  ghost predicate ExecutedOnce(s: State) {
    && (forall e <- s.executed :: e.id in s.takings && e.id in s.issued && e.params == s.issued[e.id].params)
    && (forall i, j :: 0 <= i < j < |s.executed| ==> s.executed[i].id != s.executed[j].id)
  }

  ghost predicate Invariant(c: Config, s: State) {
    && Ledger(s) && IdsBelowCounter(s) && IssuedByRequests(c, s) && TakenProperly(c, s)
    && ExpiredInTime(c, s) && FlightsAreTaken(s) && ExecutedOnce(s)
  }

  // ---------------------------------------------------------------------
  // Steps keep the invariant

  lemma PrefixAndRest(s: string, prefix: string, op: string)
    requires HasPrefix(s, prefix) && s[|prefix|..] == op
    ensures s == prefix + op
  {}

  /** A new id was never issued before. */
  lemma NewIdIsFresh(s: State, millis: nat)
    requires IdsBelowCounter(s)
    ensures Ids.Identifier(TAG, millis, s.counter) !in s.issued
  {
    var id := Ids.Identifier(TAG, millis, s.counter);
    if id in s.issued {
      var m: nat, k: nat :| k < s.counter && id == Ids.Identifier(TAG, m, k);
      Ids.IdentifierIsInjective(TAG, millis, s.counter, m, k);
    }
  }

  lemma NumberedLater(s: State, counter: nat)
    requires IdsBelowCounter(s) && s.counter <= counter
    ensures forall id <- s.issued.Keys :: Numbered(id, counter)
  {}

  lemma SweepSplits(pending: Pending, ttl: int, now: nat)
    ensures Swept(pending, ttl, now).Keys + Dropped(pending, ttl, now) == pending.Keys
    ensures Swept(pending, ttl, now).Keys !! Dropped(pending, ttl, now)
    ensures forall id <- Swept(pending, ttl, now).Keys :: Swept(pending, ttl, now)[id] == pending[id]
  {}

  /** `whole` is split into three disjoint parts. */
  ghost predicate Split(whole: set<string>, a: set<string>, b: set<string>, c: set<string>) {
    whole == a + b + c && a !! b && a !! c && b !! c
  }

  lemma SplitAfterSweep(whole: set<string>, a: set<string>, b: set<string>, c: set<string>, live: set<string>,
                        dropped: set<string>)
    requires Split(whole, a, b, c) && live + dropped == a && live !! dropped
    ensures Split(whole, live, b, c + dropped)
  {}

  lemma SplitAfterMove(whole: set<string>, a: set<string>, b: set<string>, c: set<string>, id: string)
    requires Split(whole, a, b, c) && id in a
    ensures Split(whole, a - {id}, b + {id}, c)
  {}

  lemma RequestKeepsLedger(c: Config, s: State, req: ActionRequest, r: Readings)
    requires Ledger(s) && Ids.Identifier(TAG, r.millis, r.sequence) !in s.issued
    ensures Ledger(AfterRequest(c, s, req, r))
  {}

  lemma RequestKeepsTimes(c: Config, s: State, req: ActionRequest, r: Readings)
    requires IssuedByRequests(c, s) && TakenProperly(c, s) && ExpiredInTime(c, s) && Ledger(s)
    requires Decide(c, req) == Request && s.now <= r.now <= r.createdAt
    requires Ids.Identifier(TAG, r.millis, r.sequence) !in s.issued
    ensures var s' := AfterRequest(c, s, req, r);
      IssuedByRequests(c, s') && TakenProperly(c, s') && ExpiredInTime(c, s')
  {
    PrefixAndRest(req.action, "request_", c.op);
    hide Ids.Identifier, MayConfirm, Decide, Stored;
  }

  lemma RequestKeepsFlights(c: Config, s: State, req: ActionRequest, r: Readings)
    requires FlightsAreTaken(s) && ExecutedOnce(s)
    requires Ids.Identifier(TAG, r.millis, r.sequence) !in s.issued
    ensures FlightsAreTaken(AfterRequest(c, s, req, r)) && ExecutedOnce(AfterRequest(c, s, req, r))
  {}

  lemma RequestKeepsInvariant(c: Config, s: State, req: ActionRequest, r: Readings)
    requires Invariant(c, s) && Decide(c, req) == Request && s.now <= r.now <= r.createdAt && r.sequence == s.counter
    ensures Invariant(c, AfterRequest(c, s, req, r))
  {
    NewIdIsFresh(s, r.millis);
    RequestKeepsLedger(c, s, req, r);
    RequestKeepsTimes(c, s, req, r);
    RequestKeepsFlights(c, s, req, r);
    NumberedLater(s, s.counter + 1);
    assert Numbered(Ids.Identifier(TAG, r.millis, r.sequence), s.counter + 1);
    hide Ledger, TakenProperly, ExpiredInTime, FlightsAreTaken, ExecutedOnce, IssuedByRequests, Stored,
         Dropped, Numbered, Ids.Identifier, Decide;
  }

  lemma ConfirmKeepsLedger(c: Config, s: State, thread: nat, caller: string, id: string, now: nat)
    requires Ledger(s)
    ensures Ledger(AfterConfirm(c, s, thread, caller, id, now))
  {
    hide Swept, Dropped, Split;
    var live, dropped := Swept(s.pending, c.ttl, now), Dropped(s.pending, c.ttl, now);
    var s' := AfterConfirm(c, s, thread, caller, id, now);
    SweepSplits(s.pending, c.ttl, now);
    SplitAfterSweep(s.issued.Keys, s.pending.Keys, s.takings.Keys, s.expired, live.Keys, dropped);
    if id in live {
      SplitAfterMove(s.issued.Keys, live.Keys, s.takings.Keys, s.expired + dropped, id);
      assert s'.pending.Keys == live.Keys - {id} && s'.takings.Keys == s.takings.Keys + {id};
    }
  }

  lemma ConfirmKeepsTimes(c: Config, s: State, thread: nat, caller: string, id: string, now: nat)
    requires Ledger(s) && IssuedByRequests(c, s) && TakenProperly(c, s) && ExpiredInTime(c, s)
    requires s.now <= now && MayConfirm(c.confirmCallers, caller)
    ensures var s' := AfterConfirm(c, s, thread, caller, id, now);
      IssuedByRequests(c, s') && TakenProperly(c, s') && ExpiredInTime(c, s')
  {
    hide MayConfirm;
  }

  lemma ConfirmKeepsFlights(c: Config, s: State, thread: nat, caller: string, id: string, now: nat)
    requires Ledger(s) && FlightsAreTaken(s) && ExecutedOnce(s) && thread !in s.inFlight
    ensures FlightsAreTaken(AfterConfirm(c, s, thread, caller, id, now))
  {
    hide Dropped;
    var s' := AfterConfirm(c, s, thread, caller, id, now);
    if id in Swept(s.pending, c.ttl, now) {
      assert id !in s.takings;
      assert s'.inFlight == s.inFlight[thread := Flight(id, s.pending[id])];
      assert forall i :: 0 <= i < |s.executed| ==> s.executed[i] in s.executed;
      hide Swept;
    }
  }

  lemma ConfirmKeepsExecuted(c: Config, s: State, thread: nat, caller: string, id: string, now: nat)
    requires ExecutedOnce(s)
    ensures ExecutedOnce(AfterConfirm(c, s, thread, caller, id, now))
  {}

  lemma ConfirmKeepsInvariant(c: Config, s: State, thread: nat, caller: string, id: string, now: nat)
    requires Invariant(c, s) && s.now <= now && thread !in s.inFlight && MayConfirm(c.confirmCallers, caller)
    ensures Invariant(c, AfterConfirm(c, s, thread, caller, id, now))
  {
    ConfirmKeepsLedger(c, s, thread, caller, id, now);
    ConfirmKeepsTimes(c, s, thread, caller, id, now);
    ConfirmKeepsFlights(c, s, thread, caller, id, now);
    ConfirmKeepsExecuted(c, s, thread, caller, id, now);
    hide MayConfirm, Numbered, Ledger, TakenProperly, ExpiredInTime, FlightsAreTaken, ExecutedOnce,
         IssuedByRequests, Swept, Dropped;
  }

  lemma ExecuteKeepsInvariant(c: Config, s: State, thread: nat)
    requires Invariant(c, s) && thread in s.inFlight
    ensures Invariant(c, Next(c, s, Execute(thread)))
  {
    hide Ids.Identifier, MayConfirm, Numbered, Decide;
  }

  lemma StepKeepsInvariant(c: Config, s: State, step: Step)
    requires Invariant(c, s) && Enabled(s, step)
    ensures Invariant(c, Next(c, s, step))
  {
    hide MayConfirm, Json.FindString, Numbered, AfterConfirm, AfterRequest;
    match step {
      case Call(thread, req, r) =>
        match Decide(c, req) {
          case Request => RequestKeepsInvariant(c, s, req, r);
          case Confirm(id) => ConfirmKeepsInvariant(c, s, thread, req.caller, id, r.now);
          case _ =>
        }
      case Execute(thread) => ExecuteKeepsInvariant(c, s, thread);
      case OtherGate(count) => NumberedLater(s, s.counter + count);
    }
  }

  lemma {:induction false} RunKeepsInvariant(c: Config, s: State, steps: seq<Step>)
    requires Invariant(c, s) && Run(c, s, steps).Some?
    ensures Invariant(c, Run(c, s, steps).value)
    decreases steps
  {
    hide Invariant, Next, Enabled;
    if steps != [] {
      StepKeepsInvariant(c, s, steps[0]);
      RunKeepsInvariant(c, Next(c, s, steps[0]), steps[1..]);
    }
  }

  lemma ReachableInvariant(c: Config, s: State)
    requires Reachable(c, s)
    ensures Invariant(c, s)
  {
    var counter: nat, now: nat, steps :| Run(c, Initial(counter, now), steps) == Some(s);
    RunKeepsInvariant(c, Initial(counter, now), steps);
  }

  // ---------------------------------------------------------------------
  // What the gate promises

  /**
   Every execution: stored parameters of a request_<op>, at most once per id, confirmed in time by an
   allowed caller.
   */
  lemma ExecutionsAreConfirmed(c: Config, s: State, i: nat)
    requires Reachable(c, s) && i < |s.executed|
    ensures var e := s.executed[i];
      && e.id in s.issued && e.params == s.issued[e.id].params && s.issued[e.id].action == "request_" + c.op
      && e.id in s.takings && Approved(c.confirmCallers, s.takings[e.id].caller)
      && s.takings[e.id].at - s.issued[e.id].createdAt < c.ttl
      && (forall j :: 0 <= j < |s.executed| && s.executed[j].id == e.id ==> j == i)
  {
    ReachableInvariant(c, s);
    hide MayConfirm, Approved, Ids.Identifier, Numbered;
    assert s.executed[i] in s.executed;
    MayConfirmIff(c.confirmCallers, s.takings[s.executed[i].id].caller);
    assert s.executed[i] in s.executed;
  }

  /** A request_<op> call that carries exactly this entry under this id. */
  ghost predicate Requests(c: Config, step: Step, id: string, entry: PendingAction) {
    && step.Call? && step.req.action == "request_" + c.op
    && id == Ids.Identifier(TAG, step.r.millis, step.r.sequence)
    && entry.action == step.req.action && entry.params == step.req.params && entry.caller == step.req.caller
    && entry.createdAt == step.r.createdAt
  }

  /** Every issued entry is, field by field, what one request_<op> call of the run carried. */
  lemma {:induction false} IssuedByOneCall(c: Config, s: State, steps: seq<Step>, id: string)
    requires Invariant(c, s) && Run(c, s, steps).Some? && id in Run(c, s, steps).value.issued
    ensures var entry := Run(c, s, steps).value.issued[id];
      (id in s.issued && entry == s.issued[id]) || exists i :: 0 <= i < |steps| && Requests(c, steps[i], id, entry)
    decreases steps
  {
    hide Invariant, Enabled, Decide, Ids.Identifier, Stored, Taken, Dropped;
    if steps != [] {
      var s1 := Next(c, s, steps[0]);
      StepKeepsInvariant(c, s, steps[0]);
      IssuedByOneCall(c, s1, steps[1..], id);
      var entry := Run(c, s, steps).value.issued[id];
      if id in s1.issued && entry == s1.issued[id] {
        if !(id in s.issued && entry == s.issued[id]) {
          DecideIff(c, steps[0].req);
          assert Requests(c, steps[0], id, entry);
        }
      } else {
        var i :| 0 <= i < |steps[1..]| && Requests(c, steps[1..][i], id, entry);
        assert steps[i + 1] == steps[1..][i];
      }
    }
  }

  /** A confirm_<op> call by an approved caller that presents this id. */
  ghost predicate Confirms(c: Config, step: Step, id: string, taking: Taking) {
    && step.Call? && step.req.action == "confirm_" + c.op && Approved(c.confirmCallers, step.req.caller)
    && Json.FindString(step.req.params, "pending_id") == Json.Found(id)
    && taking.caller == step.req.caller && taking.at == step.r.now
  }

  /** Every taking is what one confirm_<op> call of the run did. */
  lemma {:induction false} TakenByOneCall(c: Config, s: State, steps: seq<Step>, id: string)
    requires Run(c, s, steps).Some? && id in Run(c, s, steps).value.takings
    ensures var taking := Run(c, s, steps).value.takings[id];
      (id in s.takings && taking == s.takings[id]) || exists i :: 0 <= i < |steps| && Confirms(c, steps[i], id, taking)
    decreases steps
  {
    hide Enabled, Decide, Ids.Identifier, Stored, Taken, Dropped, Approved, Json.FindString;
    if steps != [] {
      var s1 := Next(c, s, steps[0]);
      TakenByOneCall(c, s1, steps[1..], id);
      var taking := Run(c, s, steps).value.takings[id];
      if id in s1.takings && taking == s1.takings[id] {
        if !(id in s.takings && taking == s.takings[id]) {
          DecideIff(c, steps[0].req);
          assert Confirms(c, steps[0], id, taking);
        }
      } else {
        var i :| 0 <= i < |steps[1..]| && Confirms(c, steps[1..][i], id, taking);
        assert steps[i + 1] == steps[1..][i];
      }
    }
  }

  /** Ids are never reused, and each is pending, taken or expired - exactly one of the three. */
  lemma LedgerBalances(c: Config, s: State)
    requires Reachable(c, s)
    ensures s.issued.Keys == s.pending.Keys + s.takings.Keys + s.expired
    ensures |s.issued| == |s.pending| + |s.takings| + |s.expired|
    ensures forall millis: nat :: Ids.Identifier(TAG, millis, s.counter) !in s.issued
  {
    ReachableInvariant(c, s);
    forall millis: nat ensures Ids.Identifier(TAG, millis, s.counter) !in s.issued { NewIdIsFresh(s, millis); }
    hide Ids.Identifier;
    hide ExecutedOnce, FlightsAreTaken, IdsBelowCounter, TakenProperly;
    assert |s.issued.Keys| == |s.issued| && |s.pending.Keys| == |s.pending| && |s.takings.Keys| == |s.takings|;
    assert |s.pending.Keys + s.takings.Keys| == |s.pending.Keys| + |s.takings.Keys|;
  }

  /** Requests still within their lifetime at `now`. */
  function Recent(s: State, ttl: int, now: nat): set<string> {
    set id <- s.issued.Keys | now - s.issued[id].createdAt < ttl
  }

  /** The entry a request has just stored. */
  function Newest(c: Config, step: Step): set<string>
    requires step.Call?
  {
    if Decide(c, step.req).Request? then {Ids.Identifier(TAG, step.r.millis, step.r.sequence)} else {}
  }

  /**
   Right after a store or a take no entry is older than the TTL, apart from the one just stored when
   the TTL is not positive.
   */
  lemma PendingIsRecent(c: Config, s: State, step: Step)
    requires Ledger(s) && IssuedByRequests(c, s) && Enabled(s, step) && step.Call?
    requires Decide(c, step.req).Request? || Decide(c, step.req).Confirm?
    requires Ledger(Next(c, s, step))
    ensures var s' := Next(c, s, step);
      && (c.ttl > 0 ==> s'.pending.Keys <= Recent(s', c.ttl, step.r.now))
      && (c.ttl <= 0 ==> s'.pending.Keys <= Newest(c, step))
  {
    hide Decide, Ids.Identifier;
  }

  /**
   So the map holds no more entries than requests made within the last TTL, or at most the newest one
   if the TTL is not positive.
   */
  lemma PendingIsBounded(c: Config, s: State, step: Step)
    requires Reachable(c, s) && Enabled(s, step) && step.Call?
    requires Decide(c, step.req).Request? || Decide(c, step.req).Confirm?
    ensures var s' := Next(c, s, step);
      && (c.ttl > 0 ==> |s'.pending| <= |Recent(s', c.ttl, step.r.now)|)
      && (c.ttl <= 0 ==> |s'.pending| <= if Decide(c, step.req).Request? then 1 else 0)
  {
    ReachableInvariant(c, s);
    StepKeepsInvariant(c, s, step);
    PendingIsRecent(c, s, step);
    hide Next, Decide, Recent, Ledger, Ids.Identifier;
    var s' := Next(c, s, step);
    assert |s'.pending.Keys| == |s'.pending|;
    if c.ttl > 0 {
      SubsetSize(s'.pending.Keys, Recent(s', c.ttl, step.r.now));
    } else {
      SubsetSize(s'.pending.Keys, Newest(c, step));
    }
  }

  lemma {:induction false} RunSnoc(c: Config, s: State, steps: seq<Step>, step: Step)
    requires Run(c, s, steps).Some? && Enabled(Run(c, s, steps).value, step)
    ensures Run(c, s, steps + [step]) == Some(Next(c, Run(c, s, steps).value, step))
    decreases steps
  {
    hide Enabled, Next;
    if steps == [] {
      assert steps + [step] == [step] && [step][1..] == [];
    } else {
      assert (steps + [step])[1..] == steps[1..] + [step];
      RunSnoc(c, Next(c, s, steps[0]), steps[1..], step);
    }
  }

  ghost predicate AllMadeAt(pending: Pending, at: nat) {
    forall id <- pending.Keys :: pending[id].createdAt == at
  }

  /** Another request at the same instant: nothing is swept, one entry is added. */
  lemma StoredAddsOne(pending: Pending, ttl: int, id: string, req: ActionRequest, now: nat)
    requires ttl > 0 && id !in pending && AllMadeAt(pending, now)
    ensures var after := Stored(pending, ttl, id, req, now, now);
      |after| == |pending| + 1 && AllMadeAt(after, now)
  {
    NothingSwept(pending, ttl, now);
    hide Swept;
    MapGrows(pending, id, Entry(req, now));
  }

  lemma NothingSwept(pending: Pending, ttl: int, now: nat)
    requires ttl > 0 && AllMadeAt(pending, now)
    ensures Swept(pending, ttl, now) == pending
  {}

  lemma MapGrows<K, V>(m: map<K, V>, k: K, v: V)
    requires k !in m
    ensures |m[k := v]| == |m| + 1
  {
    var n := m[k := v];
    assert n.Keys == m.Keys + {k} && |n.Keys| == |n| && |m.Keys| == |m|;
  }

  lemma StartsClean(c: Config)
    ensures Invariant(c, Initial(0, 0)) && AllMadeAt(Initial(0, 0).pending, 0)
  {}

  lemma RequestIsDecided(c: Config) returns (req: ActionRequest)
    ensures Decide(c, req) == Request
  {
    req := ActionRequest("", "request_" + c.op, "", "");
    assert req.action[8..] == c.op && req.action[..8] == "request_";
  }

  /**
   No constant bounds the map: `n` requests within one lifetime leave `n` entries, for every n the
   counter can number.
   */
  lemma {:induction false} PendingHasNoFixedBound(c: Config, n: nat) returns (steps: seq<Step>, s: State)
    requires c.ttl > 0 && n <= Ids.COUNTER_LIMIT
    ensures Run(c, Initial(0, 0), steps) == Some(s)
    ensures |s.pending| == n && s.counter == n && s.now == 0 && s.inFlight == map[] && AllMadeAt(s.pending, 0)
    decreases n
  {
    hide Run, Decide, Invariant, AllMadeAt, Stored, Ids.Identifier, Dropped;
    StartsClean(c);
    if n == 0 {
      steps, s := [], Initial(0, 0);
      RunNothing(c, s);
    } else {
      var before, t := PendingHasNoFixedBound(c, n - 1);
      RunKeepsInvariant(c, Initial(0, 0), before);
      NextIdIsNotPending(c, t);
      var req := RequestIsDecided(c);
      var step := Call(0, req, Readings(0, t.counter, 0, 0));
      StoredAddsOne(t.pending, c.ttl, Ids.Identifier(TAG, 0, t.counter), req, 0);
      RunSnoc(c, Initial(0, 0), before, step);
      steps, s := before + [step], Next(c, t, step);
    }
  }

  lemma RunNothing(c: Config, s: State)
    ensures Run(c, s, []) == Some(s)
  {}

  lemma NextIdIsNotPending(c: Config, s: State)
    requires Invariant(c, s)
    ensures Ids.Identifier(TAG, 0, s.counter) !in s.pending
  {
    hide Numbered, Ids.Identifier, ExecutedOnce, FlightsAreTaken, TakenProperly, ExpiredInTime, IssuedByRequests;
    NewIdIsFresh(s, 0);
  }

  lemma ConfirmIsDecided(c: Config, req: ActionRequest, id: string)
    requires req.action == "confirm_" + c.op && req.params == ConfirmParams(id)
      && Approved(c.confirmCallers, req.caller)
    ensures Decide(c, req) == Confirm(id)
  {
    hide Approved, Json.FindString, ConfirmParams;
    ConfirmCarriesTheId(id);
    DecideIff(c, req);
    assert req.action[..8] == "confirm_" && req.action[8..] == c.op;
    assert req.action[0] == 'c' && "request_"[0] == 'r';
    assert req.action[..8][0] == req.action[0];
  }

  lemma YoungIsPending(c: Config, s: State, id: string, now: nat)
    requires Ledger(s) && ExpiredInTime(c, s) && s.now <= now
    requires id in s.issued && id !in s.takings && now - s.issued[id].createdAt < c.ttl
    ensures id in Swept(s.pending, c.ttl, now) && Swept(s.pending, c.ttl, now)[id] == s.issued[id]
  {}

  /**
   The other direction of the promise: an untaken, unexpired request is honoured for any allowed
   caller who presents its id.
   */
  lemma YoungRequestIsHonoured(c: Config, s: State, thread: nat, req: ActionRequest, r: Readings, id: string)
    requires Reachable(c, s) && Enabled(s, Call(thread, req, r))
    requires id in s.issued && id !in s.takings && r.now - s.issued[id].createdAt < c.ttl
    requires req.action == "confirm_" + c.op && req.params == ConfirmParams(id)
      && Approved(c.confirmCallers, req.caller)
    ensures var s' := Next(c, s, Call(thread, req, r));
      thread in s'.inFlight && s'.inFlight[thread] == Flight(id, s.issued[id]) && id !in s'.pending
  {
    ReachableInvariant(c, s);
    hide Decide, Swept, Dropped, MayConfirm, ConfirmParams, Ledger, ExpiredInTime, ExecutedOnce,
         FlightsAreTaken, IdsBelowCounter, TakenProperly, AfterRequest;
    ConfirmIsDecided(c, req, id);
    YoungIsPending(c, s, id, r.now);
  }

  /** A caller off the allowlist changes nothing but the time, whatever id it presents. */
  lemma DeniedChangesNothing(c: Config, s: State, thread: nat, req: ActionRequest, r: Readings)
    requires Enabled(s, Call(thread, req, r))
    requires req.action == "confirm_" + c.op && !Approved(c.confirmCallers, req.caller)
    ensures Next(c, s, Call(thread, req, r)) == s.(now := r.now)
    ensures forall params :: Decide(c, req.(params := params)) == Denied
    ensures forall params :: DeniedEnvelope(c, req.(params := params)) == DeniedEnvelope(c, req)
  {
    DecideIff(c, req);
    hide MayConfirm, Approved, Json.FindString, Listed;
  }

  // ---------------------------------------------------------------------
  // The gate object goes through the same states

  /** One call on the object is one step: same map, and the executor gets the entry the step puts in flight. */
  method PerformCall(gate: ConfirmationGate, s: State, step: Step,
                     executor: string -> Option<Messages.ActionResult>) returns (routed: Routed)
    requires step.Call? && Enabled(s, step) && gate.pending == s.pending
    modifies gate
    ensures gate.pending == Next(gate.config, s, step).pending
    ensures var flights := Next(gate.config, s, step).inFlight;
      step.thread in flights ==> routed == Outcome(step.req, executor(flights[step.thread].entry.params))
  {
    hide Json.FindString, MayConfirm, Swept, RequestReply, Listed, Ids.Identifier, Dropped;
    routed := gate.Route(step.req, executor, step.r);
  }

  /** Every run, replayed on a gate object call by call. */
  method Replay(c: Config, counter: nat, now: nat, steps: seq<Step>, executor: string -> Option<Messages.ActionResult>)
    returns (gate: ConfirmationGate, s: State)
    requires Run(c, Initial(counter, now), steps).Some?
    ensures Run(c, Initial(counter, now), steps) == Some(s) && gate.config == c && gate.pending == s.pending
  {
    hide Enabled, Decide, AfterRequest, AfterConfirm;
    gate := new ConfirmationGate(c);
    s := Initial(counter, now);
    assert steps[0..] == steps;
    for i := 0 to |steps|
      invariant fresh(gate) && gate.config == c && gate.pending == s.pending
      invariant Run(c, s, steps[i..]) == Run(c, Initial(counter, now), steps)
    {
      assert steps[i..][0] == steps[i] && steps[i..][1..] == steps[i + 1..];
      if steps[i].Call? { var _ := PerformCall(gate, s, steps[i], executor); }
      s := Next(c, s, steps[i]);
    }
  }
}
