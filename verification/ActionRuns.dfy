/**
 Whole runs of action calls: any number of clients share the process-wide counter, calls
 time out, answers come late, twice or to the wrong client.  The peer is only trusted to
 answer under identifiers it was sent.
 */
module ActionRuns {
  import opened Bytes
  import opened Messages
  import opened Actions
  import Ids

  /** How a call to send_action ended. */
  datatype Ending = Pending | Ended(last: Delivery) | GaveUp

  /** One request put on the wire; a streaming one is not waited for. */
  datatype Call = Call(client: nat, millis: nat, id: string, action: string, params: string, streaming: bool,
                       ending: Ending)

  /** An envelope on its way to a client, labelled with the request that caused it, if any did. */
  datatype Delivery = Delivery(envelope: Envelope, cause: Option<nat>)

  /** Per client: what has arrived and not been read, and the call it is blocked in. */
  datatype Line = Line(inbox: seq<Delivery>, waiting: Option<nat>)

  datatype State = State(drawn: nat, calls: seq<Call>, lines: seq<Line>)

  datatype Step =
    | Begin(client: nat, millis: nat, action: string, params: string, streaming: bool)
    | Deliver(client: nat, delivery: Delivery)
    | Read(client: nat)
    | GiveUp(client: nat)

  predicate CarriesId(e: Envelope) { e.ActionResponse? || e.ActionStreamAbort? }

  /** The peer answers under the identifier of a request it was sent; anything else may come unasked. */
  predicate Honest(calls: seq<Call>, d: Delivery) {
    && (d.cause.Some? ==> d.cause.value < |calls|)
    && (CarriesId(d.envelope) ==> d.cause.Some? && d.envelope.actionId == calls[d.cause.value].id)
  }

  predicate Enabled(s: State, step: Step) {
    match step
    case Begin(c, _, _, _, _) => c < |s.lines| && s.lines[c].waiting.None?
    case Deliver(c, d) => c < |s.lines| && Honest(s.calls, d)
    case Read(c) => c < |s.lines| && s.lines[c].inbox != []
    case GiveUp(c) => c < |s.lines| && s.lines[c].waiting.Some?
  }

  function WithLine(s: State, c: nat, line: Line): State
    requires c < |s.lines|
  {
    s.(lines := s.lines[c := line])
  }

  /** The call `c` is blocked in ends, if there is one. */
  function End(s: State, c: nat, ending: Ending): State
    requires c < |s.lines|
  {
    match s.lines[c].waiting
    case Some(k) =>
      if k < |s.calls| then
        WithLine(s.(calls := s.calls[k := s.calls[k].(ending := ending)]), c, s.lines[c].(waiting := None))
      else s
    case None => s
  }

  /** One read: the wait loop discards what is not terminal for its own call; outside a call anything is read away. */
  function Reading(s: State, c: nat): State
    requires c < |s.lines| && s.lines[c].inbox != []
  {
    var line := s.lines[c];
    var d := line.inbox[0];
    var popped := WithLine(s, c, line.(inbox := line.inbox[1..]));
    match line.waiting
    case Some(k) => if k < |s.calls| && Terminal(d.envelope, s.calls[k].id) then End(popped, c, Ended(d)) else popped
    case None => popped
  }

  function Next(s: State, step: Step): State
    requires Enabled(s, step)
  {
    match step
    case Begin(c, millis, action, params, streaming) =>
      var call := Call(c, millis, ActionId(millis, s.drawn), action, params, streaming, Pending);
      var line := s.lines[c].(waiting := if streaming then None else Some(|s.calls|));
      State(s.drawn + 1, s.calls + [call], s.lines[c := line])
    case Deliver(c, d) => WithLine(s, c, s.lines[c].(inbox := s.lines[c].inbox + [d]))
    case Read(c) => Reading(s, c)
    case GiveUp(c) => End(s, c, GaveUp)
  }

  function Execute(s: State, steps: seq<Step>): Option<State>
    decreases |steps|
  {
    if steps == [] then Some(s)
    else if Enabled(s, steps[0]) then Execute(Next(s, steps[0]), steps[1..])
    else None
  }

  function Fresh(clients: nat): State {
    State(0, [], seq(clients, _ => Line([], None)))
  }

  ghost predicate Reachable(s: State) {
    exists clients: nat, steps: seq<Step> :: Execute(Fresh(clients), steps) == Some(s)
  }

  // ---------------------------------------------------------------------
  // What every step keeps

  /** Identifiers come from successive draws. */
  ghost predicate Drawn(s: State) {
    && s.drawn == |s.calls|
    && forall k :: 0 <= k < |s.calls| ==> s.calls[k].id == ActionId(s.calls[k].millis, k)
  }

  ghost predicate InboxesAreHonest(s: State) {
    forall c, i :: 0 <= c < |s.lines| && 0 <= i < |s.lines[c].inbox| ==> Honest(s.calls, s.lines[c].inbox[i])
  }

  /** Each blocked client waits in a call of its own. */
  ghost predicate WaitsAreOwn(s: State) {
    forall c :: 0 <= c < |s.lines| && s.lines[c].waiting.Some? ==>
      var k := s.lines[c].waiting.value;
      k < |s.calls| && s.calls[k].client == c && !s.calls[k].streaming && s.calls[k].ending.Pending?
  }

  ghost predicate EndingsAreOwn(s: State) {
    forall k :: 0 <= k < |s.calls| && s.calls[k].ending.Ended? ==>
      var d := s.calls[k].ending.last;
      Honest(s.calls, d) && Terminal(d.envelope, s.calls[k].id)
  }

  ghost predicate Invariant(s: State) {
    Drawn(s) && InboxesAreHonest(s) && WaitsAreOwn(s) && EndingsAreOwn(s)
  }

  lemma BeginKeeps(s: State, step: Step)
    requires Invariant(s) && step.Begin? && Enabled(s, step)
    ensures Invariant(Next(s, step))
  {}

  lemma DeliverKeeps(s: State, step: Step)
    requires Invariant(s) && step.Deliver? && Enabled(s, step)
    ensures Invariant(Next(s, step))
  {}

  lemma EndKeeps(s: State, c: nat, ending: Ending)
    requires Invariant(s) && c < |s.lines| && s.lines[c].waiting.Some? && !ending.Pending?
    requires ending.Ended? ==>
      Honest(s.calls, ending.last) && Terminal(ending.last.envelope, s.calls[s.lines[c].waiting.value].id)
    ensures Invariant(End(s, c, ending))
  {}

  lemma PopKeeps(s: State, c: nat)
    requires Invariant(s) && c < |s.lines| && s.lines[c].inbox != []
    ensures Invariant(WithLine(s, c, s.lines[c].(inbox := s.lines[c].inbox[1..])))
      && Honest(s.calls, s.lines[c].inbox[0])
  {}

  lemma StepKeepsInvariant(s: State, step: Step)
    requires Invariant(s) && Enabled(s, step)
    ensures Invariant(Next(s, step))
  {
    hide Invariant, Honest, Terminal, ActionId;
    match step {
      case Begin(_, _, _, _, _) => BeginKeeps(s, step);
      case Deliver(_, _) => DeliverKeeps(s, step);
      case GiveUp(c) => EndKeeps(s, c, GaveUp);
      case Read(c) =>
        PopKeeps(s, c);
        var line := s.lines[c];
        var popped := WithLine(s, c, line.(inbox := line.inbox[1..]));
        if line.waiting.Some? && line.waiting.value < |s.calls|
           && Terminal(line.inbox[0].envelope, s.calls[line.waiting.value].id) {
          EndKeeps(popped, c, Ended(line.inbox[0]));
        }
    }
  }

  lemma {:induction false} RunKeepsInvariant(s: State, steps: seq<Step>)
    requires Invariant(s) && Execute(s, steps).Some?
    ensures Invariant(Execute(s, steps).value)
    decreases steps
  {
    hide Invariant, Next, Enabled;
    if steps != [] {
      StepKeepsInvariant(s, steps[0]);
      RunKeepsInvariant(Next(s, steps[0]), steps[1..]);
    }
  }

  lemma ReachableInvariant(s: State)
    requires Reachable(s)
    ensures Invariant(s)
  {
    var clients: nat, steps: seq<Step> :| Execute(Fresh(clients), steps) == Some(s);
    RunKeepsInvariant(Fresh(clients), steps);
  }

  // ---------------------------------------------------------------------
  // Correlation

  /** While the counter has not wrapped, no two calls of the whole process share an identifier. */
  lemma IdsAreDistinct(s: State, j: nat, k: nat)
    requires Reachable(s) && s.drawn <= Ids.COUNTER_LIMIT && j < |s.calls| && k < |s.calls| && j != k
    ensures s.calls[j].id != s.calls[k].id
  {
    hide ActionId;
    ReachableInvariant(s);
    ActionIdsAreDistinct(s.calls[j].millis, j, s.calls[k].millis, k);
  }

  /** A response that send_action returns was caused by that very call's request. */
  lemma ResponsesAreOwn(s: State, k: nat)
    requires Reachable(s) && s.drawn <= Ids.COUNTER_LIMIT && k < |s.calls| && s.calls[k].ending.Ended?
    ensures var d := s.calls[k].ending.last;
      CarriesId(d.envelope) ==> d.envelope.actionId == s.calls[k].id && d.cause == Some(k)
  {
    ReachableInvariant(s);
    var d := s.calls[k].ending.last;
    if CarriesId(d.envelope) && d.cause != Some(k) { IdsAreDistinct(s, d.cause.value, k); }
  }

  /** A blocked call ends on what it reads exactly when that answers it, or is a kernel error. */
  lemma ReadEndsCallIff(s: State, c: nat)
    requires Reachable(s) && s.drawn <= Ids.COUNTER_LIMIT && Enabled(s, Read(c)) && s.lines[c].waiting.Some?
    ensures var k, d := s.lines[c].waiting.value, s.lines[c].inbox[0];
      && k < |s.calls| == |Next(s, Read(c)).calls|
      && (Next(s, Read(c)).calls[k].ending.Ended? ==>
            Next(s, Read(c)).calls[k].ending.last == d && Next(s, Read(c)).lines[c].waiting == None)
      && (Next(s, Read(c)).calls[k].ending.Ended? <==>
            d.envelope.KernelError? || (CarriesId(d.envelope) && d.cause == Some(k)))
  {
    ReachableInvariant(s);
    var k, d := s.lines[c].waiting.value, s.lines[c].inbox[0];
    assert Honest(s.calls, d);
    if CarriesId(d.envelope) && d.cause != Some(k) { IdsAreDistinct(s, d.cause.value, k); }
  }

  /** A late answer to an earlier call is thrown away: nothing changes but the inbox. */
  lemma LateAnswerIsDiscarded(s: State, c: nat)
    requires Reachable(s) && s.drawn <= Ids.COUNTER_LIMIT && Enabled(s, Read(c)) && s.lines[c].waiting.Some?
    requires CarriesId(s.lines[c].inbox[0].envelope) && s.lines[c].inbox[0].cause != s.lines[c].waiting
    ensures var line := s.lines[c];
      Next(s, Read(c)) == s.(lines := s.lines[c := line.(inbox := line.inbox[1..])])
  {
    ReachableInvariant(s);
    var k, d := s.lines[c].waiting.value, s.lines[c].inbox[0];
    assert Honest(s.calls, d);
    IdsAreDistinct(s, d.cause.value, k);
  }

  /** A call draws the next id and blocks its client until it ends; a streaming request draws one and does not. */
  lemma BeginningWaits(s: State, c: nat, millis: nat, action: string, params: string, streaming: bool)
    requires Enabled(s, Begin(c, millis, action, params, streaming))
    ensures var s', k := Next(s, Begin(c, millis, action, params, streaming)), |s.calls|;
      && s'.drawn == s.drawn + 1 && |s'.calls| == k + 1 && s'.calls[..k] == s.calls
      && s'.calls[k].id == ActionId(millis, s.drawn) && s'.calls[k].ending == Pending
      && s'.lines[c].waiting == (if streaming then None else Some(k)) && s'.lines[c].inbox == s.lines[c].inbox
  {
    hide ActionId;
  }

  /** Outside a call, whatever is read is read away and nothing else happens. */
  lemma IdleReadsAway(s: State, c: nat)
    requires Enabled(s, Read(c)) && s.lines[c].waiting.None?
    ensures Next(s, Read(c)) == s.(lines := s.lines[c := Line(s.lines[c].inbox[1..], None)])
  {}

  /** A call that gives up frees its client for the next one. */
  lemma GivingUpFrees(s: State, c: nat)
    requires Reachable(s) && Enabled(s, GiveUp(c))
    ensures var k, s' := s.lines[c].waiting.value, Next(s, GiveUp(c));
      && k < |s'.calls| && s'.calls[k].ending == GaveUp && s'.lines[c].waiting == None
      && s'.lines[c].inbox == s.lines[c].inbox
  {
    ReachableInvariant(s);
  }

  /** Kernel errors carry no identifier: one caused by a call that gave up ends the next call. */
  lemma StrayErrorEndsNextCall(millis: nat)
    ensures var ask := Begin(0, millis, "a", "{}", false);
      var stray := Delivery(KernelError("late", ""), Some(0));
      var run := Execute(Fresh(1), [ask, GiveUp(0), ask, Deliver(0, stray), Read(0)]);
      run.Some? && |run.value.calls| == 2 && run.value.calls[1].ending == Ended(stray)
  {
    hide ActionId;
    var ask, stray := Begin(0, millis, "a", "{}", false), Delivery(KernelError("late", ""), Some(0));
    var s0 := Fresh(1);
    var s1 := Next(s0, ask);
    var s2 := Next(s1, GiveUp(0));
    var s3 := Next(s2, ask);
    var s4 := Next(s3, Deliver(0, stray));
    var s5 := Next(s4, Read(0));
    var steps := [ask, GiveUp(0), ask, Deliver(0, stray), Read(0)];
    assert s5.calls[1].ending == Ended(stray);
    assert steps[4..] == [Read(0)] && Execute(s4, steps[4..]) == Execute(s5, steps[4..][1..]) == Some(s5);
    assert steps[3..][0] == Deliver(0, stray) && steps[3..][1..] == steps[4..] && Execute(s3, steps[3..]) == Some(s5);
    assert steps[2..][0] == ask && steps[2..][1..] == steps[3..] && Execute(s2, steps[2..]) == Some(s5);
    assert steps[1..][0] == GiveUp(0) && steps[1..][1..] == steps[2..] && Execute(s1, steps[1..]) == Some(s5);
    assert Execute(s0, steps) == Some(s5);
  }
}
