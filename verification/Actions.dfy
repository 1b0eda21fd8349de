/**
 Calling an action and waiting for its answer among unrelated traffic: next_action_id,
 wait_for_response and send_action of src/client.cpp, over the client of module Client.
 */
module Actions {
  import opened Bytes
  import opened Framing
  import opened Transport
  import opened Reassembly
  import opened Client
  import opened EndToEnd
  import opened Messages
  import Ids

  /** protobuf's two directions. */
  datatype Codec = Codec(serialize: Envelope -> seq<byte>, parse: seq<byte> -> Option<Envelope>)

  const KERNEL: seq<byte> := [107, 101, 114, 110, 101, 108]

  /** The identifier made by the `draw`-th use of the process-wide counter at wall-clock time `millis`. */
  function ActionId(millis: nat, draw: nat): string {
    Ids.Identifier("act-", millis, draw % Ids.COUNTER_LIMIT)
  }

  /** Two identifiers agree exactly when the clock stood still while the counter went all the way round. */
  lemma ActionIdsCollideIff(m: nat, i: nat, n: nat, j: nat)
    ensures ActionId(m, i) == ActionId(n, j) <==> m == n && i % Ids.COUNTER_LIMIT == j % Ids.COUNTER_LIMIT
  {
    hide Ids.Identifier;
    if ActionId(m, i) == ActionId(n, j) {
      Ids.IdentifierIsInjective("act-", m, i % Ids.COUNTER_LIMIT, n, j % Ids.COUNTER_LIMIT);
    }
  }

  lemma ActionIdsAreDistinct(m: nat, i: nat, n: nat, j: nat)
    requires i < Ids.COUNTER_LIMIT && j < Ids.COUNTER_LIMIT && i != j
    ensures ActionId(m, i) != ActionId(n, j)
  {
    hide ActionId;
    ActionIdsCollideIff(m, i, n, j);
  }

  /** send_action's match: its own response, its own abort, or any kernel error. */
  predicate Terminal(e: Envelope, id: string) {
    || (e.ActionResponse? && e.actionId == id)
    || (e.ActionStreamAbort? && e.actionId == id)
    || e.KernelError?
  }

  /** How send_action reports the envelope that ended its wait. */
  function Settled(e: Envelope): Result<Envelope> {
    if e.KernelError? || e.ActionStreamAbort? then Err(Internal) else Ok(e)
  }

  // ---------------------------------------------------------------------
  // Waiting

  datatype Waited = Waited(result: Result<Envelope>, rest: seq<byte>, table: Table, tick: nat)

  /** wait_for_response on the bytes still to come: everything that is not terminal is discarded. */
  function Await(f: Primitives, clock: Clock, key: Option<Key>, codec: Codec, terminal: Envelope -> bool,
                 stream: seq<byte>, t: Table, tick: nat): (r: Waited)
    requires Valid(t)
    ensures Valid(r.table) && (r.result.Ok? ==> terminal(r.result.value))
    decreases |stream|
  {
    var got := Receive(f, clock, key, stream, t, tick);
    if got.frame.Err? then Waited(Err(got.frame.error), got.rest, got.table, got.tick)
    else match codec.parse(got.frame.value.payload)
      case None => Waited(Err(ProtoError), got.rest, got.table, got.tick)
      case Some(e) =>
        if terminal(e) then Waited(Ok(e), got.rest, got.table, got.tick)
        else Await(f, clock, key, codec, terminal, got.rest, got.table, got.tick)
  }

  /** The errors of a wait that its deadline or the connection cut short. */
  predicate CutShort(e: Error) { Broken(e) || e == Timeout }

  /** wait_for_response: the first terminal envelope to come, unless the deadline or a failure comes first. */
  method WaitForResponse(client: VynkorClient, codec: Codec, terminal: Envelope -> bool) returns (r: Result<Envelope>)
    requires client.Usable()
    modifies client`reassembly, client`ticks, client.socket`script, client.socket`inbound
    ensures client.Usable() && (r.Ok? ==> terminal(r.value))
    ensures var spec := Await(client.f, client.clock, client.sessionKey, codec, terminal,
                              old(client.socket.inbound), old(client.reassembly), old(client.ticks));
      && (r == spec.result || (r.Err? && CutShort(r.error)))
      && (r.Ok? || Healthy(old(client.socket.script)) ==>
            && r == spec.result && client.reassembly == spec.table && client.ticks == spec.tick
            && (r.Ok? ==> client.socket.inbound == spec.rest))
    ensures Healthy(old(client.socket.script)) ==> Healthy(client.socket.script)
  {
    hide Receive, Valid, Healthy, Took;
    ghost var spec := Await(client.f, client.clock, client.sessionKey, codec, terminal,
                            client.socket.inbound, client.reassembly, client.ticks);
    while true
      invariant client.Usable()
      invariant spec == Await(client.f, client.clock, client.sessionKey, codec, terminal,
                              client.socket.inbound, client.reassembly, client.ticks)
      invariant Healthy(old(client.socket.script)) ==> Healthy(client.socket.script)
      decreases |client.socket.inbound|
    {
      var frame := client.RecvFrame(true);
      if frame.Err? { return Err(frame.error); }
      var parsed := codec.parse(frame.value.payload);
      if parsed.None? { return Err(ProtoError); }
      if terminal(parsed.value) { return Ok(parsed.value); }
    }
  }

  // ---------------------------------------------------------------------
  // Calling

  /** The process-wide sequence number g_action_seq. */
  class Counter {
    var next: nat

    constructor ()
      ensures next == 0
    {
      next := 0;
    }

    /** next_action_id; `drawn` counts the draws so far. */
    method NextActionId(millis: nat, ghost drawn: nat) returns (id: string)
      requires next == drawn % Ids.COUNTER_LIMIT
      modifies this
      ensures id == ActionId(millis, drawn) && next == (drawn + 1) % Ids.COUNTER_LIMIT
    {
      id := Ids.Identifier("act-", millis, next);
      next := (next + 1) % Ids.COUNTER_LIMIT;
    }
  }

  /** send_action: what it returns is a response under the very id it put on the wire. */
  method SendAction(client: VynkorClient, counter: Counter, codec: Codec, millis: nat, ghost drawn: nat,
                    action: string, params: string, timeoutMs: nat) returns (r: Result<Envelope>)
    requires client.Usable() && counter.next == drawn % Ids.COUNTER_LIMIT
    modifies counter, client`reassembly, client`ticks, client.socket`script, client.socket`inbound,
        client.socket`outbound
    ensures client.Usable() && counter.next == (drawn + 1) % Ids.COUNTER_LIMIT
    ensures var id := ActionId(millis, drawn);
      var request := codec.serialize(ActionRequest(id, action, params, timeoutMs, false));
      && (r.Ok? ==>
            && r.value.ActionResponse? && r.value.actionId == id
            && client.socket.outbound == old(client.socket.outbound)
                 + Packed(client.f, KERNEL, SendFlags(client.sessionKey, 0), request, client.sessionKey))
      && (|request| > MAX_PAYLOAD ==> r == Err(PayloadTooLarge(|request|)))
      && (|request| <= MAX_PAYLOAD ==>
            var spec := Await(client.f, client.clock, client.sessionKey, codec, e => Terminal(e, id),
                              old(client.socket.inbound), old(client.reassembly), old(client.ticks));
            var answer := if spec.result.Ok? then Settled(spec.result.value) else spec.result;
            (r == answer || (r.Err? && CutShort(r.error))) && (Healthy(old(client.socket.script)) ==> r == answer))
  {
    hide Packed, Await, Valid, Healthy, ActionId;
    var id := counter.NextActionId(millis, drawn);
    var e := client.SendRawWithFlags(KERNEL, 0, codec.serialize(ActionRequest(id, action, params, timeoutMs, false)));
    if e.Some? { return Err(e.value); }
    var terminal := e => Terminal(e, id);
    r := WaitForResponse(client, codec, terminal);
    if r.Ok? && (r.value.KernelError? || r.value.ActionStreamAbort?) { r := Err(Internal); }
  }

  // ---------------------------------------------------------------------
  // Against a peer's whole conversation

  /** The first envelope among a peer's sends that ends the wait; silent sends put nothing on the wire. */
  function FirstTerminal(codec: Codec, terminal: Envelope -> bool, ops: seq<Send>): Result<Envelope> {
    if ops == [] then Err(IoError)
    else if Silent(ops[0]) then FirstTerminal(codec, terminal, ops[1..])
    else match codec.parse(ops[0].payload)
      case None => Err(ProtoError)
      case Some(e) => if terminal(e) then Ok(e) else FirstTerminal(codec, terminal, ops[1..])
  }

  lemma AwaitTurn(f: Primitives, clock: Clock, key: Option<Key>, codec: Codec, terminal: Envelope -> bool,
                  stream: seq<byte>, t: Table, tick: nat)
    requires Valid(t)
    ensures var got, all := Receive(f, clock, key, stream, t, tick),
        Await(f, clock, key, codec, terminal, stream, t, tick);
      && (got.frame.Err? ==> all.result == Err(got.frame.error))
      && (got.frame.Ok? ==>
            var parsed := codec.parse(got.frame.value.payload);
            && (parsed.None? ==> all.result == Err(ProtoError))
            && (parsed.Some? && terminal(parsed.value) ==> all.result == Ok(parsed.value))
            && (parsed.Some? && !terminal(parsed.value) ==>
                  all == Await(f, clock, key, codec, terminal, got.rest, got.table, got.tick)))
  {
    hide Receive, Valid;
  }

  lemma ExpectedCarriesPayload(f: Primitives, key: Option<Key>, op: Send)
    requires !Silent(op)
    ensures |Expected(f, key, op)| == 1 && Expected(f, key, op)[0].payload == op.payload
  {}

  /** Plain or fragmented, compressed or not: the wait ends on exactly the first terminal envelope the peer sent. */
  lemma {:induction false} AwaitFindsFirst(f: Primitives, clock: Clock, key: Option<Key>, codec: Codec,
                                           terminal: Envelope -> bool,
                                           ops: seq<Send>, id: nat, tick: nat)
    requires id < ID_LIMIT && (forall op <- ops :: Proper(op, key)) && AllTimely(ops, clock, tick)
    ensures Await(f, clock, key, codec, terminal, WireAll(f, key, ops, id), map[], tick).result
      == FirstTerminal(codec, terminal, ops)
    decreases ops
  {
    hide Receive, Await, Wire, Expected, Valid, Timely, Proper, Ticks, Silent, IdAfter;
    NoStreams();
    AwaitTurn(f, clock, key, codec, terminal, WireAll(f, key, ops, id), map[], tick);
    if ops == [] {
      NothingToReceive(f, clock, key, map[], tick);
    } else {
      var op, after := ops[0], IdAfter(ops[0], id);
      var rest := WireAll(f, key, ops[1..], after);
      FirstIsReceived(f, clock, key, op, id, rest, tick);
      AwaitFindsFirst(f, clock, key, codec, terminal, ops[1..], after, tick + Ticks(op));
      if Silent(op) {
        assert [] + rest == rest;
      } else {
        ExpectedCarriesPayload(f, key, op);
      }
    }
  }

  // ---------------------------------------------------------------------
  // A whole call, in the caller's terms

  /** The peer's send reaches the client as this envelope. */
  ghost predicate Heard(codec: Codec, op: Send, e: Envelope) {
    !Silent(op) && codec.parse(op.payload) == Some(e)
  }

  /** This envelope ends the call: its own response, its own abort, or any kernel error. */
  ghost predicate Concerns(e: Envelope, id: string) {
    match e
    case ActionResponse(actionId, _, _, _) => actionId == id
    case ActionStreamAbort(actionId, _) => actionId == id
    case KernelError(_, _) => true
    case ActionRequest(_, _, _, _, _) => false
    case OtherEnvelope(_) => false
  }

  /** Send number `i` is the first that concerns the call; what came before was readable and did not. */
  ghost predicate EndsCall(codec: Codec, id: string, ops: seq<Send>, i: nat, e: Envelope) {
    && i < |ops| && Heard(codec, ops[i], e) && Concerns(e, id)
    && forall j :: 0 <= j < i ==>
         Silent(ops[j]) || (codec.parse(ops[j].payload).Some? && !Concerns(codec.parse(ops[j].payload).value, id))
  }

  lemma {:induction false} FirstTerminalEnds(codec: Codec, id: string, ops: seq<Send>, i: nat, e: Envelope)
    requires EndsCall(codec, id, ops, i, e)
    ensures FirstTerminal(codec, e => Terminal(e, id), ops) == Ok(e)
    decreases ops
  {
    hide Silent;
    if i > 0 {
      var first := ops[0];
      assert ops[1..][i - 1] == ops[i];
      forall j | 0 <= j < i - 1
        ensures Silent(ops[1..][j])
                || (codec.parse(ops[1..][j].payload).Some? && !Concerns(codec.parse(ops[1..][j].payload).value, id))
      {
        assert ops[1..][j] == ops[j + 1];
      }
      FirstTerminalEnds(codec, id, ops[1..], i - 1, e);
      assert Silent(first) || (codec.parse(first.payload).Some? && !Concerns(codec.parse(first.payload).value, id));
    }
  }

  lemma {:induction false} FirstTerminalIsFound(codec: Codec, id: string, ops: seq<Send>) returns (i: nat)
    requires FirstTerminal(codec, e => Terminal(e, id), ops).Ok?
    ensures EndsCall(codec, id, ops, i, FirstTerminal(codec, e => Terminal(e, id), ops).value)
    decreases ops
  {
    hide Silent;
    var first, e := ops[0], FirstTerminal(codec, e => Terminal(e, id), ops).value;
    if !Silent(first) && Terminal(codec.parse(first.payload).value, id) {
      i := 0;
    } else {
      var k := FirstTerminalIsFound(codec, id, ops[1..]);
      i := 1 + k;
      forall j | 0 <= j < i
        ensures Silent(ops[j])
                || (codec.parse(ops[j].payload).Some? && !Concerns(codec.parse(ops[j].payload).value, id))
      {
        if j > 0 { assert ops[j] == ops[1..][j - 1]; }
      }
    }
  }

  /**
   send_action against a peer's conversation, nothing failing and no deadline passing: it returns its own
   response, with any status, exactly when that is the first envelope to concern it; an abort or a
   kernel error that comes first is an error; and without either there is no response.
   */
  method CallPeer(client: VynkorClient, counter: Counter, codec: Codec, millis: nat, ghost drawn: nat,
                  action: string, params: string, timeoutMs: nat, ghost ops: seq<Send>, ghost sid: nat)
    returns (r: Result<Envelope>, ghost id: string)
    requires client.Usable() && counter.next == drawn % Ids.COUNTER_LIMIT && client.reassembly == map[]
    requires sid < ID_LIMIT && client.socket.inbound == WireAll(client.f, client.sessionKey, ops, sid)
    requires Healthy(client.socket.script) && AllTimely(ops, client.clock, client.ticks)
    requires forall op <- ops :: Proper(op, client.sessionKey)
    requires |codec.serialize(ActionRequest(ActionId(millis, drawn), action, params, timeoutMs, false))| <= 1048576
    modifies counter, client`reassembly, client`ticks,
             client.socket`script, client.socket`inbound, client.socket`outbound
    ensures id == ActionId(millis, drawn)
    ensures forall i: nat, e :: EndsCall(codec, id, ops, i, e) ==>
      r == if e.ActionResponse? then Ok(e) else Err(Internal)
    ensures r.Ok? ==> r.value.ActionResponse? && exists i: nat :: EndsCall(codec, id, ops, i, r.value)
  {
    hide WireAll, Await, Valid, Healthy, ActionId, AllTimely, Proper, FirstTerminal, EndsCall, Packed;
    id := ActionId(millis, drawn);
    AwaitFindsFirst(client.f, client.clock, client.sessionKey, codec, e => Terminal(e, id), ops, sid, client.ticks);
    ghost var first := FirstTerminal(codec, e => Terminal(e, id), ops);
    forall i: nat, e | EndsCall(codec, id, ops, i, e)
      ensures first == Ok(e)
    {
      FirstTerminalEnds(codec, id, ops, i, e);
    }
    if first.Ok? {
      ghost var i := FirstTerminalIsFound(codec, id, ops);
      EndIsTerminal(codec, id, ops, i, first.value);
    }
    r := SendAction(client, counter, codec, millis, drawn, action, params, timeoutMs);
  }

  lemma EndIsTerminal(codec: Codec, id: string, ops: seq<Send>, i: nat, e: Envelope)
    requires EndsCall(codec, id, ops, i, e)
    ensures Concerns(e, id) && (e.ActionResponse? || e.ActionStreamAbort? || e.KernelError?)
  {}

  /** The identifiers' form. */
  lemma ActionIdForm(millis: nat, draw: nat)
    ensures ActionId(millis, draw) == "act-" + Ids.Decimal(millis) + "-" + Ids.Decimal(draw % 0x1_0000_0000_0000_0000)
  {
    hide Ids.Decimal;
  }

  /** Requests go to the target spelled "kernel". */
  lemma KernelIsTheTarget()
    ensures |KERNEL| == |"kernel"| && forall i :: 0 <= i < |KERNEL| ==> KERNEL[i] as int == "kernel"[i] as int
  {}
}
