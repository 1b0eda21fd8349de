/**
 The confirmation gate of src/confirmation_gate.cpp: one class whose pending map is only
 touched under its lock, and the functions its locked regions compute.
 */
module Gate {
  import opened Bytes
  import Json
  import Ids
  import opened Concurrent
  import opened Messages

  datatype ActionRequest = ActionRequest(actionId: string, action: string, params: string, caller: string)

  datatype PendingAction = PendingAction(action: string, params: string, caller: string, createdAt: nat)

  type Pending = map<string, PendingAction>

  const TAG := "pending-"
  const PENDING_KEY := "pending_id"

  datatype Config = Config(op: string, confirmCallers: seq<string>, ttl: int)

  // ---------------------------------------------------------------------
  // The allowlist

  predicate HasPrefix(s: string, prefix: string) { |prefix| <= |s| && s[..|prefix|] == prefix }

  /** One allowlist entry: an exact id, or `prefix.*`. */
  predicate Allows(entry: string, caller: string) {
    if |entry| > 2 && entry[|entry| - 2..] == ".*" then
      var prefix := entry[..|entry| - 2];
      HasPrefix(caller, prefix) && |caller| > |prefix| && caller[|prefix|] == '.'
    else caller == entry
  }

  predicate MayConfirm(callers: seq<string>, caller: string) {
    exists entry <- callers :: Allows(entry, caller)
  }

  /** A `prefix.*` entry admits exactly the ids that extend `prefix.`: neither the bare prefix nor a longer name. */
  lemma GlobAdmits(prefix: string, caller: string)
    requires prefix != ""
    ensures Allows(prefix + ".*", caller) <==> HasPrefix(caller, prefix + ".")
  {}

  /** An entry longer than ".*" that ends in it. */
  predicate IsGlob(entry: string) { |entry| > 2 && entry[|entry| - 2..] == ".*" }

  /** The caller is listed itself, not as a glob; or the list has `p.*` and the caller extends `p.`. */
  ghost predicate Approved(callers: seq<string>, caller: string) {
    || (caller in callers && !IsGlob(caller))
    || exists p: string :: p != "" && p + ".*" in callers && p + "." <= caller
  }

  lemma ExactAdmits(entry: string, caller: string)
    requires !IsGlob(entry)
    ensures Allows(entry, caller) <==> entry == caller
  {}

  lemma GlobParts(entry: string)
    requires IsGlob(entry)
    ensures entry == entry[..|entry| - 2] + ".*" && entry[..|entry| - 2] != ""
  {}

  /** Who may confirm, without reference to how the list is searched. */
  lemma MayConfirmIff(callers: seq<string>, caller: string)
    ensures MayConfirm(callers, caller) <==> Approved(callers, caller)
  {
    hide Allows;
    if MayConfirm(callers, caller) {
      var entry :| entry in callers && Allows(entry, caller);
      if IsGlob(entry) {
        var p := entry[..|entry| - 2];
        GlobParts(entry);
        GlobAdmits(p, caller);
        PrefixIs(caller, p + ".");
        assert p + ".*" in callers;
      } else {
        ExactAdmits(entry, caller);
      }
    }
    if Approved(callers, caller) {
      if caller in callers && !IsGlob(caller) {
        ExactAdmits(caller, caller);
      } else {
        var p: string :| p != "" && p + ".*" in callers && p + "." <= caller;
        PrefixIs(caller, p + ".");
        GlobAdmits(p, caller);
      }
    }
  }

  lemma PrefixIs(s: string, prefix: string)
    ensures HasPrefix(s, prefix) <==> prefix <= s
  {}

  // ---------------------------------------------------------------------
  // The locked regions

  function Swept(pending: Pending, ttl: int, now: nat): Pending {
    map id <- pending.Keys | now - pending[id].createdAt < ttl :: pending[id]
  }

  function Entry(req: ActionRequest, createdAt: nat): PendingAction {
    PendingAction(req.action, req.params, req.caller, createdAt)
  }

  /** store_request: sweep, then emplace, which never overwrites. */
  function Stored(pending: Pending, ttl: int, id: string, req: ActionRequest, now: nat, createdAt: nat): Pending {
    var live := Swept(pending, ttl, now);
    if id in live then live else live[id := Entry(req, createdAt)]
  }

  /**
   Entries younger than the TTL survive a store as they were, also one under the new id; nothing but
   the new entry is added.
   */
  lemma StoringKeepsEntries(pending: Pending, ttl: int, id: string, req: ActionRequest, now: nat, createdAt: nat)
    ensures var after := Stored(pending, ttl, id, req, now, createdAt);
      && (forall k <- pending.Keys :: now - pending[k].createdAt < ttl ==> k in after && after[k] == pending[k])
      && (forall k <- after.Keys :: k != id ==> k in pending && now - pending[k].createdAt < ttl)
      && id in after
      && (id !in pending ==> after[id] == PendingAction(req.action, req.params, req.caller, createdAt))
  {}

  /** take_pending. */
  function Taken(pending: Pending, ttl: int, id: string, now: nat): (Pending, Json.Parsed<PendingAction>) {
    var live := Swept(pending, ttl, now);
    if id in live then (live - {id}, Json.Found(live[id])) else (live, Json.Missing)
  }

  // ---------------------------------------------------------------------
  // route: what it decides before touching the map, and what it replies

  datatype Decision = Unknown | Request | Denied | BadParams | Throws | Confirm(id: string)

  function Decide(c: Config, req: ActionRequest): Decision {
    if HasPrefix(req.action, "request_") then (if req.action[8..] != c.op then Unknown else Request)
    else if HasPrefix(req.action, "confirm_") then
      if req.action[8..] != c.op then Unknown
      else if !MayConfirm(c.confirmCallers, req.caller) then Denied
      else match Json.FindString(req.params, PENDING_KEY)
        case Missing => BadParams
        case Throws => Throws
        case Found(id) => Confirm(id)
    else Unknown
  }

  lemma ActionIs(action: string, prefix: string, op: string)
    requires |prefix| == 8
    ensures HasPrefix(action, prefix) && action[8..] == op <==> action == prefix + op
  {
    if HasPrefix(action, prefix) { assert action == action[..8] + action[8..]; }
    if action == prefix + op { assert action[..8] == prefix && action[8..] == op; }
  }

  /** What a request asks for, in terms of its action name, its caller and its parameters. */
  lemma DecideIff(c: Config, req: ActionRequest)
    ensures var confirms, approved := req.action == "confirm_" + c.op, Approved(c.confirmCallers, req.caller);
      var found := Json.FindString(req.params, "pending_id");
      && (Decide(c, req).Request? <==> req.action == "request_" + c.op)
      && (Decide(c, req).Denied? <==> confirms && !approved)
      && (Decide(c, req).BadParams? <==> confirms && approved && found.Missing?)
      && (Decide(c, req).Throws? <==> confirms && approved && found.Throws?)
      && (Decide(c, req).Confirm? <==> confirms && approved && found.Found?)
      && (Decide(c, req).Confirm? ==> found == Json.Found(Decide(c, req).id))
  {
    hide MayConfirm, Approved, Json.FindString;
    MayConfirmIff(c.confirmCallers, req.caller);
    ActionIs(req.action, "request_", c.op);
    ActionIs(req.action, "confirm_", c.op);
    if HasPrefix(req.action, "request_") { assert req.action[..8][0] == req.action[0] == 'r'; }
    if HasPrefix(req.action, "confirm_") { assert req.action[..8][0] == req.action[0] == 'c'; }
  }

  function NotFoundEnvelope(actionId: string): Envelope {
    ActionResponse(actionId, ActionNotFound, "", "unknown action")
  }

  function Listed(callers: seq<string>): string {
    if callers == [] then ""
    else if |callers| == 1 then callers[0]
    else Listed(callers[..|callers| - 1]) + ", " + callers[|callers| - 1]
  }

  function DeniedEnvelope(c: Config, req: ActionRequest): Envelope {
    ErrorEnvelope(req.actionId, "permission denied: caller " + req.caller + " may not confirm " + c.op
                                + " (approved callers: " + Listed(c.confirmCallers) + ")")
  }

  function TtlSeconds(ttl: int): string {
    if ttl >= 0 then Ids.Decimal(ttl / 1000)
    else if -ttl < 1000 then "0"
    else "-" + Ids.Decimal((-ttl) / 1000)
  }

  /** An object whose first member is the pending id. */
  function WithPendingId(id: string, rest: string): string {
    "{" + Json.Quoted(PENDING_KEY) + ":\"" + Json.Escaped(id) + "\"" + rest
  }

  /** The JSON a requester gets back. */
  function RequestReply(c: Config, req: ActionRequest, id: string): string {
    WithPendingId(id, ",\"action\":\"" + Json.Escaped(req.action) + "\",\"ttl_secs\":" + TtlSeconds(c.ttl) + "}")
  }

  /** The JSON a confirmer sends. */
  function ConfirmParams(id: string): string {
    WithPendingId(id, "}")
  }

  function NoPendingEnvelope(c: Config, req: ActionRequest, id: string): Envelope {
    ErrorEnvelope(req.actionId, "no pending " + c.op + " request with id " + id)
  }

  /** An error reply: the request's own id, no data, and the text. */
  predicate Refuses(e: Envelope, actionId: string, status: Status, text: string) {
    e.ActionResponse? && e.actionId == actionId && e.status == status && e.data == "" && e.error == text
  }

  /** The replies that carry no result, as a caller sees them. */
  lemma Refusals(c: Config, req: ActionRequest, id: string)
    ensures Refuses(NotFoundEnvelope(req.actionId), req.actionId, ActionNotFound, "unknown action")
    ensures Refuses(NoPendingEnvelope(c, req, id), req.actionId, ActionError,
                    "no pending " + c.op + " request with id " + id)
    ensures Refuses(DeniedEnvelope(c, req), req.actionId, ActionError,
                    "permission denied: caller " + req.caller + " may not confirm " + c.op
                    + " (approved callers: " + Listed(c.confirmCallers) + ")")
    ensures Refuses(ErrorEnvelope(req.actionId, BAD_PARAMS), req.actionId, ActionError,
                    "invalid confirm params: confirm params must include a string pending_id")
  {
    hide Listed;
  }

  lemma ListedSnoc(front: seq<string>, last: string)
    requires front != []
    ensures Listed(front + [last]) == Listed(front) + ", " + last
  {
    assert (front + [last])[..|front + [last]| - 1] == front;
  }

  lemma ListedFew(a: seq<string>)
    ensures Listed([]) == "" && (|a| == 1 ==> Listed(a) == a[0])
  {}

  /** The list of approved callers: a comma and a blank between any two. */
  lemma {:induction false} ListedJoins(a: seq<string>, b: seq<string>)
    requires a != [] && b != []
    ensures Listed(a + b) == Listed(a) + ", " + Listed(b)
    decreases b
  {
    hide Listed;
    var front, last := b[..|b| - 1], b[|b| - 1];
    assert a + b == a + front + [last] && b == front + [last];
    if front == [] {
      ListedSnoc(a, last);
      ListedFew(b);
      assert a + b == a + [last];
    } else {
      ListedJoins(a, front);
      ListedSnoc(a + front, last);
      ListedSnoc(front, last);
    }
  }

  /** Whole seconds, cut towards zero. */
  lemma TtlInSeconds(ttl: int)
    ensures ttl >= 0 ==> Ids.Digits(TtlSeconds(ttl)) && Ids.Value(TtlSeconds(ttl)) == ttl / 1000
    ensures -1000 < ttl < 0 ==> TtlSeconds(ttl) == "0"
    ensures ttl <= -1000 ==> TtlSeconds(ttl) == "-" + TtlSeconds(-ttl)
  {
    hide Ids.Decimal;
    if ttl >= 0 { Ids.DecimalRoundTrip(ttl / 1000); }
  }

  /** The reply to a request, as text. */
  lemma ReplyText(c: Config, req: ActionRequest, id: string)
    ensures RequestReply(c, req, id)
         == "{\"pending_id\":\"" + Json.Escaped(id) + "\",\"action\":\"" + Json.Escaped(req.action)
                                        + "\",\"ttl_secs\":" + TtlSeconds(c.ttl) + "}"
  {
    hide Json.Escaped, TtlSeconds;
  }

  /** The form of the ids the gate gives out. */
  lemma PendingIdForm(millis: nat, sequence: nat)
    ensures Ids.Identifier(TAG, millis, sequence) == "pending-" + Ids.Decimal(millis) + "-" + Ids.Decimal(sequence)
  {
    hide Ids.Decimal;
  }

  const BAD_PARAMS := "invalid confirm params: confirm params must include a string pending_id"

  lemma PendingIdIsFound(id: string, rest: string)
    ensures Json.FindString(WithPendingId(id, rest), PENDING_KEY) == Json.Found(id)
  {
    hide Json.Escaped, Json.FindString, Json.Quoted;
    Json.FirstMemberIsFound(PENDING_KEY, id, rest);
  }

  /** The requester's helper reads back the very id the gate stored under. */
  lemma ReplyCarriesTheId(c: Config, req: ActionRequest, id: string)
    ensures Json.FindString(RequestReply(c, req, id), PENDING_KEY) == Json.Found(id)
  {
    hide Json.Escaped, Json.FindString, WithPendingId, TtlSeconds;
    PendingIdIsFound(id, ",\"action\":\"" + Json.Escaped(req.action) + "\",\"ttl_secs\":" + TtlSeconds(c.ttl) + "}");
  }

  /** The gate reads back the very id the confirmer's helper was given. */
  lemma ConfirmCarriesTheId(id: string)
    ensures Json.FindString(ConfirmParams(id), PENDING_KEY) == Json.Found(id)
  {
    hide Json.FindString, WithPendingId;
    PendingIdIsFound(id, "}");
  }

  // ---------------------------------------------------------------------
  // The class

  /** What route returns, or an exception out of the parameter parser or the executor. */
  datatype Routed = Replied(envelope: Envelope) | Thrown

  /** The executor's result, or its exception. */
  function Outcome(req: ActionRequest, result: Option<ActionResult>): Routed {
    match result
    case None => Thrown
    case Some(r) => Replied(ResponseEnvelope(req.actionId, r))
  }

  /** Readings of the two clocks and of the process-wide counter made by one call. */
  datatype Readings = Readings(millis: nat, sequence: nat, now: nat, createdAt: nat)

  class ConfirmationGate {
    const config: Config
    var pending: Pending

    constructor (config: Config)
      ensures this.config == config && pending == map[]
    {
      this.config := config;
      pending := map[];
    }

    /** sweep_expired_locked. */
    method Sweep(now: nat)
      modifies this
      ensures pending == Swept(old(pending), config.ttl, now)
    {
      var unseen := pending.Keys;
      while unseen != {}
        invariant unseen <= pending.Keys <= old(pending).Keys
        invariant forall id <- pending.Keys :: pending[id] == old(pending)[id]
        invariant forall id <- old(pending).Keys - unseen :: id in pending <==>
          now - old(pending)[id].createdAt < config.ttl
        decreases unseen
      {
        var id :| id in unseen;
        if now - pending[id].createdAt >= config.ttl { pending := pending - {id}; }
        unseen := unseen - {id};
      }
    }

    /** store_request. */
    method StoreRequest(req: ActionRequest, r: Readings) returns (id: string)
      modifies this
      ensures id == Ids.Identifier(TAG, r.millis, r.sequence)
      ensures pending == Stored(old(pending), config.ttl, id, req, r.now, r.createdAt)
    {
      Sweep(r.now);
      id := Ids.Identifier(TAG, r.millis, r.sequence);
      if id !in pending { pending := pending[id := Entry(req, r.createdAt)]; }
    }

    /** take_pending. */
    method TakePending(id: string, now: nat) returns (r: Json.Parsed<PendingAction>)
      modifies this
      ensures (pending, r) == Taken(old(pending), config.ttl, id, now)
    {
      Sweep(now);
      if id !in pending { return Json.Missing; }
      r := Json.Found(pending[id]);
      pending := pending - {id};
    }

    method AllowList() returns (list: string)
      ensures list == Listed(config.confirmCallers)
    {
      list := "";
      for i := 0 to |config.confirmCallers|
        invariant list == Listed(config.confirmCallers[..i])
      {
        if i != 0 { list := list + ", "; }
        list := list + config.confirmCallers[i];
        assert config.confirmCallers[..i + 1][..i] == config.confirmCallers[..i];
      }
      assert config.confirmCallers[..|config.confirmCallers|] == config.confirmCallers;
    }

    /** may_confirm. */
    method MayConfirmLoop(caller: string) returns (ok: bool)
      ensures ok <==> MayConfirm(config.confirmCallers, caller)
    {
      for i := 0 to |config.confirmCallers|
        invariant forall j :: 0 <= j < i ==> !Allows(config.confirmCallers[j], caller)
      {
        if Allows(config.confirmCallers[i], caller) { return true; }
      }
      return false;
    }

    /** The reply to a request, printed with the escaper. */
    method ReplyData(req: ActionRequest, id: string) returns (data: string)
      ensures data == RequestReply(config, req, id)
    {
      hide Json.Escaped;
      var shownId := Json.JsonEscape(id);
      var shownAction := Json.JsonEscape(req.action);
      data := "{" + Json.Quoted(PENDING_KEY) + ":\"" + shownId + "\"" +
              (",\"action\":\"" + shownAction + "\",\"ttl_secs\":" + TtlSeconds(config.ttl) + "}");
    }

    /** route: the executor only ever sees stored parameters. */
    method Route(req: ActionRequest, executor: string -> Option<ActionResult>, r: Readings) returns (routed: Routed)
      modifies this
      ensures match Decide(config, req)
        case Unknown => routed == Replied(NotFoundEnvelope(req.actionId)) && pending == old(pending)
        case Denied => routed == Replied(DeniedEnvelope(config, req)) && pending == old(pending)
        case BadParams => routed == Replied(ErrorEnvelope(req.actionId, BAD_PARAMS)) && pending == old(pending)
        case Throws => routed == Thrown && pending == old(pending)
        case Request =>
          var id := Ids.Identifier(TAG, r.millis, r.sequence);
          && routed == Replied(ResponseEnvelope(req.actionId, Success(RequestReply(config, req, id))))
          && pending == Stored(old(pending), config.ttl, id, req, r.now, r.createdAt)
        case Confirm(id) =>
          var (after, taken) := Taken(old(pending), config.ttl, id, r.now);
          && pending == after
          && routed == (if taken.Found? then Outcome(req, executor(taken.value.params))
                        else Replied(NoPendingEnvelope(config, req, id)))
    {
      hide Json.FindString, MayConfirm, Listed, RequestReply;
      if HasPrefix(req.action, "request_") {
        if req.action[8..] != config.op { return Replied(NotFoundEnvelope(req.actionId)); }
        var id := StoreRequest(req, r);
        var data := ReplyData(req, id);
        return Replied(ResponseEnvelope(req.actionId, Success(data)));
      }
      if HasPrefix(req.action, "confirm_") {
        if req.action[8..] != config.op { return Replied(NotFoundEnvelope(req.actionId)); }
        var allowed := MayConfirmLoop(req.caller);
        if !allowed {
          var list := AllowList();
          return Replied(ErrorEnvelope(req.actionId,
                                       "permission denied: caller " + req.caller + " may not confirm " + config.op
                                                   + " (approved callers: " + list + ")"));
        }
        var found := Json.JsonFindString(req.params, PENDING_KEY);
        match found {
          case Missing => return Replied(ErrorEnvelope(req.actionId, BAD_PARAMS));
          case Throws => return Thrown;
          case Found(id) =>
            var taken := TakePending(id, r.now);
            if !taken.Found? { return Replied(NoPendingEnvelope(config, req, id)); }
            return Outcome(req, executor(taken.value.params));
        }
      }
      return Replied(NotFoundEnvelope(req.actionId));
    }
  }

  /**
   Two gates with the same configuration deny alike, whatever they hold and whatever parameters are
   presented; neither map is touched.
   */
  method DenialsAgree(a: ConfirmationGate, b: ConfirmationGate, req: ActionRequest, params: string,
                      executor: string -> Option<ActionResult>, r: Readings) returns (x: Routed, y: Routed)
    requires a.config == b.config
    requires req.action == "confirm_" + a.config.op && !Approved(a.config.confirmCallers, req.caller)
    modifies a, b
    ensures x == y && a.pending == old(a.pending) && b.pending == old(b.pending)
    ensures x.Replied? && x.envelope.ActionResponse?
            && x.envelope.actionId == req.actionId && x.envelope.status == ActionError && x.envelope.data == ""
  {
    hide MayConfirm, Approved, Json.FindString, Listed, Decide;
    DecideIff(a.config, req);
    DecideIff(a.config, req.(params := params));
    Refusals(a.config, req, "");
    x := a.Route(req, executor, r);
    y := b.Route(req.(params := params), executor, r);
  }

  /** What a caller is told about the executor's result. */
  ghost predicate Reports(routed: Routed, actionId: string, result: Option<ActionResult>) {
    match result
    case None => routed == Thrown
    case Some(Success(data)) => routed == Replied(ActionResponse(actionId, ActionOk, data, ""))
    case Some(Failure(error)) => routed == Replied(ActionResponse(actionId, ActionError, "", error))
  }

  lemma OutcomeReports(req: ActionRequest, result: Option<ActionResult>)
    ensures Reports(Outcome(req, result), req.actionId, result)
  {}

  /** The first phase: a request is stored as it came, under the id its reply carries. */
  method AskFirst(gate: ConfirmationGate, request: ActionRequest, executor: string -> Option<ActionResult>, r: Readings)
    returns (reply: Routed, id: string)
    requires request.action == "request_" + gate.config.op && Ids.Identifier(TAG, r.millis, r.sequence) !in gate.pending
    modifies gate
    ensures reply.Replied? && reply.envelope.ActionResponse?
            && reply.envelope.actionId == request.actionId && reply.envelope.status == ActionOk
            && reply.envelope.error == ""
    ensures id == Ids.Identifier(TAG, r.millis, r.sequence) && id in gate.pending
    ensures gate.pending[id] == PendingAction(request.action, request.params, request.caller, r.createdAt)
  {
    hide Approved, Json.FindString, Listed, Decide, RequestReply, Ids.Identifier, Swept;
    DecideIff(gate.config, request);
    reply := gate.Route(request, executor, r);
    ReplyCarriesTheId(gate.config, request, Ids.Identifier(TAG, r.millis, r.sequence));
    var found := Json.JsonFindString(reply.envelope.data, "pending_id");
    NotInSwept(old(gate.pending), gate.config.ttl, Ids.Identifier(TAG, r.millis, r.sequence), r.now);
    id := found.value;
  }

  lemma NotInSwept(pending: Pending, ttl: int, id: string, now: nat)
    ensures id in Swept(pending, ttl, now) <==> id in pending && now - pending[id].createdAt < ttl
    ensures id in Swept(pending, ttl, now) ==> Swept(pending, ttl, now)[id] == pending[id]
  {}

  /**
   The second phase: an approved caller presents the id in time, and the executor runs on what was
   stored under it.
   */
  method ThenConfirm(gate: ConfirmationGate, confirm: ActionRequest, id: string,
                     executor: string -> Option<ActionResult>,
                     r: Readings) returns (reply: Routed)
    requires confirm.action == "confirm_" + gate.config.op && Approved(gate.config.confirmCallers, confirm.caller)
    requires id in gate.pending && r.now - gate.pending[id].createdAt < gate.config.ttl
    modifies gate
    ensures Reports(reply, confirm.actionId, executor(old(gate.pending)[id].params)) && id !in gate.pending
  {
    hide Approved, Json.FindString, Json.Escaped, Listed, Decide, RequestReply, Outcome, Swept, Reports;
    var shown := Json.JsonEscape(id);
    var asked := confirm.(params := "{\"pending_id\":\"" + shown + "\"}");
    assert asked.params == ConfirmParams(id);
    ConfirmCarriesTheId(id);
    DecideIff(gate.config, asked);
    NotInSwept(gate.pending, gate.config.ttl, id, r.now);
    OutcomeReports(asked, executor(gate.pending[id].params));
    reply := gate.Route(asked, executor, r);
  }

  /**
   Both phases on one gate: a request, the pending id taken out of its reply, and an approved caller's
   confirmation within the TTL.  The executor runs on the parameters of the request, its result is
   what the confirmer is told, and the entry is gone.
   */
  method TwoPhases(gate: ConfirmationGate, request: ActionRequest, confirm: ActionRequest,
                   executor: string -> Option<ActionResult>, r1: Readings, r2: Readings)
    returns (first: Routed, second: Routed, id: string)
    requires request.action == "request_" + gate.config.op && confirm.action == "confirm_" + gate.config.op
    requires Approved(gate.config.confirmCallers, confirm.caller)
    requires Ids.Identifier(TAG, r1.millis, r1.sequence) !in gate.pending && r2.now - r1.createdAt < gate.config.ttl
    modifies gate
    ensures first.Replied? && first.envelope.ActionResponse?
            && first.envelope.actionId == request.actionId && first.envelope.status == ActionOk
    ensures Reports(second, confirm.actionId, executor(request.params)) && id !in gate.pending
  {
    hide Approved, Ids.Identifier, Reports;
    first, id := AskFirst(gate, request, executor, r1);
    second := ThenConfirm(gate, confirm, id, executor, r2);
  }
}
