/**
 What a well-behaved peer sends - messages cut into frames, with pings, pongs and text in
 between - is what receive_binary hands over, one message a call, for every chunking of
 the bytes; each ping is answered once, with its own payload.
 */
module WebSocketPlans {
  import opened Bytes
  import opened WebSocket
  import opened WebSocketStream
  import Framing
  import Client

  /** A frame that may stand between the frames of a message. */
  predicate IsAside(w: WsFrame) {
    w.Proper() && (LowNibble(w.head) == OP_PING || LowNibble(w.head) == OP_PONG || LowNibble(w.head) == OP_TEXT)
  }

  /** One data frame and the asides before it. */
  datatype Part = Part(asides: seq<WsFrame>, data: WsFrame)

  type Plan = seq<Part>

  /** Asides anywhere; binary first, then continuations; FIN exactly on the last. */
  predicate ProperPlan(parts: Plan, started: bool) {
    && parts != []
    && (forall a <- parts[0].asides :: IsAside(a))
    && parts[0].data.Proper()
    && LowNibble(parts[0].data.head) == (if started then OP_CONT else OP_BINARY)
    && (TopBit(parts[0].data.head) <==> |parts| == 1)
    && (|parts| > 1 ==> ProperPlan(parts[1..], true))
  }

  predicate AllProper(plans: seq<Plan>) {
    forall p <- plans :: ProperPlan(p, false) && |Message(p)| <= WS_MAX
  }

  function FramesBytes(frames: seq<WsFrame>): seq<byte>
    requires forall w <- frames :: w.Proper()
  {
    if frames == [] then [] else ServerFrame(frames[0]) + FramesBytes(frames[1..])
  }

  function PlanBytes(parts: Plan, started: bool): seq<byte>
    requires ProperPlan(parts, started)
  {
    FramesBytes(parts[0].asides) + ServerFrame(parts[0].data) + if |parts| > 1 then PlanBytes(parts[1..], true) else []
  }

  /** The message: the data payloads in order. */
  function Message(parts: Plan): seq<byte> {
    if parts == [] then [] else parts[0].data.payload + Message(parts[1..])
  }

  /** One pong per ping, in order, payload echoed. */
  function PongsFor(frames: seq<WsFrame>): seq<Answer> {
    if frames == [] then []
    else
      (if LowNibble(frames[0].head) == OP_PING then [Answer(OP_PONG, frames[0].payload)] else [])
      + PongsFor(frames[1..])
  }

  function Pongs(parts: Plan): seq<Answer> {
    if parts == [] then [] else PongsFor(parts[0].asides) + Pongs(parts[1..])
  }

  function AllBytes(plans: seq<Plan>): seq<byte>
    requires AllProper(plans)
  {
    if plans == [] then [] else PlanBytes(plans[0], false) + AllBytes(plans[1..])
  }

  function AllMessages(plans: seq<Plan>): seq<seq<byte>> {
    if plans == [] then [] else [Message(plans[0])] + AllMessages(plans[1..])
  }

  function AllPongs(plans: seq<Plan>): seq<Answer> {
    if plans == [] then [] else Pongs(plans[0]) + AllPongs(plans[1..])
  }

  // ---------------------------------------------------------------------
  // One frame at the front of the stream

  function Arrived(w: WsFrame): Incoming
    requires w.Proper()
  {
    Incoming(TopBit(w.head), LowNibble(w.head), w.payload, |ServerFrame(w)|)
  }

  lemma FrameArrives(w: WsFrame, rest: seq<byte>)
    requires w.Proper()
    ensures var stream := ServerFrame(w) + rest;
      Decode(stream) == Ok(Some(Arrived(w))) && stream[Arrived(w).consumed..] == rest
  {
    hide Decode, ServerFrame;
    FrameDecodes(w, rest);
  }

  /**
   A close frame ends the connection, whatever message was under way, and is echoed with at most 125
   bytes of its payload.
   */
  lemma CloseIsEchoed(w: WsFrame, rest: seq<byte>, message: seq<byte>, inMessage: bool)
    requires w.Proper() && w.head & 0x0F == 8
    ensures var r := Assemble(ServerFrame(w) + rest, message, inMessage);
      && r.message == Err(IoError) && r.rest == rest
      && |r.answers| == 1 && r.answers[0].opcode == 8 && r.answers[0].payload <= w.payload
      && |r.answers[0].payload| == if |w.payload| < 125 then |w.payload| else 125
  {
    hide Decode, ServerFrame, Assemble, TopBit, LowNibble, Answers, Judge;
    HeadBits(w.head);
    FrameArrives(w, rest);
    AssembleTurn(ServerFrame(w) + rest, message, inMessage, Arrived(w));
    JudgeByOpcode(Arrived(w), message, inMessage);
    AnswersByOpcode(Arrived(w));
  }

  lemma AsideIsPassed(w: WsFrame, rest: seq<byte>, message: seq<byte>, inMessage: bool)
    requires IsAside(w)
    ensures var later := Assemble(rest, message, inMessage);
      Assemble(ServerFrame(w) + rest, message, inMessage) == later.(answers := PongsFor([w]) + later.answers)
  {
    hide Decode, ServerFrame, Assemble, TopBit, LowNibble;
    FrameArrives(w, rest);
    AssembleTurn(ServerFrame(w) + rest, message, inMessage, Arrived(w));
    assert PongsFor([w]) == Answers(Arrived(w)) by { assert [w][1..] == []; }
  }

  lemma {:induction false} AsidesArePassed(asides: seq<WsFrame>, rest: seq<byte>, message: seq<byte>, inMessage: bool)
    requires forall a <- asides :: IsAside(a) && a.Proper()
    ensures var later := Assemble(rest, message, inMessage);
      Assemble(FramesBytes(asides) + rest, message, inMessage) == later.(answers := PongsFor(asides) + later.answers)
    decreases asides
  {
    hide Assemble, IsAside, ServerFrame, FramesBytes, PongsFor;
    var later := Assemble(rest, message, inMessage);
    if asides == [] {
      NoFrames();
      assert [] + rest == rest && [] + later.answers == later.answers;
    } else {
      var tail := FramesBytes(asides[1..]) + rest;
      FramesCons(asides, rest);
      AsideIsPassed(asides[0], tail, message, inMessage);
      AsidesArePassed(asides[1..], rest, message, inMessage);
      PongsCons(asides);
      assert PongsFor(asides) + later.answers == PongsFor([asides[0]]) + (PongsFor(asides[1..]) + later.answers);
    }
  }

  lemma NoFrames()
    ensures FramesBytes([]) == [] && PongsFor([]) == []
  {}

  lemma FramesCons(frames: seq<WsFrame>, rest: seq<byte>)
    requires frames != [] && forall w <- frames :: w.Proper()
    ensures FramesBytes(frames) + rest == ServerFrame(frames[0]) + (FramesBytes(frames[1..]) + rest)
  {
    hide ServerFrame;
  }

  lemma PongsCons(frames: seq<WsFrame>)
    requires frames != []
    ensures PongsFor(frames) == PongsFor([frames[0]]) + PongsFor(frames[1..])
  {}

  // ---------------------------------------------------------------------
  // One message

  /** The data frame of one part, at the front of the stream. */
  lemma DataIsTaken(data: WsFrame, last: bool, started: bool, message: seq<byte>, rest: seq<byte>)
    requires data.Proper() && LowNibble(data.head) == (if started then OP_CONT else OP_BINARY)
    requires TopBit(data.head) <==> last
    requires (!started ==> message == []) && |message| + |data.payload| <= WS_MAX
    ensures Assemble(ServerFrame(data) + rest, message, started) ==
      (if last then Assembled(Ok(message + data.payload), rest, []) else Assemble(rest, message + data.payload, true))
  {
    hide Assemble, Decode, ServerFrame, TopBit, LowNibble;
    var w := Arrived(data);
    FrameArrives(data, rest);
    AssembleTurn(ServerFrame(data) + rest, message, started, w);
    assert Answers(w) == [];
    assert !started ==> message + w.payload == w.payload;
    assert Judge(w, message, started)
        == if last then Deliver(message + w.payload) else Continue(message + w.payload, true);
    var later := Assemble(rest, message + w.payload, true);
    assert [] + later.answers == later.answers;
  }

  /** The bytes of a plan, regrouped around its first data frame. */
  lemma PlanSplits(parts: Plan, started: bool, rest: seq<byte>)
    requires ProperPlan(parts, started)
    ensures forall a <- parts[0].asides :: a.Proper()
    ensures var more := if |parts| > 1 then PlanBytes(parts[1..], true) + rest else rest;
      PlanBytes(parts, started) + rest == FramesBytes(parts[0].asides) + (ServerFrame(parts[0].data) + more)
  {
    hide ServerFrame, FramesBytes;
    if |parts| == 1 {
      assert PlanBytes(parts, started) == FramesBytes(parts[0].asides) + ServerFrame(parts[0].data);
    }
  }

  lemma {:induction false} PlanAssembles(parts: Plan, started: bool, message: seq<byte>, rest: seq<byte>)
    requires ProperPlan(parts, started) && (!started ==> message == []) && |message| + |Message(parts)| <= WS_MAX
    ensures Assemble(PlanBytes(parts, started) + rest, message, started)
      == Assembled(Ok(message + Message(parts)), rest, Pongs(parts))
    decreases parts
  {
    hide Assemble, ServerFrame, IsAside, TopBit, LowNibble, PlanBytes, FramesBytes, PongsFor;
    var part, last := parts[0], |parts| == 1;
    var more := if |parts| > 1 then PlanBytes(parts[1..], true) + rest else rest;
    PlanSplits(parts, started, rest);
    AsidesArePassed(part.asides, ServerFrame(part.data) + more, message, started);
    DataIsTaken(part.data, last, started, message, more);
    var longer := message + part.data.payload;
    assert longer + Message(parts[1..]) == message + Message(parts);
    if last {
      assert parts[1..] == [] && Message(parts[1..]) == [] && Pongs(parts[1..]) == [] && longer + [] == longer;
    } else {
      PlanAssembles(parts[1..], true, longer, rest);
    }
  }

  // ---------------------------------------------------------------------
  // The read buffer never has to hold more than it may

  /** Every encoded frame is at most WS_MAX + 1 bytes long. */
  predicate Compact(w: WsFrame) { w.Proper() && |ServerFrame(w)| <= WS_MAX + 1 }

  predicate CompactPlan(parts: Plan) {
    forall p <- parts :: Compact(p.data) && forall a <- p.asides :: Compact(a)
  }

  lemma FrameSuffices(w: WsFrame, rest: seq<byte>)
    requires Compact(w) && BufferSuffices(rest)
    ensures BufferSuffices(ServerFrame(w) + rest)
  {
    hide Decode, ServerFrame;
    FrameArrives(w, rest);
  }

  lemma {:induction false} AsidesSuffice(asides: seq<WsFrame>, rest: seq<byte>)
    requires (forall a <- asides :: Compact(a) && a.Proper()) && BufferSuffices(rest)
    ensures BufferSuffices(FramesBytes(asides) + rest)
    decreases asides
  {
    hide BufferSuffices, ServerFrame;
    if asides == [] {
      assert FramesBytes(asides) + rest == rest;
    } else {
      AsidesSuffice(asides[1..], rest);
      FrameSuffices(asides[0], FramesBytes(asides[1..]) + rest);
      FramesCons(asides, rest);
    }
  }

  lemma {:induction false} PlanSuffices(parts: Plan, started: bool, rest: seq<byte>)
    requires ProperPlan(parts, started) && CompactPlan(parts) && BufferSuffices(rest)
    ensures BufferSuffices(PlanBytes(parts, started) + rest)
    decreases parts
  {
    hide BufferSuffices, ServerFrame, IsAside, Compact, PlanBytes, FramesBytes;
    var more := if |parts| > 1 then PlanBytes(parts[1..], true) + rest else rest;
    if |parts| > 1 { PlanSuffices(parts[1..], true, rest); }
    CompactParts(parts);
    FrameSuffices(parts[0].data, more);
    AsidesSuffice(parts[0].asides, ServerFrame(parts[0].data) + more);
    PlanSplits(parts, started, rest);
  }

  lemma CompactParts(parts: Plan)
    requires parts != [] && CompactPlan(parts)
    ensures Compact(parts[0].data) && parts[0].data.Proper()
      && (forall a <- parts[0].asides :: Compact(a) && a.Proper())
  {}

  lemma {:induction false} PlansSuffice(plans: seq<Plan>, rest: seq<byte>)
    requires AllProper(plans) && (forall p <- plans :: CompactPlan(p)) && BufferSuffices(rest)
    ensures BufferSuffices(AllBytes(plans) + rest)
    decreases plans
  {
    hide CompactPlan, ProperPlan, BufferSuffices, PlanBytes;
    if plans == [] {
      assert AllBytes(plans) + rest == rest;
    } else {
      PlansSuffice(plans[1..], rest);
      assert plans[0] in plans;
      PlanSuffices(plans[0], false, AllBytes(plans[1..]) + rest);
      assert AllBytes(plans) + rest == PlanBytes(plans[0], false) + (AllBytes(plans[1..]) + rest);
    }
  }

  lemma {:induction false} FrameIsFetched(buf: seq<byte>, source: seq<seq<byte>>, w: WsFrame, rest: seq<byte>)
    requires w.Proper() && |ServerFrame(w)| <= WS_MAX + 1 && buf + Framing.Concat(source) == ServerFrame(w) + rest
    ensures Fetched(buf, source, None).frame == Ok(Arrived(w))
    decreases |source|
  {
    hide Decode, ServerFrame, Framing.Concat;
    var all := ServerFrame(w) + rest;
    FrameArrives(w, rest);
    assert buf == all[..|buf|];
    if source == [] {
      Framing.ConcatNone(source);
      assert buf == all;
    }
    if Decode(buf) != Ok(None) {
      AnswerIsStable(buf, Framing.Concat(source));
    } else {
      UndecidedIsShort(all, |buf|);
      if source != [] {
        Framing.ConcatTail(source);
        assert buf + source[0] + Framing.Concat(source[1..]) == all;
        FrameIsFetched(buf + source[0], source[1..], w, rest);
      }
    }
  }

  /** One fill of the read buffer brings between one and 4096 bytes. */
  const FILL_MAX := 4096

  ghost predicate Fills(chunks: seq<seq<byte>>) {
    forall c <- chunks :: 0 < |c| <= FILL_MAX
  }

  /** The stream arriving a byte at a time. */
  function Bytewise(stream: seq<byte>): seq<seq<byte>> {
    if stream == [] then [] else [[stream[0]]] + Bytewise(stream[1..])
  }

  lemma {:induction false} BytewiseIsWhole(stream: seq<byte>)
    ensures Framing.Concat(Bytewise(stream)) == stream && Fills(Bytewise(stream))
    decreases stream
  {
    hide Framing.Concat;
    if stream == [] {
      Framing.ConcatNone([]);
    } else {
      BytewiseIsWhole(stream[1..]);
      Framing.ConcatCons([stream[0]], Bytewise(stream[1..]));
    }
  }

  /** A longer frame is refused when its first WS_MAX + 1 bytes are seen before the rest. */
  lemma {:induction false} LongFrameIsRefused(w: WsFrame, rest: seq<byte>, k: nat)
    requires w.Proper() && |ServerFrame(w)| > WS_MAX + 1 && k <= WS_MAX + 1
    ensures var all := ServerFrame(w) + rest;
      Fetched(all[..k], Bytewise(all[k..]), None).frame == Err(PayloadTooLarge(WS_MAX + 1))
    decreases WS_MAX + 1 - k
  {
    hide ServerFrame, Decode;
    var all := ServerFrame(w) + rest;
    PrefixNeedsMore(w, k);
    assert all[..k] == ServerFrame(w)[..k];
    if k <= WS_MAX {
      LongFrameIsRefused(w, rest, k + 1);
      assert all[k..][0] == all[k] && all[k..][1..] == all[k + 1..] && all[..k] + [all[k]] == all[..k + 1];
    }
  }

  /**
   Any proper frame is accepted when full fills bring it: the buffer reaches WS_MAX exactly, and the
   next fill completes the frame.
   */
  lemma {:induction false} FullFillsAreAccepted(w: WsFrame, rest: seq<byte>, k: nat)
    requires w.Proper() && k < |ServerFrame(w)| && k <= WS_MAX && k % FILL_MAX == 0
    ensures var all := ServerFrame(w) + rest;
      Fetched(all[..k], Client.Pieces(all[k..], FILL_MAX), None).frame == Ok(Arrived(w))
    decreases WS_MAX - k
  {
    hide ServerFrame, Decode, Client.Pieces;
    var all, pieces := ServerFrame(w) + rest, Client.Pieces((ServerFrame(w) + rest)[k..], FILL_MAX);
    PrefixNeedsMore(w, k);
    assert all[..k] == ServerFrame(w)[..k];
    FirstFill(all, k);
    var next := all[..k] + pieces[0];
    FrameIsAtMost(w);
    if |next| >= |ServerFrame(w)| {
      FrameDecodes(w, next[|ServerFrame(w)|..]);
      assert next == ServerFrame(w) + next[|ServerFrame(w)|..];
    } else {
      FullFillsAreAccepted(w, rest, k + FILL_MAX);
    }
  }

  lemma FrameIsAtMost(w: WsFrame)
    requires w.Proper()
    ensures |ServerFrame(w)| <= WS_MAX + 10
  {}

  lemma FirstFill(all: seq<byte>, k: nat)
    requires k < |all|
    ensures var pieces := Client.Pieces(all[k..], FILL_MAX);
      && (|all| <= k + FILL_MAX ==> all[..k] + pieces[0] == all)
      && (|all| > k + FILL_MAX ==>
            && all[..k] + pieces[0] == all[..k + FILL_MAX]
            && pieces[1..] == Client.Pieces(all[k + FILL_MAX..], FILL_MAX))
  {
    assert |all| > k + FILL_MAX ==> all[k..][FILL_MAX..] == all[k + FILL_MAX..];
  }

  /**
   So the fate of a longer frame depends on how it arrives: one way of filling the buffer accepts it,
   another refuses it.
   */
  lemma LongFrameDependsOnFills(w: WsFrame, rest: seq<byte>) returns (kind: seq<seq<byte>>, harsh: seq<seq<byte>>)
    requires w.Proper() && |ServerFrame(w)| > WS_MAX + 1
    ensures Framing.Concat(kind) == Framing.Concat(harsh) == ServerFrame(w) + rest && Fills(kind) && Fills(harsh)
    ensures Fetched([], kind, None).frame == Ok(Arrived(w))
      && Fetched([], harsh, None).frame == Err(PayloadTooLarge(WS_MAX + 1))
  {
    hide ServerFrame, Fetched, Framing.Concat, Client.Pieces, Fills;
    var all := ServerFrame(w) + rest;
    kind, harsh := Client.Pieces(all, FILL_MAX), Bytewise(all);
    assert all[..0] == [] && all[0..] == all;
    FullFillsAreAccepted(w, rest, 0);
    LongFrameIsRefused(w, rest, 0);
    Client.PiecesRejoin(all, FILL_MAX);
    PiecesFill(all);
    BytewiseIsWhole(all);
  }

  lemma {:induction false} PiecesFill(stream: seq<byte>)
    requires stream != []
    ensures Fills(Client.Pieces(stream, FILL_MAX))
    decreases |stream|
  {
    if |stream| > FILL_MAX { PiecesFill(stream[FILL_MAX..]); }
  }

  /** Chunking plays no part exactly for frames of at most WS_MAX + 1 bytes on the wire. */
  lemma ChunkingIsIrrelevantIff(w: WsFrame, rest: seq<byte>)
    requires w.Proper()
    ensures |ServerFrame(w)| <= WS_MAX + 1 <==>
      forall chunks: seq<seq<byte>> :: Framing.Concat(chunks) == ServerFrame(w) + rest && Fills(chunks) ==>
        Fetched([], chunks, None).frame == Ok(Arrived(w))
  {
    hide ServerFrame, Fetched, Framing.Concat, Fills;
    var all := ServerFrame(w) + rest;
    if |ServerFrame(w)| <= WS_MAX + 1 {
      forall chunks: seq<seq<byte>> | Framing.Concat(chunks) == all
        ensures Fetched([], chunks, None).frame == Ok(Arrived(w))
      {
        assert [] + Framing.Concat(chunks) == Framing.Concat(chunks);
        FrameIsFetched([], chunks, w, rest);
      }
    } else {
      LongFrameIsRefused(w, rest, 0);
      BytewiseIsWhole(all);
      assert all[..0] == [] && all[0..] == all;
    }
  }

  // ---------------------------------------------------------------------
  // A whole conversation on the connection object

  lemma {:induction false} PongsAreBounded(plans: seq<Plan>)
    requires AllProper(plans)
    ensures Bounded(AllPongs(plans))
    decreases plans
  {
    hide Assemble;
    if plans != [] {
      PongsAreBounded(plans[1..]);
      PlanAssembles(plans[0], false, [], []);
    }
  }

  /** The next plan, and what it adds to the three sequences. */
  lemma NextPlan(plans: seq<Plan>, i: nat, rest: seq<byte>)
    requires AllProper(plans) && i < |plans|
    ensures ProperPlan(plans[i], false) && |Message(plans[i])| <= WS_MAX
    ensures AllProper(plans[i..]) && AllProper(plans[i + 1..])
    ensures AllBytes(plans[i..]) + rest == PlanBytes(plans[i], false) + (AllBytes(plans[i + 1..]) + rest)
    ensures AllMessages(plans[i..]) == [Message(plans[i])] + AllMessages(plans[i + 1..])
    ensures AllPongs(plans[i..]) == Pongs(plans[i]) + AllPongs(plans[i + 1..])
  {
    hide PlanBytes, ProperPlan, Message, Pongs;
    assert plans[i] in plans && plans[i..][0] == plans[i] && plans[i..][1..] == plans[i + 1..];
  }

  /** Every message of every plan, in order; every ping answered once, in order; exactly the rest left unread. */
  method ReceivePlans(conn: WsConnection, plans: seq<Plan>, ghost rest: seq<byte>) returns (got: seq<seq<byte>>)
    requires AllProper(plans) && (forall p <- plans :: CompactPlan(p)) && BufferSuffices(rest)
    requires conn.Ahead() == AllBytes(plans) + rest
    modifies conn
    ensures got == AllMessages(plans) && conn.Ahead() == rest
    ensures Bounded(AllPongs(plans))
    ensures conn.written == old(conn.written) + AnswerBytes(AllPongs(plans), conn.masks, old(conn.draws))
  {
    hide Assemble, Gathered, CompactPlan, ProperPlan, BufferSuffices, AnswerBytes, PlanBytes, Message, Pongs,
         Framing.Concat;
    ghost var out, drawn := conn.written, conn.draws;
    got := [];
    PongsAreBounded(plans);
    assert plans[0..] == plans && [] + AllPongs(plans) == AllPongs(plans);
    ghost var sent: seq<Answer> := [];
    NoAnswers(conn.masks, drawn);
    PlansSuffice(plans, rest);
    for i := 0 to |plans|
      invariant conn.Ahead() == AllBytes(plans[i..]) + rest && BufferSuffices(conn.Ahead())
      invariant got + AllMessages(plans[i..]) == AllMessages(plans)
      invariant sent + AllPongs(plans[i..]) == AllPongs(plans) && Bounded(sent)
      invariant conn.draws == drawn + |sent| && conn.written == out + AnswerBytes(sent, conn.masks, drawn)
    {
      var plan := plans[i];
      NextPlan(plans, i, rest);
      ghost var tail := AllBytes(plans[i + 1..]) + rest;
      PlanAssembles(plan, false, [], tail);
      assert [] + Message(plan) == Message(plan);
      ghost var answers := Assemble(conn.Ahead(), [], false).answers;
      GatheredIsAssembled(conn.readBuf, conn.source, [], false);
      var r, _ := conn.ReceiveBinary(None);
      AnswerBytesConcat(sent, answers, conn.masks, drawn);
      sent := sent + answers;
      got := got + [r.value];
    }
    assert sent + [] == sent && got + [] == got && [] + rest == rest;
  }
}
