/**
 The client's other transport: each wire frame is one binary WebSocket message, read back
 by parse_frame_from_buffer, with the same reassembly on top.  A WebSocket client never
 compresses (pack_frame_ws) and refuses fragmented sends; frames that began on a Unix
 socket may be compressed and fragmented.  The end-to-end law holds for both, whatever way
 the gateway cuts the messages into WebSocket frames and the bytes into chunks.
 */
module Gateway {
  import opened Bytes
  import opened Framing
  import opened Transport
  import opened Reassembly
  import opened Client
  import opened EndToEnd
  import opened WebSocket
  import opened WebSocketStream
  import opened WebSocketPlans

  // ---------------------------------------------------------------------
  // One frame as one message

  function PackedWs(f: Primitives, target: seq<byte>, flags: bv16, payload: seq<byte>, key: Option<Key>): seq<byte> {
    var h := Header(flags, TargetField(target), payload);
    h + payload + Tag(f, key, h + payload)
  }

  /** pack_frame_ws. */
  method PackFrameWs(f: Primitives, target: seq<byte>, flags: bv16, payload: seq<byte>, key: Option<Key>)
    returns (r: Result<seq<byte>>)
    ensures r == if |payload| > MAX_PAYLOAD then Err(PayloadTooLarge(|payload|))
                 else Ok(PackedWs(f, target, flags, payload, key))
  {
    hide Header, TargetField;
    if |payload| > MAX_PAYLOAD { return Err(PayloadTooLarge(|payload|)); }
    var header := new byte[HEADER_SIZE];
    BuildHeader(header, flags, TargetField(target), payload);
    var frame := header[..] + payload;
    if key.Some? { frame := frame + f.tag(key.value, header[..] + payload); } else { assert frame == frame + []; }
    return Ok(frame);
  }

  /** The same primitives with a compressor that never shrinks anything. */
  function Uncompressing(f: Primitives): Primitives {
    Foreign(x => x, x => Some(x), f.tag)
  }

  lemma WsIsUncompressed(f: Primitives, target: seq<byte>, flags: bv16, payload: seq<byte>, key: Option<Key>)
    ensures PackedWs(f, target, flags, payload, key) == Packed(Uncompressing(f), target, flags, payload, key)
  {}

  /** Without COMPRESSED on the wire the parser never consults the decompressor. */
  lemma ParseIgnoresCompressor(f: Primitives, buf: seq<byte>, key: Option<Key>)
    requires |buf| >= HEADER_SIZE && !Has(FlagsOf(buf), FLAG_COMPRESSED)
    ensures Parse(f, buf, key) == Parse(Uncompressing(f), buf, key)
  {}

  lemma WsRoundTrip(f: Primitives, target: seq<byte>, flags: bv16, payload: seq<byte>, key: Option<Key>)
    requires |payload| <= MAX_PAYLOAD && Sendable(flags, key)
    ensures var message := PackedWs(f, target, flags, payload, key);
      && |message| <= WS_MAX
      && Parse(f, message, key) == Ok(Parsed(Original(f, target, flags, payload, key), |message|))
  {
    hide Packed, PackedWs, Parse, Header, Has, FromBe16, FromBe32, FromBeNat, Crc32.Crc;
    var g := Uncompressing(f);
    WsIsUncompressed(f, target, flags, payload, key);
    PackedFields(g, target, flags, payload, key);
    RoundTripExact(g, target, flags, payload, key);
    ParseIgnoresCompressor(f, PackedWs(f, target, flags, payload, key), key);
  }

  lemma BinaryNibble()
    ensures LowNibble(OP_BINARY) == OP_BINARY
  {}

  /** The way up: the masked frame of one send is unmasked by the gateway to a message that parses to what was sent. */
  lemma UplinkIsRead(f: Primitives, target: seq<byte>, flags: bv16, payload: seq<byte>, key: Option<Key>, mask: Mask)
    requires |payload| <= MAX_PAYLOAD && Sendable(flags, key)
    ensures var message := PackedWs(f, target, flags, payload, key);
      |message| <= WS_MAX && var frame := ClientFrame(OP_BINARY, message, mask);
      && |frame| >= 6 && |frame| >= HeaderSize(LowSeven(frame[1])) + 4
      && Decode(Unmasked(frame)) == Ok(Some(Incoming(true, OP_BINARY, message, |Unmasked(frame)|)))
      && Parse(f, message, key) == Ok(Parsed(Original(f, target, flags, payload, key), |message|))
  {
    hide PackedWs, Parse, Decode, Unmasked, ClientFrame, LowNibble, LowSeven, Sendable;
    WsRoundTrip(f, target, flags, payload, key);
    ClientFrameUnmasks(OP_BINARY, PackedWs(f, target, flags, payload, key), mask);
    BinaryNibble();
  }

  /** Where a frame was packed. */
  datatype Side = UnixSide | WebSide

  function PackedBy(side: Side, f: Primitives, target: seq<byte>, flags: bv16, payload: seq<byte>,
                    key: Option<Key>): seq<byte> {
    if side == WebSide then PackedWs(f, target, flags, payload, key) else Packed(f, target, flags, payload, key)
  }

  lemma MessageRoundTrip(side: Side, f: Primitives, target: seq<byte>, flags: bv16, payload: seq<byte>,
                         key: Option<Key>)
    requires |payload| <= MAX_PAYLOAD && Sendable(flags, key)
    ensures var message := PackedBy(side, f, target, flags, payload, key);
      Parse(f, message, key) == Ok(Parsed(Original(f, target, flags, payload, key), |message|))
  {
    hide Packed, PackedWs, Parse, Original, Sendable;
    if side == WebSide {
      WsRoundTrip(f, target, flags, payload, key);
    } else {
      RoundTripExact(f, target, flags, payload, key);
    }
  }

  /** The sends a client does not refuse because of its transport. */
  function Accepted(side: Side, ops: seq<Send>): seq<Send> {
    if ops == [] then []
    else (if side == WebSide && ops[0].Fragmented? then [] else [ops[0]]) + Accepted(side, ops[1..])
  }

  /** On a Unix socket nothing is refused for its transport; over WebSocket exactly the fragmented sends are. */
  lemma {:induction false} AcceptedSends(ops: seq<Send>)
    ensures Accepted(UnixSide, ops) == ops
    ensures (forall op <- ops :: op.Plain?) ==> Accepted(WebSide, ops) == ops
    ensures (forall op <- ops :: op.Fragmented?) ==> Accepted(WebSide, ops) == []
    decreases ops
  {
    if ops != [] {
      AcceptedSends(ops[1..]);
      assert ops == [ops[0]] + ops[1..] && ops[0] in ops;
    }
  }

  lemma {:induction false} AcceptedConcat(side: Side, a: seq<Send>, b: seq<Send>)
    ensures Accepted(side, a + b) == Accepted(side, a) + Accepted(side, b)
    decreases a
  {
    if a == [] {
      assert a + b == b;
    } else {
      var first := if side == WebSide && a[0].Fragmented? then [] else [a[0]];
      AcceptedConcat(side, a[1..], b);
      assert (a + b)[0] == a[0] && (a + b)[1..] == a[1..] + b;
      assert Accepted(side, a + b) == first + (Accepted(side, a[1..]) + Accepted(side, b));
      assert Accepted(side, a) == first + Accepted(side, a[1..]);
    }
  }

  lemma {:induction false} AcceptedIsProper(side: Side, ops: seq<Send>, key: Option<Key>)
    requires forall op <- ops :: Proper(op, key)
    ensures forall op <- Accepted(side, ops) :: Proper(op, key)
  {
    hide Proper;
    if ops != [] {
      AcceptedIsProper(side, ops[1..], key);
      assert ops[0] in ops;
    }
  }

  /**
   send_raw_with_flags and send_fragmented over WebSocket, through send_binary and the loop of
   stream_write_all.  `mask` is what the random generator yields, if it does.
   */
  method SendWs(client: VynkorClient, sink: Socket, mask: Option<Mask>, op: Send) returns (e: Option<Error>)
    modifies sink`script, sink`outbound
    ensures op.Fragmented? ==> e == Some(Internal) && unchanged(sink)
    ensures op.Plain? && |op.payload| > MAX_PAYLOAD ==> e == Some(PayloadTooLarge(|op.payload|)) && unchanged(sink)
    ensures op.Plain? && |op.payload| <= MAX_PAYLOAD && mask.None? ==> e == Some(Internal) && unchanged(sink)
    ensures op.Plain? && |op.payload| <= MAX_PAYLOAD && mask.Some? ==>
      var flags := SendFlags(client.sessionKey, op.extra);
      var message := PackedWs(client.f, op.target, flags, op.payload, client.sessionKey);
      && |message| <= WS_MAX
      && Written(old(sink.outbound), sink.outbound, ClientFrame(OP_BINARY, message, mask.value), e)
      && (Healthy(old(sink.script)) ==> e.None? && Healthy(sink.script))
  {
    hide PackedWs, ClientFrame, Healthy;
    if op.Fragmented? { return Some(Internal); }
    if |op.payload| > MAX_PAYLOAD { return Some(PayloadTooLarge(|op.payload|)); }
    var flags := if client.sessionKey.Some? then With(op.extra, FLAG_MAC) else op.extra;
    var packed := PackFrameWs(client.f, op.target, flags, op.payload, client.sessionKey);
    MessageSize(client.f, op.target, flags, op.payload, client.sessionKey);
    if mask.None? { return Some(Internal); }
    var frame := EncodeClientFrame(OP_BINARY, packed.value, mask.value);
    e := WriteAll(sink, frame);
  }

  lemma MessageSize(f: Primitives, target: seq<byte>, flags: bv16, payload: seq<byte>, key: Option<Key>)
    requires |payload| <= MAX_PAYLOAD
    ensures |PackedWs(f, target, flags, payload, key)| <= WS_MAX
  {}

  // ---------------------------------------------------------------------
  // recv_frame over messages

  datatype Handled = Handled(outcome: Outcome, table: Table, tick: nat)

  /** One message parsed, and absorbed if it is a fragment. */
  function HandleMessage(f: Primitives, clock: Clock, key: Option<Key>, message: seq<byte>, t: Table,
                         tick: nat): (r: Handled)
    requires Valid(t)
    ensures Valid(r.table)
  {
    match Parse(f, message, key)
    case Err(e) => Handled(Err(e), t, tick)
    case Ok(Parsed(frame, _)) =>
      if !Has(frame.flags, FLAG_FRAGMENTED) then Handled(Ok(Some(frame)), t, tick)
      else
        var absorbed := Absorb(t, frame, clock(tick), clock(tick + 1));
        Handled(absorbed.1, absorbed.0, tick + 2)
  }

  datatype ReceivedWs = ReceivedWs(frame: Result<Frame>, rest: seq<seq<byte>>, table: Table, tick: nat)

  function WsReceive(f: Primitives, clock: Clock, key: Option<Key>, messages: seq<seq<byte>>, t: Table,
                     tick: nat): (r: ReceivedWs)
    requires Valid(t)
    ensures Valid(r.table) && |r.rest| <= |messages| && (r.frame.Ok? ==> |r.rest| < |messages|)
    decreases |messages|
  {
    if messages == [] then ReceivedWs(Err(IoError), [], t, tick)
    else
      var h := HandleMessage(f, clock, key, messages[0], t, tick);
      match h.outcome
      case Err(e) => ReceivedWs(Err(e), messages[1..], h.table, h.tick)
      case Ok(Some(frame)) => ReceivedWs(Ok(frame), messages[1..], h.table, h.tick)
      case Ok(None) => WsReceive(f, clock, key, messages[1..], h.table, h.tick)
  }

  function WsReceiveAll(f: Primitives, clock: Clock, key: Option<Key>, messages: seq<seq<byte>>, t: Table,
                        tick: nat): seq<Frame>
    requires Valid(t)
    decreases |messages|
  {
    var r := WsReceive(f, clock, key, messages, t, tick);
    if r.frame.Ok? then [r.frame.value] + WsReceiveAll(f, clock, key, r.rest, r.table, r.tick) else []
  }

  function FragmentMessage(side: Side, f: Primitives, key: Option<Key>, target: seq<byte>,
                           pieces: seq<seq<byte>>, id: nat, i: nat): seq<byte>
    requires i < |pieces|
  {
    PackedBy(side, f, target, SendFlags(key, FLAG_FRAGMENTED), FragmentPayload(pieces, id, i), key)
  }

  function FragmentMessages(side: Side, f: Primitives, key: Option<Key>, target: seq<byte>,
                            pieces: seq<seq<byte>>, id: nat): (ms: seq<seq<byte>>)
    ensures |ms| == |pieces|
    ensures forall i :: 0 <= i < |ms| ==> ms[i] == FragmentMessage(side, f, key, target, pieces, id, i)
  {
    seq(|pieces|, i requires 0 <= i < |pieces| => FragmentMessage(side, f, key, target, pieces, id, i))
  }

  /** The messages one send becomes on a WebSocket connection. */
  function WsMessages(side: Side, f: Primitives, key: Option<Key>, op: Send, id: nat): seq<seq<byte>> {
    if Silent(op) then []
    else match op
      case Plain(target, extra, payload) => [PackedBy(side, f, target, SendFlags(key, extra), payload, key)]
      case Fragmented(target, payload, chunkSize) =>
        FragmentMessages(side, f, key, target, Pieces(payload, chunkSize), id)
  }

  function WsMessagesAll(side: Side, f: Primitives, key: Option<Key>, ops: seq<Send>, id: nat): seq<seq<byte>> {
    if ops == [] then []
    else WsMessages(side, f, key, ops[0], id) + WsMessagesAll(side, f, key, ops[1..], IdAfter(ops[0], id))
  }

  lemma WsPlainIsReceived(side: Side, f: Primitives, clock: Clock, key: Option<Key>, op: Send, id: nat,
                          rest: seq<seq<byte>>, t: Table, tick: nat)
    requires Valid(t) && op.Plain? && Proper(op, key) && Refusal(op).None?
    ensures WsReceive(f, clock, key, WsMessages(side, f, key, op, id) + rest, t, tick)
      == ReceivedWs(Ok(Expected(f, key, op)[0]), rest, t, tick)
  {
    hide PackedBy, Parse, Has, Sendable, Absorb, Valid;
    SendFlagsMark(key, op.extra);
    MessageRoundTrip(side, f, op.target, SendFlags(key, op.extra), op.payload, key);
    var all := WsMessages(side, f, key, op, id) + rest;
    assert all[1..] == rest;
  }

  lemma WsFragmentReads(side: Side, f: Primitives, key: Option<Key>, target: seq<byte>, pieces: seq<seq<byte>>,
                        id: nat, i: nat)
    requires i < |pieces| && |pieces[i]| + FRAG_HEADER_SIZE <= MAX_PAYLOAD
    ensures var frame := Original(f, target, SendFlags(key, FLAG_FRAGMENTED), FragmentPayload(pieces, id, i), key);
      var message := FragmentMessage(side, f, key, target, pieces, id, i);
      Parse(f, message, key) == Ok(Parsed(frame, |message|)) && Has(frame.flags, FLAG_FRAGMENTED)
  {
    hide PackedBy, Parse, Has, SendFlags, FragmentPayload, Sendable, MacOf;
    FragmentFits(pieces, id, i);
    FragmentFlags(key);
    MessageRoundTrip(side, f, target, SendFlags(key, FLAG_FRAGMENTED), FragmentPayload(pieces, id, i), key);
  }

  lemma WsReceiveTurn(f: Primitives, clock: Clock, key: Option<Key>, messages: seq<seq<byte>>, t: Table,
                      tick: nat, frame: Frame, n: nat)
    requires Valid(t) && messages != [] && Parse(f, messages[0], key) == Ok(Parsed(frame, n))
      && Has(frame.flags, FLAG_FRAGMENTED)
    ensures var absorbed := Absorb(t, frame, clock(tick), clock(tick + 1));
      WsReceive(f, clock, key, messages, t, tick) == match absorbed.1
        case Err(e) => ReceivedWs(Err(e), messages[1..], absorbed.0, tick + 2)
        case Ok(Some(complete)) => ReceivedWs(Ok(complete), messages[1..], absorbed.0, tick + 2)
        case Ok(None) => WsReceive(f, clock, key, messages[1..], absorbed.0, tick + 2)
  {}

  /** From fragment `i` on, exactly as over a byte stream. */
  lemma {:induction false} WsRestIsReceived(side: Side, f: Primitives, clock: Clock, key: Option<Key>,
                                            target: seq<byte>, pieces: seq<seq<byte>>,
                                            id: nat, i: nat, start: nat, rest: seq<seq<byte>>)
    requires i < |pieces| <= MAX_FRAGMENTS && |Concat(pieces)| <= MAX_PAYLOAD && id < ID_LIMIT
    requires forall p <- pieces :: |p| + FRAG_HEADER_SIZE <= MAX_PAYLOAD
    requires forall k: nat :: 0 < 2 * k < 2 * |pieces| ==> clock(start + 2 * k) - clock(start + 1) < TIMEOUT_MS
    requires Valid(TableAfter(pieces, i, id, clock(start + 1)))
    ensures var messages := FragmentMessages(side, f, key, target, pieces, id);
      WsReceive(f, clock, key, messages[i..] + rest, TableAfter(pieces, i, id, clock(start + 1)), start + 2 * i)
        == ReceivedWs(Ok(Delivered(0, Concat(pieces))), rest, map[], start + 2 * |pieces|)
    decreases |pieces| - i
  {
    hide WsReceive, Absorb, Valid, Parse, Concat, Has, SendFlags, TableAfter, FragmentMessage,
         FragmentPayload, Delivered, Original;
    var messages := FragmentMessages(side, f, key, target, pieces, id);
    var since, all := clock(start + 1), messages[i..] + rest;
    var frame := Original(f, target, SendFlags(key, FLAG_FRAGMENTED), FragmentPayload(pieces, id, i), key);
    assert pieces[i] in pieces && all[0] == messages[i] && all[1..] == messages[i + 1..] + rest;
    WsFragmentReads(side, f, key, target, pieces, id, i);
    AbsorbNext(f, key, target, pieces, id, i, since, clock(start + 2 * i), clock(start + 2 * i + 1));
    WsReceiveTurn(f, clock, key, all, TableAfter(pieces, i, id, since), start + 2 * i, frame, |messages[i]|);
    if i + 1 < |pieces| {
      TableAfterIsValid(pieces, i + 1, id, since);
      WsRestIsReceived(side, f, clock, key, target, pieces, id, i + 1, start, rest);
    } else {
      assert messages[i + 1..] + rest == rest;
    }
  }

  lemma WsFragmentedIsReceived(side: Side, f: Primitives, clock: Clock, key: Option<Key>, op: Send, id: nat,
                               rest: seq<seq<byte>>, tick: nat)
    requires op.Fragmented? && !Silent(op) && id < ID_LIMIT && Timely(op, clock, tick) && Valid(map[])
    ensures WsReceive(f, clock, key, WsMessages(side, f, key, op, id) + rest, map[], tick)
         == ReceivedWs(Ok(Expected(f, key, op)[0]), rest, map[], tick + Ticks(op))
  {
    hide Concat, WsReceive, Valid, Pieces, FragmentMessages, FragmentCount;
    var pieces := Pieces(op.payload, op.chunkSize);
    CutCount(op);
    PiecesRejoin(op.payload, op.chunkSize);
    TableAfterIsValid(pieces, 0, id, clock(tick + 1));
    WsRestIsReceived(side, f, clock, key, op.target, pieces, id, 0, tick, rest);
    var messages := FragmentMessages(side, f, key, op.target, pieces, id);
    assert messages[0..] == messages;
  }

  lemma WsFirstIsReceived(side: Side, f: Primitives, clock: Clock, key: Option<Key>, op: Send, id: nat,
                          rest: seq<seq<byte>>, tick: nat)
    requires id < ID_LIMIT && Proper(op, key) && Timely(op, clock, tick) && Valid(map[])
    ensures IdAfter(op, id) < ID_LIMIT
    ensures if Silent(op) then WsMessages(side, f, key, op, id) == [] && Expected(f, key, op) == [] && Ticks(op) == 0
      else |Expected(f, key, op)| == 1 && WsReceive(f, clock, key, WsMessages(side, f, key, op, id) + rest, map[], tick)
            == ReceivedWs(Ok(Expected(f, key, op)[0]), rest, map[], tick + Ticks(op))
  {
    hide WsReceive, Timely, Proper;
    if Silent(op) {
      SilentSendsNothing(f, key, op, id);
    } else {
      hide WsMessages;
      if op.Plain? {
        WsPlainIsReceived(side, f, clock, key, op, id, rest, map[], tick);
      } else {
        WsFragmentedIsReceived(side, f, clock, key, op, id, rest, tick);
      }
    }
  }

  lemma WsReceiveAllTurn(f: Primitives, clock: Clock, key: Option<Key>, messages: seq<seq<byte>>, t: Table, tick: nat)
    requires Valid(t)
    ensures var r := WsReceive(f, clock, key, messages, t, tick);
      WsReceiveAll(f, clock, key, messages, t, tick)
        == if r.frame.Ok? then [r.frame.value] + WsReceiveAll(f, clock, key, r.rest, r.table, r.tick) else []
  {}

  /** Every message, in order, exactly once, exactly as sent - over WebSocket messages. */
  lemma {:induction false} WsConversationIsReceived(side: Side, f: Primitives, clock: Clock, key: Option<Key>,
                                                    ops: seq<Send>, id: nat, tick: nat)
    requires id < ID_LIMIT && (forall op <- ops :: Proper(op, key)) && AllTimely(ops, clock, tick)
    ensures WsReceiveAll(f, clock, key, WsMessagesAll(side, f, key, ops, id), map[], tick) == ExpectedAll(f, key, ops)
    decreases ops
  {
    NoStreams();
    hide WsReceiveAll, WsMessages, Expected, Valid, Timely, Proper, Ticks, Silent, IdAfter, Parse, Absorb;
    WsReceiveAllTurn(f, clock, key, WsMessagesAll(side, f, key, ops, id), map[], tick);
    if ops != [] {
      hide WsReceive;
      var op, after := ops[0], IdAfter(ops[0], id);
      var rest := WsMessagesAll(side, f, key, ops[1..], after);
      WsFirstIsReceived(side, f, clock, key, op, id, rest, tick);
      WsConversationIsReceived(side, f, clock, key, ops[1..], after, tick + Ticks(op));
      var expected := Expected(f, key, op);
      if Silent(op) {
        assert [] + rest == rest && [] + ExpectedAll(f, key, ops[1..]) == ExpectedAll(f, key, ops[1..]);
      } else {
        assert expected == [expected[0]];
      }
    }
  }

  // ---------------------------------------------------------------------
  // recv_frame on the connection object

  datatype Taken = Taken(frame: Result<Frame>, buf: seq<byte>, source: seq<seq<byte>>, patience: Patience,
                         table: Table, tick: nat, answers: seq<Answer>)

  /** recv_frame and recv_frame_with_deadline over WebSocket, on any buffer, chunks and deadline. */
  function WsTake(f: Primitives, clock: Clock, key: Option<Key>, buf: seq<byte>, source: seq<seq<byte>>,
                  patience: Patience,
                  t: Table, tick: nat): (r: Taken)
    requires Valid(t)
    ensures Valid(r.table) && Bounded(r.answers)
    decreases Volume(buf, source)
  {
    var g := Gathered(buf, source, patience, [], false);
    if g.message.Err? then Taken(Err(g.message.error), g.buf, g.source, g.patience, t, tick, g.answers)
    else
      var h := HandleMessage(f, clock, key, g.message.value, t, tick);
      match h.outcome
      case Err(e) => Taken(Err(e), g.buf, g.source, g.patience, h.table, h.tick, g.answers)
      case Ok(Some(frame)) => Taken(Ok(frame), g.buf, g.source, g.patience, h.table, h.tick, g.answers)
      case Ok(None) =>
        var later := WsTake(f, clock, key, g.buf, g.source, g.patience, h.table, h.tick);
        later.(answers := g.answers + later.answers)
  }

  /** parse_frame_from_buffer and absorb_fragment on one message. */
  method Handle(client: VynkorClient, message: seq<byte>) returns (outcome: Outcome)
    requires client.Usable()
    modifies client`reassembly, client`ticks
    ensures client.Usable()
    ensures Handled(outcome, client.reassembly, client.ticks)
         == HandleMessage(client.f, client.clock, client.sessionKey, message, old(client.reassembly), old(client.ticks))
  {
    hide Absorb, Parse, Has, Valid;
    var parsed := ParseFrameBytes(client.f, message, client.sessionKey);
    if parsed.Err? { return Err(parsed.error); }
    var frame := parsed.value.frame;
    if !Has(frame.flags, FLAG_FRAGMENTED) { return Ok(Some(frame)); }
    outcome := client.AbsorbFragment(frame);
  }

  /** read_transport_frame over WebSocket, and absorb_fragment if it was a fragment. */
  method TakeMessage(client: VynkorClient, conn: WsConnection, patience: Patience) returns (outcome: Outcome,
                     left: Patience)
    requires client.Usable()
    modifies client`reassembly, client`ticks, conn
    ensures client.Usable()
    ensures var g := Gathered(old(conn.readBuf), old(conn.source), patience, [], false);
      && conn.readBuf == g.buf && conn.source == g.source && left == g.patience
      && conn.written == old(conn.written) + AnswerBytes(g.answers, conn.masks, old(conn.draws))
      && conn.draws == old(conn.draws) + |g.answers|
      && (g.message.Err? ==>
            && outcome == Err(g.message.error) && client.reassembly == old(client.reassembly)
            && client.ticks == old(client.ticks))
      && (g.message.Ok? ==>
            Handled(outcome, client.reassembly, client.ticks)
              == HandleMessage(client.f, client.clock, client.sessionKey, g.message.value,
                               old(client.reassembly), old(client.ticks)))
  {
    hide HandleMessage, Valid, Gathered, Concat, AnswerBytes;
    var message;
    message, left := conn.ReceiveBinary(patience);
    if message.Err? { return Err(message.error), left; }
    outcome := Handle(client, message.value);
  }

  /** The loop of recv_frame over WebSocket. */
  method RecvFrameWs(client: VynkorClient, conn: WsConnection, patience: Patience) returns (r: Result<Frame>,
                     left: Patience)
    requires client.Usable()
    modifies client`reassembly, client`ticks, conn
    ensures client.Usable()
    ensures var spec := WsTake(client.f, client.clock, client.sessionKey, old(conn.readBuf), old(conn.source), patience,
                               old(client.reassembly), old(client.ticks));
      && Taken(r, conn.readBuf, conn.source, left, client.reassembly, client.ticks, spec.answers) == spec
      && conn.written == old(conn.written) + AnswerBytes(spec.answers, conn.masks, old(conn.draws))
  {
    hide HandleMessage, Valid, Gathered, Concat, AnswerBytes, WsTake;
    ghost var out, drawn := conn.written, conn.draws;
    ghost var sent: seq<Answer> := [];
    ghost var spec := WsTake(client.f, client.clock, client.sessionKey, conn.readBuf, conn.source, patience,
                             client.reassembly, client.ticks);
    left := patience;
    NoAnswers(conn.masks, drawn);
    assert [] + spec.answers == spec.answers;
    while true
      invariant client.Usable() && unchanged(client`nextStreamId)
      invariant Bounded(sent) && conn.draws == drawn + |sent|
        && conn.written == out + AnswerBytes(sent, conn.masks, drawn)
      invariant var now := WsTake(client.f, client.clock, client.sessionKey, conn.readBuf, conn.source, left,
                                  client.reassembly, client.ticks);
        spec == now.(answers := sent + now.answers)
      decreases Volume(conn.readBuf, conn.source)
    {
      WsTakeTurn(client.f, client.clock, client.sessionKey, conn.readBuf, conn.source, left, client.reassembly,
                 client.ticks);
      ghost var answers := Gathered(conn.readBuf, conn.source, left, [], false).answers;
      var outcome;
      outcome, left := TakeMessage(client, conn, left);
      AnswerBytesConcat(sent, answers, conn.masks, drawn);
      sent := sent + answers;
      if outcome.Err? { return Err(outcome.error), left; }
      if outcome.value.Some? { return Ok(outcome.value.value), left; }
    }
  }

  lemma WsTakeTurn(f: Primitives, clock: Clock, key: Option<Key>, buf: seq<byte>, source: seq<seq<byte>>,
                   patience: Patience,
                   t: Table, tick: nat)
    requires Valid(t)
    ensures var g, all := Gathered(buf, source, patience, [], false),
        WsTake(f, clock, key, buf, source, patience, t, tick);
      && (g.message.Err? ==> all == Taken(Err(g.message.error), g.buf, g.source, g.patience, t, tick, g.answers))
      && (g.message.Ok? ==>
            var h := HandleMessage(f, clock, key, g.message.value, t, tick);
            && (h.outcome.Err? ==>
                  all == Taken(Err(h.outcome.error), g.buf, g.source, g.patience, h.table, h.tick, g.answers))
            && (h.outcome.Ok? && h.outcome.value.Some? ==>
                  all == Taken(Ok(h.outcome.value.value), g.buf, g.source, g.patience, h.table, h.tick, g.answers))
            && (h.outcome == Ok(None) ==>
                  var later := WsTake(f, clock, key, g.buf, g.source, g.patience, h.table, h.tick);
                  all == later.(answers := g.answers + later.answers)))
  {
    hide HandleMessage, Gathered, Valid;
  }

  // ---------------------------------------------------------------------
  // The same law on the connection object

  lemma {:induction false} MessagePerPlan(plans: seq<Plan>)
    ensures |AllMessages(plans)| == |plans|
    decreases plans
  {
    if plans != [] { MessagePerPlan(plans[1..]); }
  }

  lemma NothingAssembles()
    ensures Assemble([], [], false).message == Err(IoError) && BufferSuffices([])
  {}

  /** The plans that are left and what the connection still holds of them. */
  ghost predicate Awaits(buf: seq<byte>, source: seq<seq<byte>>, plans: seq<Plan>) {
    AllProper(plans) && (forall p <- plans :: CompactPlan(p)) && buf + Concat(source) == AllBytes(plans)
  }

  /** The next message off the connection, or the end of it. */
  lemma NextMessage(buf: seq<byte>, source: seq<seq<byte>>, plans: seq<Plan>)
    requires Awaits(buf, source, plans)
    ensures var g := Gathered(buf, source, None, [], false);
      if plans == [] then g.message == Err(IoError)
      else
        && AllMessages(plans) != [] && g.message == Ok(AllMessages(plans)[0]) && g.patience == None
        && AllMessages(plans)[1..] == AllMessages(plans[1..]) && Awaits(g.buf, g.source, plans[1..])
  {
    hide Assemble, Gathered, BufferSuffices, Concat, PlanBytes, ProperPlan, CompactPlan, Pongs;
    NothingAssembles();
    PlansSuffice(plans, []);
    assert AllBytes(plans) + [] == AllBytes(plans);
    GatheredIsAssembled(buf, source, [], false);
    if plans != [] {
      PlanAssembles(plans[0], false, [], AllBytes(plans[1..]));
      assert [] + Message(plans[0]) == Message(plans[0]);
    }
  }

  /** Taking frames off a connection that carries these plans is receiving their messages; `used` of them are gone. */
  lemma {:induction false} PlansAreReceived(f: Primitives, clock: Clock, key: Option<Key>, buf: seq<byte>,
                                            source: seq<seq<byte>>,
                                            t: Table, tick: nat, plans: seq<Plan>) returns (used: nat)
    requires Valid(t) && Awaits(buf, source, plans)
    ensures var spec, taken := WsReceive(f, clock, key, AllMessages(plans), t, tick),
        WsTake(f, clock, key, buf, source, None, t, tick);
      && taken.frame == spec.frame && taken.table == spec.table && taken.tick == spec.tick && used <= |plans|
      && (spec.frame.Ok? ==> Awaits(taken.buf, taken.source, plans[used..]) && spec.rest == AllMessages(plans[used..]))
    decreases plans
  {
    hide HandleMessage, Valid, Gathered, Concat, AllMessages, Awaits, WsTake;
    NextMessage(buf, source, plans);
    WsTakeTurn(f, clock, key, buf, source, None, t, tick);
    if plans == [] {
      NoMessages(plans);
      used := 0;
    } else {
      used := 1;
      var g, h := Gathered(buf, source, None, [], false), HandleMessage(f, clock, key, AllMessages(plans)[0], t, tick);
      if h.outcome == Ok(None) {
        var more := PlansAreReceived(f, clock, key, g.buf, g.source, h.table, h.tick, plans[1..]);
        assert plans[1..][more..] == plans[1 + more..];
        used := 1 + more;
      }
    }
  }

  lemma NoMessages(plans: seq<Plan>)
    ensures plans == [] ==> AllMessages(plans) == []
  {}

  /** Whatever frames and chunks the gateway makes of the sender's messages, the receiver gets what was sent. */
  method ConverseWs(receiver: VynkorClient, conn: WsConnection,
                    ghost side: Side, ghost issued: seq<Send>, ghost id: nat, ghost plans: seq<Plan>)
    returns (got: seq<Frame>)
    requires receiver.Usable() && receiver.reassembly == map[] && id < ID_LIMIT
    requires Awaits(conn.readBuf, conn.source, plans)
    requires AllMessages(plans) == WsMessagesAll(side, receiver.f, receiver.sessionKey, Accepted(side, issued), id)
    requires forall op <- issued :: Proper(op, receiver.sessionKey)
    requires AllTimely(Accepted(side, issued), receiver.clock, receiver.ticks)
    modifies receiver`reassembly, receiver`ticks, conn
    ensures got == ExpectedAll(receiver.f, receiver.sessionKey, Accepted(side, issued))
  {
    hide WsReceive, WsReceiveAll, WsMessagesAll, ExpectedAll, AllTimely, Proper, Valid, AllMessages, Awaits,
         WsTake, Accepted, Concat;
    var f, clock, key := receiver.f, receiver.clock, receiver.sessionKey;
    ghost var ops := Accepted(side, issued);
    AcceptedIsProper(side, issued, key);
    WsConversationIsReceived(side, f, clock, key, ops, id, receiver.ticks);
    ghost var left := plans;
    got := [];
    assert [] + ExpectedAll(f, key, ops) == ExpectedAll(f, key, ops);
    while true
      invariant receiver.Usable() && Awaits(conn.readBuf, conn.source, left)
      invariant got + WsReceiveAll(f, clock, key, AllMessages(left), receiver.reassembly, receiver.ticks)
        == ExpectedAll(f, key, ops)
      decreases |left|
    {
      WsReceiveAllTurn(f, clock, key, AllMessages(left), receiver.reassembly, receiver.ticks);
      MessagePerPlan(left);
      ghost var used := PlansAreReceived(f, clock, key, conn.readBuf, conn.source, receiver.reassembly,
          receiver.ticks, left);
      MessagePerPlan(left[used..]);
      var r, _ := RecvFrameWs(receiver, conn, None);
      if r.Err? { break; }
      left := left[used..];
      got := got + [r.value];
    }
  }
}
