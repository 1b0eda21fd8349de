/**
 Everything one client sends, in any mix of plain and fragmented messages, compressed or
 not, tagged or not, through any short reads and writes, is what the other end receives.
 */
module EndToEnd {
  import opened Bytes
  import opened Framing
  import opened Transport
  import opened Reassembly
  import opened Client

  /** A caller may set any flag except COMPRESSED and FRAGMENTED, and MAC only on a keyed connection. */
  predicate Proper(op: Send, key: Option<Key>) {
    op.Plain? ==>
      && !Has(op.extra, FLAG_COMPRESSED) && !Has(op.extra, FLAG_FRAGMENTED)
      && (Has(op.extra, FLAG_MAC) ==> key.Some?)
  }

  /** What the peer should receive for one send: nothing if nothing went out, else the one message. */
  function Expected(f: Primitives, key: Option<Key>, op: Send): seq<Frame> {
    if Silent(op) then []
    else match op
      case Plain(target, extra, payload) => [Original(f, target, SendFlags(key, extra), payload, key)]
      case Fragmented(target, payload, _) => [Delivered(0, payload)]
  }

  function ExpectedAll(f: Primitives, key: Option<Key>, ops: seq<Send>): seq<Frame> {
    if ops == [] then [] else Expected(f, key, ops[0]) + ExpectedAll(f, key, ops[1..])
  }

  function WireAll(f: Primitives, key: Option<Key>, ops: seq<Send>, id: nat): seq<byte> {
    if ops == [] then [] else Wire(f, key, ops[0], id) + WireAll(f, key, ops[1..], IdAfter(ops[0], id))
  }

  /** Two clock readings per fragment. */
  function Ticks(op: Send): nat {
    if op.Fragmented? && Refusal(op).None? then 2 * |Cut(op.payload, op.chunkSize)| else 0
  }

  /** The fragments of this message arrive less than 30 s after its stream opened. */
  ghost predicate Timely(op: Send, clock: Clock, tick: nat) {
    forall i: nat :: 0 < 2 * i < Ticks(op) ==> clock(tick + 2 * i) - clock(tick + 1) < TIMEOUT_MS
  }

  ghost predicate AllTimely(ops: seq<Send>, clock: Clock, tick: nat) {
    ops != [] ==> Timely(ops[0], clock, tick) && AllTimely(ops[1..], clock, tick + Ticks(ops[0]))
  }

  /** Repeated recv_frame until the connection ends or fails. */
  function ReceiveAll(f: Primitives, clock: Clock, key: Option<Key>, stream: seq<byte>, t: Table, tick: nat): seq<Frame>
    requires Valid(t)
    decreases |stream|
  {
    var r := Receive(f, clock, key, stream, t, tick);
    if r.frame.Ok? then [r.frame.value] + ReceiveAll(f, clock, key, r.rest, r.table, r.tick) else []
  }

  // ---------------------------------------------------------------------
  // Flags

  lemma FragmentFlags(key: Option<Key>)
    ensures Sendable(SendFlags(key, FLAG_FRAGMENTED), key)
    ensures Has(SendFlags(key, FLAG_FRAGMENTED), FLAG_FRAGMENTED)
    ensures Stripped(SendFlags(key, FLAG_FRAGMENTED)) == 0
  {}

  // ---------------------------------------------------------------------
  // One frame

  /** A packed frame followed by anything is read as itself, and reading stops at its end. */
  lemma ReadsPacked(f: Primitives, target: seq<byte>, flags: bv16, payload: seq<byte>, key: Option<Key>,
                    rest: seq<byte>)
    requires |payload| <= MAX_PAYLOAD && Sendable(flags, key)
    ensures var packed := Packed(f, target, flags, payload, key);
      && |packed + rest| >= HEADER_SIZE && TotalOf(packed + rest) == |packed|
      && ReadOutcome(f, packed + rest, key) == Ok(Parsed(Original(f, target, flags, payload, key), |packed|))
  {
    hide Packed, Parse, ReadOutcome, Original, Sendable, TotalOf, LengthOf;
    var packed := Packed(f, target, flags, payload, key);
    RoundTrip(f, target, flags, payload, key, rest);
    RoundTripExact(f, target, flags, payload, key);
    ReaderAgreesWithParser(f, packed + rest, key);
  }

  lemma PlainIsReceived(f: Primitives, clock: Clock, key: Option<Key>, op: Send, id: nat, rest: seq<byte>,
                        t: Table, tick: nat)
    requires Valid(t) && op.Plain? && Proper(op, key) && Refusal(op).None?
    ensures Receive(f, clock, key, Wire(f, key, op, id) + rest, t, tick)
      == Received(Ok(Expected(f, key, op)[0]), rest, t, tick)
  {
    hide Packed, ReadOutcome, Has, Sendable, TotalOf;
    SendFlagsMark(key, op.extra);
    ReadsPacked(f, op.target, SendFlags(key, op.extra), op.payload, key, rest);
    var wire := Wire(f, key, op, id);
    assert (wire + rest)[|wire|..] == rest;
  }

  // ---------------------------------------------------------------------
  // The condition on a plain send is exact

  /** The first header byte, which a reassembled frame does not have. */
  lemma HeaderIsMarked(flags: bv16, target: seq<byte>, payload: seq<byte>)
    requires |target| == 32
    ensures Header(flags, target, payload)[0] != 0
  {
    hide Be32, BeNat, Crc32.Crc;
    assert Header(flags, target, payload)[0] == Be16(FRAME_MAGIC)[0] == 0x56;
  }

  lemma AbsorbedIsUnmarked(t: Table, frame: Frame, now: nat, stamp: nat)
    requires Valid(t)
    ensures var o := Absorb(t, frame, now, stamp).1;
      o.Ok? && o.value.Some? ==> |o.value.value.header| == HEADER_SIZE && o.value.value.header[0] == 0
  {
    hide Valid, FitsBuf, Pruned, ParseFragment, Joined, Stripped, NewTotal, Opened;
  }

  /** A packed frame ends where its header says, or its header asks for more. */
  lemma PackedIsAlone(f: Primitives, target: seq<byte>, flags: bv16, payload: seq<byte>, key: Option<Key>)
    requires |payload| <= MAX_PAYLOAD && (key.Some? ==> Has(flags, FLAG_MAC))
    ensures var packed := Packed(f, target, flags, payload, key);
      HEADER_SIZE <= |packed| <= TotalOf(packed)
  {
    hide Packed, Has, With, Without, FromBe16, FromBe32, FromBeNat, Header, TargetField, Crc32.Crc;
    PackedFields(f, target, flags, payload, key);
    CompressedBit(flags);
  }

  lemma SendFlagsMark(key: Option<Key>, extra: bv16)
    ensures key.Some? ==> Has(SendFlags(key, extra), FLAG_MAC)
    ensures Has(SendFlags(key, extra), FLAG_FRAGMENTED) == Has(extra, FLAG_FRAGMENTED)
    ensures Sendable(SendFlags(key, extra), key) <==>
      !Has(extra, FLAG_COMPRESSED) && (Has(extra, FLAG_MAC) ==> key.Some?)
  {}

  /** A lone frame flagged FRAGMENTED is absorbed: it fails, or what comes out has no frame header. */
  lemma LoneFragmentIsAbsorbed(f: Primitives, clock: Clock, key: Option<Key>, stream: seq<byte>, t: Table, tick: nat)
    requires Valid(t) && ReadOutcome(f, stream, key).Ok? && |stream| <= TotalOf(stream)
    requires Has(ReadOutcome(f, stream, key).value.frame.flags, FLAG_FRAGMENTED)
    ensures var r := Receive(f, clock, key, stream, t, tick);
      r.frame.Ok? ==> |r.frame.value.header| == HEADER_SIZE && r.frame.value.header[0] == 0
  {
    hide Valid, Absorb, Parse, Has, TotalOf, LengthOf;
    var frame := ReadOutcome(f, stream, key).value.frame;
    AbsorbedIsUnmarked(t, frame, clock(tick), clock(tick + 1));
    assert stream[TotalOf(stream)..] == [];
    NothingToReceive(f, clock, key, Absorb(t, frame, clock(tick), clock(tick + 1)).0, tick + 2);
  }

  /** An accepted plain send, alone on the stream, is received as sent if and only if its flags were proper. */
  lemma PlainIsReceivedIff(f: Primitives, clock: Clock, key: Option<Key>, op: Send, id: nat, t: Table, tick: nat)
    requires Valid(t) && op.Plain? && Refusal(op).None?
    ensures Receive(f, clock, key, Wire(f, key, op, id), t, tick).frame == Ok(Expected(f, key, op)[0]) <==>
      Proper(op, key)
  {
    hide Receive, Packed, Has, Sendable, TotalOf, Header, TargetField, Parse, ReadOutcome, MacOf;
    var wire, flags := Wire(f, key, op, id), SendFlags(key, op.extra);
    if Proper(op, key) {
      PlainIsReceived(f, clock, key, op, id, [], t, tick);
      assert wire + [] == wire;
    } else {
      SendFlagsMark(key, op.extra);
      HeaderIsMarked(flags, TargetField(op.target), op.payload);
      PackedIsAlone(f, op.target, flags, op.payload, key);
      ReaderAgreesWithParser(f, wire, key);
      RoundTripIff(f, op.target, flags, op.payload, key);
      LoneFrame(f, clock, key, wire, t, tick);
      if ReadOutcome(f, wire, key).Ok? {
        if Has(ReadOutcome(f, wire, key).value.frame.flags, FLAG_FRAGMENTED) {
          LoneFragmentIsAbsorbed(f, clock, key, wire, t, tick);
        }
      }
    }
  }

  lemma LoneFrame(f: Primitives, clock: Clock, key: Option<Key>, stream: seq<byte>, t: Table, tick: nat)
    requires Valid(t)
    ensures var read, r := ReadOutcome(f, stream, key), Receive(f, clock, key, stream, t, tick);
      && (read.Err? ==> r.frame == Err(read.error))
      && (read.Ok? && !Has(read.value.frame.flags, FLAG_FRAGMENTED) ==> r.frame == Ok(read.value.frame))
  {
    hide Absorb, Valid, ReadOutcome, TotalOf, Has;
  }

  // ---------------------------------------------------------------------
  // The table while one fragmented message arrives in order

  function FirstPieces(pieces: seq<seq<byte>>, i: nat): map<nat, seq<byte>>
    requires i <= |pieces|
  {
    map k: nat | k < i :: pieces[k]
  }

  lemma {:induction false} FirstPiecesBytes(pieces: seq<seq<byte>>, i: nat, n: nat)
    requires i <= n <= |pieces|
    ensures ChunkBytes(FirstPieces(pieces, i), n) == |Concat(pieces[..i])|
    decreases n
  {
    if n == 0 {
      ConcatNone(pieces[..0]);
    } else if i == n {
      FirstPiecesBytes(pieces, i - 1, n - 1);
      ChunkBytesUpdate(FirstPieces(pieces, i - 1), i - 1, pieces[i - 1], n - 1);
      assert FirstPieces(pieces, i) == FirstPieces(pieces, i - 1)[i - 1 := pieces[i - 1]];
      ConcatSnoc(pieces, i - 1);
    } else {
      FirstPiecesBytes(pieces, i, n - 1);
    }
  }

  lemma {:induction false} FirstPiecesJoin(pieces: seq<seq<byte>>, i: nat, n: nat)
    requires i <= n <= |pieces| && Covers(FirstPieces(pieces, n), i)
    ensures Joined(FirstPieces(pieces, n), i) == Concat(pieces[..i])
    decreases i
  {
    if i == 0 {
      ConcatNone(pieces[..0]);
    } else {
      FirstPiecesJoin(pieces, i - 1, n);
      ConcatSnoc(pieces, i - 1);
    }
  }

  lemma {:induction false} ConcatGrows(chunks: seq<seq<byte>>, i: nat)
    requires i <= |chunks|
    ensures |Concat(chunks[..i])| <= |Concat(chunks)|
  {
    assert chunks == chunks[..i] + chunks[i..];
    ConcatOfSum(chunks[..i], chunks[i..]);
  }

  /** The stream's buffer after its first `i` fragments. */
  function Partial(pieces: seq<seq<byte>>, i: nat, since: nat): Buf
    requires i <= |pieces|
  {
    Buf(FirstPieces(pieces, i), |pieces|, 0, since, |Concat(pieces[..i])|)
  }

  function TableAfter(pieces: seq<seq<byte>>, i: nat, id: nat, since: nat): Table
    requires i <= |pieces|
  {
    if i == 0 then map[] else map[id := Partial(pieces, i, since)]
  }

  lemma PartialFits(pieces: seq<seq<byte>>, i: nat, since: nat)
    requires i <= |pieces| && |Concat(pieces)| <= MAX_PAYLOAD
    ensures FitsBuf(Partial(pieces, i, since)) && |FirstPieces(pieces, i)| == i
  {
    FirstPiecesBytes(pieces, i, |pieces|);
    ConcatGrows(pieces, i);
    assert FirstPieces(pieces, i).Keys == Below(i);
    assert |FirstPieces(pieces, i).Keys| == |FirstPieces(pieces, i)|;
  }

  lemma TableAfterIsValid(pieces: seq<seq<byte>>, i: nat, id: nat, since: nat)
    requires i < |pieces| && |Concat(pieces)| <= MAX_PAYLOAD
    ensures Valid(TableAfter(pieces, i, id, since))
  {
    hide FitsBuf;
    if i != 0 { PartialFits(pieces, i, since); }
  }

  /** Storing piece `i` either keeps the stream open with one more piece, or delivers the message. */
  lemma SettleNext(t: Table, pieces: seq<seq<byte>>, i: nat, id: nat, since: nat)
    requires i < |pieces| && |Concat(pieces)| <= MAX_PAYLOAD
    requires FitsBuf(Partial(pieces, i, since))
    ensures Settle(t, id, Partial(pieces, i, since), i, pieces[i]) ==
      if i + 1 == |pieces| then (t - {id}, Ok(Some(Delivered(0, Concat(pieces)))))
      else (t[id := Partial(pieces, i + 1, since)], Ok(None))
  {
    hide Joined, ChunkBytes, Concat;
    var b, n := Partial(pieces, i, since), |pieces|;
    var m := b.fragments[i := pieces[i]];
    assert m == FirstPieces(pieces, i + 1);
    ChunkBytesUpdate(b.fragments, i, pieces[i], n);
    FirstPiecesBytes(pieces, i, n);
    FirstPiecesBytes(pieces, i + 1, n);
    ConcatGrows(pieces, i + 1);
    PartialFits(pieces, i + 1, since);
    assert Stored(b, i, pieces[i]) == Partial(pieces, i + 1, since);
    if i + 1 == n {
      FirstPiecesJoin(pieces, n, n);
      assert pieces[..n] == pieces;
    }
  }

  lemma AcceptSettles(t: Table, frame: Frame, stamp: nat, h: FragmentHeader)
    requires Valid(t) && ParseFragment(frame.payload) == Some(h) && h.sequence < h.total
    requires if h.streamId in t then t[h.streamId].total == h.total else |t| < MAX_STREAMS
    ensures Accept(t, frame, stamp)
         == Settle(t, h.streamId, Opened(t, h, frame.flags, stamp), h.sequence, frame.payload[FRAG_HEADER_SIZE..])
  {}

  lemma OpenedIsPartial(pieces: seq<seq<byte>>, i: nat, id: nat, since: nat, key: Option<Key>, stamp: nat)
    requires i < |pieces| && Valid(TableAfter(pieces, i, id, since)) && (i == 0 ==> stamp == since)
    ensures Opened(TableAfter(pieces, i, id, since), FragmentHeader(id % 0x1_0000, i, |pieces|, id),
                   SendFlags(key, FLAG_FRAGMENTED), stamp)
         == Partial(pieces, i, since)
  {}

  lemma TableSurvives(pieces: seq<seq<byte>>, i: nat, id: nat, since: nat, now: nat)
    requires i <= |pieces| && (i > 0 ==> now - since < TIMEOUT_MS)
    ensures Pruned(TableAfter(pieces, i, id, since), now) == TableAfter(pieces, i, id, since)
    ensures TableAfter(pieces, i, id, since) - {id} == map[]
  {}

  /** One in-order, in-time fragment through absorb_fragment. */
  lemma AbsorbNext(f: Primitives, key: Option<Key>, target: seq<byte>, pieces: seq<seq<byte>>, id: nat, i: nat,
                   since: nat, now: nat, stamp: nat)
    requires i < |pieces| <= MAX_FRAGMENTS && |Concat(pieces)| <= MAX_PAYLOAD && id < ID_LIMIT
    requires i > 0 ==> now - since < TIMEOUT_MS
    requires i == 0 ==> stamp == since
    requires Valid(TableAfter(pieces, i, id, since))
    ensures var frame := Original(f, target, SendFlags(key, FLAG_FRAGMENTED), FragmentPayload(pieces, id, i), key);
      Absorb(TableAfter(pieces, i, id, since), frame, now, stamp) ==
        if i + 1 == |pieces| then (map[], Ok(Some(Delivered(0, Concat(pieces)))))
        else (TableAfter(pieces, i + 1, id, since), Ok(None))
  {
    hide Accept, Settle, FitsBuf, Concat, Header, TargetField, MacOf, ParseFragment, PackFragment,
         FirstPieces, SendFlags, Opened, Valid, Pruned;
    var t := TableAfter(pieces, i, id, since);
    var h := FragmentHeader(id % 0x1_0000, i, |pieces|, id);
    FragmentRoundTrip(h, pieces[i]);
    PartialFits(pieces, i, since);
    TableSurvives(pieces, i, id, since, now);
    OpenedIsPartial(pieces, i, id, since, key, stamp);
    var frame := Original(f, target, SendFlags(key, FLAG_FRAGMENTED), FragmentPayload(pieces, id, i), key);
    AcceptSettles(t, frame, stamp, h);
    assert frame.payload[FRAG_HEADER_SIZE..] == pieces[i];
    SettleNext(t, pieces, i, id, since);
    assert t[id := Partial(pieces, i + 1, since)] == map[id := Partial(pieces, i + 1, since)];
  }

  // ---------------------------------------------------------------------
  // One fragmented message

  lemma FragmentFits(pieces: seq<seq<byte>>, id: nat, i: nat)
    requires i < |pieces| && |pieces[i]| + FRAG_HEADER_SIZE <= MAX_PAYLOAD
    ensures |FragmentPayload(pieces, id, i)| <= MAX_PAYLOAD
  {}

  /** One turn of the recv_frame loop on a fragment. */
  lemma ReceiveTurn(f: Primitives, clock: Clock, key: Option<Key>, stream: seq<byte>, t: Table, tick: nat,
                    frame: Frame, n: nat)
    requires Valid(t) && ReadOutcome(f, stream, key) == Ok(Parsed(frame, n)) && TotalOf(stream) == n <= |stream|
    requires Has(frame.flags, FLAG_FRAGMENTED)
    ensures var (t', o) := Absorb(t, frame, clock(tick), clock(tick + 1));
      Receive(f, clock, key, stream, t, tick) == match o
        case Err(e) => Received(Err(e), stream[n..], t', tick + 2)
        case Ok(Some(complete)) => Received(Ok(complete), stream[n..], t', tick + 2)
        case Ok(None) => Receive(f, clock, key, stream[n..], t', tick + 2)
  {}

  /** The bytes from fragment `i` on begin with exactly that fragment's frame. */
  lemma NextFragmentReads(f: Primitives, key: Option<Key>, target: seq<byte>, pieces: seq<seq<byte>>, id: nat,
                          i: nat, rest: seq<byte>)
    requires i < |pieces| && |pieces[i]| + FRAG_HEADER_SIZE <= MAX_PAYLOAD
    ensures var packets := Packets(f, key, target, pieces, id);
      var stream, n := Concat(packets[i..]) + rest, |packets[i]|;
      var frame := Original(f, target, SendFlags(key, FLAG_FRAGMENTED), FragmentPayload(pieces, id, i), key);
      && HEADER_SIZE <= |stream| && TotalOf(stream) == n <= |stream|
      && stream[n..] == Concat(packets[i + 1..]) + rest
      && ReadOutcome(f, stream, key) == Ok(Parsed(frame, n)) && Has(frame.flags, FLAG_FRAGMENTED)
  {
    hide ReadOutcome, TotalOf, Concat, Has, SendFlags, Packed, FragmentPayload, MacOf, Sendable;
    var packets := Packets(f, key, target, pieces, id);
    var tail := Concat(packets[i + 1..]) + rest;
    ConcatTail(packets[i..]);
    assert packets[i..][1..] == packets[i + 1..];
    assert Concat(packets[i..]) + rest == packets[i] + tail;
    assert (packets[i] + tail)[|packets[i]|..] == tail;
    FragmentFits(pieces, id, i);
    FragmentFlags(key);
    ReadsPacked(f, target, SendFlags(key, FLAG_FRAGMENTED), FragmentPayload(pieces, id, i), key, tail);
  }

  /** From fragment `i` on: the remaining frames are absorbed and the last one delivers the whole payload. */
  lemma {:induction false} RestIsReceived(f: Primitives, clock: Clock, key: Option<Key>, target: seq<byte>,
                                          pieces: seq<seq<byte>>,
                                          id: nat, i: nat, start: nat, rest: seq<byte>)
    requires i < |pieces| <= MAX_FRAGMENTS && |Concat(pieces)| <= MAX_PAYLOAD && id < ID_LIMIT
    requires forall p <- pieces :: |p| + FRAG_HEADER_SIZE <= MAX_PAYLOAD
    requires forall k: nat :: 0 < 2 * k < 2 * |pieces| ==> clock(start + 2 * k) - clock(start + 1) < TIMEOUT_MS
    requires Valid(TableAfter(pieces, i, id, clock(start + 1)))
    ensures var packets := Packets(f, key, target, pieces, id);
      Receive(f, clock, key, Concat(packets[i..]) + rest, TableAfter(pieces, i, id, clock(start + 1)), start + 2 * i)
        == Received(Ok(Delivered(0, Concat(pieces))), rest, map[], start + 2 * |pieces|)
    decreases |pieces| - i
  {
    hide Receive, Absorb, Valid, ReadOutcome, TotalOf, Concat, Has, SendFlags, TableAfter, Packet,
         FragmentPayload, Delivered, Original;
    var packets := Packets(f, key, target, pieces, id);
    var since := clock(start + 1);
    var stream := Concat(packets[i..]) + rest;
    var frame := Original(f, target, SendFlags(key, FLAG_FRAGMENTED), FragmentPayload(pieces, id, i), key);
    assert pieces[i] in pieces;
    NextFragmentReads(f, key, target, pieces, id, i, rest);
    AbsorbNext(f, key, target, pieces, id, i, since, clock(start + 2 * i), clock(start + 2 * i + 1));
    ReceiveTurn(f, clock, key, stream, TableAfter(pieces, i, id, since), start + 2 * i, frame, |packets[i]|);
    if i + 1 < |pieces| {
      TableAfterIsValid(pieces, i + 1, id, since);
      RestIsReceived(f, clock, key, target, pieces, id, i + 1, start, rest);
    } else {
      ConcatNone(packets[i + 1..]);
      assert [] + rest == rest;
    }
  }

  lemma FragmentedIsReceived(f: Primitives, clock: Clock, key: Option<Key>, op: Send, id: nat, rest: seq<byte>,
                             tick: nat)
    requires op.Fragmented? && !Silent(op) && id < ID_LIMIT && Timely(op, clock, tick)
    ensures Receive(f, clock, key, Wire(f, key, op, id) + rest, map[], tick)
         == Received(Ok(Expected(f, key, op)[0]), rest, map[], tick + Ticks(op))
  {
    hide Concat, Receive, Valid, Pieces, Packets, FragmentCount;
    var pieces := Pieces(op.payload, op.chunkSize);
    CutCount(op);
    PiecesRejoin(op.payload, op.chunkSize);
    TableAfterIsValid(pieces, 0, id, clock(tick + 1));
    RestIsReceived(f, clock, key, op.target, pieces, id, 0, tick, rest);
    assert Packets(f, key, op.target, pieces, id)[0..] == Packets(f, key, op.target, pieces, id);
  }

  // ---------------------------------------------------------------------
  // One send in the caller's terms

  /**
   At most 1 MiB, no reserved flag, MAC only with a key: delivered with its payload and flags, MAC
   added when there is a key.
   */
  lemma PlainIsDelivered(f: Primitives, clock: Clock, key: Option<Key>, target: seq<byte>, extra: bv16,
                         payload: seq<byte>,
                         id: nat, rest: seq<byte>, t: Table, tick: nat)
    requires Valid(t) && |payload| <= 1048576
    requires extra & 0x0002 == 0 && extra & 0x0004 == 0 && (extra & 0x0001 != 0 ==> key.Some?)
    ensures var r := Receive(f, clock, key, Wire(f, key, Plain(target, extra, payload), id) + rest, t, tick);
      && r.frame.Ok? && r.frame.value.payload == payload && r.frame.value.mac.Some? == key.Some?
      && r.frame.value.flags == (if key.Some? then extra | 0x0001 else extra)
      && r.rest == rest && r.table == t
  {
    var op := Plain(target, extra, payload);
    ProperBits(extra);
    assert Proper(op, key);
    hide Receive, Wire, Has, Proper, SendFlags;
    RefusalIff(op);
    SendFlagsBits(key, extra);
    PlainIsReceived(f, clock, key, op, id, rest, t, tick);
  }

  lemma ProperBits(extra: bv16)
    ensures Has(extra, FLAG_COMPRESSED) <==> extra & 0x0002 != 0
    ensures Has(extra, FLAG_FRAGMENTED) <==> extra & 0x0004 != 0
    ensures Has(extra, FLAG_MAC) <==> extra & 0x0001 != 0
  {}

  /**
   At most 1 MiB, a chunk size that leaves room for the fragment header and needs at most 65535 pieces,
   all arriving within 30 s of the first: delivered whole, without flags.
   */
  lemma FragmentedIsDelivered(f: Primitives, clock: Clock, key: Option<Key>, target: seq<byte>, payload: seq<byte>,
                              chunkSize: nat, id: nat, rest: seq<byte>, tick: nat)
    requires |payload| <= 1048576 && 0 < chunkSize <= 1048566 && |payload| <= 65535 * chunkSize && id < 0x1_0000_0000
    requires forall k: nat :: 0 < k < |Pieces(payload, chunkSize)| ==> clock(tick + 2 * k) - clock(tick + 1) < 30000
    ensures var wire := Wire(f, key, Fragmented(target, payload, chunkSize), id);
      var r := Receive(f, clock, key, wire + rest, map[], tick);
      && r.frame.Ok? && r.frame.value.payload == payload && r.frame.value.flags == 0 && r.frame.value.mac == None
      && r.rest == rest && r.table == map[]
  {
    var op := Fragmented(target, payload, chunkSize);
    assert Valid(map[]);
    hide Receive, Wire, Pieces, FragmentCount, Valid;
    RefusalIff(op);
    FragmentedVanishesIff(op);
    forall i: nat | 0 < 2 * i < Ticks(op) ensures clock(tick + 2 * i) - clock(tick + 1) < TIMEOUT_MS {
      assert 0 < i < |Pieces(payload, chunkSize)|;
    }
    FragmentedIsReceived(f, clock, key, op, id, rest, tick);
  }

  // ---------------------------------------------------------------------
  // Whole conversations

  lemma NothingToReceive(f: Primitives, clock: Clock, key: Option<Key>, t: Table, tick: nat)
    requires Valid(t)
    ensures Receive(f, clock, key, [], t, tick).frame == Err(IoError)
  {}

  lemma ReceiveAllTurn(f: Primitives, clock: Clock, key: Option<Key>, stream: seq<byte>, t: Table, tick: nat)
    requires Valid(t)
    ensures var r := Receive(f, clock, key, stream, t, tick);
      ReceiveAll(f, clock, key, stream, t, tick)
        == if r.frame.Ok? then [r.frame.value] + ReceiveAll(f, clock, key, r.rest, r.table, r.tick) else []
  {}

  /** Both ends hold the same key; every message, in order, exactly once, exactly as sent. */
  lemma {:induction false} ConversationIsReceived(f: Primitives, clock: Clock, key: Option<Key>, ops: seq<Send>,
                                                  id: nat, tick: nat)
    requires id < ID_LIMIT && (forall op <- ops :: Proper(op, key)) && AllTimely(ops, clock, tick)
    ensures ReceiveAll(f, clock, key, WireAll(f, key, ops, id), map[], tick) == ExpectedAll(f, key, ops)
    decreases ops
  {
    hide Receive, ReceiveAll, Wire, Expected, Valid, Timely, Proper, Ticks, Silent, IdAfter;
    NoStreams();
    ReceiveAllTurn(f, clock, key, WireAll(f, key, ops, id), map[], tick);
    if ops == [] {
      NothingToReceive(f, clock, key, map[], tick);
    } else {
      var op, after := ops[0], IdAfter(ops[0], id);
      var rest := WireAll(f, key, ops[1..], after);
      FirstIsReceived(f, clock, key, op, id, rest, tick);
      ConversationIsReceived(f, clock, key, ops[1..], after, tick + Ticks(op));
      var expected := Expected(f, key, op);
      if Silent(op) {
        assert [] + rest == rest && [] + ExpectedAll(f, key, ops[1..]) == ExpectedAll(f, key, ops[1..]);
      } else {
        assert expected == [expected[0]];
      }
    }
  }

  lemma NoStreams()
    ensures Valid(map[])
  {}

  lemma FirstIsReceived(f: Primitives, clock: Clock, key: Option<Key>, op: Send, id: nat, rest: seq<byte>, tick: nat)
    requires id < ID_LIMIT && Proper(op, key) && Timely(op, clock, tick) && Valid(map[])
    ensures IdAfter(op, id) < ID_LIMIT
    ensures if Silent(op) then Wire(f, key, op, id) == [] && Expected(f, key, op) == [] && Ticks(op) == 0
      else |Expected(f, key, op)| == 1 && Receive(f, clock, key, Wire(f, key, op, id) + rest, map[], tick)
            == Received(Ok(Expected(f, key, op)[0]), rest, map[], tick + Ticks(op))
  {
    hide Receive, Wire, Timely, Proper;
    if Silent(op) {
      SilentSendsNothing(f, key, op, id);
    } else if op.Plain? {
      PlainIsReceived(f, clock, key, op, id, rest, map[], tick);
    } else {
      FragmentedIsReceived(f, clock, key, op, id, rest, tick);
    }
  }

  lemma SilentSendsNothing(f: Primitives, key: Option<Key>, op: Send, id: nat)
    requires Silent(op)
    ensures Wire(f, key, op, id) == [] && Ticks(op) == 0
  {}

  // ---------------------------------------------------------------------
  // The same statement about two client objects and their sockets

  /** Issues one send on the client. */
  method Issue(sender: VynkorClient, op: Send)
    requires sender.Usable() && Healthy(sender.socket.script)
    modifies sender`nextStreamId, sender.socket`script, sender.socket`outbound
    ensures sender.Usable() && Healthy(sender.socket.script)
    ensures sender.nextStreamId == IdAfter(op, old(sender.nextStreamId))
    ensures sender.socket.outbound
         == old(sender.socket.outbound) + Wire(sender.f, sender.sessionKey, op, old(sender.nextStreamId))
  {
    hide Packed, Packets, Cut, Healthy, Valid;
    ghost var before := sender.socket.outbound;
    assert before == before + [];
    match op {
      case Plain(target, extra, payload) => var _ := sender.SendRawWithFlags(target, extra, payload);
      case Fragmented(target, payload, chunkSize) => var _ := sender.SendFragmented(target, payload, chunkSize);
    }
  }

  /** Issues every send in turn. */
  method IssueAll(sender: VynkorClient, ops: seq<Send>)
    requires sender.Usable() && Healthy(sender.socket.script)
    modifies sender`nextStreamId, sender.socket`script, sender.socket`outbound
    ensures sender.socket.outbound
         == old(sender.socket.outbound) + WireAll(sender.f, sender.sessionKey, ops, old(sender.nextStreamId))
  {
    hide Wire, IdAfter, Healthy, Valid;
    var f, key := sender.f, sender.sessionKey;
    ghost var all := sender.socket.outbound + WireAll(f, key, ops, sender.nextStreamId);
    assert ops[0..] == ops;
    for i := 0 to |ops|
      invariant sender.Usable() && Healthy(sender.socket.script)
      invariant sender.socket.outbound + WireAll(f, key, ops[i..], sender.nextStreamId) == all
    {
      assert ops[i] in ops && ops[i..][1..] == ops[i + 1..];
      Issue(sender, ops[i]);
    }
    assert sender.socket.outbound + [] == sender.socket.outbound;
  }

  /** recv_frame until the connection ends. */
  method CollectAll(receiver: VynkorClient) returns (got: seq<Frame>)
    requires receiver.Usable() && Healthy(receiver.socket.script)
    modifies receiver`reassembly, receiver`ticks, receiver.socket`script, receiver.socket`inbound
    ensures got == ReceiveAll(receiver.f, receiver.clock, receiver.sessionKey,
                              old(receiver.socket.inbound), old(receiver.reassembly), old(receiver.ticks))
  {
    hide Receive, ReceiveAll, Healthy, Valid;
    var f, key, clock := receiver.f, receiver.sessionKey, receiver.clock;
    ghost var all := ReceiveAll(f, clock, key, receiver.socket.inbound, receiver.reassembly, receiver.ticks);
    got := [];
    assert [] + all == all;
    while true
      invariant receiver.Usable() && Healthy(receiver.socket.script)
      invariant got + ReceiveAll(f, clock, key, receiver.socket.inbound, receiver.reassembly, receiver.ticks) == all
      decreases |receiver.socket.inbound|
    {
      ReceiveAllTurn(f, clock, key, receiver.socket.inbound, receiver.reassembly, receiver.ticks);
      var r := receiver.RecvFrame(false);
      if r.Err? { break; }
      got := got + [r.value];
    }
  }

  /**
   Everything `sender` issues, carried over and received by `receiver` call by call, however the
   system calls split it.
   */
  method Converse(sender: VynkorClient, receiver: VynkorClient, ops: seq<Send>) returns (got: seq<Frame>)
    requires sender.socket != receiver.socket && sender != receiver && sender.f == receiver.f
    requires sender.sessionKey == receiver.sessionKey
    requires sender.Usable() && receiver.Usable() && receiver.reassembly == map[]
    requires sender.socket.outbound == [] && receiver.socket.inbound == []
    requires Healthy(sender.socket.script) && Healthy(receiver.socket.script)
    requires forall op <- ops :: Proper(op, sender.sessionKey)
    requires AllTimely(ops, receiver.clock, receiver.ticks)
    modifies sender`nextStreamId, sender.socket, receiver`reassembly, receiver`ticks, receiver.socket
    ensures got == ExpectedAll(sender.f, sender.sessionKey, ops)
  {
    hide ReceiveAll, ExpectedAll, AllTimely, WireAll, Healthy, Valid, Proper;
    ghost var id := sender.nextStreamId;
    IssueAll(sender, ops);
    receiver.socket.inbound := sender.socket.outbound;
    ConversationIsReceived(sender.f, receiver.clock, sender.sessionKey, ops, id, receiver.ticks);
    assert receiver.socket.inbound == WireAll(sender.f, sender.sessionKey, ops, id);
    got := CollectAll(receiver);
  }
}
