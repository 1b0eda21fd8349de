/**
 VynkorClient over a Unix socket: sending plain and fragmented messages, receiving frames
 and reassembling fragments (src/client.cpp).
 */
module Client {
  import opened Bytes
  import opened Framing
  import opened Transport
  import opened Reassembly

  // ---------------------------------------------------------------------
  // What is sent

  function SendFlags(key: Option<Key>, extra: bv16): bv16 {
    if key.Some? then With(extra, FLAG_MAC) else extra
  }

  const MAX_FRAGMENTS := 0xFFFF
  const ID_LIMIT := 0x1_0000_0000
  const SIZE_LIMIT := 0x1_0000_0000_0000_0000

  /** size_t. */
  type Size = n: nat | n < SIZE_LIMIT

  /** The number of pieces of `chunkSize` bytes that `size` bytes make. */
  function RoundedUp(size: nat, chunkSize: nat): nat
    requires chunkSize > 0
  {
    if size == 0 then 1 else (size + chunkSize - 1) / chunkSize
  }

  /** The same as send_fragmented computes it: the sum wraps at 64 bits. */
  function FragmentCount(size: nat, chunkSize: nat): nat
    requires chunkSize > 0
  {
    if size == 0 then 1 else (size + chunkSize - 1) % SIZE_LIMIT / chunkSize
  }

  /** The payload cut into pieces of `chunkSize` bytes; the last may be shorter, an empty payload is one piece. */
  function Pieces(payload: seq<byte>, chunkSize: nat): (pieces: seq<seq<byte>>)
    requires chunkSize > 0
    ensures |pieces| > 0
    ensures forall p <- pieces :: |p| <= chunkSize
    decreases |payload|
  {
    if |payload| <= chunkSize then [payload]
    else [payload[..chunkSize]] + Pieces(payload[chunkSize..], chunkSize)
  }

  /** The pieces send_fragmented sends: all of them, or none when its count wraps to zero. */
  function Cut(payload: seq<byte>, chunkSize: nat): seq<seq<byte>>
    requires chunkSize > 0
  {
    if FragmentCount(|payload|, chunkSize) == 0 then [] else Pieces(payload, chunkSize)
  }

  /** A fragment's payload: its ten-byte header and its piece. */
  function FragmentPayload(pieces: seq<seq<byte>>, id: nat, i: nat): seq<byte>
    requires i < |pieces|
  {
    PackFragment(FragmentHeader(id % 0x1_0000, i, |pieces|, id)) + pieces[i]
  }

  function Packet(f: Primitives, key: Option<Key>, target: seq<byte>, pieces: seq<seq<byte>>, id: nat,
                  i: nat): seq<byte>
    requires i < |pieces|
  {
    Packed(f, target, SendFlags(key, FLAG_FRAGMENTED), FragmentPayload(pieces, id, i), key)
  }

  /** The wire frames of one fragmented message. */
  function Packets(f: Primitives, key: Option<Key>, target: seq<byte>, pieces: seq<seq<byte>>,
                   id: nat): (ps: seq<seq<byte>>)
    ensures |ps| == |pieces|
    ensures forall i :: 0 <= i < |ps| ==> ps[i] == Packet(f, key, target, pieces, id, i)
  {
    seq(|pieces|, i requires 0 <= i < |pieces| => Packet(f, key, target, pieces, id, i))
  }

  function NextStreamId(id: nat): nat {
    if (id + 1) % ID_LIMIT == 0 then 1 else (id + 1) % ID_LIMIT
  }

  datatype Send =
    | Plain(target: seq<byte>, extra: bv16, payload: seq<byte>)
    | Fragmented(target: seq<byte>, payload: seq<byte>, chunkSize: Size)

  /** The exception a send throws before writing anything, if any. */
  function Refusal(op: Send): Option<Error> {
    if |op.payload| > MAX_PAYLOAD then Some(PayloadTooLarge(|op.payload|))
    else match op
      case Plain(_, _, _) => None
      case Fragmented(_, payload, chunkSize) =>
        if chunkSize == 0 || (chunkSize + FRAG_HEADER_SIZE) % SIZE_LIMIT > MAX_PAYLOAD then Some(Internal)
        else if FragmentCount(|payload|, chunkSize) > MAX_FRAGMENTS then Some(Internal)
        else None
  }

  function Wire(f: Primitives, key: Option<Key>, op: Send, id: nat): seq<byte> {
    if Refusal(op).Some? then []
    else match op
      case Plain(target, extra, payload) => Packed(f, target, SendFlags(key, extra), payload, key)
      case Fragmented(target, payload, chunkSize) => Concat(Packets(f, key, target, Cut(payload, chunkSize), id))
  }

  /** The send puts nothing on the wire. */
  predicate Silent(op: Send) {
    Refusal(op).Some? || (op.Fragmented? && Cut(op.payload, op.chunkSize) == [])
  }

  function IdAfter(op: Send, id: nat): nat {
    if op.Fragmented? && Refusal(op).None? then NextStreamId(id) else id
  }

  // ---------------------------------------------------------------------
  // What is received

  /** The monotonic clock: its value at each successive reading. */
  type Clock = nat -> nat

  datatype Received = Received(frame: Result<Frame>, rest: seq<byte>, table: Table, tick: nat)

  /** recv_frame on the bytes still to come: frames are absorbed until one is delivered or something fails. */
  function Receive(f: Primitives, clock: Clock, key: Option<Key>, stream: seq<byte>, t: Table, tick: nat): (r: Received)
    requires Valid(t)
    ensures Valid(r.table)
    ensures r.frame.Ok? ==> |r.rest| < |stream|
    decreases |stream|
  {
    match ReadOutcome(f, stream, key)
    case Err(e) => Received(Err(e), stream, t, tick)
    case Ok(Parsed(frame, _)) =>
      var rest := stream[TotalOf(stream)..];
      if !Has(frame.flags, FLAG_FRAGMENTED) then Received(Ok(frame), rest, t, tick)
      else
        var absorbed := Absorb(t, frame, clock(tick), clock(tick + 1));
        match absorbed.1
        case Err(e) => Received(Err(e), rest, absorbed.0, tick + 2)
        case Ok(Some(complete)) => Received(Ok(complete), rest, absorbed.0, tick + 2)
        case Ok(None) => Receive(f, clock, key, rest, absorbed.0, tick + 2)
  }

  /** No message handed to the caller exceeds 1 MiB, whatever the peer sends, in one frame or in fragments. */
  lemma {:induction false} ReceivedFits(f: Primitives, clock: Clock, key: Option<Key>, stream: seq<byte>,
                                        t: Table, tick: nat)
    requires Valid(t)
    ensures var r := Receive(f, clock, key, stream, t, tick);
      r.frame.Ok? ==> |r.frame.value.payload| <= MAX_PAYLOAD
    decreases |stream|
  {
    hide Has, Absorb, Parse, Valid, LengthOf, FlagsOf;
    var read := ReadOutcome(f, stream, key);
    if read.Ok? {
      var frame := read.value.frame;
      AcceptedIsCanonical(f, stream[..TotalOf(stream)], key);
      if Has(frame.flags, FLAG_FRAGMENTED) {
        var table := Absorb(t, frame, clock(tick), clock(tick + 1)).0;
        ReceivedFits(f, clock, key, stream[TotalOf(stream)..], table, tick + 2);
      }
    }
  }

  // ---------------------------------------------------------------------
  // Cutting a payload at multiples of the chunk size

  lemma MulAtLeast(k: int, c: int)
    requires k >= 1 && c > 0
    ensures k * c >= c
  {}

  lemma EuclidUnique(c: int, p: int, s: int, q: int, r: int)
    requires p * c + s == q * c + r && 0 <= s < c && 0 <= r < c
    ensures p == q
  {
    assert (p - q) * c == p * c - q * c;
    assert (q - p) * c == q * c - p * c;
    if p > q { MulAtLeast(p - q, c); }
    if q > p { MulAtLeast(q - p, c); }
  }

  lemma QuotientOfSum(x: nat, c: nat)
    requires c > 0
    ensures (x + c) / c == x / c + 1
  {
    assert x == (x / c) * c + x % c;
    assert x + c == ((x + c) / c) * c + (x + c) % c;
    assert (x / c + 1) * c == (x / c) * c + c;
    EuclidUnique(c, (x + c) / c, (x + c) % c, x / c + 1, x % c);
  }

  lemma OneMoreChunk(size: nat, chunkSize: nat)
    requires 0 < chunkSize < size
    ensures RoundedUp(size, chunkSize) == 1 + RoundedUp(size - chunkSize, chunkSize)
  {
    QuotientOfSum(size - 1, chunkSize);
    QuotientOfSum(size - chunkSize - 1, chunkSize);
  }

  lemma SingleChunk(size: nat, chunkSize: nat)
    requires size <= chunkSize && 0 < chunkSize
    ensures RoundedUp(size, chunkSize) == 1
  {
    if size != 0 { assert chunkSize <= size + chunkSize - 1 < 2 * chunkSize; }
  }

  lemma {:induction false} PieceCount(payload: seq<byte>, chunkSize: nat)
    requires chunkSize > 0
    ensures |Pieces(payload, chunkSize)| == RoundedUp(|payload|, chunkSize)
    decreases |payload|
  {
    if |payload| <= chunkSize {
      SingleChunk(|payload|, chunkSize);
    } else {
      OneMoreChunk(|payload|, chunkSize);
      PieceCount(payload[chunkSize..], chunkSize);
    }
  }

  lemma CountWraps(size: nat, chunkSize: nat)
    requires 0 < size && 0 < chunkSize < SIZE_LIMIT && size <= MAX_PAYLOAD
    ensures FragmentCount(size, chunkSize)
      == if size + chunkSize - 1 < SIZE_LIMIT then RoundedUp(size, chunkSize) else 0
  {
    var sum := size + chunkSize - 1;
    if sum < SIZE_LIMIT {
      assert sum % SIZE_LIMIT == sum;
    } else {
      assert sum % SIZE_LIMIT == sum - SIZE_LIMIT < chunkSize;
      SmallQuotient(sum - SIZE_LIMIT, chunkSize);
    }
  }

  lemma SmallQuotient(x: nat, c: nat)
    requires x < c
    ensures x / c == 0
  {}

  lemma QuotientAbove(x: nat, c: nat)
    requires c > 0
    ensures x / c > 65535 <==> x >= 65536 * c
  {
    var q, r := x / c, x % c;
    assert x == q * c + r;
    if q > 65535 { assert q * c >= 65536 * c; }
    if q <= 65535 { assert q * c <= 65535 * c; }
  }

  lemma CountAbove(size: nat, chunkSize: nat)
    requires 0 < chunkSize < SIZE_LIMIT && size <= 1048576
    ensures FragmentCount(size, chunkSize) > 65535 <==> size > 65535 * chunkSize
  {
    if size > 0 {
      CountWraps(size, chunkSize);
      QuotientAbove(size + chunkSize - 1, chunkSize);
    }
  }

  /**
   When a send is refused and why, in the caller's terms: over 1 MiB; or fragmented with a chunk size of
   zero, or over 1 MiB less ten (unless the sum with ten wraps at 2^64), or so small that 65535 pieces
   do not hold the payload.
   */
  lemma RefusalIff(op: Send)
    ensures Refusal(op) == Some(PayloadTooLarge(|op.payload|)) <==> |op.payload| > 1048576
    ensures Refusal(op) == Some(Internal) <==>
      && |op.payload| <= 1048576 && op.Fragmented?
      && (|| op.chunkSize == 0
          || 1048566 < op.chunkSize < 0x1_0000_0000_0000_0000 - 10
          || |op.payload| > 65535 * op.chunkSize)
    ensures Refusal(op).Some? ==> Refusal(op).value == PayloadTooLarge(|op.payload|) || Refusal(op).value == Internal
  {
    hide FragmentCount;
    if op.Fragmented? && |op.payload| <= 1048576 && op.chunkSize != 0 {
      CountAbove(|op.payload|, op.chunkSize);
      WrappedSum(op.chunkSize);
    }
  }

  lemma WrappedSum(chunkSize: Size)
    ensures (chunkSize + 10) % SIZE_LIMIT > 1048576 <==> 1048566 < chunkSize < 0x1_0000_0000_0000_0000 - 10
  {}

  /** The flags on the wire: MAC (bit 0) is added exactly when there is a key; nothing else changes. */
  lemma SendFlagsBits(key: Option<Key>, extra: bv16)
    ensures SendFlags(key, extra) == if key.Some? then extra | 0x0001 else extra
  {}

  /** Stream ids run through 1 to 2^32 - 1 and start over. */
  lemma StreamIdsCycle(id: nat)
    requires 0 < id < 0x1_0000_0000
    ensures NextStreamId(id) == id % 0xFFFF_FFFF + 1 && 0 < NextStreamId(id) < 0x1_0000_0000
  {}

  /** What fragment `i` says of itself. */
  lemma FragmentIdentifiesItself(pieces: seq<seq<byte>>, id: nat, i: nat)
    requires i < |pieces| <= 65535 && id < 0x1_0000_0000
    ensures var p := FragmentPayload(pieces, id, i);
      && |p| == 10 + |pieces[i]| && p[10..] == pieces[i]
      && ParseFragment(p) == Some(FragmentHeader(id % 65536, i, |pieces|, id))
  {
    hide ParseFragment, PackFragment;
    FragmentRoundTrip(FragmentHeader(id % 65536, i, |pieces|, id), pieces[i]);
  }

  /** The count and the pieces agree, and every piece fits a frame, also for chunk sizes near the top of size_t. */
  lemma CutCount(op: Send)
    requires op.Fragmented? && Refusal(op).None?
    ensures var cut := Cut(op.payload, op.chunkSize);
      |cut| == FragmentCount(|op.payload|, op.chunkSize) <= MAX_FRAGMENTS
          && forall p <- cut :: |p| + FRAG_HEADER_SIZE <= MAX_PAYLOAD
  {
    hide Pieces, RoundedUp, FragmentCount;
    PieceCount(op.payload, op.chunkSize);
    if op.payload == [] {
      OnePiece(op.payload, op.chunkSize);
    } else {
      CountWraps(|op.payload|, op.chunkSize);
      if |op.payload| <= op.chunkSize { OnePiece(op.payload, op.chunkSize); }
    }
  }

  lemma OnePiece(payload: seq<byte>, chunkSize: nat)
    requires chunkSize > 0 && |payload| <= chunkSize
    ensures Pieces(payload, chunkSize) == [payload]
    ensures payload == [] ==> FragmentCount(|payload|, chunkSize) == 1 == RoundedUp(0, chunkSize)
  {}

  /**
   A fragmented send that is not refused still puts nothing on the wire exactly when chunk_size and
   payload together exceed 2^64.
   */
  lemma FragmentedVanishesIff(op: Send)
    requires op.Fragmented? && Refusal(op).None?
    ensures Silent(op) <==> op.payload != [] && op.chunkSize + |op.payload| > SIZE_LIMIT
  {
    hide Pieces, FragmentCount;
    PieceCount(op.payload, op.chunkSize);
    if op.payload == [] {
      OnePiece(op.payload, op.chunkSize);
    } else {
      CountWraps(|op.payload|, op.chunkSize);
    }
  }

  lemma TailSlice<T>(s: seq<T>, c: nat, a: nat, b: nat)
    requires a <= b && c + b <= |s|
    ensures s[c..][a..b] == s[c + a..c + b]
  {}

  lemma PieceStart(i: nat, c: nat)
    requires i > 0
    ensures i * c == (i - 1) * c + c && (i - 1) * c >= 0
  {}

  /** Piece `i` starts at `i * chunkSize`, as send_fragmented computes it. */
  lemma {:induction false} PieceAt(payload: seq<byte>, chunkSize: nat, i: nat)
    requires chunkSize > 0 && i < |Pieces(payload, chunkSize)|
    ensures 0 <= i * chunkSize <= |payload|
    ensures Pieces(payload, chunkSize)[i]
      == payload[i * chunkSize..i * chunkSize + Min(chunkSize, |payload| - i * chunkSize)]
    decreases |payload|
  {
    if i == 0 {
      assert 0 * chunkSize == 0;
      if |payload| <= chunkSize { assert payload[0..|payload|] == payload; }
    } else {
      var tail, s := payload[chunkSize..], (i - 1) * chunkSize;
      PieceStart(i, chunkSize);
      assert Pieces(payload, chunkSize)[i] == Pieces(tail, chunkSize)[i - 1];
      PieceAt(tail, chunkSize, i - 1);
      TailSlice(payload, chunkSize, s, s + Min(chunkSize, |tail| - s));
    }
  }

  lemma {:induction false} PiecesRejoin(payload: seq<byte>, chunkSize: nat)
    requires chunkSize > 0
    ensures Concat(Pieces(payload, chunkSize)) == payload
    decreases |payload|
  {
    hide Concat;
    if |payload| <= chunkSize {
      ConcatCons(payload, []);
      ConcatNone([]);
      assert [payload] + [] == [payload] && payload + [] == payload;
    } else {
      ConcatCons(payload[..chunkSize], Pieces(payload[chunkSize..], chunkSize));
      PiecesRejoin(payload[chunkSize..], chunkSize);
      assert payload == payload[..chunkSize] + payload[chunkSize..];
    }
  }

  lemma WholeFrameIsNotEmpty(stream: seq<byte>)
    ensures WholeFrame(stream) ==> 0 < TotalOf(stream) <= |stream|
  {}

  // ---------------------------------------------------------------------
  // What is on the wire after a send

  /** All of `bytes` went out, or writing failed after a proper prefix of them. */
  ghost predicate Written(before: seq<byte>, after: seq<byte>, bytes: seq<byte>, e: Option<Error>) {
    match e
    case None => after == before + bytes
    case Some(error) => error == IoError && before <= after < before + bytes
  }

  lemma PrefixWidens(before: seq<byte>, x: seq<byte>, p: seq<byte>, y: seq<byte>, after: seq<byte>)
    requires before + x <= after < before + x + p
    ensures before <= after < before + (x + p + y)
  {
    assert before + (x + p + y) == before + x + p + y;
    assert after[..|before|] == (before + x + p)[..|before|] == before;
  }

  lemma ConcatAround(packets: seq<seq<byte>>, i: nat)
    requires i < |packets|
    ensures Concat(packets) == Concat(packets[..i]) + packets[i] + Concat(packets[i + 1..])
  {
    hide Concat;
    ConcatSnoc(packets, i);
    ConcatOfSum(packets[..i + 1], packets[i + 1..]);
    assert packets == packets[..i + 1] + packets[i + 1..];
  }

  /** Packet `i` after the packets before it. */
  lemma WrittenPart(before: seq<byte>, packets: seq<seq<byte>>, i: nat, after: seq<byte>, e: Option<Error>)
    requires i < |packets| && Written(before + Concat(packets[..i]), after, packets[i], e)
    ensures e.None? ==> after == before + Concat(packets[..i + 1])
    ensures e.Some? ==> Written(before, after, Concat(packets), e)
  {
    hide Concat;
    if e.None? {
      ConcatSnoc(packets, i);
    } else {
      ConcatAround(packets, i);
      PrefixWidens(before, Concat(packets[..i]), packets[i], Concat(packets[i + 1..]), after);
    }
  }

  lemma WrittenAll(before: seq<byte>, packets: seq<seq<byte>>)
    ensures Written(before, before + Concat(packets[..|packets|]), Concat(packets), None)
  {
    assert packets[..|packets|] == packets;
  }

  // ---------------------------------------------------------------------
  // The client object

  class VynkorClient {
    const f: Primitives
    const clock: Clock
    const socket: Socket
    var sessionKey: Option<Key>
    var nextStreamId: nat
    var reassembly: Table
    var ticks: nat

    constructor (f: Primitives, clock: Clock, socket: Socket, sessionKey: Option<Key>)
      ensures this.f == f && this.clock == clock && this.socket == socket && this.sessionKey == sessionKey
      ensures nextStreamId == 1 && reassembly == map[] && ticks == 0 && Usable()
    {
      this.f, this.clock, this.socket, this.sessionKey := f, clock, socket, sessionKey;
      nextStreamId, reassembly, ticks := 1, map[], 0;
    }

    ghost predicate Usable()
      reads this
    {
      Valid(reassembly) && 0 < nextStreamId < ID_LIMIT
    }

    /** send_raw_with_flags over the socket. */
    method SendRawWithFlags(target: seq<byte>, extra: bv16, payload: seq<byte>) returns (e: Option<Error>)
      modifies socket`script, socket`outbound
      ensures |payload| > MAX_PAYLOAD ==> e == Some(PayloadTooLarge(|payload|)) && unchanged(socket)
      ensures |payload| <= MAX_PAYLOAD ==>
        Written(old(socket.outbound), socket.outbound,
                Packed(f, target, SendFlags(sessionKey, extra), payload, sessionKey), e)
      ensures Healthy(old(socket.script)) ==> Healthy(socket.script) && (|payload| <= MAX_PAYLOAD ==> e.None?)
    {
      hide Packed;
      var flags := if sessionKey.Some? then With(extra, FLAG_MAC) else extra;
      var packed := PackFrameRaw(f, target, flags, payload, sessionKey);
      match packed {
        case Err(refused) => return Some(refused);
        case Ok(frame) => e := WriteAll(socket, frame);
      }
    }

    /** send_fragmented: refused before anything is written, or every fragment in order on a fresh stream id. */
    method SendFragmented(target: seq<byte>, payload: seq<byte>, chunkSize: Size) returns (e: Option<Error>)
      requires Usable()
      modifies this`nextStreamId, socket`script, socket`outbound
      ensures Usable()
      ensures var op := Fragmented(target, payload, chunkSize);
        && (Refusal(op).Some? ==> e == Refusal(op) && unchanged(this) && unchanged(socket))
        && (Refusal(op).None? ==>
              && nextStreamId == NextStreamId(old(nextStreamId))
              && Written(old(socket.outbound), socket.outbound, Wire(f, sessionKey, op, old(nextStreamId)), e)
              && (Healthy(old(socket.script)) ==> e.None?))
      ensures Healthy(old(socket.script)) ==> Healthy(socket.script)
    {
      hide Packed, PackFragment, Concat, Pieces, Packets, Healthy, Valid, Written, Cut;
      if |payload| > MAX_PAYLOAD { return Some(PayloadTooLarge(|payload|)); }
      if chunkSize == 0 || (chunkSize + FRAG_HEADER_SIZE) % SIZE_LIMIT > MAX_PAYLOAD { return Some(Internal); }
      var total := if payload == [] then 1 else (|payload| + chunkSize - 1) % SIZE_LIMIT / chunkSize;
      if total > MAX_FRAGMENTS { return Some(Internal); }
      var id := nextStreamId;
      nextStreamId := (nextStreamId + 1) % ID_LIMIT;
      if nextStreamId == 0 { nextStreamId := 1; }
      CutCount(Fragmented(target, payload, chunkSize));
      e := SendPieces(target, payload, chunkSize, total, id);
    }

    /** The loop of send_fragmented: `total` frames, each built from an offset into the payload. */
    method SendPieces(target: seq<byte>, payload: seq<byte>, chunkSize: nat, total: nat,
                      id: nat) returns (e: Option<Error>)
      requires 0 < chunkSize && total == |Cut(payload, chunkSize)|
      requires forall p <- Cut(payload, chunkSize) :: |p| + FRAG_HEADER_SIZE <= MAX_PAYLOAD
      modifies socket`script, socket`outbound
      ensures Healthy(old(socket.script)) ==> Healthy(socket.script) && e.None?
      ensures Written(old(socket.outbound), socket.outbound,
                      Concat(Packets(f, sessionKey, target, Cut(payload, chunkSize), id)), e)
    {
      hide Packed, PackFragment, Concat, Pieces, Packets, Healthy, SendFlags, TargetField, Written;
      var fragmentId := id % 0x1_0000;
      ghost var pieces := Cut(payload, chunkSize);
      ghost var packets := Packets(f, sessionKey, target, pieces, id);
      ghost var before := socket.outbound;
      ConcatNone(packets[..0]);
      for i := 0 to total
        invariant socket.outbound == before + Concat(packets[..i])
        invariant Healthy(old(socket.script)) ==> Healthy(socket.script)
      {
        PieceAt(payload, chunkSize, i);
        var start := i * chunkSize;
        var size := Min(chunkSize, |payload| - start);
        var fragment := PackFragment(FragmentHeader(fragmentId, i, total, id)) + payload[start..start + size];
        assert fragment == FragmentPayload(pieces, id, i) && pieces[i] in pieces;
        e := SendRawWithFlags(target, FLAG_FRAGMENTED, fragment);
        WrittenPart(before, packets, i, socket.outbound, e);
        if e.Some? { return e; }
      }
      WrittenAll(before, packets);
      return None;
    }

    /** The pruning pass of absorb_fragment. */
    method Prune(now: nat)
      modifies this`reassembly
      ensures reassembly == Pruned(old(reassembly), now)
    {
      var unseen := reassembly.Keys;
      while unseen != {}
        invariant unseen <= reassembly.Keys <= old(reassembly).Keys
        invariant forall s <- reassembly.Keys :: reassembly[s] == old(reassembly)[s]
        invariant forall s <- old(reassembly).Keys - unseen ::
                    s in reassembly <==> now - old(reassembly)[s].firstSeen < TIMEOUT_MS
        decreases unseen
      {
        var s :| s in unseen;
        if now - reassembly[s].firstSeen >= TIMEOUT_MS { reassembly := reassembly - {s}; }
        unseen := unseen - {s};
      }
    }

    /** ReassemblyBuf::reassemble. */
    static method Reassemble(b: Buf) returns (out: seq<byte>)
      requires Covers(b.fragments, b.total)
      ensures out == Joined(b.fragments, b.total)
    {
      out := [];
      for i := 0 to b.total
        invariant out == Joined(b.fragments, i)
      {
        out := out + b.fragments[i];
      }
    }

    /** absorb_fragment. */
    method AbsorbFragment(frame: Frame) returns (r: Outcome)
      requires Usable()
      modifies this`reassembly, this`ticks
      ensures Usable() && ticks == old(ticks) + 2
      ensures (reassembly, r) == Absorb(old(reassembly), frame, clock(old(ticks)), clock(old(ticks) + 1))
    {
      hide Accept, Valid, Pruned;
      var now := clock(ticks);
      var stamp := clock(ticks + 1);
      ticks := ticks + 2;
      PrunedIsValid(reassembly, now);
      Prune(now);
      r := AcceptFragment(frame, stamp);
    }

    /** absorb_fragment after pruning: check the header, find or open the stream, store the chunk. */
    method AcceptFragment(frame: Frame, stamp: nat) returns (r: Outcome)
      requires Valid(reassembly)
      modifies this`reassembly
      ensures Valid(reassembly) && (reassembly, r) == Accept(old(reassembly), frame, stamp)
    {
      hide ParseFragment, Stripped, Settle, FitsBuf;
      AcceptKeepsValid(reassembly, frame, stamp);
      var header := ParseFragment(frame.payload);
      if header.None? { return Err(Internal); }
      var h := header.value;
      if h.total == 0 || h.sequence >= h.total { return Err(Internal); }
      if h.streamId in reassembly {
        if reassembly[h.streamId].total != h.total {
          reassembly := reassembly - {h.streamId};
          return Err(Internal);
        }
      } else if |reassembly| >= MAX_STREAMS {
        return Err(Internal);
      }
      var buf := Opened(reassembly, h, frame.flags, stamp);
      r := Place(h, buf, frame.payload[FRAG_HEADER_SIZE..]);
    }

    /** The tail of absorb_fragment: account for the chunk, store it, deliver or keep the stream. */
    method Place(h: FragmentHeader, buf: Buf, chunk: seq<byte>) returns (r: Outcome)
      requires FitsBuf(buf) && h.sequence < buf.total
      modifies this`reassembly
      ensures (reassembly, r) == Settle(old(reassembly), h.streamId, buf, h.sequence, chunk)
    {
      hide ChunkBytes, Joined, Delivered;
      var replaced := if h.sequence in buf.fragments then |buf.fragments[h.sequence]| else 0;
      ChunkBytesUpdate(buf.fragments, h.sequence, chunk, buf.total);
      var newTotal := buf.bufferedBytes - replaced + |chunk|;
      assert newTotal == NewTotal(buf, h.sequence, chunk);
      if newTotal > MAX_PAYLOAD {
        reassembly := reassembly - {h.streamId};
        return Err(PayloadTooLarge(MAX_PAYLOAD + 1));
      }
      var b := buf.(bufferedBytes := newTotal, fragments := buf.fragments[h.sequence := chunk]);
      assert b == Stored(buf, h.sequence, chunk);
      if |b.fragments| == b.total {
        var payload := Reassemble(b);
        reassembly := reassembly - {h.streamId};
        return Ok(Some(Delivered(b.flags, payload)));
      }
      reassembly := reassembly[h.streamId := b];
      return Ok(None);
    }

    /** read_transport_frame on the socket; with `bounded`, a deadline limits the wait for the first byte too. */
    method ReadTransportFrame(bounded: bool) returns (r: Result<Parsed>)
      modifies socket`script, socket`inbound
      ensures
        || r == ReadOutcome(f, old(socket.inbound), sessionKey)
        || (r.Err? && (Broken(r.error) || (bounded && r.error == Timeout)))
      ensures r.Ok? ==>
        WholeFrame(old(socket.inbound)) && socket.inbound == old(socket.inbound)[TotalOf(old(socket.inbound))..]
      ensures Took(old(socket.inbound), socket.inbound, Reach(old(socket.inbound)))
      ensures Healthy(old(socket.script)) ==>
        Healthy(socket.script) && r == ReadOutcome(f, old(socket.inbound), sessionKey)
    {
      hide ReadOutcome, WholeFrame, Healthy, TotalOf, Reach;
      if bounded {
        var e := AwaitReadable(socket);
        if e.Some? { return Err(e.value); }
      }
      r := ReadFrame(f, socket, sessionKey);
    }

    /** recv_frame and, with `bounded`, recv_frame_with_deadline. */
    method RecvFrame(bounded: bool) returns (r: Result<Frame>)
      requires Usable()
      modifies this`reassembly, this`ticks, socket`script, socket`inbound
      ensures Usable() && Took(old(socket.inbound), socket.inbound, |old(socket.inbound)|)
      ensures var spec := Receive(f, clock, sessionKey, old(socket.inbound), old(reassembly), old(ticks));
        && (r == spec.frame || (r.Err? && (Broken(r.error) || (bounded && r.error == Timeout))))
        && (r.Ok? || Healthy(old(socket.script)) ==>
              && r == spec.frame && reassembly == spec.table && ticks == spec.tick
              && (r.Ok? ==> socket.inbound == spec.rest))
      ensures Healthy(old(socket.script)) ==> Healthy(socket.script)
    {
      hide Has, Absorb, ReadOutcome, WholeFrame, Valid, LengthOf, FlagsOf, Healthy, Took;
      ghost var stream := socket.inbound;
      ghost var spec := Receive(f, clock, sessionKey, stream, reassembly, ticks);
      TookNothing(stream);
      while true
        invariant Usable() && unchanged(this`nextStreamId)
        invariant spec == Receive(f, clock, sessionKey, socket.inbound, reassembly, ticks)
        invariant Took(stream, socket.inbound, |stream|)
        invariant Healthy(old(socket.script)) ==> Healthy(socket.script)
        decreases |socket.inbound|
      {
        WholeFrameIsNotEmpty(socket.inbound);
        ghost var between := socket.inbound;
        var read := ReadTransportFrame(bounded);
        TookInAll(stream, between, socket.inbound, Reach(between));
        if read.Err? { return Err(read.error); }
        var frame := read.value.frame;
        if !Has(frame.flags, FLAG_FRAGMENTED) { return Ok(frame); }
        var outcome := AbsorbFragment(frame);
        match outcome {
          case Err(e) => return Err(e);
          case Ok(Some(complete)) => return Ok(complete);
          case Ok(None) =>
        }
      }
    }
  }

  lemma TookNothing(s: seq<byte>)
    ensures Took(s, s, |s|)
  {}

  lemma TookInAll(before: seq<byte>, between: seq<byte>, after: seq<byte>, n: nat)
    requires Took(before, between, |before|) && Took(between, after, n)
    ensures Took(before, after, |before|)
  {}
}
