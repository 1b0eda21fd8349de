/**
 The wire frame codec of src/framing.cpp: a 44-byte big-endian header, a CRC over the
 wire bytes, optional compression, and an optional tag that covers the header and the
 payload as they were before compression.
 */
module Framing {
  import opened Bytes
  import Crc32

  const FRAME_MAGIC: bv16 := 0x5652
  const HEADER_SIZE := 44
  const MAX_PAYLOAD := 1048576
  const TAG_LEN := 32
  const COMPRESS_THRESHOLD := 65536
  const FLAG_MAC: bv16 := 0x0001
  const FLAG_COMPRESSED: bv16 := 0x0002
  const FLAG_FRAGMENTED: bv16 := 0x0004
  const FLAG_RAW_BINARY: bv16 := 0x0010

  predicate Has(flags: bv16, flag: bv16) { flags & flag != 0 }
  function With(flags: bv16, flag: bv16): bv16 { flags | flag }
  function Without(flags: bv16, flag: bv16): bv16 { flags & !flag }

  /** zstd and HMAC-SHA256, seen only through the laws the codec relies on. */
  datatype Foreign = Foreign(
    compress: seq<byte> -> seq<byte>,
    decompress: seq<byte> -> Option<seq<byte>>,
    tag: (seq<byte>, seq<byte>) -> seq<byte>)
  {
    ghost predicate Lawful() {
      && (forall x :: decompress(compress(x)) == Some(x))
      && (forall key, message :: |tag(key, message)| == TAG_LEN)
    }
  }

  const PLAIN := Foreign(x => x, x => Some(x), (key, message) => seq(TAG_LEN, i => 0 as byte))

  type Primitives = f: Foreign | f.Lawful() ghost witness PLAIN

  type Key = seq<byte>

  datatype Frame = Frame(payload: seq<byte>, flags: bv16, mac: Option<seq<byte>>, header: seq<byte>)

  datatype Parsed = Parsed(frame: Frame, consumed: nat)

  // ---------------------------------------------------------------------
  // Writing

  /** target_to_bytes: cut or zero-padded to 32 bytes. */
  function TargetField(target: seq<byte>): (field: seq<byte>)
    ensures |field| == 32
    ensures forall i :: 0 <= i < 32 ==> field[i] == if i < |target| then target[i] else 0
  {
    if |target| >= 32 then target[..32] else target + seq(32 - |target|, i => 0 as byte)
  }

  /** build_header: the 44 bytes describing `payload` under `flags`. */
  function Header(flags: bv16, target: seq<byte>, payload: seq<byte>): (h: seq<byte>)
    requires |target| == 32
    ensures |h| == HEADER_SIZE
  {
    Be16(FRAME_MAGIC) + Be16(flags) + BeNat(4, |payload|) + target + Be32(Crc32.Crc(payload))
  }

  function Tag(f: Primitives, key: Option<Key>, message: seq<byte>): seq<byte> {
    match key
    case None => []
    case Some(k) => f.tag(k, message)
  }

  /** What goes on the wire in place of (flags, payload): compressed only when that shrinks. */
  function WireForm(f: Primitives, flags: bv16, payload: seq<byte>): (bv16, seq<byte>) {
    if |payload| >= COMPRESS_THRESHOLD && !Has(flags, FLAG_COMPRESSED) && !Has(flags, FLAG_RAW_BINARY)
       && |f.compress(payload)| < |payload|
    then (With(flags, FLAG_COMPRESSED), f.compress(payload))
    else (flags, payload)
  }

  function Packed(f: Primitives, target: seq<byte>, flags: bv16, payload: seq<byte>, key: Option<Key>): seq<byte> {
    var t := TargetField(target);
    var (wireFlags, wire) := WireForm(f, flags, payload);
    Header(wireFlags, t, wire) + wire + Tag(f, key, Header(flags, t, payload) + payload)
  }

  // ---------------------------------------------------------------------
  // Reading

  function FlagsOf(buf: seq<byte>): bv16 requires |buf| >= HEADER_SIZE { FromBe16(buf[2..4]) }
  function LengthOf(buf: seq<byte>): nat requires |buf| >= HEADER_SIZE { FromBeNat(buf[4..8]) }
  function TargetOf(buf: seq<byte>): seq<byte> requires |buf| >= HEADER_SIZE { buf[8..40] }
  function CrcOf(buf: seq<byte>): bv32 requires |buf| >= HEADER_SIZE { FromBe32(buf[40..44]) }

  function TotalOf(buf: seq<byte>): nat
    requires |buf| >= HEADER_SIZE
  {
    HEADER_SIZE + LengthOf(buf) + if Has(FlagsOf(buf), FLAG_MAC) then TAG_LEN else 0
  }

  /** zstd_decompress_bounded. */
  function Decompressed(f: Primitives, wire: seq<byte>): Result<seq<byte>> {
    match f.decompress(wire)
    case None => Err(Internal)
    case Some(x) => if |x| > MAX_PAYLOAD then Err(Internal) else Ok(x)
  }

  /** Undoes compression, rebuilding the header the tag was computed over. */
  function Normalized(f: Primitives, buf: seq<byte>): Result<Frame>
    requires |buf| >= HEADER_SIZE && |buf| >= TotalOf(buf)
  {
    var flags, wire := FlagsOf(buf), buf[HEADER_SIZE..HEADER_SIZE + LengthOf(buf)];
    var mac := if Has(flags, FLAG_MAC) then Some(buf[HEADER_SIZE + LengthOf(buf)..TotalOf(buf)]) else None;
    if !Has(flags, FLAG_COMPRESSED) then Ok(Frame(wire, flags, mac, buf[..HEADER_SIZE]))
    else match Decompressed(f, wire)
      case Err(e) => Err(e)
      case Ok(payload) =>
        var plain := Without(flags, FLAG_COMPRESSED);
        Ok(Frame(payload, plain, mac, Header(plain, TargetOf(buf), payload)))
  }

  /** parse_frame_bytes. */
  function Parse(f: Primitives, buf: seq<byte>, key: Option<Key>): Result<Parsed> {
    if |buf| < HEADER_SIZE then Err(IoError)
    else if FromBe16(buf[0..2]) != FRAME_MAGIC then Err(FrameMagicMismatch)
    else if LengthOf(buf) > MAX_PAYLOAD then Err(PayloadTooLarge(LengthOf(buf)))
    else if |buf| < TotalOf(buf) then Err(IoError)
    else if Crc32.Crc(buf[HEADER_SIZE..HEADER_SIZE + LengthOf(buf)]) != CrcOf(buf) then Err(FrameCrcMismatch)
    else match Normalized(f, buf)
      case Err(e) => Err(e)
      case Ok(frame) =>
        if key.Some? && frame.mac != Some(f.tag(key.value, frame.header + frame.payload)) then Err(Internal)
        else Ok(Parsed(frame, TotalOf(buf)))
  }

  // ---------------------------------------------------------------------
  // Flag arithmetic

  lemma SetBit(flags: bv16)
    ensures Has(With(flags, FLAG_COMPRESSED), FLAG_COMPRESSED)
    ensures Has(With(flags, FLAG_COMPRESSED), FLAG_MAC) == Has(flags, FLAG_MAC)
  {}

  lemma ClearBit(flags: bv16)
    ensures !Has(Without(flags, FLAG_COMPRESSED), FLAG_COMPRESSED)
    ensures Has(Without(flags, FLAG_COMPRESSED), FLAG_MAC) == Has(flags, FLAG_MAC)
  {}

  lemma SetThenClear(flags: bv16)
    requires !Has(flags, FLAG_COMPRESSED)
    ensures Without(With(flags, FLAG_COMPRESSED), FLAG_COMPRESSED) == flags
  {}

  lemma CompressedBit(flags: bv16)
    ensures Has(With(flags, FLAG_COMPRESSED), FLAG_COMPRESSED)
    ensures Has(With(flags, FLAG_COMPRESSED), FLAG_MAC) == Has(flags, FLAG_MAC)
    ensures !Has(Without(flags, FLAG_COMPRESSED), FLAG_COMPRESSED)
    ensures Has(Without(flags, FLAG_COMPRESSED), FLAG_MAC) == Has(flags, FLAG_MAC)
    ensures !Has(flags, FLAG_COMPRESSED) ==> Without(With(flags, FLAG_COMPRESSED), FLAG_COMPRESSED) == flags
  {
    hide Has, With, Without;
    SetBit(flags);
    ClearBit(flags);
    if !Has(flags, FLAG_COMPRESSED) { SetThenClear(flags); }
  }

  // ---------------------------------------------------------------------
  // Header fields

  lemma HeaderFields(flags: bv16, target: seq<byte>, payload: seq<byte>, rest: seq<byte>)
    requires |target| == 32 && |payload| <= MAX_PAYLOAD
    ensures var buf := Header(flags, target, payload) + rest;
      && buf[..HEADER_SIZE] == Header(flags, target, payload)
      && FromBe16(buf[0..2]) == FRAME_MAGIC && FlagsOf(buf) == flags && LengthOf(buf) == |payload|
      && TargetOf(buf) == target && CrcOf(buf) == Crc32.Crc(payload)
  {
    var crc := Crc32.Crc(payload);
    var buf := Header(flags, target, payload) + rest;
    assert buf[0..2] == Be16(FRAME_MAGIC);
    assert buf[2..4] == Be16(flags);
    assert buf[4..8] == BeNat(4, |payload|);
    assert buf[8..40] == target;
    assert buf[40..44] == Be32(crc);
    Be16RoundTrip(FRAME_MAGIC);
    Be16RoundTrip(flags);
    Pow256Values();
    BeNatRoundTrip(4, |payload|);
    Be32RoundTrip(crc);
  }

  /** Conversely, 44 bytes with the right magic, length and CRC are a built header. */
  lemma HeaderIsCanonical(buf: seq<byte>, payload: seq<byte>)
    requires |buf| >= HEADER_SIZE
    requires FromBe16(buf[0..2]) == FRAME_MAGIC && LengthOf(buf) == |payload| && CrcOf(buf) == Crc32.Crc(payload)
    ensures buf[..HEADER_SIZE] == Header(FlagsOf(buf), TargetOf(buf), payload)
  {
    Be16Canonical(buf[0..2]);
    Be16Canonical(buf[2..4]);
    BeNatCanonical(buf[4..8]);
    Be32Canonical(buf[40..44]);
    assert buf[..HEADER_SIZE] == buf[0..2] + buf[2..4] + buf[4..8] + buf[8..40] + buf[40..44];
  }

  // ---------------------------------------------------------------------
  // Properties of the codec

  lemma ParseOfPrefix(f: Primitives, a: seq<byte>, b: seq<byte>, key: Option<Key>)
    requires HEADER_SIZE <= |a| <= |b| && TotalOf(a) <= |a| && a == b[..|a|]
    ensures Parse(f, a, key) == Parse(f, b, key)
  {
    hide Has, With, Without, FromBe16, FromBe32, FromBeNat, Header, TargetField, Crc32.Crc;
    SameFields(a, b);
    var n := LengthOf(a);
    PrefixSlice(a, b, HEADER_SIZE, HEADER_SIZE + n);
    PrefixSlice(a, b, HEADER_SIZE + n, TotalOf(a));
  }

  /** A frame is decided by its own bytes: what follows it is never looked at. */
  lemma ParseIsSelfDelimiting(f: Primitives, buf: seq<byte>, rest: seq<byte>, key: Option<Key>)
    requires |buf| >= HEADER_SIZE && |buf| >= TotalOf(buf)
    ensures Parse(f, buf + rest, key) == Parse(f, buf, key)
    ensures Parse(f, buf[..TotalOf(buf)], key) == Parse(f, buf, key)
  {
    hide Parse, LengthOf, Has;
    assert buf == (buf + rest)[..|buf|];
    ParseOfPrefix(f, buf, buf + rest, key);
    var whole := buf[..TotalOf(buf)];
    SameFields(whole, buf);
    ParseOfPrefix(f, whole, buf, key);
  }

  lemma SameFields(a: seq<byte>, b: seq<byte>)
    requires HEADER_SIZE <= |a| <= |b| && a == b[..|a|]
    ensures a[..HEADER_SIZE] == b[..HEADER_SIZE] && a[0..2] == b[0..2]
    ensures FlagsOf(a) == FlagsOf(b) && LengthOf(a) == LengthOf(b) && TargetOf(a) == TargetOf(b)
    ensures CrcOf(a) == CrcOf(b) && TotalOf(a) == TotalOf(b)
  {
    hide Has, With, Without, FromBe16, FromBe32, FromBeNat, Header, TargetField, Crc32.Crc;
    PrefixSlice(a, b, 0, HEADER_SIZE);
    PrefixSlice(a, b, 0, 2);
    PrefixSlice(a, b, 2, 4);
    PrefixSlice(a, b, 4, 8);
    PrefixSlice(a, b, 8, 40);
    PrefixSlice(a, b, 40, 44);
  }

  /** The flags a caller may pass: no COMPRESSED, and MAC exactly when there is a key. */
  predicate Sendable(flags: bv16, key: Option<Key>) {
    !Has(flags, FLAG_COMPRESSED) && Has(flags, FLAG_MAC) == key.Some?
  }

  function MacOf(f: Primitives, key: Option<Key>, message: seq<byte>): Option<seq<byte>> {
    match key
    case None => None
    case Some(k) => Some(f.tag(k, message))
  }

  /** The frame a reader should hand back for a packed one. */
  function Original(f: Primitives, target: seq<byte>, flags: bv16, payload: seq<byte>, key: Option<Key>): Frame {
    var h := Header(flags, TargetField(target), payload);
    Frame(payload, flags, MacOf(f, key, h + payload), h)
  }

  /** The pieces of a packed frame, found again by offset. */
  lemma PackedFields(f: Primitives, target: seq<byte>, flags: bv16, payload: seq<byte>, key: Option<Key>)
    requires |payload| <= MAX_PAYLOAD
    ensures var packed, (wireFlags, wire) := Packed(f, target, flags, payload, key), WireForm(f, flags, payload);
      var t := TargetField(target);
      && |wire| <= |payload|
      && |packed| == HEADER_SIZE + |wire| + (if key.Some? then TAG_LEN else 0)
      && FromBe16(packed[0..2]) == FRAME_MAGIC && FlagsOf(packed) == wireFlags && LengthOf(packed) == |wire|
      && TargetOf(packed) == t && CrcOf(packed) == Crc32.Crc(wire)
      && packed[..HEADER_SIZE] == Header(wireFlags, t, wire)
      && packed[HEADER_SIZE..HEADER_SIZE + |wire|] == wire
      && packed[HEADER_SIZE + |wire|..|packed|] == Tag(f, key, Header(flags, t, payload) + payload)
  {
    hide Has, With, Without, FromBe16, FromBe32, FromBeNat, Header, TargetField, Crc32.Crc;
    var t := TargetField(target);
    var (wireFlags, wire) := WireForm(f, flags, payload);
    var tag := Tag(f, key, Header(flags, t, payload) + payload);
    HeaderFields(wireFlags, t, wire, wire + tag);
    assert Packed(f, target, flags, payload, key) == Header(wireFlags, t, wire) + (wire + tag);
  }

  lemma RoundTripExact(f: Primitives, target: seq<byte>, flags: bv16, payload: seq<byte>, key: Option<Key>)
    requires |payload| <= MAX_PAYLOAD && Sendable(flags, key)
    ensures var packed := Packed(f, target, flags, payload, key);
      && |packed| >= HEADER_SIZE && TotalOf(packed) == |packed|
      && Parse(f, packed, key) == Ok(Parsed(Original(f, target, flags, payload, key), |packed|))
  {
    hide Packed, Has, With, Without, FromBe16, FromBe32, FromBeNat, Header, TargetField, Crc32.Crc;
    PackedFields(f, target, flags, payload, key);
    CompressedBit(flags);
  }

  /** MAC over plaintext: whatever was compressed, the reader recovers flags, payload, tag and tagged header. */
  lemma RoundTrip(f: Primitives, target: seq<byte>, flags: bv16, payload: seq<byte>, key: Option<Key>, rest: seq<byte>)
    requires |payload| <= MAX_PAYLOAD && Sendable(flags, key)
    ensures var packed := Packed(f, target, flags, payload, key);
      Parse(f, packed + rest, key) == Ok(Parsed(Original(f, target, flags, payload, key), |packed|))
  {
    hide Packed, Parse, TotalOf, Original, Sendable;
    RoundTripExact(f, target, flags, payload, key);
    ParseIsSelfDelimiting(f, Packed(f, target, flags, payload, key), rest, key);
  }

  /** The caller's side of the contract is exact: the frame comes back if and only if the flags are sendable. */
  lemma RoundTripIff(f: Primitives, target: seq<byte>, flags: bv16, payload: seq<byte>, key: Option<Key>)
    requires |payload| <= MAX_PAYLOAD
    ensures var r := Parse(f, Packed(f, target, flags, payload, key), key);
      Sendable(flags, key) <==> r.Ok? && r.value.frame.flags == flags && r.value.frame.payload == payload
  {
    hide Packed, Has, With, Without, FromBe16, FromBe32, FromBeNat, Header, TargetField, Crc32.Crc;
    if Sendable(flags, key) {
      RoundTripExact(f, target, flags, payload, key);
    } else {
      PackedFields(f, target, flags, payload, key);
      CompressedBit(flags);
      CompressedBit(WireForm(f, flags, payload).0);
    }
  }

  /** Every accepted frame is one build_header would have written, and its tag was checked over exactly that. */
  lemma AcceptedIsCanonical(f: Primitives, buf: seq<byte>, key: Option<Key>)
    requires Parse(f, buf, key).Ok?
    ensures var Parsed(frame, consumed) := Parse(f, buf, key).value;
      && |buf| >= HEADER_SIZE && consumed == TotalOf(buf) <= |buf|
      && frame.header == Header(frame.flags, TargetOf(buf), frame.payload)
      && |frame.payload| <= MAX_PAYLOAD && !Has(frame.flags, FLAG_COMPRESSED)
      && (frame.mac.Some? <==> Has(frame.flags, FLAG_MAC)) && (frame.mac.Some? ==> |frame.mac.value| == TAG_LEN)
      && (key.Some? ==> frame.mac == Some(f.tag(key.value, frame.header + frame.payload)))
      && (!Has(FlagsOf(buf), FLAG_COMPRESSED) ==>
            buf[..consumed] == frame.header + frame.payload + (if frame.mac.Some? then frame.mac.value else []))
  {
    hide Has, With, Without, FromBe16, FromBe32, FromBeNat, Header, TargetField, Crc32.Crc;
    var n := LengthOf(buf);
    var wire := buf[HEADER_SIZE..HEADER_SIZE + n];
    CompressedBit(FlagsOf(buf));
    if !Has(FlagsOf(buf), FLAG_COMPRESSED) {
      HeaderIsCanonical(buf, wire);
      assert buf[..TotalOf(buf)] == buf[..HEADER_SIZE] + wire + buf[HEADER_SIZE + n..TotalOf(buf)];
    }
  }

  /** Damage to the wire payload within four consecutive bytes, header intact, is always caught by the CRC check. */
  lemma BurstIsRejected(f: Primitives, buf: seq<byte>, damaged: seq<byte>, at: nat, width: nat, key: Option<Key>)
    requires Parse(f, buf, key).Ok?
    requires width <= 4 && HEADER_SIZE <= at && at + width <= HEADER_SIZE + LengthOf(buf)
    requires |damaged| == |buf| && damaged != buf && damaged[..at] == buf[..at]
      && damaged[at + width..] == buf[at + width..]
    ensures Parse(f, damaged, key) == Err(FrameCrcMismatch)
  {
    hide Has, With, Without, FromBe16, FromBe32, FromBeNat, Header, TargetField, Crc32.Crc;
    var n := LengthOf(buf);
    SameFields(buf[..at], buf);
    SameFields(damaged[..at], damaged);
    var pre, post := buf[HEADER_SIZE..at], buf[at + width..HEADER_SIZE + n];
    var u, v := buf[at..at + width], damaged[at..at + width];
    assert damaged[HEADER_SIZE..at] == pre by {
      assert damaged[HEADER_SIZE..at] == damaged[..at][HEADER_SIZE..];
    }
    assert damaged[at + width..HEADER_SIZE + n] == post by {
      var k := HEADER_SIZE + n - (at + width);
      assert damaged[at + width..][..k] == damaged[at + width..HEADER_SIZE + n];
      assert buf[at + width..][..k] == post;
    }
    assert buf[HEADER_SIZE..HEADER_SIZE + n] == pre + u + post;
    assert damaged[HEADER_SIZE..HEADER_SIZE + n] == pre + v + post;
    assert damaged == damaged[..at] + v + damaged[at + width..];
    assert buf == buf[..at] + u + buf[at + width..];
    Crc32.BurstChangesCrc(pre, u, v, post);
  }

  // ---------------------------------------------------------------------
  // Streams of frames

  /** Splits a byte stream into frames until the bytes run out; the first rejected frame ends the split. */
  function SplitStream(f: Primitives, buf: seq<byte>, key: Option<Key>): (frames: seq<Frame>)
    decreases |buf|
  {
    match Parse(f, buf, key)
    case Err(_) => []
    case Ok(Parsed(frame, consumed)) => [frame] + SplitStream(f, buf[consumed..], key)
  }

  function Concat(chunks: seq<seq<byte>>): seq<byte> {
    if chunks == [] then [] else chunks[0] + Concat(chunks[1..])
  }

  lemma {:induction false} ConcatOfSum(a: seq<seq<byte>>, b: seq<seq<byte>>)
    ensures Concat(a + b) == Concat(a) + Concat(b)
  {
    if a == [] {
      assert a + b == b;
    } else {
      assert (a + b)[1..] == a[1..] + b;
      ConcatOfSum(a[1..], b);
    }
  }

  lemma ConcatCons(chunk: seq<byte>, chunks: seq<seq<byte>>)
    ensures Concat([chunk] + chunks) == chunk + Concat(chunks)
  {}

  lemma ConcatTail(chunks: seq<seq<byte>>)
    requires chunks != []
    ensures Concat(chunks) == chunks[0] + Concat(chunks[1..])
  {}

  lemma ConcatNone(chunks: seq<seq<byte>>)
    requires chunks == []
    ensures Concat(chunks) == []
  {}

  lemma ConcatSnoc(chunks: seq<seq<byte>>, n: nat)
    requires n < |chunks|
    ensures Concat(chunks[..n + 1]) == Concat(chunks[..n]) + chunks[n]
  {
    assert chunks[..n + 1] == chunks[..n] + [chunks[n]];
    ConcatOfSum(chunks[..n], [chunks[n]]);
    assert Concat([chunks[n]]) == chunks[n] + Concat([chunks[n]][1..]);
  }

  lemma ShortIsRejected(f: Primitives, buf: seq<byte>, key: Option<Key>)
    requires |buf| < HEADER_SIZE
    ensures Parse(f, buf, key) == Err(IoError)
  {}

  /** Any concatenation of acceptable frames splits back into exactly those frames, at their own boundaries. */
  lemma {:induction false} ConcatenationSplits(f: Primitives, bufs: seq<seq<byte>>, frames: seq<Frame>,
                                               key: Option<Key>)
    requires |bufs| == |frames|
    requires forall i :: 0 <= i < |bufs| ==> Parse(f, bufs[i], key) == Ok(Parsed(frames[i], |bufs[i]|))
    ensures SplitStream(f, Concat(bufs), key) == frames
  {
    hide Parse, TotalOf, Header, TargetOf, FlagsOf, Has;
    if bufs == [] {
      assert Parse(f, [], key).Err? by { ShortIsRejected(f, [], key); }
    } else {
      AcceptedIsCanonical(f, bufs[0], key);
      ParseIsSelfDelimiting(f, bufs[0], Concat(bufs[1..]), key);
      ConcatenationSplits(f, bufs[1..], frames[1..], key);
      assert Concat(bufs)[|bufs[0]|..] == Concat(bufs[1..]);
      assert Parse(f, Concat(bufs), key) == Ok(Parsed(frames[0], |bufs[0]|));
      assert frames == [frames[0]] + frames[1..];
    }
  }

  // ---------------------------------------------------------------------
  // Fragment headers

  const FRAG_HEADER_SIZE := 10

  datatype FragmentHeader = FragmentHeader(fragmentId: nat, sequence: nat, total: nat, streamId: nat) {
    /** The widths of the C++ struct's fields. */
    predicate Fits() {
      fragmentId < 0x1_0000 && sequence < 0x1_0000 && total < 0x1_0000 && streamId < 0x1_0000_0000
    }
  }

  /** pack_frag_header. */
  function PackFragment(h: FragmentHeader): (s: seq<byte>)
    ensures |s| == FRAG_HEADER_SIZE
  {
    BeNat(2, h.fragmentId) + BeNat(2, h.sequence) + BeNat(2, h.total) + BeNat(4, h.streamId)
  }

  /** parse_frag_header. */
  function ParseFragment(payload: seq<byte>): (r: Option<FragmentHeader>)
    ensures r.Some? <==> |payload| >= FRAG_HEADER_SIZE
  {
    if |payload| < FRAG_HEADER_SIZE then None
    else Some(FragmentHeader(FromBeNat(payload[0..2]), FromBeNat(payload[2..4]), FromBeNat(payload[4..6]),
                             FromBeNat(payload[6..10])))
  }

  lemma FragmentRoundTrip(h: FragmentHeader, chunk: seq<byte>)
    requires h.Fits()
    ensures ParseFragment(PackFragment(h) + chunk) == Some(h)
    ensures (PackFragment(h) + chunk)[FRAG_HEADER_SIZE..] == chunk
  {
    hide BeNat, FromBeNat;
    var p := PackFragment(h) + chunk;
    assert p[0..2] == BeNat(2, h.fragmentId) && p[2..4] == BeNat(2, h.sequence);
    assert p[4..6] == BeNat(2, h.total) && p[6..10] == BeNat(4, h.streamId);
    Pow256Values();
    BeNatRoundTrip(2, h.fragmentId);
    BeNatRoundTrip(2, h.sequence);
    BeNatRoundTrip(2, h.total);
    BeNatRoundTrip(4, h.streamId);
  }

  lemma ParsedFragmentFits(payload: seq<byte>)
    requires ParseFragment(payload).Some?
    ensures ParseFragment(payload).value.Fits()
  {
    hide FromBeNat;
    Pow256Values();
    BeNatCanonical(payload[0..2]);
    BeNatCanonical(payload[2..4]);
    BeNatCanonical(payload[4..6]);
    BeNatCanonical(payload[6..10]);
  }

  // ---------------------------------------------------------------------
  // The code

  /** memcpy(out + at, bytes). */
  method Put(out: array<byte>, at: nat, bytes: seq<byte>)
    requires at + |bytes| <= out.Length
    modifies out
    ensures out[..] == old(out[..at]) + bytes + old(out[at + |bytes|..])
  {
    for i := 0 to |bytes|
      invariant out[..at] == old(out[..at]) && out[at..at + i] == bytes[..i] && out[at + i..] == old(out[at + i..])
    {
      out[at + i] := bytes[i];
      assert out[at + i + 1..] == old(out[at + i..])[1..];
    }
    assert out[..] == out[..at] + out[at..at + |bytes|] + out[at + |bytes|..];
  }

  /** build_header. */
  method BuildHeader(out: array<byte>, flags: bv16, target: seq<byte>, payload: seq<byte>)
    requires out.Length == HEADER_SIZE && |target| == 32
    modifies out
    ensures out[..] == Header(flags, target, payload)
  {
    hide Be16, Be32, BeNat, Crc32.Crc;
    Put(out, 0, Be16(FRAME_MAGIC));
    assert out[..2] == Be16(FRAME_MAGIC);
    Put(out, 2, Be16(flags));
    assert out[..4] == Be16(FRAME_MAGIC) + Be16(flags);
    Put(out, 4, BeNat(4, |payload|));
    assert out[..8] == Be16(FRAME_MAGIC) + Be16(flags) + BeNat(4, |payload|);
    Put(out, 8, target);
    var crc := Crc32.Checksum(payload);
    Put(out, 40, Be32(crc));
  }

  /** pack_frame_raw. */
  method PackFrameRaw(f: Primitives, target: seq<byte>, flags: bv16, payload: seq<byte>, key: Option<Key>)
    returns (r: Result<seq<byte>>)
    ensures r == if |payload| > MAX_PAYLOAD then Err(PayloadTooLarge(|payload|))
                 else Ok(Packed(f, target, flags, payload, key))
  {
    hide Has, With, Header, TargetField;
    if |payload| > MAX_PAYLOAD { return Err(PayloadTooLarge(|payload|)); }
    var t := TargetField(target);
    var header := new byte[HEADER_SIZE];
    BuildHeader(header, flags, t, payload);
    var tag: seq<byte> := [];
    if key.Some? { tag := f.tag(key.value, header[..] + payload); }
    var wire, wireFlags := payload, flags;
    if |payload| >= COMPRESS_THRESHOLD && !Has(flags, FLAG_COMPRESSED) && !Has(flags, FLAG_RAW_BINARY) {
      var compressed := f.compress(payload);
      if |compressed| < |payload| { wire, wireFlags := compressed, With(flags, FLAG_COMPRESSED); }
    }
    var wireHeader := new byte[HEADER_SIZE];
    BuildHeader(wireHeader, wireFlags, t, wire);
    var frame := wireHeader[..] + wire;
    if key.Some? { frame := frame + tag; } else { assert frame == frame + tag; }
    return Ok(frame);
  }

  /** parse_frame_bytes. */
  method ParseFrameBytes(f: Primitives, buf: seq<byte>, key: Option<Key>) returns (r: Result<Parsed>)
    ensures r == Parse(f, buf, key)
  {
    hide Has, Without, FromBe16, FromBe32, FromBeNat, Header, Crc32.Crc;
    if |buf| < HEADER_SIZE { return Err(IoError); }
    if FromBe16(buf[0..2]) != FRAME_MAGIC { return Err(FrameMagicMismatch); }
    var flags, length := FromBe16(buf[2..4]), FromBeNat(buf[4..8]);
    if length > MAX_PAYLOAD { return Err(PayloadTooLarge(length)); }
    var total := HEADER_SIZE + length;
    var hasMac := Has(flags, FLAG_MAC);
    if hasMac { total := total + TAG_LEN; }
    if |buf| < total { return Err(IoError); }
    var payload := buf[HEADER_SIZE..HEADER_SIZE + length];
    var crc := Crc32.Checksum(payload);
    if crc != FromBe32(buf[40..44]) { return Err(FrameCrcMismatch); }
    var header := buf[..HEADER_SIZE];
    if Has(flags, FLAG_COMPRESSED) {
      match Decompressed(f, payload) {
        case Err(e) => return Err(e);
        case Ok(x) => payload := x;
      }
      flags := Without(flags, FLAG_COMPRESSED);
      var rebuilt := new byte[HEADER_SIZE];
      BuildHeader(rebuilt, flags, buf[8..40], payload);
      header := rebuilt[..];
    }
    var mac: Option<seq<byte>> := None;
    if hasMac {
      mac := Some(buf[HEADER_SIZE + length..total]);
      if key.Some? && f.tag(key.value, header + payload) != mac.value { return Err(Internal); }
    } else if key.Some? {
      return Err(Internal);
    }
    return Ok(Parsed(Frame(payload, flags, mac, header), total));
  }
}
