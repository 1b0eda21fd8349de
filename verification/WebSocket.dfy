/**
 The WebSocket frame codec of src/ws.cpp: the incremental decoder for server frames and
 the masking encoder for client frames (sections 5.2 and 5.3 of RFC 6455).
 */
module WebSocket {
  import opened Bytes

  const OP_CONT: byte := 0x0
  const OP_TEXT: byte := 0x1
  const OP_BINARY: byte := 0x2
  const OP_CLOSE: byte := 0x8
  const OP_PING: byte := 0x9
  const OP_PONG: byte := 0xA
  const WS_MAX := 4194304
  const CLOSE_MAX := 125

  // ---------------------------------------------------------------------
  // Header bits

  predicate TopBit(b: byte) { b & 0x80 != 0 }
  function WithTopBit(b: byte): byte { 0x80 | b }
  function LowNibble(b: byte): byte { b & 0x0F }
  function LowSeven(b: byte): nat { (b & 0x7F) as nat }

  lemma BitsBelow128(b: byte)
    requires b < 128
    ensures b & 0x80 == 0 && b & 0x7F == b
  {}

  lemma NatBelow128(b: byte)
    requires b as nat < 128
    ensures b < 128
  {}

  lemma LengthByte(n: nat)
    requires n < 128
    ensures !TopBit(n as byte) && LowSeven(n as byte) == n
  {
    ByteRoundTrip(n);
    NatBelow128(n as byte);
    BitsBelow128(n as byte);
  }

  lemma MarkedByte(b: byte)
    ensures TopBit(WithTopBit(b)) && LowSeven(WithTopBit(b)) == LowSeven(b) && LowNibble(WithTopBit(b)) == LowNibble(b)
  {}

  // ---------------------------------------------------------------------
  // Encoding

  /** The three ways to write a length. */
  datatype Form = Short | Medium | Long

  predicate Fits(form: Form, n: nat) {
    match form
    case Short => n < 126
    case Medium => n < 0x1_0000
    case Long => n < 0x1_0000_0000_0000_0000
  }

  /** The form ws_encode_client_frame picks. */
  function FormFor(n: nat): Form { if n < 126 then Short else if n <= 0xFFFF then Medium else Long }

  /** The form is the shortest that fits, as section 5.2 of RFC 6455 demands. */
  lemma FormIsMinimal(n: nat, other: Form)
    requires Fits(other, n)
    ensures Fits(FormFor(n), n) && |Extended(FormFor(n), n)| <= |Extended(other, n)|
  {}

  function Marker(form: Form, n: nat): nat {
    match form
    case Short => n
    case Medium => 126
    case Long => 127
  }

  function Extended(form: Form, n: nat): seq<byte> {
    match form
    case Short => []
    case Medium => BeNat(2, n)
    case Long => BeNat(8, n)
  }

  /** A frame as it should arrive: any head byte, any length form that fits, no mask. */
  datatype WsFrame = WsFrame(head: byte, payload: seq<byte>, form: Form) {
    predicate Proper() { |payload| <= WS_MAX && Fits(form, |payload|) }
  }

  function ServerHeader(w: WsFrame): seq<byte>
    requires w.Proper()
  {
    [w.head, Marker(w.form, |w.payload|) as byte] + Extended(w.form, |w.payload|)
  }

  function ServerFrame(w: WsFrame): (s: seq<byte>)
    requires w.Proper()
    ensures |s| >= 2
  {
    ServerHeader(w) + w.payload
  }

  type Mask = m: seq<byte> | |m| == 4 witness [0, 0, 0, 0]

  function Masked(payload: seq<byte>, mask: Mask): seq<byte> {
    seq(|payload|, i requires 0 <= i < |payload| => payload[i] ^ mask[i % 4])
  }

  /** Head and length bytes of a client frame: FIN set, mask bit set, minimal length. */
  function ClientHeader(opcode: byte, n: nat): seq<byte>
    requires n < 0x1_0000_0000_0000_0000
  {
    [WithTopBit(opcode), WithTopBit(Marker(FormFor(n), n) as byte)] + Extended(FormFor(n), n)
  }

  /** What a client puts on the wire. */
  function ClientFrame(opcode: byte, payload: seq<byte>, mask: Mask): seq<byte>
    requires |payload| < 0x1_0000_0000_0000_0000
  {
    ClientHeader(opcode, |payload|) + mask + Masked(payload, mask)
  }

  /** The masking loop. */
  method AppendMasked(header: seq<byte>, payload: seq<byte>, mask: Mask) returns (frame: seq<byte>)
    ensures frame == header + Masked(payload, mask)
  {
    frame := header;
    for i := 0 to |payload|
      invariant frame == header + Masked(payload, mask)[..i]
    {
      frame := frame + [payload[i] ^ mask[i % 4]];
    }
  }

  /** ws_encode_client_frame, given the random mask. */
  method EncodeClientFrame(opcode: byte, payload: seq<byte>, mask: Mask) returns (frame: seq<byte>)
    requires |payload| < 0x1_0000_0000_0000_0000
    ensures frame == ClientFrame(opcode, payload, mask)
  {
    hide BeNat, WithTopBit, Masked;
    var n := |payload|;
    frame := [WithTopBit(opcode)];
    if n < 126 {
      frame := frame + [WithTopBit(n as byte)];
    } else if n <= 0xFFFF {
      frame := frame + [WithTopBit(126)] + BeNat(2, n);
    } else {
      frame := frame + [WithTopBit(127)] + BeNat(8, n);
    }
    assert frame == ClientHeader(opcode, n);
    frame := AppendMasked(frame + mask, payload, mask);
  }

  // ---------------------------------------------------------------------
  // Decoding

  datatype Incoming = Incoming(fin: bool, opcode: byte, payload: seq<byte>, consumed: nat)

  /** Bytes of header announced by a length byte. */
  function HeaderSize(marker: nat): nat { if marker == 126 then 4 else if marker == 127 then 10 else 2 }

  function AnnouncedLength(buf: seq<byte>): nat
    requires |buf| >= 2 && |buf| >= HeaderSize(LowSeven(buf[1]))
  {
    var marker := LowSeven(buf[1]);
    if marker == 126 then FromBeNat(buf[2..4]) else if marker == 127 then FromBeNat(buf[2..10]) else marker
  }

  /** ws_try_decode_server_frame: Ok(None) is "more bytes needed". */
  function Decode(buf: seq<byte>): (r: Result<Option<Incoming>>)
    ensures r.Ok? && r.value.Some? ==> 2 <= r.value.value.consumed <= |buf| && |r.value.value.payload| <= WS_MAX
  {
    if |buf| < 2 then Ok(None)
    else if TopBit(buf[1]) then Err(Internal)
    else
      var start := HeaderSize(LowSeven(buf[1]));
      if |buf| < start then Ok(None)
      else
        var n := AnnouncedLength(buf);
        if n > WS_MAX then Err(PayloadTooLarge(n))
        else if |buf| < start + n then Ok(None)
        else Ok(Some(Incoming(TopBit(buf[0]), LowNibble(buf[0]), buf[start..start + n], start + n)))
  }

  method TryDecodeServerFrame(buf: seq<byte>) returns (r: Result<Option<Incoming>>)
    ensures r == Decode(buf)
  {
    hide FromBeNat, TopBit, LowNibble, LowSeven;
    if |buf| < 2 { return Ok(None); }
    var fin, opcode, masked := TopBit(buf[0]), LowNibble(buf[0]), TopBit(buf[1]);
    var n, offset := LowSeven(buf[1]), 2;
    if masked { return Err(Internal); }
    if n == 126 {
      if |buf| < offset + 2 { return Ok(None); }
      n := FromBeNat(buf[offset..offset + 2]);
      offset := offset + 2;
    } else if n == 127 {
      if |buf| < offset + 8 { return Ok(None); }
      n := FromBeNat(buf[offset..offset + 8]);
      offset := offset + 8;
    }
    if n > WS_MAX { return Err(PayloadTooLarge(n)); }
    if |buf| < offset + n { return Ok(None); }
    return Ok(Some(Incoming(fin, opcode, buf[offset..offset + n], offset + n)));
  }

  lemma MarkerIsLowSeven(w: WsFrame)
    requires w.Proper()
    ensures var b := Marker(w.form, |w.payload|) as byte;
      !TopBit(b) && LowSeven(b) == Marker(w.form, |w.payload|) && |ServerHeader(w)| == HeaderSize(LowSeven(b))
  {}

  lemma AnnouncesItsLength(w: WsFrame, buf: seq<byte>)
    requires w.Proper() && |buf| >= |ServerHeader(w)| && buf[..|ServerHeader(w)|] == ServerHeader(w)
    ensures |buf| >= 2 && buf[0] == w.head && !TopBit(buf[1]) && HeaderSize(LowSeven(buf[1])) == |ServerHeader(w)|
    ensures AnnouncedLength(buf) == |w.payload|
  {
    hide TopBit, LowSeven, BeNat, FromBeNat;
    MarkerIsLowSeven(w);
    var h := ServerHeader(w);
    assert buf[0] == buf[..|h|][0] && buf[1] == buf[..|h|][1];
    Pow256Values();
    match w.form {
      case Short =>
      case Medium =>
        BeNatRoundTrip(2, |w.payload|);
        assert buf[2..4] == buf[..|h|][2..4] == h[2..4];
      case Long =>
        BeNatRoundTrip(8, |w.payload|);
        assert buf[2..10] == buf[..|h|][2..10] == h[2..10];
    }
  }

  /** An encoded frame followed by anything decodes to itself, with its exact length. */
  lemma FrameDecodes(w: WsFrame, rest: seq<byte>)
    requires w.Proper()
    ensures Decode(ServerFrame(w) + rest)
      == Ok(Some(Incoming(TopBit(w.head), LowNibble(w.head), w.payload, |ServerFrame(w)|)))
  {
    hide TopBit, LowNibble, LowSeven, AnnouncedLength, ServerHeader;
    var buf, h := ServerFrame(w) + rest, ServerHeader(w);
    assert buf[..|h|] == h;
    AnnouncesItsLength(w, buf);
    assert buf[|h|..|h| + |w.payload|] == w.payload;
  }

  /** No proper prefix of an encoded frame is mistaken for a frame or an error. */
  lemma PrefixNeedsMore(w: WsFrame, k: nat)
    requires w.Proper() && k < |ServerFrame(w)|
    ensures Decode(ServerFrame(w)[..k]) == Ok(None)
  {
    hide TopBit, LowNibble, LowSeven, AnnouncedLength;
    var buf, h := ServerFrame(w)[..k], ServerHeader(w);
    if k >= |h| {
      assert buf[..|h|] == h;
      AnnouncesItsLength(w, buf);
    } else if k >= 2 {
      MarkerIsLowSeven(w);
      assert buf[1] == h[1];
    }
  }

  /** Once the decoder has an answer, later bytes do not change it. */
  lemma AnswerIsStable(buf: seq<byte>, more: seq<byte>)
    requires Decode(buf) != Ok(None)
    ensures Decode(buf + more) == Decode(buf)
  {
    hide TopBit, LowNibble, LowSeven, FromBeNat;
    var all := buf + more;
    assert buf == all[..|buf|];
    if !TopBit(buf[1]) {
      var start := HeaderSize(LowSeven(buf[1]));
      if start == 4 { PrefixSlice(buf, all, 2, 4); }
      if start == 10 { PrefixSlice(buf, all, 2, 10); }
      var n := AnnouncedLength(buf);
      if n <= WS_MAX { PrefixSlice(buf, all, start, start + n); }
    }
  }

  /** What an undecided buffer can still become: it is shorter than the frame it begins, or than ten bytes. */
  lemma UndecidedIsShort(all: seq<byte>, k: nat)
    requires k <= |all| && Decode(all[..k]) == Ok(None)
    ensures match Decode(all)
      case Ok(Some(frame)) => k < frame.consumed
      case Err(_) => k < 10
      case Ok(None) => true
  {
    var buf := all[..k];
    if Decode(all) != Ok(None) && k >= 2 {
      hide TopBit, LowNibble, LowSeven, FromBeNat;
      assert buf[0] == all[0] && buf[1] == all[1];
      var start := HeaderSize(LowSeven(all[1]));
      if k >= start {
        if start == 4 { PrefixSlice(buf, all, 2, 4); }
        if start == 10 { PrefixSlice(buf, all, 2, 10); }
      }
    }
  }

  // ---------------------------------------------------------------------
  // The formats in literal numbers

  /** FIN is bit 7 of the head byte, the opcode its low four bits; the three reserved bits are ignored. */
  lemma HeadBits(head: byte)
    ensures TopBit(head) <==> head & 0x80 != 0
    ensures LowNibble(head) == head & 0x0F
    ensures WithTopBit(head) == head | 0x80
  {}

  lemma LengthBits(b: byte)
    ensures TopBit(b) <==> b as nat >= 128
    ensures !TopBit(b) ==> LowSeven(b) == b as nat
  {
    LengthBitsBv(b);
    if b as nat < 128 { NatBelow128(b); } else { NatFrom128(b); }
  }

  lemma LengthBitsBv(b: byte)
    ensures b & 0x80 != 0 <==> b >= 128
    ensures b < 128 ==> b & 0x7F == b
  {}

  lemma NatFrom128(b: byte)
    requires b as nat >= 128
    ensures b >= 128
  {}

  /** The length a frame announces: in the length byte, or in the two or eight bytes after it. */
  function Announced(buf: seq<byte>): nat
    requires |buf| >= 2 && |buf| >= Start(buf)
  {
    if buf[1] as nat == 126 then buf[2] as nat * 256 + buf[3] as nat
    else if buf[1] as nat == 127 then FromBeNat(buf[2..10])
    else buf[1] as nat
  }

  /** Where the payload of an unmasked frame starts. */
  function Start(buf: seq<byte>): nat
    requires |buf| >= 2
  {
    if buf[1] as nat == 126 then 4 else if buf[1] as nat == 127 then 10 else 2
  }

  lemma TwoByteNumber(a: byte, b: byte)
    ensures FromBeNat([a, b]) == a as nat * 256 + b as nat
  {
    assert FromBeNat([]) == 0;
    assert [a][..0] == [] && FromBeNat([a]) == a as nat;
    assert [a, b][..1] == [a];
  }

  /** What the decoder makes of any buffer: wait, refuse, or take. */
  lemma DecodeVerdict(buf: seq<byte>)
    ensures |buf| < 2 ==> Decode(buf) == Ok(None)
    ensures |buf| >= 2 && buf[1] as nat >= 128 ==> Decode(buf) == Err(Internal)
    ensures |buf| >= 2 && buf[1] as nat < 128 && |buf| < Start(buf) ==> Decode(buf) == Ok(None)
    ensures |buf| >= 2 && buf[1] as nat < 128 && |buf| >= Start(buf) ==>
      var start, n := Start(buf), Announced(buf);
      && (n > 4194304 ==> Decode(buf) == Err(PayloadTooLarge(n)))
      && (n <= 4194304 && |buf| < start + n ==> Decode(buf) == Ok(None))
      && (n <= 4194304 && |buf| >= start + n ==>
            Decode(buf) == Ok(Some(Incoming(buf[0] & 0x80 != 0, buf[0] & 0x0F, buf[start..start + n], start + n))))
  {
    if |buf| >= 2 {
      LengthBits(buf[1]);
      HeadBits(buf[0]);
      hide TopBit, LowSeven, LowNibble, FromBeNat;
      if |buf| >= 4 {
        TwoByteNumber(buf[2], buf[3]);
        assert buf[2..4] == [buf[2], buf[3]];
      }
    }
  }

  lemma ExtendedBytes(n: nat)
    ensures var m, e := Marker(FormFor(n), n), Extended(FormFor(n), n);
      && m == (if n < 126 then n else if n < 65536 then 126 else 127)
      && |e| == (if n < 126 then 0 else if n < 65536 then 2 else 8)
      && (|e| == 2 ==> e == [(n / 256) as byte, (n % 256) as byte])
      && (|e| == 8 ==> e == BeNat(8, n))
  {
    if n < 65536 { TwoDigits(n); }
    hide BeNat;
  }

  lemma TwoDigits(n: nat)
    requires n < 65536
    ensures BeNat(2, n) == [(n / 256) as byte, (n % 256) as byte]
  {
    BeNatDigits(n);
    hide BeNat;
    assert n / 256 % 256 == n / 256;
  }

  lemma ClientHeaderBytes(opcode: byte, n: nat)
    requires n < 0x1_0000_0000_0000_0000
    ensures var h := ClientHeader(opcode, n);
      && |h| == (if n < 126 then 2 else if n < 65536 then 4 else 10)
      && h[0] == opcode | 0x80
      && h[1] as nat == 128 + (if n < 126 then n else if n < 65536 then 126 else 127)
      && (|h| == 4 ==> h[2..] == [(n / 256) as byte, (n % 256) as byte])
      && (|h| == 10 ==> h[2..] == BeNat(8, n))
  {
    HeadBits(opcode);
    ExtendedBytes(n);
    MarkedValue(Marker(FormFor(n), n));
    hide BeNat, WithTopBit, Extended, Marker;
    assert ClientHeader(opcode, n)[2..] == Extended(FormFor(n), n);
  }

  /**
   A client frame: FIN and opcode, mask bit and shortest length, mask, payload byte k combined with
   mask byte k mod 4.
   */
  lemma ClientFrameBytes(opcode: byte, payload: seq<byte>, mask: Mask)
    requires |payload| < 0x1_0000_0000_0000_0000
    ensures var frame, n := ClientFrame(opcode, payload, mask), |payload|;
      var start := if n < 126 then 2 else if n < 65536 then 4 else 10;
      && |frame| == start + 4 + n
      && frame[0] == opcode | 0x80
      && frame[1] as nat == 128 + (if n < 126 then n else if n < 65536 then 126 else 127)
      && (start == 4 ==> frame[2..4] == [(n / 256) as byte, (n % 256) as byte])
      && (start == 10 ==> frame[2..10] == BeNat(8, n))
      && frame[start..start + 4] == mask
      && forall k :: 0 <= k < n ==> frame[start + 4 + k] == payload[k] ^ mask[k % 4]
  {
    var n := |payload|;
    var h, frame := ClientHeader(opcode, n), ClientFrame(opcode, payload, mask);
    ClientHeaderBytes(opcode, n);
    MaskedAt(payload, mask);
    hide ClientHeader, Masked;
    assert frame[|h|..|h| + 4] == mask;
    assert frame[0] == h[0] && frame[1] == h[1] && frame[2..|h|] == h[2..];
  }

  lemma MaskedAt(payload: seq<byte>, mask: Mask)
    ensures |Masked(payload, mask)| == |payload|
    ensures forall k :: 0 <= k < |payload| ==> Masked(payload, mask)[k] == payload[k] ^ mask[k % 4]
  {}

  lemma MarkedBv(b: byte)
    requires b < 128
    ensures 0x80 | b == b + 128
  {}

  lemma MarkedValue(n: nat)
    requires n < 128
    ensures WithTopBit(n as byte) as nat == 128 + n
  {
    ByteRoundTrip(n);
    NatBelow128(n as byte);
    MarkedBv(n as byte);
  }

  // ---------------------------------------------------------------------
  // Client frames, unmasked

  lemma UnmaskRestores(payload: seq<byte>, mask: Mask)
    ensures Masked(Masked(payload, mask), mask) == payload
  {}

  /**
   The peer's side, section 5.3 of RFC 6455: drop the mask bit and the four mask bytes; byte i of the
   rest is combined with mask byte i mod 4.
   */
  function Unmasked(frame: seq<byte>): seq<byte>
    requires |frame| >= 6 && |frame| >= HeaderSize(LowSeven(frame[1])) + 4
  {
    var start := HeaderSize(LowSeven(frame[1]));
    [frame[0], LowSeven(frame[1]) as byte] + frame[2..start]
    + seq(|frame| - start - 4, i requires 0 <= i < |frame| - start - 4 => frame[start + 4 + i] ^ frame[start + i % 4])
  }

  lemma UnmaskedIsMasked(frame: seq<byte>, start: nat)
    requires |frame| >= start + 4
    ensures seq(|frame| - start - 4,
        i requires 0 <= i < |frame| - start - 4 => frame[start + 4 + i] ^ frame[start + i % 4])
         == Masked(frame[start + 4..], frame[start..start + 4])
  {}

  lemma ClientHeaderShape(opcode: byte, n: nat)
    requires n <= WS_MAX
    ensures var h, m := ClientHeader(opcode, n), Marker(FormFor(n), n);
      && |h| == HeaderSize(m) && h[0] == WithTopBit(opcode) && TopBit(h[1]) && LowSeven(h[1]) == m && m < 128
      && h[2..] == Extended(FormFor(n), n)
  {
    hide TopBit, LowSeven, WithTopBit, BeNat;
    var m := Marker(FormFor(n), n);
    LengthByte(m);
    MarkedByte(m as byte);
  }

  /** Masked, minimal in length, and unmasking to a server frame with the same head and payload. */
  lemma ClientFrameShape(opcode: byte, payload: seq<byte>, mask: Mask)
    requires |payload| <= WS_MAX
    ensures var frame, w := ClientFrame(opcode, payload, mask),
        WsFrame(WithTopBit(opcode), payload, FormFor(|payload|));
      && |frame| >= 6 && TopBit(frame[1]) && |frame| >= HeaderSize(LowSeven(frame[1])) + 4
      && w.Proper() && Unmasked(frame) == ServerFrame(w)
  {
    hide TopBit, LowSeven, WithTopBit, BeNat, Masked, ClientHeader, Extended, Marker;
    var n := |payload|;
    var h, frame := ClientHeader(opcode, n), ClientFrame(opcode, payload, mask);
    ClientHeaderShape(opcode, n);
    assert frame[0] == h[0] && frame[1] == h[1] && frame[2..|h|] == h[2..];
    assert frame[|h|..|h| + 4] == mask;
    assert frame[|h| + 4..] == Masked(payload, mask);
    UnmaskedIsMasked(frame, |h|);
    UnmaskRestores(payload, mask);
  }

  /** So the peer reads back the opcode and payload the client was given. */
  lemma ClientFrameUnmasks(opcode: byte, payload: seq<byte>, mask: Mask)
    requires |payload| <= WS_MAX
    ensures var frame := ClientFrame(opcode, payload, mask);
      && |frame| >= 6 && |frame| >= HeaderSize(LowSeven(frame[1])) + 4
      && Decode(Unmasked(frame)) == Ok(Some(Incoming(true, LowNibble(opcode), payload, |Unmasked(frame)|)))
  {
    hide TopBit, LowNibble, LowSeven, WithTopBit, Decode, Unmasked, ClientFrame, ServerFrame;
    var w := WsFrame(WithTopBit(opcode), payload, FormFor(|payload|));
    ClientFrameShape(opcode, payload, mask);
    MarkedByte(opcode);
    FrameDecodes(w, []);
    assert ServerFrame(w) + [] == ServerFrame(w);
  }
}
