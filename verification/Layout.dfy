/**
 The wire formats byte by byte, in literal numbers: what a peer written from the protocol's
 description alone would produce and accept.
 */
module Layout {
  import opened Bytes
  import opened Framing
  import Crc32

  // ---------------------------------------------------------------------
  // Headers

  /** Magic "VR", flags, length, target and CRC, most significant byte first. */
  lemma HeaderBytes(flags: bv16, target: seq<byte>, payload: seq<byte>)
    requires |target| == 32 && |payload| <= 1048576
    ensures var h, n, crc := Header(flags, target, payload), |payload|, Crc32.Crc(payload);
      && |h| == 44
      && h[0] == 0x56 && h[1] == 0x52
      && h[2] as bv16 == flags >> 8 && h[3] as bv16 == flags & 0x00FF
      && h[4..8] == [(n / 256 / 256 / 256 % 256) as byte, (n / 256 / 256 % 256) as byte,
                     (n / 256 % 256) as byte, (n % 256) as byte]
      && h[8..40] == target
      && h[40] as bv32 == crc >> 24 && h[41] as bv32 == (crc >> 16) & 0xFF
      && h[42] as bv32 == (crc >> 8) & 0xFF && h[43] as bv32 == crc & 0xFF
  {
    MagicBytes();
    hide Be16, Be32, BeNat, Crc32.Crc;
    var crc := Crc32.Crc(payload);
    NetworkOrder(flags, crc);
    BeNatDigits(|payload|);
    var h := Header(flags, target, payload);
    assert h[0..2] == Be16(0x5652) && h[2..4] == Be16(flags) && h[4..8] == BeNat(4, |payload|)
      && h[40..44] == Be32(crc);
    assert h[0] == h[0..2][0] && h[1] == h[0..2][1] && h[2] == h[2..4][0] && h[3] == h[2..4][1];
    assert h[40] == h[40..44][0] && h[41] == h[40..44][1] && h[42] == h[40..44][2] && h[43] == h[40..44][3];
  }

  lemma MagicBytes()
    ensures Be16(0x5652) == [0x56, 0x52]
  {}

  /** A fragment's ten bytes: fragment id, sequence, total, stream id. */
  lemma FragmentBytes(h: FragmentHeader)
    ensures var p := PackFragment(h);
      && p[0..2] == [(h.fragmentId / 256 % 256) as byte, (h.fragmentId % 256) as byte]
      && p[2..4] == [(h.sequence / 256 % 256) as byte, (h.sequence % 256) as byte]
      && p[4..6] == [(h.total / 256 % 256) as byte, (h.total % 256) as byte]
      && p[6..10] == [(h.streamId / 256 / 256 / 256 % 256) as byte, (h.streamId / 256 / 256 % 256) as byte,
                      (h.streamId / 256 % 256) as byte, (h.streamId % 256) as byte]
  {
    hide BeNat;
    BeNatDigits(h.fragmentId);
    BeNatDigits(h.sequence);
    BeNatDigits(h.total);
    BeNatDigits(h.streamId);
  }

  // ---------------------------------------------------------------------
  // What pack_frame_raw puts out

  lemma FlagTests(flags: bv16)
    ensures Has(flags, FLAG_MAC) <==> flags & 0x0001 != 0
    ensures Has(flags, FLAG_COMPRESSED) <==> flags & 0x0002 != 0
    ensures Has(flags, FLAG_FRAGMENTED) <==> flags & 0x0004 != 0
    ensures Has(flags, FLAG_RAW_BINARY) <==> flags & 0x0010 != 0
  {}

  lemma FlagUpdates(flags: bv16)
    ensures With(flags, FLAG_COMPRESSED) == flags | 0x0002 && With(flags, FLAG_MAC) == flags | 0x0001
  {}

  lemma BitsCleared(x: bv16)
    ensures x & !0x0002 == x & 0xFFFD
    ensures x & 0x0002 == 0 ==> x & 0xFFFD == x
  {}

  lemma FlagCleared(flags: bv16)
    ensures Without(flags, FLAG_COMPRESSED) == flags & 0xFFFD
    ensures flags & 0x0002 == 0 ==> flags & 0xFFFD == flags
  {
    BitsCleared(flags);
  }

  /**
   Header, payload, tag.  The payload is compressed exactly when it has at least 64 KiB, is neither
   marked compressed nor raw binary, and shrinks; the tag covers header and payload as they were before.
   */
  lemma PackedBytes(f: Primitives, target: seq<byte>, flags: bv16, payload: seq<byte>, key: Option<Key>)
    requires |payload| <= 1048576
    ensures var shrinks := |payload| >= 65536 && flags & 0x0002 == 0 && flags & 0x0010 == 0
      && |f.compress(payload)| < |payload|;
      var wireFlags, wire := if shrinks then flags | 0x0002 else flags,
                             if shrinks then f.compress(payload) else payload;
      var packed, t := Packed(f, target, flags, payload, key), TargetField(target);
      && |packed| == 44 + |wire| + (if key.Some? then 32 else 0)
      && packed[..44] == Header(wireFlags, t, wire) && packed[44..44 + |wire|] == wire
      && (key.Some? ==> packed[44 + |wire|..] == f.tag(key.value, Header(flags, t, payload) + payload))
  {
    hide Packed, Header, TargetField, Has, With, Without, FromBe16, FromBe32, FromBeNat, Crc32.Crc;
    FlagTests(flags);
    FlagUpdates(flags);
    PackedFields(f, target, flags, payload, key);
    var packed := Packed(f, target, flags, payload, key);
    assert packed[44 + |WireForm(f, flags, payload).1|..] == packed[44 + |WireForm(f, flags, payload).1|..|packed|];
  }

  // ---------------------------------------------------------------------
  // What parse_frame_bytes makes of any buffer

  lemma WordBits(a: byte, b: byte)
    ensures FromBe16([a, b]) & 0x0001 != 0 <==> b & 0x01 != 0
    ensures FromBe16([a, b]) & 0x0002 != 0 <==> b & 0x02 != 0
    ensures FromBe16([a, b]) == 0x5652 <==> a == 0x56 && b == 0x52
  {}

  /** The length field as a number. */
  function LengthField(buf: seq<byte>): nat
    requires |buf| >= 44
  {
    ((buf[4] as nat * 256 + buf[5] as nat) * 256 + buf[6] as nat) * 256 + buf[7] as nat
  }

  lemma LengthOfBytes(buf: seq<byte>)
    requires |buf| >= 44
    ensures LengthOf(buf) == LengthField(buf)
  {
    var s := buf[4..8];
    assert FromBeNat([]) == 0;
    assert FromBeNat(s[..1]) == s[0] as nat by { assert s[..1][..0] == []; }
    assert FromBeNat(s[..2]) == FromBeNat(s[..1]) * 256 + s[1] as nat by { assert s[..2][..1] == s[..1]; }
    assert FromBeNat(s[..3]) == FromBeNat(s[..2]) * 256 + s[2] as nat by { assert s[..3][..2] == s[..2]; }
    assert FromBeNat(s) == FromBeNat(s[..3]) * 256 + s[3] as nat;
  }

  lemma CrcField(buf: seq<byte>, crc: bv32)
    requires |buf| >= 44
    ensures CrcOf(buf) == crc <==> buf[40..44] == Be32(crc)
  {
    Be32RoundTrip(crc);
    Be32Canonical(buf[40..44]);
  }

  /** The frame's extent: header, payload, and a tag if bit 0 of the flags says so. */
  function Extent(buf: seq<byte>): nat
    requires |buf| >= 44
  {
    44 + LengthField(buf) + if buf[3] & 0x01 != 0 then 32 else 0
  }

  lemma FieldsOfBytes(buf: seq<byte>)
    requires |buf| >= 44
    ensures Has(FlagsOf(buf), FLAG_MAC) <==> buf[3] & 0x01 != 0
    ensures Has(FlagsOf(buf), FLAG_COMPRESSED) <==> buf[3] & 0x02 != 0
    ensures FromBe16(buf[0..2]) == FRAME_MAGIC <==> buf[0] == 0x56 && buf[1] == 0x52
    ensures LengthOf(buf) == LengthField(buf) && TotalOf(buf) == Extent(buf)
  {
    hide FromBe16, FromBeNat, Has;
    WordBits(buf[2], buf[3]);
    WordBits(buf[0], buf[1]);
    FlagTests(FlagsOf(buf));
    LengthOfBytes(buf);
    assert buf[2..4] == [buf[2], buf[3]] && buf[0..2] == [buf[0], buf[1]];
  }

  /** The first reason to refuse a buffer, in the order the code looks for them. */
  lemma ParseRefuses(f: Primitives, buf: seq<byte>, key: Option<Key>)
    ensures var r := Parse(f, buf, key);
      && (|buf| < 44 ==> r == Err(IoError))
      && (|buf| >= 44 && (buf[0] != 0x56 || buf[1] != 0x52) ==> r == Err(FrameMagicMismatch))
      && (|buf| >= 44 && buf[0] == 0x56 && buf[1] == 0x52 ==>
            && (LengthField(buf) > 1048576 ==> r == Err(PayloadTooLarge(LengthField(buf))))
            && (LengthField(buf) <= 1048576 && |buf| < Extent(buf) ==> r == Err(IoError))
            && (LengthField(buf) <= 1048576 && |buf| >= Extent(buf) ==>
                  && (buf[40..44] != Be32(Crc32.Crc(buf[44..44 + LengthField(buf)])) ==> r == Err(FrameCrcMismatch))
                  && (buf[40..44] == Be32(Crc32.Crc(buf[44..44 + LengthField(buf)])) ==>
                        r == Err(Internal) || (r.Ok? && r.value.consumed == Extent(buf)))))
  {
    hide Header, Has, With, Without, FromBe16, FromBe32, FromBeNat, LengthField, Crc32.Crc, Be32, TotalOf,
         LengthOf, CrcOf, Extent;
    if |buf| >= 44 {
      FieldsOfBytes(buf);
      if LengthField(buf) <= 1048576 && |buf| >= Extent(buf) {
        ExtentCovers(buf);
        CrcField(buf, Crc32.Crc(buf[44..44 + LengthField(buf)]));
      }
    }
  }

  lemma ExtentCovers(buf: seq<byte>)
    requires |buf| >= 44
    ensures Extent(buf) >= 44 + LengthField(buf)
  {}

  /** The payload before compression, if it can be had and fits. */
  function PlainPayload(f: Primitives, buf: seq<byte>): Option<seq<byte>>
    requires |buf| >= 44 && |buf| >= 44 + LengthField(buf)
  {
    var wire := buf[44..44 + LengthField(buf)];
    var plain := if buf[3] & 0x02 != 0 then f.decompress(wire) else Some(wire);
    if plain.Some? && |plain.value| <= 1048576 then plain else None
  }

  /** The frame a buffer stands for: COMPRESSED cleared, its header as it was before compression. */
  function PlainFrame(f: Primitives, buf: seq<byte>): Frame
    requires |buf| >= 44
    requires |buf| >= Extent(buf) >= 44 + LengthField(buf) && PlainPayload(f, buf).Some?
  {
    var plain, flags := PlainPayload(f, buf).value, FromBe16(buf[2..4]) & 0xFFFD;
    Frame(plain, flags,
          if buf[3] & 0x01 != 0 then Some(buf[44 + LengthField(buf)..Extent(buf)]) else None,
          if buf[3] & 0x02 != 0 then Header(flags, buf[8..40], plain) else buf[..44])
  }

  lemma NormalizedIsPlain(f: Primitives, buf: seq<byte>)
    requires |buf| >= 44 && LengthField(buf) <= 1048576 && |buf| >= Extent(buf) >= 44 + LengthField(buf)
    ensures |buf| >= TotalOf(buf)
    ensures Normalized(f, buf) == if PlainPayload(f, buf).Some? then Ok(PlainFrame(f, buf)) else Err(Internal)
  {
    hide Header, Has, Without, FromBe16, LengthField, LengthOf, TotalOf, Extent;
    FieldsOfBytes(buf);
    FlagTests(FlagsOf(buf));
    FlagCleared(FlagsOf(buf));
  }

  /** Past those checks a frame is accepted exactly when its payload can be had and, with a key, its tag is right. */
  lemma ParseAcceptsIff(f: Primitives, buf: seq<byte>, key: Option<Key>)
    requires |buf| >= 44 && buf[0] == 0x56 && buf[1] == 0x52
    requires LengthField(buf) <= 1048576 && |buf| >= Extent(buf) >= 44 + LengthField(buf)
    requires buf[40..44] == Be32(Crc32.Crc(buf[44..44 + LengthField(buf)]))
    ensures var r := Parse(f, buf, key);
      if PlainPayload(f, buf).None? then r == Err(Internal)
      else
        var frame := PlainFrame(f, buf);
        var message := frame.header + frame.payload;
        r == if key.None? || frame.mac == Some(f.tag(key.value, message)) then Ok(Parsed(frame, Extent(buf)))
             else Err(Internal)
  {
    hide Header, Has, FromBe16, LengthField, Crc32.Crc, Be32, TotalOf, LengthOf, CrcOf, Extent, Normalized,
         PlainPayload, PlainFrame;
    FieldsOfBytes(buf);
    CrcField(buf, Crc32.Crc(buf[44..44 + LengthField(buf)]));
    NormalizedIsPlain(f, buf);
  }
}
