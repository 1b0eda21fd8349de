/** Results, errors and the big-endian fields shared by every wire format. */
module Bytes {
  type byte = bv8

  datatype Option<+T> = None | Some(value: T)

  /** The exceptions of include/vynkor/error.hpp that the modelled code throws. */
  datatype Error =
    | IoError
    | FrameMagicMismatch
    | FrameCrcMismatch
    | FrameReadTimeout
    | PayloadTooLarge(size: nat)
    | ProtoError
    | Timeout
    | Internal

  datatype Result<+T> = Ok(value: T) | Err(error: Error)

  // Fields whose bits matter stay bit vectors.

  function Be16(x: bv16): (s: seq<byte>)
    ensures |s| == 2
  {
    [((x >> 8) & 0xFF) as byte, (x & 0xFF) as byte]
  }

  function FromBe16(s: seq<byte>): bv16
    requires |s| == 2
  {
    ((s[0] as bv16) << 8) | (s[1] as bv16)
  }

  function Be32(x: bv32): (s: seq<byte>)
    ensures |s| == 4
  {
    [((x >> 24) & 0xFF) as byte, ((x >> 16) & 0xFF) as byte, ((x >> 8) & 0xFF) as byte, (x & 0xFF) as byte]
  }

  function FromBe32(s: seq<byte>): bv32
    requires |s| == 4
  {
    ((s[0] as bv32) << 24) | ((s[1] as bv32) << 16) | ((s[2] as bv32) << 8) | (s[3] as bv32)
  }

  lemma Be16RoundTrip(x: bv16)
    ensures FromBe16(Be16(x)) == x
  {}

  lemma Be16Canonical(s: seq<byte>)
    requires |s| == 2
    ensures Be16(FromBe16(s)) == s
  {}

  lemma Be32RoundTrip(x: bv32)
    ensures FromBe32(Be32(x)) == x
  {}

  lemma Be32Canonical(s: seq<byte>)
    requires |s| == 4
    ensures Be32(FromBe32(s)) == s
  {}

  /** Most significant byte first. */
  lemma NetworkOrder(x: bv16, y: bv32)
    ensures Be16(x)[0] as bv16 == x >> 8 && Be16(x)[1] as bv16 == x & 0x00FF
    ensures Be32(y)[0] as bv32 == y >> 24 && Be32(y)[1] as bv32 == (y >> 16) & 0xFF
    ensures Be32(y)[2] as bv32 == (y >> 8) & 0xFF && Be32(y)[3] as bv32 == y & 0xFF
  {}

  // Lengths, sequence numbers and identifiers are numbers of a fixed byte width.

  function Pow256(width: nat): nat {
    if width == 0 then 1 else 256 * Pow256(width - 1)
  }

  /** The `width` low-order bytes of `n`, most significant first. */
  function BeNat(width: nat, n: nat): (s: seq<byte>)
    ensures |s| == width
  {
    if width == 0 then [] else BeNat(width - 1, n / 256) + [(n % 256) as byte]
  }

  function FromBeNat(s: seq<byte>): nat {
    if s == [] then 0 else FromBeNat(s[..|s| - 1]) * 256 + s[|s| - 1] as nat
  }

  lemma ByteRoundTrip(n: nat)
    requires n < 256
    ensures (n as byte) as nat == n
  {
    assert n % 256 == n;
  }

  lemma ByteAndBack(b: byte)
    ensures (b as nat) < 256 && (b as nat) as byte == b
  {}

  lemma {:induction false} BeNatRoundTrip(width: nat, n: nat)
    requires n < Pow256(width)
    ensures FromBeNat(BeNat(width, n)) == n
  {
    if width != 0 {
      BeNatRoundTrip(width - 1, n / 256);
      ByteRoundTrip(n % 256);
      assert BeNat(width, n)[..width - 1] == BeNat(width - 1, n / 256);
    }
  }

  lemma Digit(q: nat, r: nat)
    requires r < 256
    ensures (q * 256 + r) / 256 == q && (q * 256 + r) % 256 == r
  {}

  lemma BeNatSnoc(width: nat, q: nat, b: byte)
    ensures BeNat(width + 1, q * 256 + b as nat) == BeNat(width, q) + [b]
  {
    ByteAndBack(b);
    Digit(q, b as nat);
  }

  lemma {:induction false} BeNatCanonical(s: seq<byte>)
    ensures BeNat(|s|, FromBeNat(s)) == s && FromBeNat(s) < Pow256(|s|)
  {
    hide BeNat;
    if s == [] {
      assert BeNat(0, 0) == [];
    } else {
      var front, last := s[..|s| - 1], s[|s| - 1];
      BeNatCanonical(front);
      BeNatSnoc(|front|, FromBeNat(front), last);
      ByteAndBack(last);
      assert s == front + [last];
    }
  }

  /** The fields of two and four bytes, digit by digit, most significant first. */
  lemma BeNatDigits(n: nat)
    ensures BeNat(2, n) == [(n / 256 % 256) as byte, (n % 256) as byte]
    ensures BeNat(4, n) == [(n / 256 / 256 / 256 % 256) as byte, (n / 256 / 256 % 256) as byte,
                            (n / 256 % 256) as byte, (n % 256) as byte]
  {
    assert BeNat(0, n / 256 / 256) == [] && BeNat(0, n / 256 / 256 / 256 / 256) == [];
    assert BeNat(2, n / 256 / 256) == BeNat(1, n / 256 / 256 / 256) + [(n / 256 / 256 % 256) as byte];
    assert BeNat(4, n) == BeNat(3, n / 256) + [(n % 256) as byte];
  }

  /** A field of any width puts the low-order byte last. */
  lemma BeNatLast(width: nat, n: nat)
    requires width > 0
    ensures BeNat(width, n)[width - 1] == (n % 256) as byte && BeNat(width, n)[..width - 1] == BeNat(width - 1, n / 256)
  {}

  /** Slices of a prefix are slices of the whole. */
  lemma PrefixSlice<T>(a: seq<T>, b: seq<T>, i: nat, j: nat)
    requires i <= j <= |a| <= |b| && a == b[..|a|]
    ensures a[i..j] == b[i..j]
  {}

  lemma Pow256Values()
    ensures Pow256(2) == 0x1_0000 && Pow256(4) == 0x1_0000_0000 && Pow256(8) == 0x1_0000_0000_0000_0000
  {}

  /** A subset is no larger, and only the whole set is as large. */
  lemma SubsetSize<T>(s: set<T>, t: set<T>)
    requires s <= t
    ensures |s| <= |t| && (|s| == |t| ==> s == t)
  {
    assert t == s + (t - s);
    assert |t| == |s| + |t - s|;
  }
}
