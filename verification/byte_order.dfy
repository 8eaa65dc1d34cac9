/** Fixed-width unsigned integers and their big-endian byte encodings,
    as produced by Go's encoding/binary.BigEndian and by the 24-bit
    helpers writeUInt24 / readUInt24 of the Diameter codec. */
module ByteOrder {

  type uint8 = x: int | 0 <= x < 0x100
  type uint16 = x: int | 0 <= x < 0x1_0000
  type uint24 = x: int | 0 <= x < 0x100_0000
  type uint32 = x: int | 0 <= x < 0x1_0000_0000
  type uint64 = x: int | 0 <= x < 0x1_0000_0000_0000_0000

  /** 256 to the power n: one more than the largest value n bytes hold. */
  function Pow256(n: nat): (r: nat)
    ensures r >= 1
  {
    if n == 0 then 1 else 256 * Pow256(n - 1)
  }

  lemma Pow256Values()
    ensures Pow256(2) == 0x1_0000
    ensures Pow256(3) == 0x100_0000
    ensures Pow256(4) == 0x1_0000_0000
    ensures Pow256(8) == 0x1_0000_0000_0000_0000
  {
  }

  /** The n-byte big-endian encoding of x, most significant byte first. */
  function ToBigEndian(x: nat, n: nat): (r: seq<uint8>)
    requires x < Pow256(n)
    ensures |r| == n
  {
    if n == 0 then [] else ToBigEndian(x / 256, n - 1) + [x % 256]
  }

  /** The number a big-endian byte sequence denotes. */
  function FromBigEndian(s: seq<uint8>): (r: nat)
    ensures r < Pow256(|s|)
  {
    if s == [] then 0 else FromBigEndian(s[..|s| - 1]) * 256 + s[|s| - 1]
  }

  lemma {:induction false} FromToBigEndian(x: nat, n: nat)
    requires x < Pow256(n)
    ensures FromBigEndian(ToBigEndian(x, n)) == x
  {
    if n > 0 {
      var s := ToBigEndian(x, n);
      assert s[..n - 1] == ToBigEndian(x / 256, n - 1);
      FromToBigEndian(x / 256, n - 1);
    }
  }

  lemma {:induction false} ToFromBigEndian(s: seq<uint8>)
    ensures ToBigEndian(FromBigEndian(s), |s|) == s
  {
    if s != [] {
      var p := s[..|s| - 1];
      var x := FromBigEndian(s);
      assert x / 256 == FromBigEndian(p);
      assert x % 256 == s[|s| - 1];
      ToFromBigEndian(p);
      assert s == p + [s[|s| - 1]];
    }
  }

  // The fixed widths the two codecs use.

  function BE16(x: uint16): (r: seq<uint8>)
    ensures |r| == 2
  {
    Pow256Values();
    ToBigEndian(x, 2)
  }

  /** writeUInt24: the low three bytes of the big-endian uint32. */
  function BE24(x: uint24): (r: seq<uint8>)
    ensures |r| == 3
  {
    Pow256Values();
    ToBigEndian(x, 3)
  }

  function BE32(x: uint32): (r: seq<uint8>)
    ensures |r| == 4
  {
    Pow256Values();
    ToBigEndian(x, 4)
  }

  function BE64(x: uint64): (r: seq<uint8>)
    ensures |r| == 8
  {
    Pow256Values();
    ToBigEndian(x, 8)
  }

  /** BigEndian.Uint16: reads the first two bytes; shorter input panics. */
  function ReadBE16(s: seq<uint8>): uint16
    requires |s| >= 2
  {
    Pow256Values();
    FromBigEndian(s[..2])
  }

  /** readUInt24: a zero byte prepended to three bytes, read as a uint32. */
  function ReadBE24(s: seq<uint8>): uint24
    requires |s| >= 3
  {
    Pow256Values();
    FromBigEndian(s[..3])
  }

  /** BigEndian.Uint32: reads the first four bytes; shorter input panics. */
  function ReadBE32(s: seq<uint8>): uint32
    requires |s| >= 4
  {
    Pow256Values();
    FromBigEndian(s[..4])
  }

  /** BigEndian.Uint64: reads the first eight bytes; shorter input panics. */
  function ReadBE64(s: seq<uint8>): uint64
    requires |s| >= 8
  {
    Pow256Values();
    FromBigEndian(s[..8])
  }

  lemma BE16Inverse(x: uint16, rest: seq<uint8>)
    ensures ReadBE16(BE16(x) + rest) == x
  {
    assert (BE16(x) + rest)[..2] == BE16(x);
    Pow256Values();
    FromToBigEndian(x, 2);
  }

  lemma BE24Inverse(x: uint24, rest: seq<uint8>)
    ensures ReadBE24(BE24(x) + rest) == x
  {
    assert (BE24(x) + rest)[..3] == BE24(x);
    Pow256Values();
    FromToBigEndian(x, 3);
  }

  lemma BE32Inverse(x: uint32, rest: seq<uint8>)
    ensures ReadBE32(BE32(x) + rest) == x
  {
    assert (BE32(x) + rest)[..4] == BE32(x);
    Pow256Values();
    FromToBigEndian(x, 4);
  }

  lemma BE64Inverse(x: uint64, rest: seq<uint8>)
    ensures ReadBE64(BE64(x) + rest) == x
  {
    assert (BE64(x) + rest)[..8] == BE64(x);
    Pow256Values();
    FromToBigEndian(x, 8);
  }

  lemma ReadBE24Inverse(s: seq<uint8>)
    requires |s| >= 3
    ensures BE24(ReadBE24(s)) == s[..3]
  {
    ToFromBigEndian(s[..3]);
  }

  lemma ReadBE32Inverse(s: seq<uint8>)
    requires |s| >= 4
    ensures BE32(ReadBE32(s)) == s[..4]
  {
    ToFromBigEndian(s[..4]);
  }

  lemma ReadBE64Inverse(s: seq<uint8>)
    requires |s| >= 8
    ensures BE64(ReadBE64(s)) == s[..8]
  {
    ToFromBigEndian(s[..8]);
  }

  /** The four bytes of BE32, spelled out digit by digit. */
  lemma BE32Digits(x: uint32)
    ensures BE32(x) == [x / 0x100_0000, (x / 0x1_0000) % 0x100, (x / 0x100) % 0x100, x % 0x100]
  {
    Pow256Values();
    var a, b, c := x / 256, x / 256 / 256, x / 256 / 256 / 256;
    assert ToBigEndian(c, 1) == [c % 256];
    assert ToBigEndian(b, 2) == [c % 256, b % 256];
    assert ToBigEndian(a, 3) == [c % 256, b % 256, a % 256];
    assert ToBigEndian(x, 4) == [c % 256, b % 256, a % 256, x % 256];
  }

  /** The three bytes of BE24, spelled out digit by digit. */
  lemma BE24Digits(x: uint24)
    ensures BE24(x) == [x / 0x1_0000, (x / 0x100) % 0x100, x % 0x100]
  {
    Pow256Values();
    var a, b := x / 256, x / 256 / 256;
    assert ToBigEndian(b, 1) == [b % 256];
    assert ToBigEndian(a, 2) == [b % 256, a % 256];
    assert ToBigEndian(x, 3) == [b % 256, a % 256, x % 256];
  }

  /** The value readUInt24 gives: the three bytes as base-256 digits,
      most significant first. */
  lemma ReadBE24Value(s: seq<uint8>)
    requires |s| >= 3
    ensures ReadBE24(s) == s[0] as int * 0x1_0000 + s[1] as int * 0x100 + s[2] as int
  {
    Pow256Values();
    var t := s[..3];
    assert FromBigEndian(t[..1]) == t[0] by {
      assert t[..1][..0] == [];
    }
    assert FromBigEndian(t[..2]) == t[0] as int * 0x100 + t[1] by {
      assert t[..2][..1] == t[..1];
    }
  }

  /** The two bytes of BE16, spelled out. */
  lemma BE16Digits(x: uint16)
    ensures BE16(x) == [x / 0x100, x % 0x100]
  {
    Pow256Values();
    var a := x / 256;
    assert ToBigEndian(a, 1) == [a % 256];
    assert ToBigEndian(x, 2) == [a % 256, x % 256];
  }
}
