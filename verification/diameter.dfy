/** The Diameter AVP codec (AVP header and Vendor-ID of sections 4.1 and
    4.1.1 of RFC 6733, grouped AVPs of section 4.4): construction with
    derived length and padding, encoding, the offset-walking decoder,
    lookup by (code, vendor) and the nil-safe typed accessors. */
module Diameter {
  import opened Wrappers
  import opened ByteOrder
  import opened Values

  /** Why decoding stopped. InvalidMessageLength is the error ReadMessage
      returns; SliceOutOfRange stands for the panic the Go decoder raises
      when a declared length does not fit the buffer. */
  datatype DecodeError = InvalidMessageLength | SliceOutOfRange

  /** True when the vendor-specific bit (0x80) of an AVP flags byte is set. */
  predicate VendorBit(flags: uint8) {
    (flags / 0x80) % 2 == 1
  }

  /** Bytes before the payload of an AVP as the decoder reads it: the
      Vendor-ID field is there exactly when the flags say so. */
  function WireHeaderSize(flags: uint8): nat {
    if VendorBit(flags) then 12 else 8
  }

  /** One AVP. Its length and padding are functions of the payload and the
      vendor id, never fields of their own. */
  datatype Avp = Avp(code: uint32, flags: uint8, vendorId: uint32, data: seq<uint8>)
  {
    /** Bytes before the payload as the encoder writes them: the Vendor-ID
        field is written exactly when the vendor id is not 0. */
    function HeaderSize(): nat {
      if vendorId != 0 then 12 else 8
    }

    /** The value of the AVP Length field: header plus payload, no padding. */
    function Length(): nat {
      HeaderSize() + |data|
    }

    /** Zero bytes after the payload up to the next 4-byte boundary. */
    function Padding(): nat {
      (4 - |data| % 4) % 4
    }
  }

  /** An AVP the encoder and decoder agree on: the vendor bit is set exactly
      when a vendor id is present, and the length fits the 24-bit field. */
  predicate WellFormed(a: Avp) {
    && (a.vendorId != 0 <==> VendorBit(a.flags))
    && a.Length() < 0x100_0000
  }

  predicate AllWellFormed(xs: seq<Avp>) {
    forall i :: 0 <= i < |xs| ==> WellFormed(xs[i])
  }

  /** Padding n payload bytes that follow a header of a multiple of four
      bytes ends on a 4-byte boundary, with fewer than four zero bytes and
      none when n is already a multiple of four. */
  lemma PaddingAligns(header: nat, n: nat)
    requires header % 4 == 0
    ensures var padding := (4 - n % 4) % 4;
      && padding < 4
      && (header + n + padding) % 4 == 0
      && (padding == 0 <==> n % 4 == 0)
  {
    var q, k := n / 4, n % 4;
    assert n == 4 * q + k;
    if k == 0 {
      assert header + n + (4 - k) % 4 == header + 4 * q;
    } else {
      assert (4 - k) % 4 == 4 - k;
      assert header + n + (4 - k) % 4 == header + 4 * q + 4;
    }
  }

  function NewAvp(code: uint32, flags: uint8, vendorId: uint32, data: seq<uint8>): (a: Avp)
    ensures a.code == code && a.flags == flags && a.vendorId == vendorId && a.data == data
    ensures a.Length() == |data| + 8 + (if vendorId != 0 then 4 else 0)
    ensures a.Padding() < 4 && (a.Length() + a.Padding()) % 4 == 0
    ensures a.Padding() == 0 <==> |data| % 4 == 0
  {
    PaddingAligns(if vendorId != 0 then 12 else 8, |data|);
    Avp(code, flags, vendorId, data)
  }

  /** Copy-and-set of the flags; an absent AVP stays absent. */
  function WithFlags(a: Option<Avp>, flags: uint8): (r: Option<Avp>)
    ensures r.Some? <==> a.Some?
    ensures r.Some? ==> (r.value.flags == flags && r.value.code == a.value.code
      && r.value.vendorId == a.value.vendorId && r.value.data == a.value.data)
    ensures r.Some? ==> r.value.Length() == a.value.Length() && r.value.Padding() == a.value.Padding()
    ensures a.Some? && WellFormed(a.value) ==>
      (WellFormed(r.value) <==> VendorBit(flags) == VendorBit(a.value.flags))
  {
    match a
    case None => None
    case Some(x) => Some(x.(flags := flags))
  }

  // ---------------------------------------------------------------------
  // Encoding

  function Zeros(n: nat): (r: seq<uint8>)
    ensures |r| == n
    ensures forall i :: 0 <= i < n ==> r[i] == 0
  {
    seq(n, _ => 0)
  }

  /** Avp.ToBytes: a buffer of length + padding bytes, a multiple of 4. */
  function AvpToBytes(a: Avp): (r: seq<uint8>)
    ensures |r| == a.Length() + a.Padding()
    ensures |r| % 4 == 0
  {
    PaddingAligns(a.HeaderSize(), |a.data|);
    var vendor := if a.vendorId != 0 then BE32(a.vendorId) else [];
    BE32(a.code) + [a.flags] + BE24(a.Length() % 0x100_0000) + vendor + a.data + Zeros(a.Padding())
  }

  /** Where Avp.ToBytes puts each field: the code at 0..4, the flags at 4,
      the low 24 bits of the length at 5..8, the Vendor-ID at 8..12 when
      the vendor id is not 0, then the payload, then zero padding. */
  lemma AvpToBytesLayout(a: Avp)
    ensures var r := AvpToBytes(a);
      && r[..4] == BE32(a.code)
      && r[4] == a.flags
      && r[5..8] == BE24(a.Length() % 0x100_0000)
      && (a.vendorId != 0 ==> r[8..12] == BE32(a.vendorId))
      && r[a.HeaderSize()..a.Length()] == a.data
      && forall i :: a.Length() <= i < |r| ==> r[i] == 0
  {
    var r := AvpToBytes(a);
    assert r[a.Length()..] == Zeros(a.Padding());
  }

  /** The encoded size of a collection: the sum of length + padding. */
  function EncodedSize(xs: seq<Avp>): (n: nat)
    ensures n % 4 == 0
    ensures xs != [] ==> n >= 8
  {
    if xs == [] then 0
    else
      PaddingAligns(xs[0].HeaderSize(), |xs[0].data|);
      xs[0].Length() + xs[0].Padding() + EncodedSize(xs[1..])
  }

  /** Avps.ToBytes: the members' encodings, concatenated in order. */
  function AvpsToBytes(xs: seq<Avp>): (r: seq<uint8>)
    ensures |r| == EncodedSize(xs)
  {
    if xs == [] then [] else AvpToBytes(xs[0]) + AvpsToBytes(xs[1..])
  }

  lemma {:induction false} AvpsToBytesConcat(xs: seq<Avp>, ys: seq<Avp>)
    ensures AvpsToBytes(xs + ys) == AvpsToBytes(xs) + AvpsToBytes(ys)
  {
    if xs != [] {
      assert (xs + ys)[1..] == xs[1..] + ys;
      AvpsToBytesConcat(xs[1..], ys);
    } else {
      assert xs + ys == ys;
    }
  }

  // ---------------------------------------------------------------------
  // Building collections

  /** Avps.Add: appends NewAvp(code, flags, vendorId, data). */
  function Add(xs: seq<Avp>, code: uint32, flags: uint8, vendorId: uint32, data: seq<uint8>): (r: seq<Avp>)
    ensures AvpsToBytes(r) == AvpsToBytes(xs) + AvpToBytes(NewAvp(code, flags, vendorId, data))
    ensures Get(r, code, vendorId) == Get(xs, code, vendorId) + [NewAvp(code, flags, vendorId, data)]
    ensures forall c: uint32, v: uint32 ::
      Get(r, c, v) == Get(xs, c, v) + Get([NewAvp(code, flags, vendorId, data)], c, v)
  {
    var a := NewAvp(code, flags, vendorId, data);
    AvpsToBytesConcat(xs, [a]);
    forall c: uint32, v: uint32
      ensures Get(xs + [a], c, v) == Get(xs, c, v) + Get([a], c, v)
    {
      GetConcat(xs, [a], c, v);
    }
    xs + [a]
  }

  /** Avps.AddAvps: appends a whole collection. */
  function AddAvps(xs: seq<Avp>, ys: seq<Avp>): (r: seq<Avp>)
    ensures AvpsToBytes(r) == AvpsToBytes(xs) + AvpsToBytes(ys)
    ensures forall code: uint32, vendorId: uint32 ::
      Get(r, code, vendorId) == Get(xs, code, vendorId) + Get(ys, code, vendorId)
  {
    AvpsToBytesConcat(xs, ys);
    forall code: uint32, vendorId: uint32
      ensures Get(xs + ys, code, vendorId) == Get(xs, code, vendorId) + Get(ys, code, vendorId)
    {
      GetConcat(xs, ys, code, vendorId);
    }
    xs + ys
  }

  // ---------------------------------------------------------------------
  // Lookup

  predicate Matches(a: Avp, code: uint32, vendorId: uint32) {
    a.code == code && a.vendorId == vendorId
  }

  /** Avps.Get: the members with this (code, vendor id), in order. */
  function Get(xs: seq<Avp>, code: uint32, vendorId: uint32): (r: seq<Avp>)
    ensures |r| <= |xs|
    ensures forall i :: 0 <= i < |r| ==> Matches(r[i], code, vendorId) && r[i] in xs
    ensures forall i :: 0 <= i < |xs| && Matches(xs[i], code, vendorId) ==> xs[i] in r
  {
    if xs == [] then []
    else (if Matches(xs[0], code, vendorId) then [xs[0]] else []) + Get(xs[1..], code, vendorId)
  }

  /** Get is a homomorphism from concatenation to concatenation: it keeps
      the relative order of the members it selects. */
  lemma {:induction false} GetConcat(xs: seq<Avp>, ys: seq<Avp>, code: uint32, vendorId: uint32)
    ensures Get(xs + ys, code, vendorId) == Get(xs, code, vendorId) + Get(ys, code, vendorId)
  {
    if xs == [] {
      assert xs + ys == ys;
    } else {
      assert (xs + ys)[1..] == xs[1..] + ys;
      GetConcat(xs[1..], ys, code, vendorId);
    }
  }

  /** Avps.GetFirst: the first member with this (code, vendor id). */
  function GetFirst(xs: seq<Avp>, code: uint32, vendorId: uint32): (r: Option<Avp>)
    ensures r.None? <==> forall i :: 0 <= i < |xs| ==> !Matches(xs[i], code, vendorId)
    ensures r.Some? ==> exists i :: (0 <= i < |xs| && xs[i] == r.value && Matches(xs[i], code, vendorId)
      && forall j :: 0 <= j < i ==> !Matches(xs[j], code, vendorId))
  {
    if xs == [] then None
    else if Matches(xs[0], code, vendorId) then Some(xs[0])
    else
      var r := GetFirst(xs[1..], code, vendorId);
      assert r.Some? ==> exists i :: (0 <= i < |xs| && xs[i] == r.value && Matches(xs[i], code, vendorId)
        && forall j :: 0 <= j < i ==> !Matches(xs[j], code, vendorId)) by {
        if r.Some? {
          var i :| 0 <= i < |xs[1..]| && xs[1..][i] == r.value && Matches(xs[1..][i], code, vendorId)
            && forall j :: 0 <= j < i ==> !Matches(xs[1..][j], code, vendorId);
          assert xs[i + 1] == r.value;
        }
      }
      r
  }

  /** GetFirst is the head of Get. */
  lemma {:induction false} GetFirstIsHeadOfGet(xs: seq<Avp>, code: uint32, vendorId: uint32)
    ensures GetFirst(xs, code, vendorId)
      == (if Get(xs, code, vendorId) == [] then None else Some(Get(xs, code, vendorId)[0]))
  {
    if xs != [] && !Matches(xs[0], code, vendorId) {
      GetFirstIsHeadOfGet(xs[1..], code, vendorId);
    }
  }

  // ---------------------------------------------------------------------
  // Decoding

  /** One pass of the readAvps loop at the start of `bytes`: the AVP found
      there and how far the offset moves past it (its length plus the
      padding its payload needs). Where Go would slice out of range, the
      result is SliceOutOfRange. */
  function ReadAvp(bytes: seq<uint8>): (r: Result<(Avp, nat), DecodeError>)
    ensures r.Ok? <==> |bytes| >= 8 && WireHeaderSize(bytes[4]) <= ReadBE24(bytes[5..8]) <= |bytes|
    ensures r.Err? ==> r.error == SliceOutOfRange
    ensures r.Ok? ==> var (a, next) := r.value;
      && a.code == ReadBE32(bytes) && a.flags == bytes[4]
      && a.data == bytes[WireHeaderSize(bytes[4])..ReadBE24(bytes[5..8])]
      && a.vendorId == (if VendorBit(bytes[4]) then ReadBE32(bytes[8..]) else 0)
      && a.Length() <= ReadBE24(bytes[5..8])
      && next == ReadBE24(bytes[5..8]) + a.Padding()
      && 8 <= next && next % 4 == 0
  {
    if |bytes| < 8 then Err(SliceOutOfRange)
    else
      var flags := bytes[4];
      var length := ReadBE24(bytes[5..8]);
      var header := WireHeaderSize(flags);
      if length < header || length > |bytes| then Err(SliceOutOfRange)
      else
        var vendorId := if VendorBit(flags) then ReadBE32(bytes[8..]) else 0;
        var a := NewAvp(ReadBE32(bytes), flags, vendorId, bytes[header..length]);
        PaddingAligns(header, length - header);
        Ok((a, length + a.Padding()))
  }

  /** readAvps: walks the buffer from offset 0 until the offset reaches or
      passes its end. Nested groups are not decoded here. */
  function ReadAvps(bytes: seq<uint8>): (r: Result<seq<Avp>, DecodeError>)
    ensures bytes == [] ==> r == Ok([])
    ensures r.Err? ==> r.error == SliceOutOfRange
    ensures r.Ok? ==> 8 * |r.value| <= |bytes|
    ensures r.Ok? ==> forall i :: 0 <= i < |r.value| ==>
      r.value[i].Length() < 0x100_0000 && (r.value[i].vendorId != 0 ==> VendorBit(r.value[i].flags))
    decreases |bytes|
  {
    if bytes == [] then Ok([])
    else match ReadAvp(bytes)
      case Err(e) => Err(e)
      case Ok((a, next)) =>
        if next >= |bytes| then Ok([a])
        else match ReadAvps(bytes[next..])
          case Err(e) => Err(e)
          case Ok(rest) => Ok([a] + rest)
  }

  /** The code and flags of an AVP's encoding, whatever bytes follow. */
  lemma AvpCodeInverse(a: Avp, rest: seq<uint8>)
    ensures var b := AvpToBytes(a) + rest;
      ReadBE32(b) == a.code && b[4] == a.flags
  {
    var b := AvpToBytes(a) + rest;
    AvpToBytesLayout(a);
    assert b == BE32(a.code) + b[4..];
    BE32Inverse(a.code, b[4..]);
  }

  /** The length field of an AVP's encoding, when the length fits it. */
  lemma AvpLengthInverse(a: Avp, rest: seq<uint8>)
    requires a.Length() < 0x100_0000
    ensures var b := AvpToBytes(a) + rest;
      ReadBE24(b[5..8]) == a.Length()
  {
    var e := AvpToBytes(a);
    var b := e + rest;
    var length := a.Length();
    AvpToBytesLayout(a);
    assert length % 0x100_0000 == length;
    assert b[5..8] == e[5..8] == BE24(length);
    assert b[5..8] == BE24(length) + [];
    BE24Inverse(length, []);
  }

  /** The Vendor-ID and payload of an AVP's encoding. */
  lemma AvpBodyInverse(a: Avp, rest: seq<uint8>)
    ensures var b := AvpToBytes(a) + rest;
      && (a.vendorId != 0 ==> ReadBE32(b[8..]) == a.vendorId)
      && b[a.HeaderSize()..a.Length()] == a.data
  {
    var e := AvpToBytes(a);
    var b := e + rest;
    AvpToBytesLayout(a);
    if a.vendorId != 0 {
      assert b[8..] == BE32(a.vendorId) + b[12..];
      BE32Inverse(a.vendorId, b[12..]);
    }
    assert b[a.HeaderSize()..a.Length()] == e[a.HeaderSize()..a.Length()];
  }

  /** The header fields of an AVP's encoding, read back at the offsets the
      decoder uses, whatever bytes follow the encoding. */
  lemma AvpHeaderInverse(a: Avp, rest: seq<uint8>)
    requires a.Length() < 0x100_0000
    ensures var b := AvpToBytes(a) + rest;
      && |b| >= a.Length() + a.Padding()
      && ReadBE32(b) == a.code
      && b[4] == a.flags
      && ReadBE24(b[5..8]) == a.Length()
      && (a.vendorId != 0 ==> ReadBE32(b[8..]) == a.vendorId)
      && b[a.HeaderSize()..a.Length()] == a.data
  {
    AvpCodeInverse(a, rest);
    AvpLengthInverse(a, rest);
    AvpBodyInverse(a, rest);
  }

  /** Decoding one well-formed AVP's encoding recovers it and moves past
      its padding. */
  lemma ReadAvpInverse(a: Avp, rest: seq<uint8>)
    requires WellFormed(a)
    ensures ReadAvp(AvpToBytes(a) + rest) == Ok((a, |AvpToBytes(a)|))
  {
    AvpHeaderInverse(a, rest);
    var b := AvpToBytes(a) + rest;
    assert WireHeaderSize(b[4]) == a.HeaderSize();
  }

  /** Round trip: decoding the encoding of well-formed AVPs gives them back,
      in order. */
  lemma {:induction false} ReadAvpsInverse(xs: seq<Avp>)
    requires AllWellFormed(xs)
    ensures ReadAvps(AvpsToBytes(xs)) == Ok(xs)
  {
    if xs != [] {
      var e := AvpToBytes(xs[0]);
      var rest := AvpsToBytes(xs[1..]);
      var b := e + rest;
      assert AvpsToBytes(xs) == b;
      ReadAvpInverse(xs[0], rest);
      assert b[|e|..] == rest;
      if rest != [] {
        ReadAvpsInverse(xs[1..]);
        assert ReadAvps(b) == Ok([xs[0]] + xs[1..]);
        assert xs == [xs[0]] + xs[1..];
      } else {
        assert xs[1..] == [];
        assert ReadAvps(b) == Ok([xs[0]]);
        assert xs == [xs[0]];
      }
    }
  }

  /** Four more payload bytes need the same padding. */
  lemma PaddingShift(n: nat)
    ensures (4 - (n + 4) % 4) % 4 == (4 - n % 4) % 4
  {
    assert (n + 4) % 4 == n % 4;
  }

  /** A buffer whose first AVP spans all of it decodes to that AVP alone. */
  lemma ReadsOneAvp(bytes: seq<uint8>, b: Avp)
    requires ReadAvp(bytes).Ok?
    requires ReadAvp(bytes).value.1 >= |bytes|
    requires var a := ReadAvp(bytes).value.0;
      a.code == b.code && a.flags == b.flags && a.vendorId == b.vendorId && a.data == b.data
    ensures ReadAvps(bytes) == Ok([b])
  {
  }

  /** The encoder writes the Vendor-ID when the vendor id is not 0; the
      decoder reads it only when bit 0x80 is set. Without the bit, the
      Vendor-ID is read back as the first four payload bytes and the
      vendor id as 0. */
  lemma VendorIdWithoutFlag(a: Avp)
    requires a.vendorId != 0 && !VendorBit(a.flags)
    requires a.Length() < 0x100_0000
    ensures ReadAvps(AvpToBytes(a)) == Ok([NewAvp(a.code, a.flags, 0, BE32(a.vendorId) + a.data)])
  {
    var e := AvpToBytes(a);
    var d := BE32(a.vendorId) + a.data;
    AvpHeaderInverse(a, []);
    AvpToBytesLayout(a);
    assert e + [] == e;
    assert e[8..a.Length()] == d by {
      assert e[8..a.Length()] == e[8..12] + e[12..a.Length()];
    }
    assert WireHeaderSize(e[4]) == 8;
    var r := ReadAvp(e);
    assert r.Ok?;
    assert r.value.0.data == d;
    PaddingShift(|a.data|);
    assert r.value.0.Padding() == a.Padding();
    ReadsOneAvp(e, NewAvp(a.code, a.flags, 0, d));
  }

  /** The converse: bit 0x80 with vendor id 0 makes the decoder take the
      first four payload bytes as the Vendor-ID and the rest as payload. */
  lemma FlagWithoutVendorId(a: Avp)
    requires a.vendorId == 0 && VendorBit(a.flags)
    requires |a.data| >= 4 && a.Length() < 0x100_0000
    ensures ReadAvps(AvpToBytes(a)) == Ok([NewAvp(a.code, a.flags, ReadBE32(a.data), a.data[4..])])
  {
    var e := AvpToBytes(a);
    AvpHeaderInverse(a, []);
    AvpToBytesLayout(a);
    assert e + [] == e;
    var L := a.Length();
    assert e[8..L] == a.data;
    assert e[8..][..4] == a.data[..4];
    assert ReadBE32(e[8..]) == ReadBE32(a.data);
    assert e[12..L] == a.data[4..];
    assert WireHeaderSize(e[4]) == 12;
    var r := ReadAvp(e);
    assert r.Ok?;
    assert r.value.0.data == a.data[4..];
    PaddingShift(|a.data| - 4);
    assert r.value.0.Padding() == a.Padding();
    ReadsOneAvp(e, NewAvp(a.code, a.flags, ReadBE32(a.data), a.data[4..]));
  }

  // ---------------------------------------------------------------------
  // Typed accessors. Each one lifts a read of the payload over Option:
  // an absent AVP (a nil *Avp in Go) gives an absent result.

  /** ToData: the payload, or nothing for an absent AVP. */
  function ToData(a: Option<Avp>): (r: seq<uint8>)
    ensures a.None? ==> r == []
    ensures a.Some? ==> r == a.value.data
  {
    if a.Some? then a.value.data else []
  }

  /** ToString: the payload as a Go string (a byte sequence). */
  function ToString(a: Option<Avp>): (r: Option<seq<uint8>>)
    ensures r.Some? <==> a.Some?
    ensures r.Some? ==> r.value == a.value.data
  {
    match a
    case None => None
    case Some(x) => Some(x.data)
  }

  function ToStringOrDefault(a: Option<Avp>): (r: seq<uint8>)
    ensures a.None? ==> r == []
    ensures a.Some? ==> ToString(a) == Some(r)
  {
    match ToString(a)
    case None => []
    case Some(s) => s
  }

  /** A payload BigEndian.Uint32 can read without panicking. */
  predicate Readable(a: Option<Avp>, width: nat) {
    a.Some? ==> |a.value.data| >= width
  }

  function ToUint32(a: Option<Avp>): (r: Option<uint32>)
    requires Readable(a, 4)
    ensures r.Some? <==> a.Some?
    ensures r.Some? ==> BE32(r.value) == a.value.data[..4]
  {
    match a
    case None => None
    case Some(x) =>
      ReadBE32Inverse(x.data);
      Some(ReadBE32(x.data))
  }

  function ToUint32OrDefault(a: Option<Avp>): (r: uint32)
    requires Readable(a, 4)
    ensures a.None? ==> r == 0
    ensures a.Some? ==> ToUint32(a) == Some(r)
  {
    match ToUint32(a)
    case None => 0
    case Some(v) => v
  }

  function ToUint64(a: Option<Avp>): (r: Option<uint64>)
    requires Readable(a, 8)
    ensures r.Some? <==> a.Some?
    ensures r.Some? ==> BE64(r.value) == a.value.data[..8]
  {
    match a
    case None => None
    case Some(x) =>
      ReadBE64Inverse(x.data);
      Some(ReadBE64(x.data))
  }

  function ToUint64OrDefault(a: Option<Avp>): (r: uint64)
    requires Readable(a, 8)
    ensures a.None? ==> r == 0
    ensures a.Some? ==> ToUint64(a) == Some(r)
  {
    match ToUint64(a)
    case None => 0
    case Some(v) => v
  }

  /** A payload ToNetIP can slice without panicking: byte 1 is the address
      family, followed by 4 (family 1) or 16 address bytes. */
  predicate NetIPReadable(a: Option<Avp>) {
    a.Some? ==>
      var d := a.value.data;
      |d| >= 2 && (if d[1] == 1 then |d| >= 6 else |d| >= 18)
  }

  /** ToNetIP: bytes 2..6 when the family byte is 1, bytes 2..18 otherwise. */
  function ToNetIP(a: Option<Avp>): (r: Option<seq<uint8>>)
    requires NetIPReadable(a)
    ensures r.Some? <==> a.Some?
    ensures r.Some? ==> |r.value| == (if a.value.data[1] == 1 then 4 else 16)
    ensures r.Some? ==> a.value.data[2..2 + |r.value|] == r.value
  {
    match a
    case None => None
    case Some(x) => Some(if x.data[1] == 1 then x.data[2..6] else x.data[2..18])
  }

  /** The zero net.IP (nil) is the empty address. */
  function ToNetIPOrDefault(a: Option<Avp>): (r: seq<uint8>)
    requires NetIPReadable(a)
    ensures a.None? ==> r == []
    ensures a.Some? ==> ToNetIP(a) == Some(r)
  {
    match ToNetIP(a)
    case None => []
    case Some(ip) => ip
  }

  /** Seconds between the NTP epoch (1900-01-01) and the Unix epoch. */
  const NtpOffset: int := 2208988800

  /** ToTime: the first four payload bytes are seconds since 1900; the
      result is seconds since 1970. */
  function ToTime(a: Option<Avp>): (r: Option<UnixSeconds>)
    requires Readable(a, 4)
    ensures r.Some? <==> a.Some?
    ensures r.Some? ==> -NtpOffset <= r.value < 0x1_0000_0000 - NtpOffset
    ensures r.Some? ==> BE32(r.value + NtpOffset) == a.value.data[..4]
  {
    match a
    case None => None
    case Some(x) =>
      ReadBE32Inverse(x.data);
      Some(ReadBE32(x.data) - NtpOffset)
  }

  function ToTimeOrDefault(a: Option<Avp>): (r: UnixSeconds)
    requires Readable(a, 4)
    ensures a.None? ==> r == ZeroTime
    ensures a.Some? ==> ToTime(a) == Some(r)
  {
    match ToTime(a)
    case None => ZeroTime
    case Some(t) => t
  }

  /** ToGroup: the payload decoded as a collection; an absent AVP gives the
      empty collection. Go panics on a payload that does not decode. */
  function ToGroup(a: Option<Avp>): (r: seq<Avp>)
    requires a.Some? ==> ReadAvps(a.value.data).Ok?
    ensures a.None? ==> r == []
    ensures a.Some? ==> ReadAvps(a.value.data) == Ok(r)
  {
    match a
    case None => []
    case Some(x) => ReadAvps(x.data).value
  }

  // ---------------------------------------------------------------------
  // Typed constructors

  function NewAvpString(code: uint32, flags: uint8, vendorId: uint32, value: seq<uint8>): (r: Avp)
    ensures r.code == code && r.flags == flags && r.vendorId == vendorId
    ensures ToString(Some(r)) == Some(value)
  {
    NewAvp(code, flags, vendorId, value)
  }

  function NewAvpUint32(code: uint32, flags: uint8, vendorId: uint32, value: uint32): (r: Avp)
    ensures r.code == code && r.flags == flags && r.vendorId == vendorId
    ensures |r.data| == 4 && r.Padding() == 0
    ensures ToUint32(Some(r)) == Some(value)
  {
    BE32Inverse(value, []);
    assert BE32(value) + [] == BE32(value);
    NewAvp(code, flags, vendorId, BE32(value))
  }

  function NewAvpUint64(code: uint32, flags: uint8, vendorId: uint32, value: uint64): (r: Avp)
    ensures r.code == code && r.flags == flags && r.vendorId == vendorId
    ensures |r.data| == 8 && r.Padding() == 0
    ensures ToUint64(Some(r)) == Some(value)
  {
    BE64Inverse(value, []);
    assert BE64(value) + [] == BE64(value);
    NewAvp(code, flags, vendorId, BE64(value))
  }

  /** NewAvpNetIP: a two-byte address family (1 for IPv4, 2 for IPv6)
      followed by the address. */
  function NewAvpNetIP(code: uint32, flags: uint8, vendorId: uint32, ip: IpAddress): (r: Avp)
    ensures r.code == code && r.flags == flags && r.vendorId == vendorId
    ensures |r.data| == (if ip.V4? then 6 else 18) && r.data[1] == (if ip.V4? then 1 else 2)
    ensures r.data == [0, if ip.V4? then 1 else 2] + ip.octets
    ensures ToNetIP(Some(r)) == Some(ip.octets)
  {
    var family: uint8 := if ip.V4? then 1 else 2;
    var data := [0, family] + ip.octets;
    assert |ip.octets| == (if ip.V4? then 4 else 16);
    assert data[1] == family && data[2..] == ip.octets;
    assert data[2..|data|] == data[2..];
    NewAvp(code, flags, vendorId, data)
  }

  /** NewAvpTime as written: uint32(value.Unix()), raw Unix seconds with
      Go's wrap-around, without the NTP offset ToTime removes. */
  function NewAvpTime(code: uint32, flags: uint8, vendorId: uint32, t: UnixSeconds): (r: Avp)
    ensures r.code == code && r.flags == flags && r.vendorId == vendorId
    ensures |r.data| == 4
    ensures ToTime(Some(r)) == Some(t % 0x1_0000_0000 - NtpOffset)
  {
    BE32Inverse(t % 0x1_0000_0000, []);
    assert BE32(t % 0x1_0000_0000) + [] == BE32(t % 0x1_0000_0000);
    NewAvp(code, flags, vendorId, BE32(t % 0x1_0000_0000))
  }

  /** ToTime never gives back the instant NewAvpTime was given. */
  lemma NewAvpTimeNeverInverse(code: uint32, flags: uint8, vendorId: uint32, t: UnixSeconds)
    ensures ToTime(Some(NewAvpTime(code, flags, vendorId, t))) != Some(t)
  {
    var m := 0x1_0000_0000;
    var q := t / m;
    assert t == q * m + t % m;
    if q >= 0 {
      assert t % m - t == -(q * m) <= 0;
    } else {
      assert t % m - t == -(q * m) >= m;
    }
  }

  /** NewAvpTime with the NTP offset the Time format of section 4.3.1 of
      RFC 6733 (and ToTime) expects. */
  function NewAvpTimeNtp(code: uint32, flags: uint8, vendorId: uint32, t: UnixSeconds): (r: Avp)
    ensures r.code == code && r.flags == flags && r.vendorId == vendorId
    ensures |r.data| == 4
    ensures -NtpOffset <= t < 0x1_0000_0000 - NtpOffset ==> ToTime(Some(r)) == Some(t)
  {
    var ntp := (t + NtpOffset) % 0x1_0000_0000;
    BE32Inverse(ntp, []);
    assert BE32(ntp) + [] == BE32(ntp);
    NewAvp(code, flags, vendorId, BE32(ntp))
  }

  /** NewAvpGroup: an AVP whose payload is the encoding of a collection. */
  function NewAvpGroup(code: uint32, flags: uint8, vendorId: uint32, xs: seq<Avp>): (r: Avp)
    ensures r.code == code && r.flags == flags && r.vendorId == vendorId
    ensures r.data == AvpsToBytes(xs)
    ensures |r.data| == EncodedSize(xs) && r.Padding() == 0
  {
    NewAvp(code, flags, vendorId, AvpsToBytes(xs))
  }

  /** A group reads back as the collection it was built from. */
  lemma GroupRoundTrip(code: uint32, flags: uint8, vendorId: uint32, xs: seq<Avp>)
    requires AllWellFormed(xs)
    ensures ReadAvps(NewAvpGroup(code, flags, vendorId, xs).data).Ok?
    ensures ToGroup(Some(NewAvpGroup(code, flags, vendorId, xs))) == xs
  {
    ReadAvpsInverse(xs);
  }

  /** Absence propagates through chained lookups: a failed GetFirst, then
      ToGroup, then GetFirst, then any accessor, ends absent, and the
      OrDefault accessors give zero values. */
  lemma AbsencePropagates(xs: seq<Avp>, code: uint32, vendorId: uint32, inner: uint32, innerVendor: uint32)
    requires forall i :: 0 <= i < |xs| ==> !Matches(xs[i], code, vendorId)
    ensures ToGroup(GetFirst(xs, code, vendorId)) == []
    ensures ToString(GetFirst(ToGroup(GetFirst(xs, code, vendorId)), inner, innerVendor)) == None
    ensures ToStringOrDefault(GetFirst(xs, code, vendorId)) == []
    ensures ToUint32OrDefault(GetFirst(xs, code, vendorId)) == 0
    ensures ToUint64OrDefault(GetFirst(xs, code, vendorId)) == 0
    ensures ToTimeOrDefault(GetFirst(xs, code, vendorId)) == ZeroTime
    ensures ToNetIPOrDefault(GetFirst(xs, code, vendorId)) == []
    ensures ToData(GetFirst(xs, code, vendorId)) == []
  {
  }
}
