/** The RADIUS attribute codec (attribute format of section 5 and the
    Vendor-Specific attribute of section 5.26 of RFC 2865): construction
    with a one-byte length, encoding, the offset-walking decoder, lookup by
    (type, vendor) and the nil-safe typed accessors. */
module Radius {
  import opened Wrappers
  import opened ByteOrder
  import opened Values

  /** Why decoding stopped. InvalidMessageLength is the error ReadMessage
      returns; SliceOutOfRange stands for the panic the Go decoder raises
      when a length byte does not fit the buffer; NoProgress stands for the
      endless loop it enters on a Vendor-Specific attribute whose length
      byte is 0, where the offset never moves. */
  datatype DecodeError = InvalidMessageLength | SliceOutOfRange | NoProgress

  /** The Vendor-Specific attribute type. */
  const VendorSpecific: uint8 := 26

  /** One attribute. The payload is None for a nil byte slice, which
      encodes like an empty one but which the accessors report as absent.
      The length byte is a function of the payload and the vendor id. */
  datatype Avp = Avp(typ: uint8, vendorId: uint32, payload: Option<seq<uint8>>)
  {
    /** The payload bytes; a nil payload has none. */
    function Data(): seq<uint8> {
      if payload.Some? then payload.value else []
    }

    /** Bytes before the payload: type and length, and for a vendor
        attribute also the Vendor-Id, the vendor type and the vendor length. */
    function HeaderSize(): nat {
      if vendorId == 0 then 2 else 8
    }

    /** The length byte, byte(len(data) + 2) or byte(len(data) + 8): the
        attribute's size truncated to eight bits. */
    function Length(): uint8 {
      (HeaderSize() + |Data()|) % 0x100
    }
  }

  /** An attribute the encoder and decoder agree on: a non-nil payload,
      a size that fits the length byte, and a plain attribute whose type is
      not the one the decoder reserves for vendor attributes. */
  predicate WellFormed(a: Avp) {
    && a.payload.Some?
    && a.HeaderSize() + |a.Data()| < 0x100
    && (a.vendorId == 0 ==> a.typ != VendorSpecific)
  }

  predicate AllWellFormed(xs: seq<Avp>) {
    forall i :: 0 <= i < |xs| ==> WellFormed(xs[i])
  }

  function NewAvp(typ: uint8, vendorId: uint32, data: Option<seq<uint8>>): (a: Avp)
    ensures a.typ == typ && a.vendorId == vendorId && a.payload == data
    ensures |a.Data()| < 0x100 - a.HeaderSize() ==> a.Length() as nat == a.HeaderSize() + |a.Data()|
  {
    Avp(typ, vendorId, data)
  }

  // ---------------------------------------------------------------------
  // Encoding

  /** Avp.ToBytes: type and length, the vendor header when the vendor id is
      not 0, then the payload. No padding. */
  function AvpToBytes(a: Avp): (r: seq<uint8>)
    ensures |r| == a.HeaderSize() + |a.Data()|
  {
    if a.vendorId == 0 then [a.typ, a.Length()] + a.Data()
    else [VendorSpecific, a.Length()] + BE32(a.vendorId) + [a.typ, (|a.Data()| + 2) % 0x100] + a.Data()
  }

  /** Where Avp.ToBytes puts each field. The length byte is the size of the
      encoding modulo 256. */
  lemma AvpToBytesLayout(a: Avp)
    ensures var r := AvpToBytes(a);
      && r[0] == (if a.vendorId == 0 then a.typ else VendorSpecific)
      && r[1] == a.Length() == |r| % 0x100
      && (a.vendorId != 0 ==>
        r[2..6] == BE32(a.vendorId) && r[6] == a.typ && r[7] == (|a.Data()| + 2) % 0x100)
      && r[a.HeaderSize()..] == a.Data()
  {
  }

  /** The encoded size of a collection. */
  function EncodedSize(xs: seq<Avp>): (n: nat)
    ensures xs != [] ==> n >= 2
  {
    if xs == [] then 0 else xs[0].HeaderSize() + |xs[0].Data()| + EncodedSize(xs[1..])
  }

  /** Avps.ToBytes: the members' encodings, concatenated in order. */
  function AvpsToBytes(xs: seq<Avp>): (r: seq<uint8>)
    ensures |r| == EncodedSize(xs)
  {
    if xs == [] then [] else AvpToBytes(xs[0]) + AvpsToBytes(xs[1..])
  }

  lemma {:induction false} AvpsToBytesConcat(xs: seq<Avp>, ys: seq<Avp>)
    ensures AvpsToBytes(xs + ys) == AvpsToBytes(xs) + AvpsToBytes(ys)
  {
    if xs != [] {
      assert (xs + ys)[1..] == xs[1..] + ys;
      AvpsToBytesConcat(xs[1..], ys);
    } else {
      assert xs + ys == ys;
    }
  }

  // ---------------------------------------------------------------------
  // Building collections

  /** Avps.Add: appends NewAvp(typ, vendorId, data). */
  function Add(xs: seq<Avp>, typ: uint8, vendorId: uint32, data: Option<seq<uint8>>): (r: seq<Avp>)
    ensures AvpsToBytes(r) == AvpsToBytes(xs) + AvpToBytes(NewAvp(typ, vendorId, data))
    ensures Get(r, typ, vendorId) == Get(xs, typ, vendorId) + [NewAvp(typ, vendorId, data)]
    ensures forall t: uint8, v: uint32 ::
      Get(r, t, v) == Get(xs, t, v) + Get([NewAvp(typ, vendorId, data)], t, v)
  {
    var a := NewAvp(typ, vendorId, data);
    AvpsToBytesConcat(xs, [a]);
    forall t: uint8, v: uint32
      ensures Get(xs + [a], t, v) == Get(xs, t, v) + Get([a], t, v)
    {
      GetConcat(xs, [a], t, v);
    }
    xs + [a]
  }

  /** Avps.AddAvps: appends a whole collection. */
  function AddAvps(xs: seq<Avp>, ys: seq<Avp>): (r: seq<Avp>)
    ensures AvpsToBytes(r) == AvpsToBytes(xs) + AvpsToBytes(ys)
    ensures forall typ: uint8, vendorId: uint32 ::
      Get(r, typ, vendorId) == Get(xs, typ, vendorId) + Get(ys, typ, vendorId)
  {
    AvpsToBytesConcat(xs, ys);
    forall typ: uint8, vendorId: uint32
      ensures Get(xs + ys, typ, vendorId) == Get(xs, typ, vendorId) + Get(ys, typ, vendorId)
    {
      GetConcat(xs, ys, typ, vendorId);
    }
    xs + ys
  }

  // ---------------------------------------------------------------------
  // Lookup

  predicate Matches(a: Avp, typ: uint8, vendorId: uint32) {
    a.typ == typ && a.vendorId == vendorId
  }

  /** Avps.Get: the members with this (type, vendor id), in order. */
  function Get(xs: seq<Avp>, typ: uint8, vendorId: uint32): (r: seq<Avp>)
    ensures |r| <= |xs|
    ensures forall i :: 0 <= i < |r| ==> Matches(r[i], typ, vendorId) && r[i] in xs
    ensures forall i :: 0 <= i < |xs| && Matches(xs[i], typ, vendorId) ==> xs[i] in r
  {
    if xs == [] then []
    else (if Matches(xs[0], typ, vendorId) then [xs[0]] else []) + Get(xs[1..], typ, vendorId)
  }

  /** Get keeps the relative order of the members it selects. */
  lemma {:induction false} GetConcat(xs: seq<Avp>, ys: seq<Avp>, typ: uint8, vendorId: uint32)
    ensures Get(xs + ys, typ, vendorId) == Get(xs, typ, vendorId) + Get(ys, typ, vendorId)
  {
    if xs == [] {
      assert xs + ys == ys;
    } else {
      assert (xs + ys)[1..] == xs[1..] + ys;
      GetConcat(xs[1..], ys, typ, vendorId);
    }
  }

  /** Avps.GetFirst: the first member with this (type, vendor id). */
  function GetFirst(xs: seq<Avp>, typ: uint8, vendorId: uint32): (r: Option<Avp>)
    ensures r.None? <==> forall i :: 0 <= i < |xs| ==> !Matches(xs[i], typ, vendorId)
    ensures r.Some? ==> exists i :: (0 <= i < |xs| && xs[i] == r.value && Matches(xs[i], typ, vendorId)
      && forall j :: 0 <= j < i ==> !Matches(xs[j], typ, vendorId))
  {
    if xs == [] then None
    else if Matches(xs[0], typ, vendorId) then Some(xs[0])
    else
      var r := GetFirst(xs[1..], typ, vendorId);
      assert r.Some? ==> exists i :: (0 <= i < |xs| && xs[i] == r.value && Matches(xs[i], typ, vendorId)
        && forall j :: 0 <= j < i ==> !Matches(xs[j], typ, vendorId)) by {
        if r.Some? {
          var i :| 0 <= i < |xs[1..]| && xs[1..][i] == r.value && Matches(xs[1..][i], typ, vendorId)
            && forall j :: 0 <= j < i ==> !Matches(xs[1..][j], typ, vendorId);
          assert xs[i + 1] == r.value;
        }
      }
      r
  }

  /** GetFirst is the head of Get. */
  lemma {:induction false} GetFirstIsHeadOfGet(xs: seq<Avp>, typ: uint8, vendorId: uint32)
    ensures GetFirst(xs, typ, vendorId)
      == (if Get(xs, typ, vendorId) == [] then None else Some(Get(xs, typ, vendorId)[0]))
  {
    if xs != [] && !Matches(xs[0], typ, vendorId) {
      GetFirstIsHeadOfGet(xs[1..], typ, vendorId);
    }
  }

  // ---------------------------------------------------------------------
  // Decoding

  /** The attribute at the start of `bytes` fits the buffer: the slices the
      decoder takes are in range. A Vendor-Specific attribute is read by
      its vendor length (byte 7), any other by its length byte (byte 1). */
  predicate Fits(bytes: seq<uint8>) {
    |bytes| >= 2 &&
    if bytes[0] == VendorSpecific then |bytes| >= 8 && 2 <= bytes[7] && 6 + bytes[7] as int <= |bytes|
    else 2 <= bytes[1] as int <= |bytes|
  }

  /** One pass of the readAvps loop at the start of `bytes`: the attribute
      found there and how far the offset moves, which is always the length
      byte, even for a Vendor-Specific attribute whose payload was sliced
      by its vendor length. */
  function ReadAvp(bytes: seq<uint8>): (r: Result<(Avp, nat), DecodeError>)
    ensures r.Ok? <==> Fits(bytes)
    ensures r.Err? ==> r.error == SliceOutOfRange
    ensures r.Ok? ==> var (a, next) := r.value;
      && next == bytes[1] as nat
      && a.payload.Some?
      && (if bytes[0] == VendorSpecific then
            && a.vendorId == ReadBE32(bytes[2..6]) && a.typ == bytes[6]
            && a.Data() == bytes[8..6 + bytes[7] as int]
          else
            a.vendorId == 0 && a.typ == bytes[0] && a.Data() == bytes[2..bytes[1]])
  {
    if !Fits(bytes) then Err(SliceOutOfRange)
    else if bytes[0] == VendorSpecific then
      var vendorLength := bytes[7] as int;
      Ok((NewAvp(bytes[6], ReadBE32(bytes[2..6]), Some(bytes[8..6 + vendorLength])), bytes[1] as nat))
    else
      Ok((NewAvp(bytes[0], 0, Some(bytes[2..bytes[1]])), bytes[1] as nat))
  }

  /** readAvps: walks the buffer until the offset reaches or passes its
      end. A zero step is the endless loop of the Go decoder. */
  function ReadAvps(bytes: seq<uint8>): (r: Result<seq<Avp>, DecodeError>)
    ensures bytes == [] ==> r == Ok([])
    ensures r.Err? ==> r.error != InvalidMessageLength
    ensures r.Ok? ==> |r.value| <= |bytes|
    ensures r.Ok? ==> forall i :: 0 <= i < |r.value| ==> r.value[i].payload.Some?
    decreases |bytes|
  {
    if bytes == [] then Ok([])
    else match ReadAvp(bytes)
      case Err(e) => Err(e)
      case Ok((a, next)) =>
        if next == 0 then Err(NoProgress)
        else if next >= |bytes| then Ok([a])
        else match ReadAvps(bytes[next..])
          case Err(e) => Err(e)
          case Ok(rest) => Ok([a] + rest)
  }

  /** Decoding one well-formed attribute's encoding recovers it and moves
      exactly past it. */
  lemma ReadAvpInverse(a: Avp, rest: seq<uint8>)
    requires WellFormed(a)
    ensures ReadAvp(AvpToBytes(a) + rest) == Ok((a, |AvpToBytes(a)|))
  {
    var e := AvpToBytes(a);
    var b := e + rest;
    AvpToBytesLayout(a);
    assert b[..|e|] == e;
    assert b[a.HeaderSize()..|e|] == a.Data();
    if a.vendorId != 0 {
      assert b[2..6] == BE32(a.vendorId) + [];
      BE32Inverse(a.vendorId, []);
    }
  }

  /** Round trip: decoding the encoding of well-formed attributes gives
      them back, in order. */
  lemma {:induction false} ReadAvpsInverse(xs: seq<Avp>)
    requires AllWellFormed(xs)
    ensures ReadAvps(AvpsToBytes(xs)) == Ok(xs)
  {
    if xs != [] {
      var e := AvpToBytes(xs[0]);
      var rest := AvpsToBytes(xs[1..]);
      var b := e + rest;
      assert AvpsToBytes(xs) == b;
      ReadAvpInverse(xs[0], rest);
      assert b[|e|..] == rest;
      if rest != [] {
        ReadAvpsInverse(xs[1..]);
        assert ReadAvps(b) == Ok([xs[0]] + xs[1..]);
        assert xs == [xs[0]] + xs[1..];
      } else {
        assert xs[1..] == [];
        assert ReadAvps(b) == Ok([xs[0]]);
        assert xs == [xs[0]];
      }
    }
  }

  /** A plain attribute of type 26 is written as is, but the decoder reads
      any type-26 attribute as Vendor-Specific: payload bytes 0..4 become
      the vendor id, byte 4 the type, and byte 5 the vendor length that
      cuts the value out of the rest. */
  lemma PlainVendorSpecificMisread(a: Avp)
    requires a.typ == VendorSpecific && a.vendorId == 0 && a.payload.Some?
    requires 2 + |a.Data()| < 0x100
    requires var d := a.Data(); |d| >= 6 && 2 <= d[5] && d[5] as int + 4 <= |d|
    ensures var d := a.Data();
      ReadAvps(AvpToBytes(a)) == Ok([NewAvp(d[4], ReadBE32(d[..4]), Some(d[6..4 + d[5] as int]))])
  {
    var d := a.Data();
    var b := AvpToBytes(a);
    assert b == [VendorSpecific, a.Length()] + d;
    assert b[1] as int == |b|;
    assert b[2..6] == d[..4];
    assert b[6] == d[4] && b[7] == d[5];
    assert b[8..6 + b[7] as int] == d[6..4 + d[5] as int];
  }

  /** A plain type-26 attribute with fewer than six payload bytes is too
      short for the Vendor-Specific header the decoder expects: Go slices
      out of range. */
  lemma PlainVendorSpecificTooShort(a: Avp)
    requires a.typ == VendorSpecific && a.vendorId == 0
    requires |a.Data()| < 6
    ensures ReadAvps(AvpToBytes(a)) == Err(SliceOutOfRange)
  {
    assert !Fits(AvpToBytes(a));
  }

  /** A payload of 254 bytes makes the length byte wrap to 0, and the
      decoder rejects the attribute. */
  lemma LongPayloadWraps(data: seq<uint8>)
    requires |data| == 254
    ensures var a := NewAvp(1, 0, Some(data));
      && a.Length() == 0
      && ReadAvps(AvpToBytes(a)) == Err(SliceOutOfRange)
  {
    var a := NewAvp(1, 0, Some(data));
    AvpToBytesLayout(a);
  }

  /** A Vendor-Specific attribute whose length byte is 0 never moves the
      decoder's offset: the Go loop does not terminate. */
  lemma ZeroLengthVendorSpecific(bytes: seq<uint8>)
    requires |bytes| >= 8 && bytes[0] == VendorSpecific && bytes[1] == 0
    requires 2 <= bytes[7] && 6 + bytes[7] as int <= |bytes|
    ensures ReadAvps(bytes) == Err(NoProgress)
  {
  }

  // ---------------------------------------------------------------------
  // Typed accessors. An absent attribute (a nil *Avp in Go) or a nil
  // payload gives an absent result.

  /** ToData: the payload; nil for an absent attribute. */
  function ToData(a: Option<Avp>): (r: Option<seq<uint8>>)
    ensures a.None? ==> r.None?
    ensures a.Some? ==> r == a.value.payload
  {
    if a.Some? then a.value.payload else None
  }

  /** True when the attribute is present with a non-nil payload, the case
      in which the typed accessors read it. */
  predicate HasPayload(a: Option<Avp>) {
    a.Some? && a.value.payload.Some?
  }

  function ToString(a: Option<Avp>): (r: Option<seq<uint8>>)
    ensures r.Some? <==> HasPayload(a)
    ensures r.Some? ==> r.value == a.value.Data()
  {
    if HasPayload(a) then Some(a.value.Data()) else None
  }

  function ToStringOrDefault(a: Option<Avp>): (r: seq<uint8>)
    ensures !HasPayload(a) ==> r == []
    ensures HasPayload(a) ==> ToString(a) == Some(r)
  {
    match ToString(a)
    case None => []
    case Some(s) => s
  }

  /** A payload BigEndian.Uint32 can read without panicking. */
  predicate Readable(a: Option<Avp>) {
    HasPayload(a) ==> |a.value.Data()| >= 4
  }

  function ToUint32(a: Option<Avp>): (r: Option<uint32>)
    requires Readable(a)
    ensures r.Some? <==> HasPayload(a)
    ensures r.Some? ==> BE32(r.value) == a.value.Data()[..4]
  {
    if HasPayload(a) then
      ReadBE32Inverse(a.value.Data());
      Some(ReadBE32(a.value.Data()))
    else None
  }

  function ToUint32OrDefault(a: Option<Avp>): (r: uint32)
    requires Readable(a)
    ensures !HasPayload(a) ==> r == 0
    ensures HasPayload(a) ==> ToUint32(a) == Some(r)
  {
    match ToUint32(a)
    case None => 0
    case Some(v) => v
  }

  /** ToNetIP: the payload bytes, unchecked, as an address. */
  function ToNetIP(a: Option<Avp>): (r: Option<seq<uint8>>)
    ensures r.Some? <==> HasPayload(a)
    ensures r.Some? ==> r.value == a.value.Data()
  {
    if HasPayload(a) then Some(a.value.Data()) else None
  }

  /** The zero net.IP (nil) is the empty address. */
  function ToNetIPOrDefault(a: Option<Avp>): (r: seq<uint8>)
    ensures !HasPayload(a) ==> r == []
    ensures HasPayload(a) ==> ToNetIP(a) == Some(r)
  {
    match ToNetIP(a)
    case None => []
    case Some(ip) => ip
  }

  /** ToTime: the first four payload bytes are Unix seconds. */
  function ToTime(a: Option<Avp>): (r: Option<UnixSeconds>)
    requires Readable(a)
    ensures r.Some? <==> HasPayload(a)
    ensures r.Some? ==> 0 <= r.value < 0x1_0000_0000 && BE32(r.value) == a.value.Data()[..4]
  {
    if HasPayload(a) then
      ReadBE32Inverse(a.value.Data());
      Some(ReadBE32(a.value.Data()))
    else None
  }

  function ToTimeOrDefault(a: Option<Avp>): (r: UnixSeconds)
    requires Readable(a)
    ensures !HasPayload(a) ==> r == ZeroTime
    ensures HasPayload(a) ==> ToTime(a) == Some(r)
  {
    match ToTime(a)
    case None => ZeroTime
    case Some(t) => t
  }

  // ---------------------------------------------------------------------
  // Typed constructors

  function NewAvpString(typ: uint8, vendorId: uint32, value: seq<uint8>): (r: Avp)
    ensures r.typ == typ && r.vendorId == vendorId
    ensures ToString(Some(r)) == Some(value)
  {
    NewAvp(typ, vendorId, Some(value))
  }

  function NewAvpUint32(typ: uint8, vendorId: uint32, value: uint32): (r: Avp)
    ensures r.typ == typ && r.vendorId == vendorId && |r.Data()| == 4
    ensures ToUint32(Some(r)) == Some(value)
  {
    BE32Inverse(value, []);
    assert BE32(value) + [] == BE32(value);
    NewAvp(typ, vendorId, Some(BE32(value)))
  }

  /** NewAvpNetIP: the four octets of an IPv4 address; To4() of any other
      address is nil, so the attribute gets a nil payload. */
  function NewAvpNetIP(typ: uint8, vendorId: uint32, ip: IpAddress): (r: Avp)
    ensures r.typ == typ && r.vendorId == vendorId
    ensures ip.V4? ==> ToNetIP(Some(r)) == Some(ip.octets)
    ensures ip.V6? ==> ToNetIP(Some(r)) == None && AvpToBytes(r) == AvpToBytes(NewAvp(typ, vendorId, Some([])))
  {
    NewAvp(typ, vendorId, if ip.V4? then Some(ip.octets) else None)
  }

  /** NewAvpTime: uint32(value.Unix()), Unix seconds with Go's wrap-around. */
  function NewAvpTime(typ: uint8, vendorId: uint32, t: UnixSeconds): (r: Avp)
    ensures r.typ == typ && r.vendorId == vendorId && |r.Data()| == 4
    ensures ToTime(Some(r)) == Some(t % 0x1_0000_0000)
    ensures 0 <= t < 0x1_0000_0000 ==> ToTime(Some(r)) == Some(t)
  {
    BE32Inverse(t % 0x1_0000_0000, []);
    assert BE32(t % 0x1_0000_0000) + [] == BE32(t % 0x1_0000_0000);
    NewAvp(typ, vendorId, Some(BE32(t % 0x1_0000_0000)))
  }

  /** Absence propagates: a failed GetFirst gives absent values and the
      zero defaults. */
  lemma AbsencePropagates(xs: seq<Avp>, typ: uint8, vendorId: uint32)
    requires forall i :: 0 <= i < |xs| ==> !Matches(xs[i], typ, vendorId)
    ensures ToData(GetFirst(xs, typ, vendorId)) == None
    ensures ToString(GetFirst(xs, typ, vendorId)) == None
    ensures ToStringOrDefault(GetFirst(xs, typ, vendorId)) == []
    ensures ToUint32OrDefault(GetFirst(xs, typ, vendorId)) == 0
    ensures ToTimeOrDefault(GetFirst(xs, typ, vendorId)) == ZeroTime
    ensures ToNetIPOrDefault(GetFirst(xs, typ, vendorId)) == []
  {
  }
}
