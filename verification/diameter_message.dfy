/** The Diameter message envelope (section 3 of RFC 6733): a 20-byte header
    followed by the top-level AVPs. */
module DiameterMessage {
  import opened Wrappers
  import opened ByteOrder
  import opened Diameter

  /** Size of the fixed header. */
  const HeaderLength: nat := 20

  /** A hop-by-hop or end-to-end identifier: four opaque bytes. */
  type Id = s: seq<uint8> | |s| == 4 witness [0, 0, 0, 0]

  /** A message; NewMessage is this constructor. */
  datatype Message = Message(
    version: uint8,
    flags: uint8,
    commandCode: uint32,
    applicationId: uint32,
    hopByHopId: Id,
    endToEndId: Id,
    avps: seq<Avp>)

  /** Message.length: the header plus every top-level AVP with its padding. */
  function Length(m: Message): (n: nat)
    ensures n >= HeaderLength && n % 4 == 0
  {
    HeaderLength + EncodedSize(m.avps)
  }

  /** The 20 header bytes of Message.ToBytes. The length and the command
      code go through the 24-bit writer, which keeps their low 24 bits. */
  function HeaderBytes(m: Message): (r: seq<uint8>)
    ensures |r| == HeaderLength
    ensures r[0] == m.version
    ensures r[1..4] == BE24(Length(m) % 0x100_0000)
    ensures r[4] == m.flags
    ensures r[5..8] == BE24(m.commandCode % 0x100_0000)
    ensures r[8..12] == BE32(m.applicationId)
    ensures r[12..16] == m.hopByHopId
    ensures r[16..20] == m.endToEndId
  {
    [m.version] + BE24(Length(m) % 0x100_0000) + [m.flags] + BE24(m.commandCode % 0x100_0000)
      + BE32(m.applicationId) + m.hopByHopId + m.endToEndId
  }

  /** Message.ToBytes: the header, then the top-level AVPs in order. */
  function MessageToBytes(m: Message): (r: seq<uint8>)
    ensures |r| == Length(m)
    ensures r[..HeaderLength] == HeaderBytes(m)
    ensures r[HeaderLength..] == AvpsToBytes(m.avps)
  {
    HeaderBytes(m) + AvpsToBytes(m.avps)
  }

  /** The length field holds the size of the whole encoding whenever that
      size fits in 24 bits. */
  lemma LengthFieldIsSize(m: Message)
    requires Length(m) < 0x100_0000
    ensures ReadBE24(MessageToBytes(m)[1..4]) == |MessageToBytes(m)|
  {
    var r := MessageToBytes(m);
    var length := Length(m);
    assert length % 0x100_0000 == length;
    assert r[1..4] == HeaderBytes(m)[1..4] == BE24(length) + [];
    BE24Inverse(length, []);
  }

  /** ReadMessage: fails on fewer than 20 bytes, otherwise takes the header
      fields at their fixed offsets and decodes the AVPs from byte 20. The
      declared length (bytes 1..3) is not read. */
  function ReadMessage(bytes: seq<uint8>): (r: Result<Message, DecodeError>)
    ensures r == Err(InvalidMessageLength) <==> |bytes| < HeaderLength
    ensures |bytes| >= HeaderLength ==> (r.Ok? <==> ReadAvps(bytes[HeaderLength..]).Ok?)
    ensures r.Ok? ==> ReadAvps(bytes[HeaderLength..]) == Ok(r.value.avps)
    ensures r.Ok? ==> r.value.version == bytes[0] && r.value.flags == bytes[4]
    ensures r.Ok? ==> r.value.commandCode == ReadBE24(bytes[5..8]) && r.value.applicationId == ReadBE32(bytes[8..12])
    ensures r.Ok? ==> r.value.hopByHopId == bytes[12..16] && r.value.endToEndId == bytes[16..20]
  {
    if |bytes| < HeaderLength then Err(InvalidMessageLength)
    else match ReadAvps(bytes[HeaderLength..])
      case Err(e) => Err(e)
      case Ok(avps) =>
        var h := bytes[..HeaderLength];
        assert h[5..8] == bytes[5..8] && h[8..12] == bytes[8..12];
        Ok(Message(h[0], h[4], ReadBE24(h[5..8]), ReadBE32(h[8..12]), h[12..16], h[16..20], avps))
  }

  /** The header after the version and length, field by field. */
  lemma HeaderTail(x: seq<uint8>)
    requires |x| == HeaderLength
    ensures x[4..HeaderLength] == [x[4]] + x[5..8] + x[8..12] + x[12..16] + x[16..20]
  {
  }

  /** A message whose header fields were read from the header bytes `b`
      encodes them back, all but the length field. */
  lemma HeaderFieldsInverse(b: seq<uint8>, m: Message)
    requires |b| == HeaderLength
    requires m.version == b[0] && m.flags == b[4]
    requires m.commandCode == ReadBE24(b[5..8]) && m.applicationId == ReadBE32(b[8..12])
    requires m.hopByHopId == b[12..16] && m.endToEndId == b[16..20]
    ensures var h := HeaderBytes(m); h[0] == b[0] && h[4..HeaderLength] == b[4..HeaderLength]
  {
    var h := HeaderBytes(m);
    ReadBE24Inverse(b[5..8]);
    ReadBE32Inverse(b[8..12]);
    assert h[5..8] == b[5..8];
    assert h[8..12] == b[8..12];
    HeaderTail(h);
    HeaderTail(b);
  }

  /** The parsed header fields encode back to the bytes they came from,
      all but the length field. */
  lemma ReadMessageHeader(bytes: seq<uint8>)
    requires ReadMessage(bytes).Ok?
    ensures var h := HeaderBytes(ReadMessage(bytes).value);
      h[0] == bytes[0] && h[4..HeaderLength] == bytes[4..HeaderLength]
  {
    var b := bytes[..HeaderLength];
    HeaderFieldsInverse(b, ReadMessage(bytes).value);
    assert b[4..HeaderLength] == bytes[4..HeaderLength];
  }

  /** The header fields read back from HeaderBytes, whatever follows it. */
  lemma HeaderBytesInverse(m: Message)
    requires m.commandCode < 0x100_0000
    ensures var h := HeaderBytes(m);
      && h[0] == m.version && h[4] == m.flags
      && ReadBE24(h[5..8]) == m.commandCode
      && ReadBE32(h[8..12]) == m.applicationId
      && h[12..16] == m.hopByHopId && h[16..20] == m.endToEndId
  {
    var h := HeaderBytes(m);
    assert m.commandCode % 0x100_0000 == m.commandCode;
    assert h[5..8] == BE24(m.commandCode) + [];
    BE24Inverse(m.commandCode, []);
    assert h[8..12] == BE32(m.applicationId) + [];
    BE32Inverse(m.applicationId, []);
  }

  /** Round trip: a message whose command code fits in 24 bits and whose
      AVPs are well formed reads back unchanged. */
  lemma ReadMessageInverse(m: Message)
    requires m.commandCode < 0x100_0000
    requires AllWellFormed(m.avps)
    ensures ReadMessage(MessageToBytes(m)) == Ok(m)
  {
    var r := MessageToBytes(m);
    ReadAvpsInverse(m.avps);
    HeaderBytesInverse(m);
    assert r[..HeaderLength] == HeaderBytes(m);
  }

  /** The declared length is never consulted: overwriting it changes
      nothing in the parsed message. */
  lemma LengthFieldIgnored(bytes: seq<uint8>, declared: seq<uint8>)
    requires |bytes| >= HeaderLength && |declared| == 3
    ensures ReadMessage(bytes[..1] + declared + bytes[4..]) == ReadMessage(bytes)
  {
    var b := bytes[..1] + declared + bytes[4..];
    var h, g := b[..HeaderLength], bytes[..HeaderLength];
    assert b[HeaderLength..] == bytes[HeaderLength..];
    assert h[0] == g[0];
    assert forall i :: 4 <= i < HeaderLength ==> h[i] == g[i];
    assert h[5..8] == g[5..8] && h[8..12] == g[8..12];
    assert h[12..16] == g[12..16] && h[16..20] == g[16..20];
  }
}
