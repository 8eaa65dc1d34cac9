/** The RADIUS packet (section 3 of RFC 2865): code, identifier, a 16-bit
    length, the 16-byte authenticator, then the attributes. */
module RadiusMessage {
  import opened Wrappers
  import opened ByteOrder
  import opened Radius

  /** Size of the fixed header. */
  const HeaderLength: nat := 20

  /** The Request or Response Authenticator: sixteen opaque bytes. */
  type Authenticator = s: seq<uint8> | |s| == 16 witness Zeros16()

  function Zeros16(): seq<uint8> {
    [0, 0, 0, 0, 0, 0, 0, 0, 0, 0, 0, 0, 0, 0, 0, 0]
  }

  /** A packet; NewMessage is this constructor (the length it computes is
      discarded). The code is a 32-bit value of which only the low byte is
      ever written. */
  datatype Message = Message(
    code: uint32,
    identifier: uint8,
    authenticator: Authenticator,
    avps: seq<Avp>)

  /** The sum of the attributes' length bytes. */
  function LengthSum(xs: seq<Avp>): nat {
    if xs == [] then 0 else xs[0].Length() as nat + LengthSum(xs[1..])
  }

  /** Message.length: 20 plus every attribute's length byte, accumulated in
      a uint16 that wraps. */
  function Length(m: Message): (r: uint16)
    ensures AllWellFormed(m.avps) ==> r == (HeaderLength + |AvpsToBytes(m.avps)|) % 0x1_0000
  {
    if AllWellFormed(m.avps) then
      LengthSumIsSize(m.avps);
      (HeaderLength + LengthSum(m.avps)) % 0x1_0000
    else
      (HeaderLength + LengthSum(m.avps)) % 0x1_0000
  }

  /** When no attribute's length byte has wrapped, the sum of the length
      bytes is the encoded size of the attributes. */
  lemma {:induction false} LengthSumIsSize(xs: seq<Avp>)
    requires AllWellFormed(xs)
    ensures LengthSum(xs) == EncodedSize(xs) == |AvpsToBytes(xs)|
  {
    if xs != [] {
      assert WellFormed(xs[0]);
      LengthSumIsSize(xs[1..]);
    }
  }

  /** The 20 header bytes of Message.ToBytes: byte(Code), the identifier,
      the length, the authenticator. */
  function HeaderBytes(m: Message): (r: seq<uint8>)
    ensures |r| == HeaderLength
    ensures r[0] == m.code % 0x100 && r[1] == m.identifier
    ensures r[2..4] == BE16(Length(m))
    ensures r[4..HeaderLength] == m.authenticator
  {
    [m.code % 0x100, m.identifier] + BE16(Length(m)) + m.authenticator
  }

  /** Message.ToBytes: the header, then the attributes in order. */
  function MessageToBytes(m: Message): (r: seq<uint8>)
    ensures |r| == HeaderLength + EncodedSize(m.avps)
    ensures r[..HeaderLength] == HeaderBytes(m)
    ensures r[HeaderLength..] == AvpsToBytes(m.avps)
  {
    HeaderBytes(m) + AvpsToBytes(m.avps)
  }

  /** The length field holds the size of the whole encoding when every
      attribute is well formed and the size fits in 16 bits. */
  lemma LengthFieldIsSize(m: Message)
    requires AllWellFormed(m.avps)
    requires HeaderLength + EncodedSize(m.avps) < 0x1_0000
    ensures ReadBE16(MessageToBytes(m)[2..4]) == |MessageToBytes(m)|
  {
    LengthSumIsSize(m.avps);
    var r := MessageToBytes(m);
    assert r[2..4] == HeaderBytes(m)[2..4] == BE16(Length(m)) + [];
    BE16Inverse(Length(m), []);
  }

  /** ReadMessage: fails on fewer than 20 bytes, otherwise takes the code,
      the identifier and the authenticator at their fixed offsets and
      decodes the attributes from byte 20. The declared length (bytes 2
      and 3) is not read. */
  function ReadMessage(bytes: seq<uint8>): (r: Result<Message, DecodeError>)
    ensures r == Err(InvalidMessageLength) <==> |bytes| < HeaderLength
    ensures |bytes| >= HeaderLength ==> (r.Ok? <==> ReadAvps(bytes[HeaderLength..]).Ok?)
    ensures r.Ok? ==> ReadAvps(bytes[HeaderLength..]) == Ok(r.value.avps)
    ensures r.Ok? ==> r.value.code == bytes[0] as uint32 && r.value.identifier == bytes[1]
    ensures r.Ok? ==> r.value.authenticator == bytes[4..HeaderLength]
  {
    if |bytes| < HeaderLength then Err(InvalidMessageLength)
    else match ReadAvps(bytes[HeaderLength..])
      case Err(e) => Err(e)
      case Ok(avps) => Ok(Message(bytes[0] as uint32, bytes[1], bytes[4..HeaderLength], avps))
  }

  /** Round trip: a packet whose code fits in a byte and whose attributes
      are well formed reads back unchanged. */
  lemma ReadMessageInverse(m: Message)
    requires m.code < 0x100
    requires AllWellFormed(m.avps)
    ensures ReadMessage(MessageToBytes(m)) == Ok(m)
  {
    var r := MessageToBytes(m);
    var h := HeaderBytes(m);
    ReadAvpsInverse(m.avps);
    assert r[HeaderLength..] == AvpsToBytes(m.avps);
    assert r[0] == h[0] == m.code && r[1] == h[1] == m.identifier;
    assert r[4..HeaderLength] == h[4..HeaderLength] == m.authenticator;
  }

  /** Only the low byte of the code survives a round trip. */
  lemma CodeTruncated(m: Message)
    requires AllWellFormed(m.avps)
    ensures ReadMessage(MessageToBytes(m)) == Ok(m.(code := m.code % 0x100))
  {
    var m' := m.(code := m.code % 0x100);
    ReadMessageInverse(m');
    assert HeaderBytes(m') == HeaderBytes(m);
    assert MessageToBytes(m') == MessageToBytes(m);
  }

  /** The declared length is never consulted: overwriting it changes
      nothing in the parsed packet. */
  lemma LengthFieldIgnored(bytes: seq<uint8>, declared: seq<uint8>)
    requires |bytes| >= HeaderLength && |declared| == 2
    ensures ReadMessage(bytes[..2] + declared + bytes[4..]) == ReadMessage(bytes)
  {
    var b := bytes[..2] + declared + bytes[4..];
    assert b[HeaderLength..] == bytes[HeaderLength..];
    assert b[0] == bytes[0] && b[1] == bytes[1];
    assert b[4..HeaderLength] == bytes[4..HeaderLength];
  }
}
