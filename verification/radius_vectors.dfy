/** Concrete RADIUS encodings and decodings, byte for byte. Each lemma takes
    the value it describes as a parameter pinned by its requires, so that
    the verifier works with the value symbolically. */
module RadiusVectors {
  import opened Wrappers
  import opened ByteOrder
  import opened Values
  import opened Radius
  import opened RadiusMessage

  /** A plain attribute of type 1 with payload 00 00 00 01. */
  lemma PlainAvpBytes(a: Avp)
    requires a == NewAvp(1, 0, Some([0, 0, 0, 1]))
    ensures AvpToBytes(a) == [1, 6, 0, 0, 0, 1]
  {
  }

  /** The IMSI 901280064290558 as the bytes of its text. */
  function Imsi(): seq<uint8> {
    [0x39, 0x30, 0x31, 0x32, 0x38, 0x30, 0x30, 0x36, 0x34, 0x32, 0x39, 0x30, 0x35, 0x35, 0x38]
  }

  /** The IMSI as a plain User-Name attribute (type 1). */
  lemma PlainImsiBytes(a: Avp)
    requires a == NewAvpString(1, 0, Imsi())
    ensures AvpToBytes(a) == [1, 0x11] + Imsi()
  {
  }

  /** The IMSI as a Vendor-Specific attribute: vendor 10415, vendor type 1. */
  lemma VendorImsiBytes(a: Avp)
    requires a == NewAvpString(1, 10415, Imsi())
    ensures AvpToBytes(a) == [0x1a, 0x17, 0, 0, 0x28, 0xaf, 1, 0x11] + Imsi()
  {
    assert BE32(10415) == [0, 0, 0x28, 0xaf] by {
      BE32Digits(10415);
    }
  }

  function SampleAvps(): seq<Avp> {
    [NewAvpString(1, 0, Imsi()), NewAvpString(1, 10415, Imsi())]
  }

  /** The sample Access-Request: code 1, identifier 1, zero authenticator. */
  function SampleMessage(): Message {
    Message(1, 1, Zeros16(), SampleAvps())
  }

  /** The sample packet's header: code 1, identifier 1, length 0x3c. */
  lemma SampleHeaderBytes(m: Message)
    requires m.code == 1 && m.identifier == 1 && m.authenticator == Zeros16()
    requires LengthSum(m.avps) == 40
    ensures HeaderBytes(m) == [1, 1, 0, 0x3c] + Zeros16()
  {
    assert BE16(0x3c) == [0, 0x3c] by {
      BE16Digits(0x3c);
    }
  }

  lemma SampleLengthSum(xs: seq<Avp>)
    requires xs == SampleAvps()
    ensures LengthSum(xs) == 40
  {
    assert xs[1..][1..] == [];
  }

  /** The whole sample packet, 60 bytes. */
  lemma SampleMessageBytes(m: Message)
    requires m == SampleMessage()
    ensures MessageToBytes(m)
      == [1, 1, 0, 0x3c] + Zeros16()
        + [1, 0x11] + Imsi()
        + [0x1a, 0x17, 0, 0, 0x28, 0xaf, 1, 0x11] + Imsi()
  {
    var xs := m.avps;
    SampleLengthSum(xs);
    SampleHeaderBytes(m);
    PlainImsiBytes(xs[0]);
    VendorImsiBytes(xs[1]);
    assert AvpsToBytes(xs) == AvpToBytes(xs[0]) + AvpToBytes(xs[1]) by {
      assert xs[1..][1..] == [];
    }
  }

  /** Reading the sample packet back gives the packet it was built from,
      whose first plain type-1 attribute is the IMSI. */
  lemma SampleMessageReadBack(m: Message)
    requires m == SampleMessage()
    ensures ReadMessage(MessageToBytes(m)) == Ok(m)
    ensures ToString(GetFirst(m.avps, 1, 0)) == Some(Imsi())
    ensures ToString(GetFirst(m.avps, 1, 10415)) == Some(Imsi())
  {
    var xs := m.avps;
    assert WellFormed(xs[0]) && WellFormed(xs[1]);
    assert AllWellFormed(xs);
    ReadMessageInverse(m);
    assert GetFirst(xs, 1, 0) == Some(xs[0]);
    assert GetFirst(xs, 1, 10415) == Some(xs[1]);
  }

  /** An Event-Timestamp attribute (type 55) after an all-zero header. */
  lemma TimestampMessage(bytes: seq<uint8>, ts: Avp)
    requires bytes == Zeros16() + [0, 0, 0, 0] + [0x37, 6, 0x64, 0xa5, 0x36, 0x25]
    requires ts == NewAvp(55, 0, Some([0x64, 0xa5, 0x36, 0x25]))
    ensures ReadMessage(bytes) == Ok(Message(0, 0, Zeros16(), [ts]))
  {
    assert bytes[HeaderLength..] == AvpToBytes(ts) + [];
    assert WellFormed(ts);
    ReadAvpInverse(ts, []);
    assert bytes[4..HeaderLength] == Zeros16();
  }

  /** 0x64a53625 is Unix second 1688548901 (2023-07-05T09:21:41Z). */
  lemma TimestampValue(ts: Avp)
    requires ts == NewAvp(55, 0, Some([0x64, 0xa5, 0x36, 0x25]))
    ensures ToTime(GetFirst([ts], 55, 0)) == Some(1688548901)
  {
    assert ts.Data() == BE32(0x64a53625) + [] by {
      BE32Digits(0x64a53625);
    }
    BE32Inverse(0x64a53625, []);
  }
}
