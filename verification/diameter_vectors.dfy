/** Concrete Diameter encodings and decodings, byte for byte. Each lemma
    takes the value it describes as a parameter pinned by its requires, so
    that the verifier works with the value symbolically. */
module DiameterVectors {
  import opened Wrappers
  import opened ByteOrder
  import opened Values
  import opened Diameter
  import opened DiameterMessage

  /** Avp.ToBytes with the fixed-width fields and the padding already
      spelled out. */
  lemma AvpBytesAre(a: Avp, code: seq<uint8>, length: seq<uint8>, vendor: seq<uint8>, padding: seq<uint8>)
    requires a.Length() < 0x100_0000
    requires BE32(a.code) == code && BE24(a.Length()) == length
    requires vendor == (if a.vendorId != 0 then BE32(a.vendorId) else [])
    requires padding == Zeros(a.Padding())
    ensures AvpToBytes(a) == code + [a.flags] + length + vendor + a.data + padding
  {
  }

  /** An AVP with code 1, no flags, no vendor and payload 00 00 00 01. */
  lemma PlainAvpBytes(a: Avp)
    requires a == NewAvp(1, 0, 0, [0, 0, 0, 1])
    ensures AvpToBytes(a) == [0, 0, 0, 1, 0, 0, 0, 0x0c, 0, 0, 0, 1]
  {
    assert BE32(1) == [0, 0, 0, 1] by {
      BE32Digits(1);
    }
    assert BE24(12) == [0, 0, 0x0c] by {
      BE24Digits(12);
    }
    AvpBytesAre(a, [0, 0, 0, 1], [0, 0, 0x0c], [], []);
  }

  /** A vendor-specific Uint32 AVP: code 869, flags 0xc0, vendor 10415. */
  lemma VendorAvpBytes(a: Avp)
    requires a == NewAvpUint32(869, 0xc0, 10415, 83311718)
    ensures AvpToBytes(a) == [0, 0, 0x03, 0x65, 0xc0, 0, 0, 0x10, 0, 0, 0x28, 0xaf, 0x04, 0xf7, 0x3c, 0x66]
  {
    assert a == Avp(869, 0xc0, 10415, [0x04, 0xf7, 0x3c, 0x66]) by {
      BE32Digits(83311718);
    }
    assert BE32(869) == [0, 0, 0x03, 0x65] by {
      BE32Digits(869);
    }
    assert BE32(10415) == [0, 0, 0x28, 0xaf] by {
      BE32Digits(10415);
    }
    assert BE24(16) == [0, 0, 0x10] by {
      BE24Digits(16);
    }
    AvpBytesAre(a, [0, 0, 0x03, 0x65], [0, 0, 0x10], [0, 0, 0x28, 0xaf], []);
    VendorAvpDisplay(AvpToBytes(a));
  }

  lemma VendorAvpDisplay(b: seq<uint8>)
    requires b == [0, 0, 0x03, 0x65] + [0xc0] + [0, 0, 0x10] + [0, 0, 0x28, 0xaf] + [0x04, 0xf7, 0x3c, 0x66] + []
    ensures b == [0, 0, 0x03, 0x65, 0xc0, 0, 0, 0x10, 0, 0, 0x28, 0xaf, 0x04, 0xf7, 0x3c, 0x66]
  {
  }

  /** The first AVP of the sample request: Uint32 1 under code 258. */
  lemma SampleUint32Bytes(a: Avp)
    requires a == NewAvpUint32(258, 0x40, 0, 1)
    ensures AvpToBytes(a) == [0, 0, 1, 0x02, 0x40, 0, 0, 0x0c, 0, 0, 0, 1]
  {
    assert a == Avp(258, 0x40, 0, [0, 0, 0, 1]) by {
      BE32Digits(1);
    }
    assert BE32(258) == [0, 0, 1, 2] by {
      BE32Digits(258);
    }
    assert BE24(12) == [0, 0, 0x0c] by {
      BE24Digits(12);
    }
    AvpBytesAre(a, [0, 0, 1, 2], [0, 0, 0x0c], [], []);
  }

  /** The second AVP of the sample request: address family 1 and
      100.98.179.174 under code 257, then two bytes of padding. */
  lemma SampleNetIPBytes(a: Avp)
    requires a == NewAvpNetIP(257, 0x40, 0, V4([100, 98, 179, 174]))
    ensures AvpToBytes(a) == [0, 0, 1, 1, 0x40, 0, 0, 0x0e, 0, 1, 0x64, 0x62, 0xb3, 0xae, 0, 0]
  {
    assert a == Avp(257, 0x40, 0, [0, 1, 100, 98, 179, 174]);
    assert BE32(257) == [0, 0, 1, 1] by {
      BE32Digits(257);
    }
    assert BE24(14) == [0, 0, 0x0e] by {
      BE24Digits(14);
    }
    assert Zeros(2) == [0, 0];
    AvpBytesAre(a, [0, 0, 1, 1], [0, 0, 0x0e], [], [0, 0]);
    NetIPAvpDisplay(AvpToBytes(a));
  }

  lemma NetIPAvpDisplay(b: seq<uint8>)
    requires b == [0, 0, 1, 1] + [0x40] + [0, 0, 0x0e] + [] + [0, 1, 100, 98, 179, 174] + [0, 0]
    ensures b == [0, 0, 1, 1, 0x40, 0, 0, 0x0e, 0, 1, 0x64, 0x62, 0xb3, 0xae, 0, 0]
  {
  }

  /** The two AVPs of the sample request: Uint32 258 and address 257. */
  function SampleAvps(): seq<Avp> {
    [NewAvpUint32(258, 0x40, 0, 1), NewAvpNetIP(257, 0x40, 0, V4([100, 98, 179, 174]))]
  }

  function SampleMessage(): Message {
    Message(1, 0x80, 265, 1, [0, 0, 0, 0], [0, 0, 0, 0], SampleAvps())
  }

  /** The sample AVPs, as bytes: 12 bytes for the Uint32, 14 plus two bytes
      of padding for the address. */
  lemma SampleAvpsBytes(xs: seq<Avp>)
    requires xs == SampleAvps()
    ensures AvpsToBytes(xs)
      == [0, 0, 1, 0x02, 0x40, 0, 0, 0x0c, 0, 0, 0, 1]
        + [0, 0, 1, 1, 0x40, 0, 0, 0x0e, 0, 1, 0x64, 0x62, 0xb3, 0xae, 0, 0]
  {
    SampleUint32Bytes(xs[0]);
    SampleNetIPBytes(xs[1]);
    assert AvpsToBytes(xs) == AvpToBytes(xs[0]) + AvpToBytes(xs[1]) by {
      assert xs[1..][1..] == [];
    }
  }

  /** Message.ToBytes's header with the fixed-width fields spelled out. */
  lemma HeaderBytesAre(m: Message, length: seq<uint8>, command: seq<uint8>, application: seq<uint8>)
    requires BE24(Length(m) % 0x100_0000) == length
    requires BE24(m.commandCode % 0x100_0000) == command
    requires BE32(m.applicationId) == application
    ensures HeaderBytes(m)
      == [m.version] + length + [m.flags] + command + application + m.hopByHopId + m.endToEndId
  {
  }

  lemma SampleAvpsSize(xs: seq<Avp>)
    requires xs == SampleAvps()
    ensures EncodedSize(xs) == 28
  {
    assert xs[1..][1..] == [];
  }

  lemma SampleHeaderDisplay(h: seq<uint8>)
    requires h == [1] + [0, 0, 0x30] + [0x80] + [0, 1, 9] + [0, 0, 0, 1] + [0, 0, 0, 0] + [0, 0, 0, 0]
    ensures h == [1, 0, 0, 0x30, 0x80, 0, 1, 9, 0, 0, 0, 1, 0, 0, 0, 0, 0, 0, 0, 0]
  {
  }

  /** The sample request's header: version 1, length 0x30, flags 0x80,
      command code 265, application 1, zero identifiers. */
  lemma SampleHeaderBytes(m: Message)
    requires m.version == 1 && m.flags == 0x80 && m.commandCode == 265 && m.applicationId == 1
    requires m.hopByHopId == [0, 0, 0, 0] && m.endToEndId == [0, 0, 0, 0]
    requires EncodedSize(m.avps) == 28
    ensures HeaderBytes(m) == [1, 0, 0, 0x30, 0x80, 0, 1, 9, 0, 0, 0, 1, 0, 0, 0, 0, 0, 0, 0, 0]
  {
    assert BE24(0x30) == [0, 0, 0x30] by {
      BE24Digits(0x30);
    }
    assert BE24(265) == [0, 1, 9] by {
      BE24Digits(265);
    }
    assert BE32(1) == [0, 0, 0, 1] by {
      BE32Digits(1);
    }
    HeaderBytesAre(m, [0, 0, 0x30], [0, 1, 9], [0, 0, 0, 1]);
    SampleHeaderDisplay(HeaderBytes(m));
  }

  /** The whole sample request, 48 bytes. */
  lemma SampleMessageBytes(m: Message)
    requires m == SampleMessage()
    ensures MessageToBytes(m)
      == [1, 0, 0, 0x30, 0x80, 0, 1, 9, 0, 0, 0, 1, 0, 0, 0, 0, 0, 0, 0, 0]
        + [0, 0, 1, 0x02, 0x40, 0, 0, 0x0c, 0, 0, 0, 1]
        + [0, 0, 1, 1, 0x40, 0, 0, 0x0e, 0, 1, 0x64, 0x62, 0xb3, 0xae, 0, 0]
  {
    SampleAvpsSize(m.avps);
    SampleHeaderBytes(m);
    SampleAvpsBytes(m.avps);
  }

  /** Reading the sample request back gives the message it was built from,
      whose first 258 is the Uint32 1 and whose first 257 is the address
      100.98.179.174. */
  lemma SampleMessageReadBack(m: Message)
    requires m == SampleMessage()
    ensures ReadMessage(MessageToBytes(m)) == Ok(m)
    ensures GetFirst(m.avps, 258, 0) == Some(NewAvpUint32(258, 0x40, 0, 1))
    ensures GetFirst(m.avps, 257, 0) == Some(NewAvpNetIP(257, 0x40, 0, V4([100, 98, 179, 174])))
    ensures ToUint32(GetFirst(m.avps, 258, 0)) == Some(1)
    ensures ToNetIP(GetFirst(m.avps, 257, 0)) == Some([100, 98, 179, 174])
  {
    var xs := m.avps;
    assert WellFormed(xs[0]) && WellFormed(xs[1]);
    assert AllWellFormed(xs);
    ReadMessageInverse(m);
  }

  /** A timestamp AVP (code 55) holding NTP seconds 0xe9ef665d. */
  lemma TimestampAvpBytes(ts: Avp)
    requires ts == NewAvp(55, 0, 0, [0xe9, 0xef, 0x66, 0x5d])
    ensures AvpToBytes(ts) == [0, 0, 0, 0x37, 0, 0, 0, 0x0c, 0xe9, 0xef, 0x66, 0x5d]
  {
    assert BE32(0x37) == [0, 0, 0, 0x37] by {
      BE32Digits(0x37);
    }
    assert BE24(12) == [0, 0, 0x0c] by {
      BE24Digits(12);
    }
    AvpBytesAre(ts, [0, 0, 0, 0x37], [0, 0, 0x0c], [], []);
  }

  /** NTP seconds 0xe9ef665d are Unix seconds 1715791837
      (2024-05-15T16:50:37Z). */
  lemma TimestampValue(ts: Avp)
    requires ts == NewAvp(55, 0, 0, [0xe9, 0xef, 0x66, 0x5d])
    ensures ToTime(Some(ts)) == Some(1715791837)
  {
    assert ts.data == BE32(0xe9ef665d) + [] by {
      BE32Digits(0xe9ef665d);
    }
    BE32Inverse(0xe9ef665d, []);
  }

  /** The all-zero header reads as version 0, flags 0, command 0,
      application 0 and zero identifiers. */
  lemma ZeroHeader(h: seq<uint8>)
    requires h == Zeros(HeaderLength)
    ensures h[0] == 0 && h[4] == 0 && ReadBE24(h[5..8]) == 0 && ReadBE32(h[8..12]) == 0
    ensures h[12..16] == [0, 0, 0, 0] && h[16..20] == [0, 0, 0, 0]
  {
    assert BE32(0) == [0, 0, 0, 0] && BE24(0) == [0, 0, 0] by {
      BE32Digits(0);
      BE24Digits(0);
    }
    assert h[5..8] == BE24(0) + [] && h[8..12] == BE32(0) + [];
    BE32Inverse(0, []);
    BE24Inverse(0, []);
  }

  /** The timestamp AVP after an all-zero header decodes to a message
      holding just that AVP. */
  lemma TimestampMessage(bytes: seq<uint8>, ts: Avp)
    requires ts == NewAvp(55, 0, 0, [0xe9, 0xef, 0x66, 0x5d])
    requires bytes == Zeros(HeaderLength) + [0, 0, 0, 0x37, 0, 0, 0, 0x0c, 0xe9, 0xef, 0x66, 0x5d]
    ensures ReadMessage(bytes) == Ok(Message(0, 0, 0, 0, [0, 0, 0, 0], [0, 0, 0, 0], [ts]))
    ensures GetFirst([ts], 55, 0) == Some(ts)
  {
    TimestampAvpBytes(ts);
    ReadAvpInverse(ts, []);
    assert bytes[HeaderLength..] == AvpToBytes(ts) + [];
    ZeroHeader(bytes[..HeaderLength]);
  }

  /** A group built on the encoding side is navigable after reading the
      message back: group 456 holds Uint32 432 = 1. */
  lemma GroupedAvpReadBack(m: Message, inner: seq<Avp>)
    requires inner == [NewAvpUint32(432, 0, 0, 1)]
    requires m == Message(1, 0, 265, 1, [0, 0, 0, 0], [0, 0, 0, 0], [NewAvpGroup(456, 0, 0, inner)])
    ensures ReadMessage(MessageToBytes(m)) == Ok(m)
    ensures GetFirst(m.avps, 456, 0) == Some(NewAvpGroup(456, 0, 0, inner))
    ensures ReadAvps(NewAvpGroup(456, 0, 0, inner).data) == Ok(inner)
    ensures ToGroup(GetFirst(m.avps, 456, 0)) == inner
    ensures GetFirst(inner, 432, 0) == Some(NewAvpUint32(432, 0, 0, 1))
    ensures ToUint32(GetFirst(inner, 432, 0)) == Some(1)
  {
    var g := NewAvpGroup(456, 0, 0, inner);
    assert AllWellFormed(inner);
    GroupRoundTrip(456, 0, 0, inner);
    assert WellFormed(g) by {
      assert |g.data| == 12 by {
        assert inner[1..] == [];
      }
    }
    assert AllWellFormed(m.avps);
    ReadMessageInverse(m);
  }
}
