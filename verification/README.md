# radius-diameter-message in Dafny

A Dafny model of the two wire codecs of the Go library
`radius-diameter-message`. Neither codec does any network I/O: each one
turns byte buffers into message values and back.

- **Diameter** (RFC 6733). This part lives in the modules `Diameter` and
  `DiameterMessage`.
  - An AVP is a code, a flags byte, an optional Vendor-ID and a payload.
    Its AVP Length and padding are derived from the payload and the
    vendor id, never stored.
  - `AvpToBytes` writes the 8- or 12-byte AVP header, the payload and zero
    padding to a 4-byte boundary.
  - `ReadAvps` walks a buffer AVP by AVP. It reads a Vendor-ID only when
    flag bit 0x80 is set, and advances by the length field plus the
    padding.
  - A message is a 20-byte header (version, 24-bit length, flags, 24-bit
    command code, application id, hop-by-hop and end-to-end ids) followed
    by the top-level AVPs.
  - Grouped AVPs carry an encoded collection as their payload.
- **RADIUS** (RFC 2865). This part lives in the modules `Radius` and
  `RadiusMessage`.
  - A plain attribute is a type byte, a length byte and the value.
  - An attribute with a vendor id is written as a Vendor-Specific
    attribute: type 26, then the Vendor-Id, the vendor type and the
    vendor length.
  - Length bytes are the size truncated to eight bits.
  - A packet is code, identifier, 16-bit length and the 16-byte
    authenticator, followed by the attributes.

Both codecs have the same other parts:
- lookup by (code or type, vendor id), with `Get` for all matches and
  `GetFirst` for the first;
- typed constructors for strings, integers, IP addresses, times and
  groups;
- nil-safe typed accessors with `OrDefault` variants.

Shared building blocks:
- `Wrappers`: `Option` and `Result`.
- `ByteOrder`: fixed-width unsigned integers and big-endian encoding,
  with both round trips.
- `Values`: IP addresses and instants as the accessors see them.

The modules `DiameterVectors` and `RadiusVectors` state the byte-level
examples of the repository's tests as lemmas about the model.

How Go behaviour is represented:
- **Panics and endless loops.** The Go decoders slice the input with
  lengths taken from the input. Where Go would panic, the decoders here
  return `Err(SliceOutOfRange)`. The RADIUS decoder never terminates on a
  Vendor-Specific attribute whose length byte is 0; that case returns
  `Err(NoProgress)`.
- **Accessors that can panic.** The typed accessors that would panic on a
  short payload (`ToUint32`, `ToUint64`, `ToTime`, `ToNetIP`, `ToGroup`)
  take the panic-free condition as a precondition.
- **Nil pointers.** A nil `*Avp` is `None`.
- **Nil payloads.**
  - In RADIUS the payload is an `Option`. `NewAvpNetIP` on a non-IPv4
    address yields a nil slice, which encodes like an empty one but which
    the accessors report as absent.
  - In Diameter the payload is a plain byte sequence. A nil slice passed
    to `NewAvp` or `Add` is modelled as the empty payload, which the
    accessors report as present (see "Left out").
- **Go values.**
  - Strings are their bytes.
  - A `time.Time` is its `Unix()` seconds.
  - Integer truncation by Go conversions is written out as `%`.

## Model

| member | source | states |
|---|---|---|
| ByteOrder.BE24Digits | diameter/diameter.go:217-222 | writeUInt24 yields the value's three low bytes, most significant first: x / 65536, (x / 256) % 256, x % 256 |
| ByteOrder.ReadBE24Value | diameter/diameter.go:481-487 | readUInt24 of three bytes b0 b1 b2 is b0 * 65536 + b1 * 256 + b2, the uint32 with a zero high byte prepended |
| ByteOrder.BE24Inverse | diameter/diameter.go:217-222 | the 24-bit writer followed by the 24-bit reader gives the value back, whatever bytes follow |
| ByteOrder.ReadBE24Inverse | diameter/diameter.go:481-487 | reading three bytes as a 24-bit value and writing it again reproduces exactly those bytes |
| ByteOrder.BE32Inverse | diameter/diameter.go:127-132 | a 32-bit big-endian field reads back as the value written, whatever bytes follow |
| ByteOrder.ReadBE32Inverse | diameter/diameter.go:462 | the four bytes read as a 32-bit big-endian value are the encoding of that value |
| ByteOrder.BE64Inverse | diameter/diameter.go:80-85 | a 64-bit big-endian field reads back as the value written |
| ByteOrder.BE16Inverse | radius/radius.go:180-181 | a 16-bit big-endian field reads back as the value written |
| Diameter.NewAvp | diameter/diameter.go:43-60 | the AVP Length is the payload plus 8 header bytes, plus 4 when a vendor id is given; padding is below 4, brings length plus padding to a multiple of 4, and is 0 exactly when the payload is already aligned |
| Diameter.WithFlags | diameter/diameter.go:33-40 | a nil AVP stays nil; otherwise only the flags change, and a well-formed AVP stays well formed exactly when the vendor bit is unchanged |
| Diameter.AvpToBytes | diameter/diameter.go:126-138 | the encoding has length plus padding bytes, always a multiple of 4 |
| Diameter.AvpToBytesLayout | diameter/diameter.go:126-138 | code at bytes 0..4, flags at 4, low 24 bits of the length at 5..8, Vendor-ID at 8..12 only when the vendor id is not 0, then the payload, then only zero bytes |
| Diameter.AvpsToBytes | diameter/diameter.go:148-155 | the encoding of a collection is exactly as long as the sum of its members' lengths plus paddings |
| Diameter.AvpsToBytesConcat | diameter/diameter.go:149-155 | encoding a concatenation is the concatenation of the encodings |
| Diameter.Add | diameter/diameter.go:157-160 | appending one AVP appends exactly its encoding; Get for its (code, vendor) gains exactly that AVP at the end, and Get for every other key is unchanged |
| Diameter.AddAvps | diameter/diameter.go:162-165 | appending a collection appends its encoding, and every Get result is the old one followed by the appended collection's |
| Diameter.Get | diameter/diameter.go:279-288 | every result matches (code, vendor) and comes from the collection, and every matching member is in the result |
| Diameter.GetConcat | diameter/diameter.go:279-288 | Get distributes over concatenation, so it keeps the members' relative order |
| Diameter.GetFirst | diameter/diameter.go:290-298 | absent exactly when no member matches; otherwise the matching member with no match before it |
| Diameter.GetFirstIsHeadOfGet | diameter/diameter.go:279-298 | GetFirst is the first element of Get, or absent when Get is empty |
| Diameter.ReadAvp | diameter/diameter.go:461-476 | one decoding step succeeds exactly when 8 header bytes are present and the declared length lies between the wire header size (12 with bit 0x80, else 8) and the buffer end; the decoded code, flags and payload come from bytes 0..4, byte 4 and the wire header to the length; the vendor id is the 32-bit value at bytes 8..12 under bit 0x80 and 0 otherwise; the step is length plus padding, at least 8 and a multiple of 4 |
| Diameter.ReadAvps | diameter/diameter.go:457-479 | an empty buffer gives no AVPs; decoding fails only by an out-of-range slice; every decoded AVP used at least 8 bytes and has a Vendor-ID only under bit 0x80 |
| Diameter.AvpHeaderInverse | diameter/diameter.go:126-138 | reading an encoded AVP's header fields at the decoder's offsets recovers code, flags, length, Vendor-ID and payload |
| Diameter.ReadAvpInverse | diameter/diameter.go:461-476 | decoding the encoding of a well-formed AVP recovers it and advances by exactly its encoded size |
| Diameter.ReadAvpsInverse | diameter/diameter.go:457-479 | decoding the encoding of well-formed AVPs gives them back in order |
| Diameter.VendorIdWithoutFlag | diameter/diameter.go:464 | for every AVP with a vendor id but without bit 0x80 whose length fits 24 bits, the decoder reads the Vendor-ID back as the first four payload bytes and the vendor id as 0 |
| Diameter.FlagWithoutVendorId | diameter/diameter.go:468-470 | for every AVP with bit 0x80, vendor id 0, at least four payload bytes and a length that fits 24 bits, the decoder takes the first four payload bytes as the Vendor-ID and the rest as the payload |
| Diameter.ToData | diameter/diameter.go:300-306 | the payload of a present AVP, empty for an absent one |
| Diameter.ToString | diameter/diameter.go:308-315 | present exactly when the AVP is, and then the payload bytes |
| Diameter.ToStringOrDefault | diameter/diameter.go:317-325 | the empty string for an absent AVP, otherwise what ToString gives |
| Diameter.ToUint32 | diameter/diameter.go:327-334 | present exactly when the AVP is, and then the value whose big-endian encoding is the first four payload bytes |
| Diameter.ToUint32OrDefault | diameter/diameter.go:336-344 | 0 for an absent AVP, otherwise what ToUint32 gives |
| Diameter.ToUint64 | diameter/diameter.go:346-353 | present exactly when the AVP is, and then the value whose big-endian encoding is the first eight payload bytes |
| Diameter.ToUint64OrDefault | diameter/diameter.go:355-363 | 0 for an absent AVP, otherwise what ToUint64 gives |
| Diameter.ToNetIP | diameter/diameter.go:405-417 | present exactly when the AVP is; 4 address bytes from offset 2 when the family byte is 1, otherwise 16 |
| Diameter.ToNetIPOrDefault | diameter/diameter.go:419-427 | the empty address for an absent AVP, otherwise what ToNetIP gives |
| Diameter.ToTime | diameter/diameter.go:429-437 | present exactly when the AVP is; the result plus the NTP offset is the 32-bit value of the first four payload bytes, so it lies in [-2208988800, 2^32 - 2208988800) |
| Diameter.ToTimeOrDefault | diameter/diameter.go:439-447 | Go's zero time for an absent AVP, otherwise what ToTime gives |
| Diameter.ToGroup | diameter/diameter.go:449-455 | an absent AVP gives the empty collection; otherwise the collection the payload decodes to |
| Diameter.NewAvpString | diameter/diameter.go:68-71 | ToString reads back the given string |
| Diameter.NewAvpUint32 | diameter/diameter.go:73-78 | a 4-byte unpadded payload that ToUint32 reads back as the given value |
| Diameter.NewAvpUint64 | diameter/diameter.go:80-85 | an 8-byte unpadded payload that ToUint64 reads back as the given value |
| Diameter.NewAvpNetIP | diameter/diameter.go:103-116 | the payload is a zero byte, the family (1 for IPv4, 2 otherwise) and the address octets, 6 or 18 bytes; ToNetIP reads back the address |
| Diameter.NewAvpTime | diameter/diameter.go:118-123 | the payload is the Unix seconds truncated to 32 bits, which ToTime reads back shifted by the NTP offset |
| Diameter.NewAvpTimeNeverInverse | diameter/diameter.go:118-123 | for every instant, ToTime of NewAvpTime differs from the instant |
| Diameter.NewAvpTimeNtp | diameter/diameter.go:429-437 | with the NTP offset added, ToTime reads back every instant in its 32-bit range |
| Diameter.NewAvpGroup | diameter/diameter.go:62-66 | the payload is exactly the group's encoding, a multiple of 4 long, so the AVP needs no padding |
| Diameter.GroupRoundTrip | diameter/diameter.go:449-455 | ToGroup of a group built from well-formed AVPs gives those AVPs back |
| Diameter.AbsencePropagates | tests/diameter_test.go:65-86 | after a failed GetFirst, chained ToGroup and GetFirst stay absent and every OrDefault accessor gives its zero value |
| DiameterMessage.Length | diameter/diameter.go:243-250 | the message length is at least 20 and a multiple of 4 |
| DiameterMessage.HeaderBytes | diameter/diameter.go:265-274 | 20 bytes: version, low 24 bits of the length, flags, low 24 bits of the command code, application id, hop-by-hop and end-to-end ids at their offsets |
| DiameterMessage.MessageToBytes | diameter/diameter.go:265-277 | the header followed by the AVP encodings; the size is exactly the message length |
| DiameterMessage.LengthFieldIsSize | diameter/diameter.go:243-277 | when the size fits 24 bits, the length field reads back as the number of bytes written |
| DiameterMessage.ReadMessage | diameter/diameter.go:489-508 | fails with the length error exactly when given fewer than 20 bytes; otherwise succeeds exactly when the AVPs from byte 20 decode, and holds those AVPs with version, flags, command code, application id and the two identifiers read from their fixed offsets |
| DiameterMessage.ReadMessageHeader | diameter/diameter.go:489-508 | a parsed header re-encodes to the input's header bytes, all but the length field |
| DiameterMessage.HeaderBytesInverse | diameter/diameter.go:489-508 | every header field except the length reads back from the header bytes |
| DiameterMessage.ReadMessageInverse | diameter/diameter.go:265-277 | a message with a 24-bit command code and well-formed AVPs reads back unchanged |
| DiameterMessage.LengthFieldIgnored | diameter/diameter.go:489-508 | overwriting the declared length does not change what ReadMessage returns |
| DiameterVectors.PlainAvpBytes | tests/diameter_test.go:123-126 | AVP code 1 with payload 00000001 encodes to the 12 bytes of the test |
| DiameterVectors.VendorAvpBytes | tests/diameter_test.go:128-136 | AVP 869, flags 0xc0, vendor 10415, value 83311718 encodes to the 16 bytes of the test |
| DiameterVectors.SampleUint32Bytes | tests/diameter_test.go:40-41 | AVP 258 holding 1 encodes to the 12 bytes of the test |
| DiameterVectors.SampleNetIPBytes | tests/diameter_test.go:42-43 | AVP 257 holding 100.98.179.174 encodes to 16 bytes: family 1, the address, 2 zero bytes of padding |
| DiameterVectors.SampleHeaderBytes | tests/diameter_test.go:25-39 | the sample message's header: version 1, length 0x30, flags 0x80, command 265, application 1, zero ids |
| DiameterVectors.SampleMessageBytes | tests/diameter_test.go:18-43 | the sample message encodes to the 48 bytes the test checks |
| DiameterVectors.SampleMessageReadBack | tests/diameter_test.go:45-49 | the sample message reads back unchanged; AVP 258 gives 1 and AVP 257 gives 100.98.179.174 |
| DiameterVectors.TimestampAvpBytes | tests/diameter_test.go:109-117 | AVP 55 with payload e9ef665d encodes to the test's 12 bytes 000000370000000ce9ef665d |
| DiameterVectors.TimestampMessage | tests/diameter_test.go:109-117 | a zero header followed by the test's 12 bytes 000000370000000ce9ef665d decodes to a single AVP 55 |
| DiameterVectors.TimestampValue | tests/diameter_test.go:118-120 | that AVP's time is Unix second 1715791837, 2024-05-15T16:50:37Z |
| DiameterVectors.GroupedAvpReadBack | tests/diameter_test.go:88-107 | a group 456 holding AVP 432 = 1 survives a message round trip, and ToGroup then GetFirst then ToUint32 gives 1 |
| Radius.NewAvp | radius/radius.go:27-42 | when the attribute fits the length byte, the length byte is the header size (2, or 8 with a vendor id) plus the payload size |
| Radius.AvpToBytes | radius/radius.go:70-89 | the encoding is the header size plus the payload size, with no padding |
| Radius.AvpToBytesLayout | radius/radius.go:70-89 | type 26 whenever there is a vendor id, otherwise the attribute's own type; the length byte is the encoding size modulo 256; Vendor-Id, vendor type and vendor length follow for vendor attributes; the payload ends the encoding |
| Radius.AvpsToBytes | radius/radius.go:129-137 | the encoding of a collection is exactly as long as the sum of its members' header and payload sizes |
| Radius.AvpsToBytesConcat | radius/radius.go:129-137 | encoding a concatenation is the concatenation of the encodings |
| Radius.Add | radius/radius.go:99-102 | appending one attribute appends exactly its encoding; Get for its (type, vendor) gains exactly that attribute at the end, and Get for every other key is unchanged |
| Radius.AddAvps | radius/radius.go:104-107 | appending a collection appends its encoding, and every Get result is the old one followed by the appended collection's |
| Radius.Get | radius/radius.go:189-204 | every result matches (type, vendor) and comes from the collection, and every matching member is in the result |
| Radius.GetConcat | radius/radius.go:189-204 | Get distributes over concatenation, so it keeps the members' relative order |
| Radius.GetFirst | radius/radius.go:206-215 | absent exactly when no member matches; otherwise the matching member with no match before it |
| Radius.GetFirstIsHeadOfGet | radius/radius.go:189-215 | GetFirst is the first element of Get, or absent when Get is empty |
| Radius.ReadAvp | radius/radius.go:320-339 | one decoding step succeeds exactly when the slices are in range; type 26 is read as Vendor-Specific, with the payload cut by the vendor length; the step is always the outer length byte |
| Radius.ReadAvps | radius/radius.go:315-343 | an empty buffer gives no attributes; decoding never fails with the message-length error; at most one attribute per byte; every decoded payload is non-nil |
| Radius.ReadAvpInverse | radius/radius.go:320-339 | decoding the encoding of a well-formed attribute recovers it and advances by exactly its size |
| Radius.ReadAvpsInverse | radius/radius.go:315-343 | decoding the encoding of well-formed attributes gives them back in order |
| Radius.PlainVendorSpecificMisread | radius/radius.go:328-332 | every plain type-26 attribute whose length byte does not wrap and whose payload holds a Vendor-Specific header (at least 6 bytes, vendor length at payload byte 5 between 2 and the payload size minus 4) decodes as vendor = payload bytes 0..4, type = payload byte 4, value = the vendor length minus 2 bytes from payload byte 6 |
| Radius.PlainVendorSpecificTooShort | radius/radius.go:328-332 | every plain type-26 attribute with fewer than 6 payload bytes, encoded alone as the whole buffer, fails to decode, because the Vendor-Specific header is sliced out of range |
| Radius.LongPayloadWraps | radius/radius.go:33-34 | a 254-byte payload wraps the length byte to 0, and the decoder rejects the encoding |
| Radius.ZeroLengthVendorSpecific | radius/radius.go:320-340 | a Vendor-Specific attribute whose outer length byte is 0 never advances the decoder |
| Radius.ToData | radius/radius.go:217-224 | nil for an absent attribute, otherwise its payload, nil included |
| Radius.ToString | radius/radius.go:226-235 | present exactly when the attribute and its payload are, and then the payload bytes |
| Radius.ToStringOrDefault | radius/radius.go:237-246 | the empty string when ToString is absent, otherwise what it gives |
| Radius.ToUint32 | radius/radius.go:248-257 | present exactly when the attribute and its payload are, and then the value whose big-endian encoding is the first four payload bytes |
| Radius.ToUint32OrDefault | radius/radius.go:259-268 | 0 when ToUint32 is absent, otherwise what it gives |
| Radius.ToNetIP | radius/radius.go:270-279 | present exactly when the attribute and its payload are, and then the payload bytes unchanged |
| Radius.ToNetIPOrDefault | radius/radius.go:281-290 | the empty address when ToNetIP is absent, otherwise what it gives |
| Radius.ToTime | radius/radius.go:292-302 | present exactly when the attribute and its payload are; the Unix seconds in [0, 2^32) whose big-endian encoding is the first four payload bytes |
| Radius.ToTimeOrDefault | radius/radius.go:304-313 | Go's zero time when ToTime is absent, otherwise what it gives |
| Radius.NewAvpString | radius/radius.go:44-47 | ToString reads back the given string |
| Radius.NewAvpUint32 | radius/radius.go:49-55 | a 4-byte payload that ToUint32 reads back as the given value |
| Radius.NewAvpNetIP | radius/radius.go:57-60 | an IPv4 address reads back through ToNetIP; any other address gives a nil payload, absent to ToNetIP and encoded like an empty one |
| Radius.NewAvpTime | radius/radius.go:62-68 | ToTime reads back the instant truncated to 32 bits, and the instant itself when it is in [0, 2^32) |
| Radius.AbsencePropagates | tests/radius_test.go:61-80 | after a failed GetFirst every accessor is absent and every OrDefault accessor gives its zero value |
| RadiusMessage.Length | radius/radius.go:150-158 | for well-formed attributes, the 16-bit length is 20 plus the size of the attribute encoding, modulo 2^16 |
| RadiusMessage.LengthSumIsSize | radius/radius.go:150-158 | for well-formed attributes, the sum of the length bytes is the size of their encoding |
| RadiusMessage.HeaderBytes | radius/radius.go:175-183 | 20 bytes: the code's low byte, the identifier, the 16-bit length and the authenticator |
| RadiusMessage.MessageToBytes | radius/radius.go:175-187 | the header followed by the attribute encodings |
| RadiusMessage.LengthFieldIsSize | radius/radius.go:150-187 | for well-formed attributes and a size below 2^16, the length field reads back as the number of bytes written |
| RadiusMessage.ReadMessage | radius/radius.go:347-363 | fails with the length error exactly when given fewer than 20 bytes; otherwise succeeds exactly when the attributes decode, with the code, identifier and authenticator taken from bytes 0, 1 and 4..20 |
| RadiusMessage.ReadMessageInverse | radius/radius.go:175-187 | a packet with a one-byte code and well-formed attributes reads back unchanged |
| RadiusMessage.CodeTruncated | radius/radius.go:178 | only the low byte of the code survives a round trip |
| RadiusMessage.LengthFieldIgnored | radius/radius.go:347-363 | overwriting the declared length does not change what ReadMessage returns |
| RadiusVectors.PlainAvpBytes | tests/radius_test.go:56-59 | attribute 1 with payload 00000001 encodes to 01 06 00 00 00 01 |
| RadiusVectors.PlainImsiBytes | tests/radius_test.go:24 | the IMSI as a plain attribute 1 encodes to 01 11 followed by its 15 digits |
| RadiusVectors.VendorImsiBytes | tests/radius_test.go:25 | the IMSI as attribute 1 of vendor 10415 encodes to the 23-byte Vendor-Specific attribute of the test |
| RadiusVectors.SampleHeaderBytes | tests/radius_test.go:20-23 | the sample packet's header: code 1, identifier 1, length 0x3c, zero authenticator |
| RadiusVectors.SampleMessageBytes | tests/radius_test.go:13-25 | the sample packet encodes to the 60 bytes the test checks |
| RadiusVectors.SampleMessageReadBack | tests/radius_test.go:27-29 | the sample packet reads back unchanged, and both the plain and the vendor attribute give the IMSI |
| RadiusVectors.TimestampMessage | tests/radius_test.go:33-39 | 20 zero bytes followed by 37 06 64 a5 36 25 decode to one attribute 55 |
| RadiusVectors.TimestampValue | tests/radius_test.go:40-42 | that attribute's time is Unix second 1688548901, 2023-07-05T09:21:41Z |

## Left out

- Floating point: `NewAvpFloat32`, `NewAvpFloat64`, `ToFloat32`, `ToFloat64`, their `OrDefault` forms and `AddFloat32`/`AddFloat64` are not modelled. They are IEEE 754 bit casts wrapped around the modelled 32- and 64-bit integer codecs.
- The typed append helpers (`AddString`, `AddUint32`, `AddUint64`, `AddNetIP`, `AddTime`, `AddGroup`) are not separate members. Each is `AddAvps(xs, [NewAvpX(..)])`, whose contract covers them.
- `NewAvps` is the empty sequence, and Diameter `NewMessage` is the `Message` constructor.
- RADIUS `NewMessage` computes a length it then discards, so it too is the `Message` constructor.
- Diameter nil payloads: `NewAvp(c, f, v, nil)` and `Add(c, f, v, nil)` keep `Data == nil`, and Go's accessors then answer as for an absent AVP. The model does not tell a nil payload from an empty one; both are the empty sequence. `ToData`, `ToStringOrDefault` and `ToGroup` give the same results either way. The accessors below differ.
- Diameter.ToString: for a nil payload Go returns nil; the model returns the empty string.
- Diameter.ToUint32: for a nil payload Go returns nil; the model's precondition excludes the empty payload.
- Diameter.ToUint32OrDefault: for a nil payload Go gives 0; the model's precondition excludes the empty payload.
- Diameter.ToUint64: for a nil payload Go returns nil; the model's precondition excludes the empty payload.
- Diameter.ToUint64OrDefault: for a nil payload Go gives 0; the model's precondition excludes the empty payload.
- Diameter.ToNetIP: for a nil payload Go returns nil; the model's precondition excludes the empty payload.
- Diameter.ToNetIPOrDefault: for a nil payload Go gives the nil address; the model's precondition excludes the empty payload.
- Diameter.ToTime: for a nil payload Go returns nil; the model's precondition excludes the empty payload.
- Diameter.ToTimeOrDefault: for a nil payload Go gives the zero time; the model's precondition excludes the empty payload.
- Diameter.WithFlags: Go sets the flags through the `*Avp` receiver, so every alias of that AVP sees the change. The model returns a new value and leaves aliasing out, because values in the model are immutable.
- Radius.PlainVendorSpecificMisread: only a payload under 254 bytes is covered. A longer one wraps the length byte, and the decoder then steps by the wrapped value; `Radius.LongPayloadWraps` shows one such case.
- Go slice capacity: Go may slice past a slice's length up to its capacity. The decoders here treat any read past the end of the buffer as a failure.
- Diameter.NewAvp: the AVP length is a Go `uint32` and could wrap for payloads near 4 GiB. The model keeps it unbounded; only the 24-bit field written on the wire is truncated.
- DiameterMessage.Length: the Go `uint32` sum of AVP lengths is kept unbounded. Only its low 24 bits reach the header.
- Diameter.ToUint32, Diameter.ToUint32OrDefault, Diameter.ToUint64, Diameter.ToUint64OrDefault, Diameter.ToTime, Diameter.ToTimeOrDefault, Diameter.ToNetIP, Diameter.ToNetIPOrDefault, Diameter.ToGroup: a payload too short to read, or a group payload that does not decode, panics in Go, in the OrDefault forms too, since they call the plain accessors. Here that input is excluded by a precondition rather than modelled as a failure.
- Radius.ToUint32, Radius.ToUint32OrDefault, Radius.ToTime, Radius.ToTimeOrDefault: a present payload shorter than four bytes panics in Go, in the OrDefault forms too, since they call the plain accessors. Here it is excluded by a precondition.
- Time zones and sub-second precision: `time.Time` is reduced to its Unix seconds. The tests' expected values in `time.Local` are stated in UTC.
- `net.IP` is reduced to `IpAddress`. The caller classifies an address as IPv4 (To4 succeeds) or not, so IPv4-mapped IPv6 forms are not distinguished.
- RADIUS authenticator computation and attribute encryption: the library treats the authenticator as opaque bytes and does neither.
- The two large base64 captures in tests/diameter_test.go:52-63 and tests/radius_test.go:45-54 are not spelled out as vectors. The Diameter capture exercises grouped decoding, which `DiameterVectors.GroupedAvpReadBack` and `Diameter.GroupRoundTrip` cover. The RADIUS capture is a flat packet whose Vendor-Specific attribute is read with `GetFirst(1, 10415)`; that decoding is covered by `Radius.ReadAvpInverse` and `Radius.ReadAvpsInverse`.
- Diameter `ReadMessage` builds its error with `errors.New`, and RADIUS returns a shared sentinel error. Both are the single `InvalidMessageLength` value here.

## Findings

| source | as written | input that shows it | evidently intended | confidence | as-written member | corrected member |
|---|---|---|---|---|---|---|
| diameter/diameter.go:118-123 against diameter/diameter.go:429-437 | `NewAvpTime` stores `uint32(value.Unix())`, raw Unix seconds, but `ToTime` subtracts the NTP offset 2208988800 from what it reads | the Unix epoch (t = 0) is written as 00 00 00 00 and read back as -2208988800, the year 1900 | the encoder adds the NTP offset, as section 4.3.1 of RFC 6733 defines the Time format, so that `ToTime` inverts `NewAvpTime` | not executed | Diameter.NewAvpTime (with Diameter.NewAvpTimeNeverInverse: no instant reads back as itself) | Diameter.NewAvpTimeNtp |

The evidence is in the code and the standard. Section 4.3.1 of RFC 6733 defines the Time format as seconds since 1900 (NTP time). `ToTime` follows it by subtracting 2208988800 at diameter/diameter.go:434-435, while `NewAvpTime` at diameter/diameter.go:121 writes Unix seconds unchanged. The model follows the code: `Diameter.NewAvpTime` is the behaviour as written, and `Diameter.NewAvpTimeNtp` is the intended one.
