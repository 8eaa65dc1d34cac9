/** The Go library values the typed accessors exchange with callers:
    IP addresses (net.IP) and instants (time.Time). */
module Values {
  import opened ByteOrder

  /** A net.IP as the codecs see it: V4 when To4() yields four octets,
      V6 (sixteen octets, from To16()) otherwise. */
  datatype Ip = V4(octets: seq<uint8>) | V6(octets: seq<uint8>)

  type IpAddress = ip: Ip | (if ip.V4? then |ip.octets| == 4 else |ip.octets| == 16)
    witness V4([0, 0, 0, 0])

  /** A time.Time is modelled by its Unix() value: whole seconds since
      1970-01-01T00:00:00Z. Sub-second parts and the zone are not modelled. */
  type UnixSeconds = int

  /** Unix() of Go's zero time.Time{} (0001-01-01T00:00:00Z), the value the
      OrDefault time accessors return. */
  const ZeroTime: UnixSeconds := -62135596800
}
