/** Internet addresses as the standard library's `IpAddr` holds them. */
module Net {
  import opened Words

  /** The eight 16-bit groups of an IPv6 address. */
  type Segments = s: seq<U16> | |s| == 8 witness [0, 0, 0, 0, 0, 0, 0, 0]

  /** An IPv4 address by its four octets in dotted order, or an IPv6 address. */
  datatype IpAddr = V4(octets: Bytes4) | V6(segments: Segments)

  /** The 32-bit number an IPv4 address denotes: a.b.c.d is a*2^24 + b*2^16 + c*2^8 + d. */
  function Ipv4Number(octets: Bytes4): U32 {
    var a, b, c, d: int := octets[0], octets[1], octets[2], octets[3];
    ((a * 0x100 + b) * 0x100 + c) * 0x100 + d
  }
}
