/** IP and socket addresses, with the IPv4-mapped IPv6 form. */
module Net {
  import opened Bytes

  type u16 = x: int | 0 <= x < 0x1_0000
  type u32 = x: int | 0 <= x < 0x1_0000_0000
  type u64 = x: int | 0 <= x < 0x1_0000_0000_0000_0000
  type u128 = x: int | 0 <= x < 0x1_0000_0000_0000_0000_0000_0000_0000_0000

  datatype IpAddr = V4(v4: u32) | V6(v6: u128)

  datatype SocketAddr = SocketAddr(ip: IpAddr, port: u16)

  /** `::ffff:0:0`, the start of the IPv4-mapped block. */
  const MAPPED_BASE: u128 := 0xFFFF_0000_0000

  function ToIpv6Mapped(a: u32): u128 {
    MAPPED_BASE + a
  }

  function ToIpv4Mapped(a: u128): (r: Option<u32>)
    ensures forall b: u32 :: r == Some(b) <==> a == ToIpv6Mapped(b)
  {
    if MAPPED_BASE <= a < MAPPED_BASE + 0x1_0000_0000 then Some(a - MAPPED_BASE) else None
  }

  /** A dual-stack socket reaches an IPv4 destination through its IPv4-mapped form. */
  function MapToSocketFamily(localIsV6: bool, a: SocketAddr): SocketAddr {
    if localIsV6 && a.ip.V4? then SocketAddr(V6(ToIpv6Mapped(a.ip.v4)), a.port) else a
  }
}
