/**
 * Cloudflare's published network ranges, the table `check_cf_ranges` scans. An address is a
 * family and an unsigned integer of the family's width; a range is a network address and a
 * prefix length, as in CIDR notation (section 3.1 of RFC 4632 for IPv4, section 2.3 of RFC 4291
 * for IPv6).
 */
module CloudflareRanges {

  datatype Family = IPv4 | IPv6

  /** Bits in an address of the family. */
  function Width(f: Family): nat {
    match f
    case IPv4 => 32
    case IPv6 => 128
  }

  function Pow2(n: nat): (p: nat)
    ensures p >= 1
  {
    if n == 0 then 1 else 2 * Pow2(n - 1)
  }

  /** An address: its family and its value as an unsigned integer. */
  datatype Address = Address(family: Family, value: nat)

  /** A CIDR block `network/length`. */
  datatype Cidr = Cidr(family: Family, network: nat, length: nat)

  /** The number of host bits, those after the prefix. */
  function HostBits(c: Cidr): nat {
    if c.length <= Width(c.family) then Width(c.family) - c.length else 0
  }

  /** The dotted-quad address `a.b.c.d`. */
  function V4(a: nat, b: nat, c: nat, d: nat): (v: nat)
    requires a < 256 && b < 256 && c < 256 && d < 256
    ensures v < 0x1_0000_0000
  {
    ((a * 256 + b) * 256 + c) * 256 + d
  }

  /** The IPv6 address whose two leading 16-bit groups are `g0:g1`, all the others zero (`g0:g1::`). */
  function V6(g0: nat, g1: nat): (v: nat)
    requires g0 < 0x1_0000 && g1 < 0x1_0000
    ensures v < 0x1_0000_0000_0000_0000_0000_0000_0000_0000
  {
    (g0 * 0x1_0000 + g1) * 0x1_0000_0000_0000_0000_0000_0000
  }

  /** `CF_RANGES`, in the order the module lists them. */
  const CfRanges: seq<Cidr> := [
    Cidr(IPv4, V4(103, 21, 244, 0), 22),
    Cidr(IPv4, V4(103, 22, 200, 0), 22),
    Cidr(IPv4, V4(103, 31, 4, 0), 22),
    Cidr(IPv4, V4(104, 16, 0, 0), 12),
    Cidr(IPv4, V4(108, 162, 192, 0), 18),
    Cidr(IPv4, V4(131, 0, 72, 0), 22),
    Cidr(IPv4, V4(141, 101, 64, 0), 18),
    Cidr(IPv4, V4(162, 158, 0, 0), 15),
    Cidr(IPv4, V4(172, 64, 0, 0), 13),
    Cidr(IPv4, V4(173, 245, 48, 0), 20),
    Cidr(IPv4, V4(188, 114, 96, 0), 20),
    Cidr(IPv4, V4(190, 93, 240, 0), 20),
    Cidr(IPv4, V4(197, 234, 240, 0), 22),
    Cidr(IPv4, V4(198, 41, 128, 0), 17),
    Cidr(IPv6, V6(0x2400, 0xcb00), 32),
    Cidr(IPv6, V6(0x2405, 0x8100), 32),
    Cidr(IPv6, V6(0x2405, 0xb500), 32),
    Cidr(IPv6, V6(0x2606, 0x4700), 32),
    Cidr(IPv6, V6(0x2803, 0xf800), 32),
    Cidr(IPv6, V6(0x2c0f, 0xf248), 32),
    Cidr(IPv6, V6(0x2a06, 0x98c0), 29)]
}
