/** Octets, 16-bit words and the byte order of the host that runs the transmitter.
    The model fixes a little-endian host (x86): a `uint16_t` lies in memory low
    byte first, and `rte_cpu_to_be_16` swaps the two bytes. */
module Bytes {

  type byte = x: int | 0 <= x < 0x100
  type u16 = x: int | 0 <= x < 0x1_0000

  /** 2^64: `uint64_t` arithmetic is arithmetic modulo this number. */
  const U64: nat := 0x1_0000_0000_0000_0000
  type u64 = x: int | 0 <= x < 0x1_0000_0000_0000_0000

  /** The 16-bit value whose big-endian encoding is `hi`, `lo`. */
  function Be16(hi: byte, lo: byte): u16 {
    hi * 0x100 + lo
  }

  /** Network (big-endian) byte order of a 16-bit value. */
  function BeBytes16(v: u16): (r: seq<byte>)
    ensures |r| == 2
  {
    [v / 0x100, v % 0x100]
  }

  /** How a `uint16_t` holding `v` lies in memory on the (little-endian) host. */
  function LeBytes16(v: u16): (r: seq<byte>)
    ensures |r| == 2
  {
    [v % 0x100, v / 0x100]
  }

  /** Exchange the two bytes of a 16-bit value. */
  function Swap16(v: u16): u16 {
    (v % 0x100) * 0x100 + v / 0x100
  }

  /** `rte_cpu_to_be_16` on a little-endian host. */
  function CpuToBe16(v: u16): u16 {
    Swap16(v)
  }

  /** Reading the two network-order bytes back gives the value. */
  lemma BeBytes16RoundTrip(v: u16)
    ensures Be16(BeBytes16(v)[0], BeBytes16(v)[1]) == v
  {
  }

  /** The quotient and remainder by 2^8 of any split with the low part in range. */
  lemma Split256(x: int, hi: int, lo: int)
    requires x == 0x100 * hi + lo && 0 <= lo < 0x100
    ensures x / 0x100 == hi && x % 0x100 == lo
  {
  }

  /** Storing `rte_cpu_to_be_16(v)` in host order puts `v` on the wire big-endian. */
  lemma CpuToBe16Stores(v: u16)
    ensures LeBytes16(CpuToBe16(v)) == BeBytes16(v)
  {
    Split256(Swap16(v), v % 0x100, v / 0x100);
  }

  /** A host-order store of `v` writes the network-order bytes of `v` swapped. */
  lemma LeBytes16Swapped(v: u16)
    ensures LeBytes16(v) == BeBytes16(Swap16(v))
  {
    Split256(Swap16(v), v % 0x100, v / 0x100);
  }

  /** Only the zero word swaps to zero. */
  lemma Swap16Zero(v: u16)
    ensures Swap16(v) == 0 <==> v == 0
  {
    assert v == 0x100 * (v / 0x100) + v % 0x100;
  }

  /** A byte swap commutes with the bitwise complement of a 16-bit value. */
  lemma Swap16Complement(v: u16)
    ensures Swap16(0xFFFF - v) == 0xFFFF - Swap16(v)
  {
    var hi, lo := v / 0x100, v % 0x100;
    Split256(0xFFFF - v, 0xFF - hi, 0xFF - lo);
  }
}
