/**
 * Fixed-width unsigned integers and their big-endian byte sequences: the byte-level
 * meaning of `transmute(x.to_be())`, `from_be`, and the `byteorder` crate's
 * `write_u32::<BigEndian>` / `read_u32::<BigEndian>`, independent of host endianness.
 */
module Bytes {
  type u8 = x: int | 0 <= x < 0x100
  type u16 = x: int | 0 <= x < 0x1_0000
  type u32 = x: int | 0 <= x < 0x1_0000_0000

  /** The two bytes of `x`, most significant first. */
  function BE16(x: u16): (r: seq<u8>)
    ensures |r| == 2
  {
    [x / 0x100, x % 0x100]
  }

  /** The value whose big-endian encoding is `b`: the first byte is the most
      significant, the last one is the remainder modulo 256. */
  function FromBE16(b: seq<u8>): (r: u16)
    requires |b| == 2
    ensures b[0] as int * 0x100 <= r < (b[0] as int + 1) * 0x100
    ensures r % 0x100 == b[1]
  {
    b[0] as int * 0x100 + b[1] as int
  }

  /** The four bytes of `x`, most significant first. */
  function BE32(x: u32): (r: seq<u8>)
    ensures |r| == 4
  {
    [x / 0x100_0000, x / 0x1_0000 % 0x100, x / 0x100 % 0x100, x % 0x100]
  }

  /** The value whose big-endian encoding is `b`: the first byte is the most
      significant, the last one is the remainder modulo 256. */
  function FromBE32(b: seq<u8>): (r: u32)
    requires |b| == 4
    ensures b[0] as int * 0x100_0000 <= r < (b[0] as int + 1) * 0x100_0000
    ensures r % 0x100 == b[3]
  {
    ((b[0] as int * 0x100 + b[1] as int) * 0x100 + b[2] as int) * 0x100 + b[3] as int
  }

  lemma BE16RoundTrip(x: u16)
    ensures FromBE16(BE16(x)) == x
  {
  }

  /** Every two-byte sequence is the encoding of exactly one value. */
  lemma FromBE16RoundTrip(b: seq<u8>)
    requires |b| == 2
    ensures BE16(FromBE16(b)) == b
  {
  }

  lemma BE32RoundTrip(x: u32)
    ensures FromBE32(BE32(x)) == x
  {
  }

  /** Every four-byte sequence is the encoding of exactly one value. */
  lemma FromBE32RoundTrip(b: seq<u8>)
    requires |b| == 4
    ensures BE32(FromBE32(b)) == b
  {
    var x := FromBE32(b);
    var hi := b[0] as int * 0x100 + b[1] as int;
    var mid := hi * 0x100 + b[2] as int;
    DigitSplit(mid, b[3]);
    DigitSplit(hi, b[2]);
    DigitSplit(b[0], b[1]);
    assert x / 0x1_0000 == x / 0x100 / 0x100;
    assert x / 0x100_0000 == x / 0x1_0000 / 0x100;
  }

  /** Splitting `a * 256 + d` back into its leading part and last digit. */
  lemma DigitSplit(a: nat, d: u8)
    ensures (a * 0x100 + d) / 0x100 == a && (a * 0x100 + d) % 0x100 == d
  {
  }
}
