/**
 * The 32-bit frame header word and the 24-bit tag inside it: the type code is
 * the top byte, the tag the low three bytes, and bit 23 of the tag flags a
 * fragment that is not the last of its message.
 */
module Tags {
  import opened Types

  /** The tag of messages without request/reply correlation. */
  const MarkerTag: bv32 := 0
  /** The tag reserved for the cached default ping. */
  const PingTag: bv32 := 1
  const MinTag: bv32 := PingTag + 1
  const MaxTag: bv32 := (1 << 23) - 1
  const TagMsb: bv32 := 1 << 23

  lemma TagConstants()
    ensures MarkerTag == 0 && PingTag == 1
    ensures MinTag == PingTag + 1 == 2
    ensures MaxTag == TagMsb - 1 == 0x7f_ffff
    ensures TagMsb == 0x80_0000
  {
  }

  /** The signed type code in the top byte of `header`. */
  function ExtractType(header: bv32): (t: i8)
    ensures TypeByte(t) as bv8 == (header >> 24) as bv8
    ensures t < 0 <==> header & 0x8000_0000 != 0
  {
    TopByte(header);
    SignedByte(((header >> 24) & 0xff) as bv8)
  }

  lemma TopByte(header: bv32)
    ensures ((header >> 24) & 0xff) as bv8 == (header >> 24) as bv8
    ensures ((header >> 24) & 0xff) as bv8 >= 0x80 <==> header & 0x8000_0000 != 0
  {
  }

  /** The tag in the low 24 bits of `header`. */
  function ExtractTag(header: bv32): (r: bv32)
    ensures r < 0x100_0000
    ensures ((header >> 24) << 24) | r == header
  {
    header & 0x00ff_ffff
  }

  /** Whether the fragment flag (bit 23) is set. */
  function IsFragment(tag: bv32): (b: bool)
    ensures b <==> tag & TagMsb != 0
  {
    ((tag >> 23) & 1) == 1
  }

  /** `tag` with the fragment flag set. */
  function SetMsb(tag: bv32): (r: bv32)
    ensures r & TagMsb == TagMsb
    ensures r & !TagMsb == tag & !TagMsb
  {
    tag | TagMsb
  }

  /** The header word carrying type code `t` and tag `tag`, as laid out on the wire. */
  function FrameHeader(t: i8, tag: bv32): (h: bv32)
    requires tag < 0x100_0000
  {
    (((TypeByte(t) as bv8) as bv32) << 24) | tag
  }

  /** Splitting a header and putting the parts back together gives the header again. */
  lemma HeaderSplit(header: bv32)
    ensures FrameHeader(ExtractType(header), ExtractTag(header)) == header
  {
    TopByteAndLowBits(header);
  }

  lemma TopByteAndLowBits(header: bv32)
    ensures (((((header >> 24) & 0xff) as bv8) as bv32) << 24) | (header & 0xff_ffff) == header
  {
  }

  /** The type code and tag of a composed header are the parts it was composed of. */
  lemma HeaderParts(t: i8, tag: bv32)
    requires tag < 0x100_0000
    ensures ExtractType(FrameHeader(t, tag)) == t
    ensures ExtractTag(FrameHeader(t, tag)) == tag
  {
    var b := TypeByte(t) as bv8;
    TopByteAndTag(b, tag);
    SignedByteOfTypeByte(t);
  }

  lemma TopByteAndTag(b: bv8, tag: bv32)
    requires tag < 0x100_0000
    ensures ((((((b as bv32) << 24) | tag) >> 24) & 0xff) as bv8) == b
    ensures (((b as bv32) << 24) | tag) & 0xff_ffff == tag
  {
  }

  lemma SetMsbMakesFragment(tag: bv32)
    ensures IsFragment(SetMsb(tag))
  {
  }

  lemma SetMsbIdempotent(tag: bv32)
    ensures SetMsb(SetMsb(tag)) == SetMsb(tag)
  {
  }

  /** An ordinary (non-fragment) tag has the flag clear. */
  lemma PlainTagIsNotFragment(tag: bv32)
    requires tag <= MaxTag
    ensures !IsFragment(tag)
  {
  }

  /** On an ordinary tag, setting the flag adds 2^23. */
  lemma SetMsbAddsFlag(tag: bv32)
    requires tag <= MaxTag
    ensures SetMsb(tag) == tag + TagMsb
  {
  }

  /** Masking a flagged ordinary tag with MaxTag gives back the tag, and the
      flagged tag still fits in the 24-bit tag field. */
  lemma SetMsbKeepsTag(tag: bv32)
    requires tag <= MaxTag
    ensures SetMsb(tag) & MaxTag == tag
    ensures ExtractTag(SetMsb(tag)) == SetMsb(tag)
  {
  }
}
