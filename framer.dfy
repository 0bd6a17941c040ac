/**
 * The mux framer's session header: the negotiated fragment size, exchanged as the
 * value of one entry of the Tinit/Rinit header list, is a big-endian u32.
 */
module Framer {
  import opened Wrappers
  import opened Bytes
  import Init

  /** `header::encode_frame_size`: `write_u32::<BigEndian>` into a fresh buffer. */
  function EncodeFrameSize(size: u32): (r: seq<u8>)
    ensures |r| == 4 && FromBE32(r) == size
  {
    BE32RoundTrip(size);
    BE32(size)
  }

  /** `header::decode_frame_size`: `read_u32::<BigEndian>` from the start of `buf`,
      None where the source's `unwrap` panics on fewer than four bytes. */
  function DecodeFrameSize(buf: seq<u8>): (r: Option<u32>)
    ensures r.Some? <==> |buf| >= 4
    ensures r.Some? ==> BE32(r.value) == buf[..4]
  {
    if |buf| < 4 then None
    else
      FromBE32RoundTrip(buf[..4]);
      Some(FromBE32(buf[..4]))
  }

  /** The four bytes are `size >> 24 & 0xff`, `size >> 16 & 0xff`, `size >> 8 & 0xff`
      and `size & 0xff`, with a right shift by n written as division by 2^n and the
      mask as the remainder modulo 256. */
  lemma FrameSizeBytes(size: u32)
    ensures EncodeFrameSize(size)
              == [size / 0x100_0000 % 0x100, size / 0x1_0000 % 0x100,
                  size / 0x100 % 0x100, size % 0x100]
  {
  }

  lemma FrameSizeRoundTrip(size: u32)
    ensures DecodeFrameSize(EncodeFrameSize(size)) == Some(size)
  {
    assert EncodeFrameSize(size)[..4] == EncodeFrameSize(size);
  }

  /** Only the first four bytes are read; anything after them is ignored. */
  lemma FrameSizeIgnoresRest(size: u32, rest: seq<u8>)
    ensures DecodeFrameSize(EncodeFrameSize(size) + rest) == Some(size)
  {
    assert (EncodeFrameSize(size) + rest)[..4] == EncodeFrameSize(size);
  }

  /** A value shorter than four bytes cannot be decoded. */
  lemma FrameSizeTooShort(buf: seq<u8>)
    requires |buf| < 4
    ensures DecodeFrameSize(buf) == None
  {
  }

  /** The fragment size placed as a header value in a session-initialisation body is
      recovered from the decoded list, whatever the key and the other entries. */
  lemma {:induction false} FrameSizeInInitBody(version: u16, hs: seq<Init.Header>, i: nat, size: u32)
    requires Init.WellSized(hs) && i < |hs| && hs[i].1 == EncodeFrameSize(size)
    ensures match Init.ParseInit(Init.Encoding(version, hs))
            case None => false
            case Some((_, got)) => i < |got| && DecodeFrameSize(got[i].1) == Some(size)
  {
    Init.RoundTrip(version, hs);
    FrameSizeRoundTrip(size);
  }
}
