/**
 * The body of a Tinit/Rinit session-initialisation message: a big-endian u16
 * version followed by the header list, each (key, value) pair written as a
 * big-endian u32 key length, the key bytes, a big-endian u32 value length and
 * the value bytes, until the body is exhausted.
 */
module Init {
  import opened Wrappers
  import opened Bytes

  /** One (key, value) entry of the header list. Order and duplicates are kept. */
  type Header = (seq<u8>, seq<u8>)

  /** The u32 length field written for `s`: `s.len() as u32` keeps the low 32 bits. */
  function LengthField(s: seq<u8>): (n: u32)
    ensures |s| < 0x1_0000_0000 ==> n == |s|
  {
    |s| % 0x1_0000_0000
  }

  /** Every key and value is short enough for its length to fit in a u32. */
  predicate WellSized(hs: seq<Header>)
  {
    forall i :: 0 <= i < |hs| ==> |hs[i].0| < 0x1_0000_0000 && |hs[i].1| < 0x1_0000_0000
  }

  // ---------------------------------------------------------------- encoding

  /** The bytes one pair contributes to the body: two 4-byte lengths, the key
      and the value. */
  function EncodePair(h: Header): (r: seq<u8>)
    ensures |r| == 8 + |h.0| + |h.1|
  {
    BE32(LengthField(h.0)) + h.0 + BE32(LengthField(h.1)) + h.1
  }

  /** The pairs' bytes, in list order; exactly as many as the capacity the
      source reserves for them. */
  function EncodeHeaders(hs: seq<Header>): (r: seq<u8>)
    ensures |r| == HeadersSize(hs)
  {
    if hs == [] then [] else EncodePair(hs[0]) + EncodeHeaders(hs[1..])
  }

  /** The whole body: the version, then the pairs. It starts with the two
      big-endian version bytes and is exactly as long as the reserved capacity. */
  function Encoding(version: u16, hs: seq<Header>): (r: seq<u8>)
    ensures |r| == 2 + HeadersSize(hs)
    ensures r[..2] == BE16(version)
  {
    BE16(version) + EncodeHeaders(hs)
  }

  /** The capacity `init::encode` reserves beyond the version: 8 length bytes plus
      the key and value bytes of every pair, so at least 8 bytes per pair. */
  function HeadersSize(hs: seq<Header>): (n: nat)
    ensures n >= 8 * |hs|
  {
    if hs == [] then 0 else 8 + |hs[0].0| + |hs[0].1| + HeadersSize(hs[1..])
  }

  /** The first loop of `init::encode`: the capacity to reserve, 2 bytes for the
      version and, per pair, 8 length bytes plus the key and the value. */
  method Capacity(headers: seq<Header>) returns (size: nat)
    ensures size == 2 + HeadersSize(headers)
  {
    size := 2;
    for i := 0 to |headers|
      invariant size == 2 + HeadersSize(headers[..i])
    {
      size := size + 8 + |headers[i].0| + |headers[i].1|;
      HeadersSizeAppend(headers[..i], headers[i]);
      assert headers[..i + 1] == headers[..i] + [headers[i]];
    }
    assert headers[..|headers|] == headers;
  }

  /** `init::encode`: reserve the capacity, then append the version and every pair
      to the buffer, which ends up exactly as long as reserved. */
  method Encode(version: u16, headers: seq<Header>) returns (buf: seq<u8>)
    ensures buf == Encoding(version, headers)
    ensures |buf| == 2 + HeadersSize(headers)
  {
    var size := Capacity(headers);
    buf := BE16(version);
    for i := 0 to |headers|
      invariant buf == BE16(version) + EncodeHeaders(headers[..i])
    {
      ghost var before := buf;
      var k := headers[i].0;
      var v := headers[i].1;
      buf := buf + BE32(LengthField(k));
      buf := buf + k;
      buf := buf + BE32(LengthField(v));
      buf := buf + v;
      assert buf == before + EncodePair(headers[i]);
      EncodeHeadersAppend(headers[..i], headers[i]);
      assert headers[..i + 1] == headers[..i] + [headers[i]];
    }
    assert headers[..|headers|] == headers;
    assert |buf| == size;
  }

  lemma {:induction false} HeadersSizeAppend(hs: seq<Header>, h: Header)
    ensures HeadersSize(hs + [h]) == HeadersSize(hs) + 8 + |h.0| + |h.1|
  {
    if hs != [] {
      assert (hs + [h])[1..] == hs[1..] + [h];
      HeadersSizeAppend(hs[1..], h);
    }
  }

  lemma {:induction false} EncodeHeadersAppend(hs: seq<Header>, h: Header)
    ensures EncodeHeaders(hs + [h]) == EncodeHeaders(hs) + EncodePair(h)
  {
    if hs == [] {
      assert [h][1..] == [];
    } else {
      assert (hs + [h])[1..] == hs[1..] + [h];
      EncodeHeadersAppend(hs[1..], h);
    }
  }

  /** Encoding a concatenated list is concatenating the encodings. */
  lemma {:induction false} EncodeHeadersConcat(a: seq<Header>, b: seq<Header>)
    ensures EncodeHeaders(a + b) == EncodeHeaders(a) + EncodeHeaders(b)
  {
    if a == [] {
      assert a + b == b;
    } else {
      assert (a + b)[1..] == a[1..] + b;
      EncodeHeadersConcat(a[1..], b);
    }
  }

  /** The body starts with the big-endian version, and pair `i` sits right after
      the pairs before it: length of the key, key, length of the value, value. */
  lemma EncodingLayout(version: u16, hs: seq<Header>, i: nat)
    requires i < |hs|
    ensures Encoding(version, hs)[..2] == BE16(version)
    ensures var at := 2 + HeadersSize(hs[..i]);
            var k, v := hs[i].0, hs[i].1;
            at + 8 + |k| + |v| <= |Encoding(version, hs)| &&
            Encoding(version, hs)[at..at + 8 + |k| + |v|]
              == BE32(LengthField(k)) + k + BE32(LengthField(v)) + v
  {
    var before, after := hs[..i], hs[i + 1..];
    assert hs == before + [hs[i]] + after;
    EncodeHeadersConcat(before + [hs[i]], after);
    EncodeHeadersAppend(before, hs[i]);
    var prefix := BE16(version) + EncodeHeaders(before);
    assert Encoding(version, hs) == prefix + EncodePair(hs[i]) + EncodeHeaders(after);
    SliceMiddle(prefix, EncodePair(hs[i]), EncodeHeaders(after));
  }

  lemma SliceMiddle(a: seq<u8>, b: seq<u8>, c: seq<u8>)
    ensures (a + b + c)[|a|..|a| + |b|] == b
  {
  }

  // ---------------------------------------------------------------- decoding

  /** `read_exact` on a slice: the first `n` bytes and the rest, or a failure
      (which the source unwraps into a panic) when fewer than `n` remain. */
  function ReadExact(src: seq<u8>, n: nat): (r: Option<(seq<u8>, seq<u8>)>)
    ensures r.Some? <==> n <= |src|
    ensures r.Some? ==> |r.value.0| == n && r.value.0 + r.value.1 == src
  {
    if |src| < n then None else Some((src[..n], src[n..]))
  }

  /** One turn of the decoding loop: a key length, the key, a value length and
      the value, with the bytes that remain after them. */
  function ReadPair(src: seq<u8>): (r: Option<(Header, seq<u8>)>)
    ensures r.Some? ==> |r.value.1| + 8 + |r.value.0.0| + |r.value.0.1| == |src|
  {
    match ReadExact(src, 4)
    case None => None
    case Some((kb, r1)) =>
      match ReadExact(r1, FromBE32(kb))
      case None => None
      case Some((k, r2)) =>
        match ReadExact(r2, 4)
        case None => None
        case Some((vb, r3)) =>
          match ReadExact(r3, FromBE32(vb))
          case None => None
          case Some((v, r4)) => Some(((k, v), r4))
  }

  /** Pairs are read while bytes remain; a pair cut short fails the whole list.
      Every pair read consumes at least its 8 length bytes, and the list is empty
      only when there was nothing to read. */
  function ParseHeaders(src: seq<u8>): (r: Option<seq<Header>>)
    ensures r.Some? ==> 8 * |r.value| <= |src|
    ensures r.Some? ==> (|r.value| == 0 <==> |src| == 0)
    decreases |src|
  {
    if |src| == 0 then Some([])
    else match ReadPair(src)
      case None => None
      case Some((h, rest)) => Prepend([h], ParseHeaders(rest))
  }

  /** The pairs `acc` read so far, followed by the outcome of reading the rest. */
  function Prepend(acc: seq<Header>, tail: Option<seq<Header>>): Option<seq<Header>>
  {
    match tail
    case None => None
    case Some(hs) => Some(acc + hs)
  }

  /** The result of `init::decode`, or None where the source panics. A decoded
      version is the big-endian reading of the first two bytes, and the pairs
      fit in the bytes after them. */
  function ParseInit(body: seq<u8>): (r: Option<(u16, seq<Header>)>)
    ensures r.Some? ==> 2 <= |body| && r.value.0 == FromBE16(body[..2])
    ensures r.Some? ==> 8 * |r.value.1| <= |body| - 2
  {
    match ReadExact(body, 2)
    case None => None
    case Some((vb, rest)) => Extend(FromBE16(vb), [], ParseHeaders(rest))
  }

  /** The decoding outcome once `version` and the pairs `acc` have been read. */
  function Extend(version: u16, acc: seq<Header>, tail: Option<seq<Header>>): Option<(u16, seq<Header>)>
  {
    match tail
    case None => None
    case Some(hs) => Some((version, acc + hs))
  }

  /** `init::decode`: read the version, then pairs while the slice is not empty. */
  method Decode(body: seq<u8>) returns (r: Option<(u16, seq<Header>)>)
    ensures r == ParseInit(body)
  {
    var buf := body;
    var read := ReadExact(buf, 2);
    if read.None? {
      return None;
    }
    var bytes := read.value.0;
    buf := read.value.1;
    var version := FromBE16(bytes);
    var headers: seq<Header> := [];
    while |buf| > 0
      invariant ParseInit(body) == Extend(version, headers, ParseHeaders(buf))
      decreases |buf|
    {
      ghost var before := buf;
      read := ReadExact(buf, 4);
      if read.None? {
        return None;
      }
      bytes, buf := read.value.0, read.value.1;
      var kl := FromBE32(bytes);
      read := ReadExact(buf, kl);
      if read.None? {
        return None;
      }
      var k := read.value.0;
      buf := read.value.1;
      read := ReadExact(buf, 4);
      if read.None? {
        return None;
      }
      bytes, buf := read.value.0, read.value.1;
      var vl := FromBE32(bytes);
      read := ReadExact(buf, vl);
      if read.None? {
        return None;
      }
      var v := read.value.0;
      buf := read.value.1;
      assert ReadPair(before) == Some(((k, v), buf));
      if ParseHeaders(buf).Some? {
        var hs := ParseHeaders(buf).value;
        assert headers + [(k, v)] + hs == headers + ([(k, v)] + hs);
      }
      headers := headers + [(k, v)];
    }
    assert headers + [] == headers;
    return Some((version, headers));
  }

  // ---------------------------------------------------------------- properties

  /** Reading a pair from its own encoding gives the pair and leaves what followed. */
  lemma ReadPairEncoded(h: Header, t: seq<u8>)
    requires |h.0| < 0x1_0000_0000 && |h.1| < 0x1_0000_0000
    ensures ReadPair(EncodePair(h) + t) == Some((h, t))
  {
    var k, v := h.0, h.1;
    var src := EncodePair(h) + t;
    BE32RoundTrip(|k|);
    BE32RoundTrip(|v|);
    assert src == BE32(|k|) + (k + (BE32(|v|) + (v + t)));
    assert src[..4] == BE32(|k|);
    var r1 := src[4..];
    assert r1 == k + (BE32(|v|) + (v + t));
    assert r1[..|k|] == k;
    var r2 := r1[|k|..];
    assert r2 == BE32(|v|) + (v + t);
    assert r2[..4] == BE32(|v|);
    var r3 := r2[4..];
    assert r3 == v + t;
    assert r3[..|v|] == v && r3[|v|..] == t;
  }

  /** A pair that was read re-encodes to exactly the bytes it was read from, and its
      key and value lengths fit in a u32. */
  lemma ReadPairInverse(src: seq<u8>)
    requires ReadPair(src).Some?
    ensures var (h, rest) := ReadPair(src).value;
            |h.0| < 0x1_0000_0000 && |h.1| < 0x1_0000_0000 && EncodePair(h) + rest == src
  {
    var kb, r1 := src[..4], src[4..];
    var kl := FromBE32(kb);
    var k, r2 := r1[..kl], r1[kl..];
    var vb, r3 := r2[..4], r2[4..];
    var vl := FromBE32(vb);
    var v, rest := r3[..vl], r3[vl..];
    assert ReadPair(src) == Some(((k, v), rest));
    FromBE32RoundTrip(kb);
    FromBE32RoundTrip(vb);
    assert LengthField(k) == kl && LengthField(v) == vl;
    calc {
      EncodePair((k, v)) + rest;
      kb + k + vb + v + rest;
      kb + (k + (vb + (v + rest)));
      { assert vb + r3 == r2 && k + r2 == r1 && v + rest == r3; }
      src;
    }
  }

  /** Decoding the pairs of `hs` followed by `t` yields `hs` followed by whatever
      `t` decodes to, and fails exactly when `t` fails. */
  lemma {:induction false} ParseAfterEncoded(hs: seq<Header>, t: seq<u8>)
    requires WellSized(hs)
    ensures ParseHeaders(EncodeHeaders(hs) + t) == Prepend(hs, ParseHeaders(t))
  {
    if hs != [] {
      var h, u := hs[0], EncodeHeaders(hs[1..]) + t;
      assert WellSized(hs[1..]);
      assert EncodeHeaders(hs) + t == EncodePair(h) + u;
      ParseEncodedPair(h, u);
      ParseAfterEncoded(hs[1..], t);
      PrependTwice([h], hs[1..], ParseHeaders(t));
      assert [h] + hs[1..] == hs;
    } else {
      assert EncodeHeaders(hs) + t == t;
      if ParseHeaders(t).Some? {
        assert [] + ParseHeaders(t).value == ParseHeaders(t).value;
      }
    }
  }

  /** A list that starts with an encoded pair decodes to that pair and what follows. */
  lemma ParseEncodedPair(h: Header, u: seq<u8>)
    requires |h.0| < 0x1_0000_0000 && |h.1| < 0x1_0000_0000
    ensures ParseHeaders(EncodePair(h) + u) == Prepend([h], ParseHeaders(u))
  {
    ReadPairEncoded(h, u);
  }

  lemma PrependTwice(a: seq<Header>, b: seq<Header>, tail: Option<seq<Header>>)
    ensures Prepend(a, Prepend(b, tail)) == Prepend(a + b, tail)
  {
    if tail.Some? {
      assert a + (b + tail.value) == a + b + tail.value;
    }
  }

  /** Decoding a body that starts with an encoded version and list `hs` yields
      `hs` followed by whatever the remaining bytes `t` decode to. */
  lemma ParseInitAfterEncoded(version: u16, hs: seq<Header>, t: seq<u8>)
    requires WellSized(hs)
    ensures ParseInit(Encoding(version, hs) + t) == Extend(version, hs, ParseHeaders(t))
  {
    var body := Encoding(version, hs) + t;
    assert body == BE16(version) + (EncodeHeaders(hs) + t);
    assert body[..2] == BE16(version) && body[2..] == EncodeHeaders(hs) + t;
    BE16RoundTrip(version);
    ParseAfterEncoded(hs, t);
    if ParseHeaders(t).Some? {
      assert [] + (hs + ParseHeaders(t).value) == hs + ParseHeaders(t).value;
    }
  }

  /** `decode(encode(version, headers)) == (version, headers)`: order, duplicates
      and empty keys or values all survive. */
  lemma RoundTrip(version: u16, hs: seq<Header>)
    requires WellSized(hs)
    ensures ParseInit(Encoding(version, hs)) == Some((version, hs))
  {
    ParseInitAfterEncoded(version, hs, []);
    assert Encoding(version, hs) + [] == Encoding(version, hs);
    assert hs + [] == hs;
  }

  /** A body shorter than the version fails. */
  lemma ShortBodyFails(body: seq<u8>)
    requires |body| < 2
    ensures ParseInit(body) == None
  {
  }

  /** A body holding only the version decodes to an empty list. */
  lemma VersionOnly(body: seq<u8>)
    requires |body| == 2
    ensures ParseInit(body) == Some((FromBE16(body), []))
  {
    assert body[..2] == body && body[2..] == [];
    assert ParseHeaders([]) == Some([]);
    var none: seq<Header> := [];
    assert none + none == none;
  }

  /** One to three bytes where a key length is expected fail the decoding. */
  lemma KeyLengthCutShort(version: u16, hs: seq<Header>, t: seq<u8>)
    requires WellSized(hs) && 0 < |t| < 4
    ensures ParseInit(Encoding(version, hs) + t) == None
  {
    ParseInitAfterEncoded(version, hs, t);
  }

  /** A key length larger than the bytes after it fails the decoding. */
  lemma KeyCutShort(version: u16, hs: seq<Header>, t: seq<u8>)
    requires WellSized(hs) && 4 <= |t| && FromBE32(t[..4]) > |t| - 4
    ensures ParseInit(Encoding(version, hs) + t) == None
  {
    ParseInitAfterEncoded(version, hs, t);
  }

  /** Fewer than four bytes after a key, where its value length is expected,
      fail the decoding; this includes a body that ends right after a key. */
  lemma ValueLengthCutShort(version: u16, hs: seq<Header>, k: seq<u8>, t: seq<u8>)
    requires WellSized(hs) && |k| < 0x1_0000_0000 && |t| < 4
    ensures ParseInit(Encoding(version, hs) + (BE32(|k|) + k + t)) == None
  {
    ParseInitAfterEncoded(version, hs, BE32(|k|) + k + t);
    KeyThen(k, t);
  }

  /** A value length larger than the bytes after it fails the decoding. */
  lemma ValueCutShort(version: u16, hs: seq<Header>, k: seq<u8>, t: seq<u8>)
    requires WellSized(hs) && |k| < 0x1_0000_0000
    requires 4 <= |t| && FromBE32(t[..4]) > |t| - 4
    ensures ParseInit(Encoding(version, hs) + (BE32(|k|) + k + t)) == None
  {
    ParseInitAfterEncoded(version, hs, BE32(|k|) + k + t);
    KeyThen(k, t);
  }

  /** Reading the key length and key off a key's encoding leaves what followed it. */
  lemma KeyThen(k: seq<u8>, t: seq<u8>)
    requires |k| < 0x1_0000_0000
    ensures var src := BE32(|k|) + k + t;
            src[..4] == BE32(|k|) && FromBE32(src[..4]) == |k| &&
            src[4..][..|k|] == k && src[4..][|k|..] == t
  {
    BE32RoundTrip(|k|);
    var src := BE32(|k|) + k + t;
    assert src[4..] == k + t;
  }

  /** Decoded pairs re-encode to exactly the bytes they were decoded from. */
  lemma {:induction false} ParsedHeadersReencode(src: seq<u8>)
    requires ParseHeaders(src).Some?
    ensures WellSized(ParseHeaders(src).value)
    ensures EncodeHeaders(ParseHeaders(src).value) == src
    decreases |src|
  {
    if |src| > 0 {
      var (h, rest) := ReadPair(src).value;
      ReadPairInverse(src);
      ParsedHeadersReencode(rest);
      var hs := ParseHeaders(rest).value;
      assert ParseHeaders(src).value == [h] + hs;
      assert ([h] + hs)[0] == h && ([h] + hs)[1..] == hs;
      assert WellSized([h] + hs) by {
        forall i | 0 <= i < |[h] + hs|
          ensures |([h] + hs)[i].0| < 0x1_0000_0000 && |([h] + hs)[i].1| < 0x1_0000_0000
        {
          if i > 0 {
            assert ([h] + hs)[i] == hs[i - 1];
          }
        }
      }
    }
  }

  /** A body that decodes is the encoding of what it decodes to: the decoder
      consumes the whole body and accepts only canonical encodings. */
  lemma DecodeCanonical(body: seq<u8>)
    requires ParseInit(body).Some?
    ensures WellSized(ParseInit(body).value.1)
    ensures Encoding(ParseInit(body).value.0, ParseInit(body).value.1) == body
  {
    var rest := body[2..];
    ParsedHeadersReencode(rest);
    FromBE16RoundTrip(body[..2]);
    var hs := ParseHeaders(rest).value;
    assert ParseInit(body).value.1 == [] + hs;
    assert [] + hs == hs;
    assert body == body[..2] + rest;
  }

  /** A body decodes exactly when it is the encoding of some version and list. */
  lemma DecodeSucceedsIff(body: seq<u8>)
    ensures ParseInit(body).Some? <==>
            exists version: u16, hs: seq<Header> :: WellSized(hs) && Encoding(version, hs) == body
  {
    if ParseInit(body).Some? {
      DecodeCanonical(body);
      var (version, hs) := ParseInit(body).value;
      assert WellSized(hs) && Encoding(version, hs) == body;
    }
    if exists version: u16, hs: seq<Header> :: WellSized(hs) && Encoding(version, hs) == body {
      var version: u16, hs: seq<Header> :| WellSized(hs) && Encoding(version, hs) == body;
      RoundTrip(version, hs);
    }
  }

  /** The source's own test: version 0x1020 with three pairs survives the round trip. */
  lemma TestInit()
    ensures var hs := [([1], [2, 3]), ([4, 5, 6], [7, 8, 9, 10]), ([11, 12, 13], [14, 15])];
            ParseInit(Encoding(0x1020, hs)) == Some((0x1020, hs))
  {
    var hs: seq<Header> := [([1], [2, 3]), ([4, 5, 6], [7, 8, 9, 10]), ([11, 12, 13], [14, 15])];
    RoundTrip(0x1020, hs);
  }
}
