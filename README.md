# Mux transport: frame-header tags and session-init codecs

This project models the byte-level core of a Mux-style multiplexed RPC transport.
Two Rust files make up that core:

- `src/transport/message.rs` holds three things. The wire type codes come first, with two legacy aliases (-62 for Tdiscarded and 127 for Rerr). The reserved tags follow (marker 0, ping 1, minimum 2, maximum 2^23-1, and the fragment flag at bit 23), together with the helpers that split a 32-bit frame header into a signed type byte and a 24-bit tag and that test and set the fragment flag. Last comes the Tinit/Rinit body codec: a big-endian u16 version, then every (key, value) pair as a big-endian u32 key length, the key, a big-endian u32 value length and the value.
- `src/transport/mux_framer.rs` holds the framer's session-header value: the negotiated fragment size as a big-endian u32.

Modules:

- `Wrappers` (`wrappers.dfy`): `Option`, the result type wherever the source calls `unwrap` on a read.
- `Bytes` (`bytes.dfy`): `u8`/`u16`/`u32` as integer ranges, plus their big-endian byte sequences. This is the meaning of `transmute(x.to_be())`, `from_be` and the `byteorder` big-endian calls, independent of host endianness.
- `Types` (`types.dfy`): the type codes as `i8` constants, and the two's-complement byte of a code.
- `Tags` (`tags.dfy`): the tag constants, and the header helpers on `bv32` with exact bit semantics. Rust's `header >> 24 & 0xff` means `(header >> 24) & 0xff`. Dafny's `&` binds tighter than `>>`, so the model writes the parentheses out. `FrameHeader` composes a header word from a type code and a tag; the source has no such function, and it serves as the independent reference that `HeaderSplit` and `HeaderParts` check `extract_type`/`extract_tag` against.
- `Init` (`init.dfy`): the header-list codec. `Encode` and `Decode` are imperative methods with loops, like the source, and each is proved equal to a specification function (`Encoding`, `ParseInit`). The round trip, canonicity and the failure cases are lemmas about those functions.
- `Framer` (`framer.dfy`): `EncodeFrameSize`/`DecodeFrameSize` as functions, because the source has no loop or state there.

The source's panics (`unwrap` on a short read) become `None`. The source converts lengths with `k.len() as u32`, which keeps only the low 32 bits. The model writes that out (`Init.LengthField`). So `Encode` is total, and the round trip holds for lists whose keys and values are each shorter than 2^32 bytes (`Init.WellSized`).

## Model

| member | source | states |
|---|---|---|
| `Bytes.BE16` | src/transport/message.rs:108 | `transmute(version.to_be())`: the two bytes of a u16, most significant first; its contents are fixed by `BE16RoundTrip` and `FromBE16RoundTrip` |
| `Bytes.FromBE16` | src/transport/message.rs:126-127 | `u16::from_be(transmute(bytes))`: the first byte weighs 256 and the second is the remainder modulo 256; it is the inverse of `BE16` by the round-trip lemmas |
| `Bytes.BE32` | src/transport/message.rs:113-116 | `transmute((len as u32).to_be())`, and `write_u32::<BigEndian>` in src/transport/mux_framer.rs: the four bytes of a u32, most significant first; its contents are fixed by `BE32RoundTrip` and `FromBE32RoundTrip` |
| `Bytes.FromBE32` | src/transport/message.rs:131-137 | `u32::from_be(transmute(bytes))`, and `read_u32::<BigEndian>` in src/transport/mux_framer.rs: the first byte weighs 2^24 and the last is the remainder modulo 256; it is the inverse of `BE32` by the round-trip lemmas |
| `Bytes.BE16RoundTrip` | src/transport/message.rs:108-127 | reading back the two big-endian bytes written for a u16 version gives the version |
| `Bytes.FromBE16RoundTrip` | src/transport/message.rs:126-127 | every two-byte sequence is the big-endian encoding of the u16 read from it |
| `Bytes.BE32RoundTrip` | src/transport/message.rs:113-132 | reading back the four big-endian bytes written for a u32 length gives the length |
| `Bytes.FromBE32RoundTrip` | src/transport/message.rs:131-132 | every four-byte sequence is the big-endian encoding of the u32 read from it |
| `Types.TypeByte` | src/transport/message.rs:64-66 | the wire byte of an `i8` code: the two's-complement inverse of the `as i8` in `extract_type`, a byte congruent to the code modulo 256 |
| `Types.SignedByte` | src/transport/message.rs:64-66 | `b as i8` is the code whose wire byte is `b`, and it is negative exactly when `b >= 0x80` |
| `Types.SignedByteOfTypeByte` | src/transport/message.rs:64-66 | reading back the byte written for any code gives the code |
| `Types.CodesDistinct` | src/transport/message.rs:25-51 | all sixteen codes are pairwise distinct; in particular the legacy -62 differs from 66 and the legacy 127 from -128 |
| `Tags.TagConstants` | src/transport/message.rs:55-62 | marker 0, ping 1, MIN_TAG == PING_TAG + 1 == 2, MAX_TAG == TAG_MSB - 1 == 2^23 - 1, TAG_MSB == 2^23 |
| `Tags.ExtractType` | src/transport/message.rs:64-66 | the result is the signed code whose wire byte is the header's top byte, and it is negative exactly when bit 31 is set |
| `Tags.ExtractTag` | src/transport/message.rs:68-70 | the result is below 2^24 and, put back under the header's top byte, rebuilds the header: it is the low 24 bits |
| `Tags.IsFragment` | src/transport/message.rs:72-74 | true exactly when bit 23 (TAG_MSB) of the tag is set |
| `Tags.SetMsb` | src/transport/message.rs:76-78 | bit 23 of the result is set and every other bit equals the argument's |
| `Tags.HeaderSplit` | src/transport/message.rs:64-70 | composing the extracted type code and tag gives back the original header |
| `Tags.HeaderParts` | src/transport/message.rs:64-70 | for any code and any tag below 2^24, the header composed from them yields that code and that tag |
| `Tags.SetMsbMakesFragment` | src/transport/message.rs:72-78 | `is_fragment(set_msb(t))` for every `t` |
| `Tags.SetMsbIdempotent` | src/transport/message.rs:76-78 | `set_msb(set_msb(t)) == set_msb(t)` |
| `Tags.PlainTagIsNotFragment` | src/transport/message.rs:61-74 | a tag at most MAX_TAG does not carry the fragment flag |
| `Tags.SetMsbAddsFlag` | src/transport/message.rs:61-78 | for a tag at most MAX_TAG, `set_msb(t) == t + TAG_MSB` |
| `Tags.SetMsbKeepsTag` | src/transport/message.rs:61-78 | for a tag at most MAX_TAG, masking the flagged tag with MAX_TAG recovers it, and the flagged tag still fits the 24-bit field |
| `Init.LengthField` | src/transport/message.rs:113-116 | the u32 length written for a sequence is its length whenever that is below 2^32 |
| `Init.Capacity` | src/transport/message.rs:102-106 | the first loop's `size` is 2 plus, for every pair, 8 plus the key and value lengths |
| `Init.Encode` | src/transport/message.rs:101-121 | the buffer built by the append loop is the specified encoding, and it is exactly as long as the reserved capacity |
| `Init.HeadersSize` | src/transport/message.rs:102-106 | the `size` the first loop adds up beyond the version: 8 plus the key and value lengths per pair, so at least 8 bytes per pair |
| `Init.EncodePair` | src/transport/message.rs:111-118 | the bytes one turn of the append loop adds (key length, key, value length, value): 8 plus the key and value lengths |
| `Init.EncodeHeaders` | src/transport/message.rs:110-119 | the bytes the append loop adds, pair after pair in list order: exactly `HeadersSize` many |
| `Init.Encoding` | src/transport/message.rs:101-121 | the body `init::encode` returns: it starts with the big-endian version and its length is 2 plus, for every pair, 8 plus the key length plus the value length, the reserved capacity |
| `Init.EncodingLayout` | src/transport/message.rs:108-118 | the first two bytes are the big-endian version; pair `i` starts right after the pairs before it and reads length of key, key, length of value, value |
| `Init.EncodeHeadersConcat` | src/transport/message.rs:110-119 | encoding a concatenated list is concatenating the two encodings, in list order |
| `Init.ReadExact` | src/transport/message.rs:126-140 | `read_exact` succeeds exactly when enough bytes remain, and then splits the slice into the requested bytes and the rest |
| `Init.ReadPair` | src/transport/message.rs:130-141 | a loop turn consumes 8 length bytes plus the key and the value it returns |
| `Init.ReadPairInverse` | src/transport/message.rs:130-141 | a pair that was read has u32-sized parts, and its encoding followed by the rest is the input |
| `Init.ReadPairEncoded` | src/transport/message.rs:110-141 | reading a pair from its own encoding gives the pair and leaves exactly what followed |
| `Init.ParseHeaders` | src/transport/message.rs:129-142 | the pairs the `while buf.len() > 0` loop reads, or None where an unwrap panics; each pair read took at least 8 bytes, and the list is empty only when no bytes were left |
| `Init.ParseInit` | src/transport/message.rs:123-144 | the result of `init::decode`, or None where it panics; a decoded version is the big-endian value of the first two bytes, and the pairs fit in the bytes after them |
| `Init.Decode` | src/transport/message.rs:123-144 | the cursor loop returns exactly the specified decoding, with None wherever the source panics |
| `Init.ParseAfterEncoded` | src/transport/message.rs:129-142 | decoding the pairs of a list followed by bytes `t` gives the list followed by what `t` decodes to, and fails exactly when `t` fails |
| `Init.ParseInitAfterEncoded` | src/transport/message.rs:123-144 | the same for a whole body: the version, the encoded list, then `t` |
| `Init.RoundTrip` | src/transport/message.rs:146-156 | for any u16 version and any list with keys and values under 2^32 bytes, `decode(encode(version, headers)) == (version, headers)`, with order and duplicates kept |
| `Init.ShortBodyFails` | src/transport/message.rs:126 | a body shorter than 2 bytes fails |
| `Init.VersionOnly` | src/transport/message.rs:126-129 | a 2-byte body decodes to its version and an empty list |
| `Init.KeyLengthCutShort` | src/transport/message.rs:131 | after any encoded list, 1 to 3 bytes where a key length is expected fail the decoding |
| `Init.KeyCutShort` | src/transport/message.rs:132-135 | after any encoded list, a key length larger than the bytes after it fails the decoding |
| `Init.ValueLengthCutShort` | src/transport/message.rs:136 | fewer than 4 bytes after a key, including none, fail the decoding |
| `Init.ValueCutShort` | src/transport/message.rs:137-140 | a value length larger than the bytes after it fails the decoding |
| `Init.ParsedHeadersReencode` | src/transport/message.rs:129-142 | a list that decodes has u32-sized parts and re-encodes to exactly the bytes it came from |
| `Init.DecodeCanonical` | src/transport/message.rs:123-144 | a body that decodes is the encoding of its result: the whole body is consumed and only canonical encodings are accepted |
| `Init.DecodeSucceedsIff` | src/transport/message.rs:101-144 | a body decodes if and only if it is the encoding of some version and some u32-sized list |
| `Init.TestInit` | src/transport/message.rs:146-156 | the list of `test_init` (version 0x1020, three pairs) survives the round trip |
| `Framer.EncodeFrameSize` | src/transport/mux_framer.rs:28-32 | the value is exactly four bytes, and reading them as a big-endian u32 gives the size |
| `Framer.DecodeFrameSize` | src/transport/mux_framer.rs:37-40 | succeeds exactly when at least four bytes are given, and then returns the u32 whose big-endian bytes are the first four |
| `Framer.FrameSizeBytes` | src/transport/mux_framer.rs:28-32 | the bytes are `s >> 24 & 0xff`, `s >> 16 & 0xff`, `s >> 8 & 0xff`, `s & 0xff` (shifts as division by 2^n, masks as remainder mod 256) |
| `Framer.FrameSizeRoundTrip` | src/transport/mux_framer.rs:28-40 | `decode_frame_size(encode_frame_size(s)) == s` for every u32 `s` |
| `Framer.FrameSizeIgnoresRest` | src/transport/mux_framer.rs:37-40 | bytes after the first four are ignored |
| `Framer.FrameSizeTooShort` | src/transport/mux_framer.rs:39 | fewer than four bytes fail |
| `Framer.FrameSizeInInitBody` | src/transport/mux_framer.rs:16-32 | a frame-size value stored as any entry of a session-init header list is recovered after the list is encoded and decoded |

## Left out

- The fragmenting, interleaving and reassembling framer. `src/transport/mux_framer.rs` describes it only in its opening comment and has no code for it, so there is nothing to model.
- The `Message`, `EmptyMessage` and `MarkerMessage` traits and the per-variant message codecs. The traits are interfaces with at most a constant default (an empty body; tag 0). The per-variant codecs do not appear in the source; only three Scala helpers survive as comments (message.rs:5, 81-83).
- `src/lib.rs`. `Dtab::len` is a plain vector length, and `Dentry`/`Path` are data without behaviour.
- The `"mux-framer"` header key. It is commented out in `src/transport/mux_framer.rs`, so `Framer.FrameSizeInInitBody` holds for any key.
- `Init.Capacity`: `size` is a `usize` in the source and could in principle overflow. The model uses unbounded integers, because a list that large cannot be held in memory anyway.
- `Init.Encode`: `Vec::with_capacity` is a performance hint with no observable effect. It is not modelled beyond stating that the final length equals the computed size.
- `Init.RoundTrip`: it requires every key and value to be shorter than 2^32 bytes. For longer ones `k.len() as u32` truncates the length field, and the source's decoder would not recover the list.
- `Tags.ExtractTag`: "the low 24 bits" is stated on `bv32` (below 2^24, and it rebuilds the header under the top byte), which fixes the result exactly; no separate integer form (`h % 2^24`) is given.
- `Framer.FrameSizeBytes`: the four bytes are stated on the integer value of the size, with division by 2^n for the shifts and remainder modulo 256 for the masks, not as `bv32` operations.
- Panics are modelled as `None`; unwinding is not modelled.
