/**
 * The Mux wire type codes: one signed byte at the head of every frame header.
 * T-codes name requests, R-codes their replies.
 */
module Types {
  import opened Bytes

  /** Rust's `i8`. */
  type i8 = x: int | -0x80 <= x < 0x80

  // Application messages
  const TReq: i8 := 1
  const RReq: i8 := -1

  const TDispatch: i8 := 2
  const RDispatch: i8 := -2

  // Control messages
  const TDrain: i8 := 64
  const RDrain: i8 := -64
  const TPing: i8 := 65
  const RPing: i8 := -65

  const TDiscarded: i8 := 66
  const RDiscarded: i8 := -66

  const TLease: i8 := 67

  const TInit: i8 := 68
  const RInit: i8 := -68

  const RErr: i8 := -128

  // Codes emitted by an older implementation, still recognised on the wire
  const BadTDiscarded: i8 := -62
  const BadRErr: i8 := 127

  /** The byte that carries the signed code `t` on the wire (two's complement). */
  function TypeByte(t: i8): (b: u8)
    ensures b % 0x100 == t % 0x100
  {
    if t < 0 then t + 0x100 else t
  }

  /** Rust's `b as i8` on a byte: the signed code carried by wire byte `b`. */
  function SignedByte(b: bv8): (t: i8)
    ensures TypeByte(t) as bv8 == b
    ensures t < 0 <==> b >= 0x80
  {
    var v := b as int;
    if v < 0x80 then v else v - 0x100
  }

  /** Reading back the byte written for a code gives the code. */
  lemma SignedByteOfTypeByte(t: i8)
    ensures SignedByte(TypeByte(t) as bv8) == t
  {
    assert (TypeByte(t) as bv8) as int == TypeByte(t);
  }

  /** Every canonical code and both legacy codes, in declaration order. */
  const Codes: seq<i8> := [TReq, RReq, TDispatch, RDispatch, TDrain, RDrain, TPing, RPing,
                           TDiscarded, RDiscarded, TLease, TInit, RInit, RErr,
                           BadTDiscarded, BadRErr]

  /** No two codes coincide, so a decoder can dispatch on the type byte alone;
      in particular each legacy alias differs from its canonical code. */
  lemma CodesDistinct()
    ensures forall i, j :: 0 <= i < j < |Codes| ==> Codes[i] != Codes[j]
    ensures BadTDiscarded != TDiscarded && BadRErr != RErr
  {
  }
}
