/** The trailer that ends a self-running program: a signature and two `long` fields,
    `size1` (where the Lua payload starts) and `size2` (how many bytes it has). */
module Glue {
  import opened CTypes

  /** The signature bytes "%%glue:L". */
  const GLUESIG: seq<byte> := [0x25, 0x25, 0x67, 0x6C, 0x75, 0x65, 0x3A, 0x4C]
  const GLUELEN: nat := 8
  /** sizeof(Glue): the signature followed by the two longs, without padding. */
  const GLUE_SIZE: nat := GLUELEN + 2 * LONG_SIZE

  datatype Glue = Glue(sig: seq<byte>, size1: int, size2: int)

  /** memcmp(t.sig, GLUESIG, GLUELEN) == 0. */
  predicate SigMatches(t: Glue)
    requires |t.sig| == GLUELEN
    ensures SigMatches(t) <==> forall i :: 0 <= i < GLUELEN ==> t.sig[i] == GLUESIG[i]
  {
    t.sig == GLUESIG
  }

  /** Changing any one byte of a matching signature makes it fail the check. */
  lemma FlippedSignatureRejected(t: Glue, i: nat, b: byte)
    requires |t.sig| == GLUELEN && SigMatches(t)
    requires i < GLUELEN && b != t.sig[i]
    ensures !SigMatches(t.(sig := t.sig[i := b]))
  {
  }

  /** The record that fread(&t, sizeof(t), 1, f) fills from GLUE_SIZE raw bytes. */
  function Decode(raw: seq<byte>): (t: Glue)
    requires |raw| == GLUE_SIZE
    ensures |t.sig| == GLUELEN && t.sig == raw[..GLUELEN]
  {
    Glue(raw[..GLUELEN], DecodeLong(raw[GLUELEN..GLUELEN + LONG_SIZE]), DecodeLong(raw[GLUELEN + LONG_SIZE..]))
  }

  /** The bytes of a trailer as a composer writes it. */
  function Encode(t: Glue): (raw: seq<byte>)
    requires |t.sig| == GLUELEN
    requires LONG_MIN <= t.size1 <= LONG_MAX && LONG_MIN <= t.size2 <= LONG_MAX
    ensures |raw| == GLUE_SIZE
  {
    t.sig + EncodeLong(t.size1) + EncodeLong(t.size2)
  }

  lemma DecodeEncode(t: Glue)
    requires |t.sig| == GLUELEN
    requires LONG_MIN <= t.size1 <= LONG_MAX && LONG_MIN <= t.size2 <= LONG_MAX
    ensures Decode(Encode(t)) == t
  {
    var raw := Encode(t);
    assert raw[..GLUELEN] == t.sig;
    assert raw[GLUELEN..GLUELEN + LONG_SIZE] == EncodeLong(t.size1);
    assert raw[GLUELEN + LONG_SIZE..] == EncodeLong(t.size2);
    LongRoundTrip(t.size1);
    LongRoundTrip(t.size2);
  }

  /** Decoding loses nothing: every GLUE_SIZE bytes are the encoding of the trailer they decode to. */
  lemma EncodeDecode(raw: seq<byte>)
    requires |raw| == GLUE_SIZE
    ensures var t := Decode(raw);
      LONG_MIN <= t.size1 <= LONG_MAX && LONG_MIN <= t.size2 <= LONG_MAX && Encode(t) == raw
  {
    LongBytesRoundTrip(raw[GLUELEN..GLUELEN + LONG_SIZE]);
    LongBytesRoundTrip(raw[GLUELEN + LONG_SIZE..]);
    assert raw == raw[..GLUELEN] + raw[GLUELEN..GLUELEN + LONG_SIZE] + raw[GLUELEN + LONG_SIZE..];
  }
}
