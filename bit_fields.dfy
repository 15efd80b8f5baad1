/** The packed sub-byte fields: the REMB bitrate (6-bit exponent, 18-bit
    mantissa in three bytes) and the second word of a TMMBN entry (exponent,
    mantissa, measured overhead). Each field is computed on Java `int`s
    exactly as the decoder writes it: bytes are sign-extended first, and the
    masks then remove the extension. */
module BitFields {
  import opened Wire

  /** Java's promotion of a `byte` to an `int` (sign extension), as a 32-bit
      pattern. Every bit expression of the decoder starts from this. */
  function JavaInt(b: bv8): (r: bv32)
    ensures (r & 0xFF) as bv8 == b
    ensures b < 0x80 <==> r < 0x80
    ensures r & 0xFFFF_FF00 == if b < 0x80 then 0 else 0xFFFF_FF00
  {
    if b < 0x80 then b as bv32 else (b as bv32) | 0xFFFF_FF00
  }

  /** The top six bits of a byte, `(b & 0xFC) >> 2`. The REMB decoder shifts
      with Java's arithmetic `>>` and the TMMBN trace with the logical `>>>`;
      the masked operand has bit 31 clear, so both equal the logical shift
      written here. */
  function ExpBits(b: bv8): (r: bv32)
    ensures JavaInt(b) & 0xFC < 0x8000_0000
    ensures r < 0x40
  {
    (JavaInt(b) & 0xFC) >> 2
  }

  function Exp(b: bv8): (r: nat)
    ensures r < 64
  {
    (ExpBits(b) as bv6) as int
  }

  /** The exponent is the byte's top six bits, whatever its sign. */
  lemma ExpIsTopBits(b: bv8)
    ensures ExpBits(b) == (b >> 2) as bv32
  {
  }

  // ---------------------------------------------------------------- REMB

  /** REMB mantissa as written: the low two bits of b0, then b1, then b2. */
  function RembMantissaBits(b0: bv8, b1: bv8, b2: bv8): (r: bv32)
    ensures r < 0x4_0000
  {
    ((((JavaInt(b0) & 0x3) << 16) & 0xFF0000) | ((JavaInt(b1) << 8) & 0x00FF00))
      | (JavaInt(b2) & 0x0000FF)
  }

  function RembMantissa(b0: bv8, b1: bv8, b2: bv8): (r: nat)
    ensures r < 0x4_0000
  {
    (RembMantissaBits(b0, b1, b2) as bv18) as int
  }

  /** Sign extension does not leak into the mantissa: it is the unsigned
      bytes' bits, MSB first. */
  lemma RembMantissaUnsigned(b0: bv8, b1: bv8, b2: bv8)
    ensures RembMantissaBits(b0, b1, b2)
         == ((((b0 & 0x3) as bv32) << 16) | ((b1 as bv32) << 8)) | (b2 as bv32)
  {
  }

  /** The three bytes a sender writes for a bitrate `mantissa * 2^exp`. */
  function PackRemb(exp: bv6, mantissa: bv18): (r: seq<bv8>)
    ensures |r| == 3
  {
    var e, m := exp as bv32, mantissa as bv32;
    [((e << 2) | (m >> 16)) as bv8, ((m >> 8) & 0xFF) as bv8, (m & 0xFF) as bv8]
  }

  /** Decoding a packed bitrate gives back the exponent and the mantissa. */
  lemma RembBitrateRoundTrip(exp: bv6, mantissa: bv18)
    ensures var p := PackRemb(exp, mantissa);
      Exp(p[0]) == exp as int && RembMantissa(p[0], p[1], p[2]) == mantissa as int
  {
    var p := PackRemb(exp, mantissa);
    assert Exp(p[0]) == exp as int by {
      RembExpField(exp, mantissa);
    }
    assert RembMantissa(p[0], p[1], p[2]) == mantissa as int by {
      RembMantissaField(exp, mantissa);
    }
  }

  // One lemma per field keeps each bit-vector problem small.
  lemma RembExpField(exp: bv6, mantissa: bv18)
    ensures ExpBits(PackRemb(exp, mantissa)[0]) as bv6 == exp
  {
  }

  lemma RembMantissaField(exp: bv6, mantissa: bv18)
    ensures var p := PackRemb(exp, mantissa);
      RembMantissaBits(p[0], p[1], p[2]) as bv18 == mantissa
  {
  }

  /** Every three bytes are the packing of the fields decoded from them: the
      6 + 18 bits cover the window exactly. */
  lemma RembBitrateComplete(b0: bv8, b1: bv8, b2: bv8)
    ensures PackRemb(ExpBits(b0) as bv6, RembMantissaBits(b0, b1, b2) as bv18) == [b0, b1, b2]
  {
  }

  // --------------------------------------------------------------- TMMBN

  /** TMMBN mantissa as written: bit 0 of b4, then b5, then all of b6. */
  function TmmbnMantissaBits(b4: bv8, b5: bv8, b6: bv8): (r: bv32)
    ensures r < 0x2_0000
  {
    ((((JavaInt(b4) & 0x1) << 16) & 0xFF0000) | ((JavaInt(b5) << 8) & 0x00FF00))
      | (JavaInt(b6) & 0x0000FF)
  }

  /** The masks remove the sign extension: the as-written mantissa is bit 0
      of b4, then b5, then all of b6, for every three bytes. */
  lemma TmmbnMantissaUnsigned(b4: bv8, b5: bv8, b6: bv8)
    ensures TmmbnMantissaBits(b4, b5, b6)
         == ((((b4 & 0x1) as bv32) << 16) | ((b5 as bv32) << 8)) | (b6 as bv32)
  {
  }

  function TmmbnMantissa(b4: bv8, b5: bv8, b6: bv8): (r: nat)
    ensures r < 0x2_0000
  {
    (TmmbnMantissaBits(b4, b5, b6) as bv17) as int
  }

  /** Measured overhead as written: bit 0 of b6, then b7. */
  function OverheadBits(b6: bv8, b7: bv8): (r: bv32)
    ensures r < 0x200
  {
    (((JavaInt(b6) & 0x1) << 8) & 0xFF00) | (JavaInt(b7) & 0x00FF)
  }

  function Overhead(b6: bv8, b7: bv8): (r: nat)
    ensures r < 0x200
  {
    (OverheadBits(b6, b7) as bv9) as int
  }

  lemma OverheadUnsigned(b6: bv8, b7: bv8)
    ensures OverheadBits(b6, b7) == (((b6 & 0x1) as bv32) << 8) | (b7 as bv32)
  {
  }

  /** As written, the mantissa and the overhead both take bit 0 of b6: the
      mantissa's lowest bit is always the overhead's highest. */
  lemma TmmbnMantissaSharesBit(b4: bv8, b5: bv8, b6: bv8, b7: bv8)
    ensures TmmbnMantissaBits(b4, b5, b6) & 1 == OverheadBits(b6, b7) >> 8
  {
  }

  /** The layout of section 4.2.1.1 of RFC 5104 (which section 4.2.2.1 uses
      for TMMBN): after the SSRC, a 6-bit exponent, a 17-bit mantissa and a
      9-bit overhead fill one 32-bit word. The mantissa is therefore the low
      two bits of b4, all of b5 and the top seven bits of b6. */
  function RfcTmmbnMantissaBits(b4: bv8, b5: bv8, b6: bv8): (r: bv32)
    ensures r < 0x2_0000
  {
    (((b4 & 0x3) as bv32) << 15) | ((b5 as bv32) << 7) | ((b6 as bv32) >> 1)
  }

  function RfcTmmbnMantissa(b4: bv8, b5: bv8, b6: bv8): (r: nat)
    ensures r < 0x2_0000
  {
    (RfcTmmbnMantissaBits(b4, b5, b6) as bv17) as int
  }

  /** The stream bytes that carry a run of bit patterns. */
  function Octets(p: seq<bv8>): (r: seq<Byte>)
    ensures |r| == |p|
    ensures forall k :: 0 <= k < |p| ==> r[k] as bv8 == p[k]
  {
    seq(|p|, k requires 0 <= k < |p| => p[k] as Byte)
  }

  /** Bytes 4..7 of an entry in the RFC 5104 layout. */
  function PackTmmbn(exp: bv6, mantissa: bv17, overhead: bv9): (r: seq<bv8>)
    ensures |r| == 4
  {
    var w := ((exp as bv32) << 26) | ((mantissa as bv32) << 9) | (overhead as bv32);
    [(w >> 24) as bv8, ((w >> 16) & 0xFF) as bv8, ((w >> 8) & 0xFF) as bv8, (w & 0xFF) as bv8]
  }

  /** The RFC 5104 decoding recovers every field of a packed entry. */
  lemma RfcTmmbnRoundTrip(exp: bv6, mantissa: bv17, overhead: bv9)
    ensures var p := PackTmmbn(exp, mantissa, overhead);
      Exp(p[0]) == exp as int && RfcTmmbnMantissa(p[0], p[1], p[2]) == mantissa as int
      && Overhead(p[2], p[3]) == overhead as int
  {
    var p := PackTmmbn(exp, mantissa, overhead);
    RfcExpField(exp, mantissa, overhead);
    RfcMantissaField(exp, mantissa, overhead);
    RfcOverheadField(exp, mantissa, overhead);
  }

  // One lemma per field keeps each bit-vector problem small.
  lemma RfcExpField(exp: bv6, mantissa: bv17, overhead: bv9)
    ensures ExpBits(PackTmmbn(exp, mantissa, overhead)[0]) as bv6 == exp
  {
  }

  lemma RfcMantissaField(exp: bv6, mantissa: bv17, overhead: bv9)
    ensures var p := PackTmmbn(exp, mantissa, overhead);
      RfcTmmbnMantissaBits(p[0], p[1], p[2]) as bv17 == mantissa
  {
  }

  lemma RfcOverheadField(exp: bv6, mantissa: bv17, overhead: bv9)
    ensures var p := PackTmmbn(exp, mantissa, overhead);
      OverheadBits(p[2], p[3]) as bv9 == overhead
  {
  }

  /** The mantissa formula as written misreads an entry that carries
      mantissa 1: it yields 2. */
  lemma TmmbnMantissaMisread()
    ensures var p := PackTmmbn(0, 1, 0);
      TmmbnMantissa(p[0], p[1], p[2]) == 2 && RfcTmmbnMantissa(p[0], p[1], p[2]) == 1
  {
    var p := PackTmmbn(0, 1, 0);
    assert p == [0, 0, 2, 0];
  }
}
