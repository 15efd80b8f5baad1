/** What the decoder of `RTCPPacketParserEx.parse` promises, stated on
    `Parser.Decode` (which the `Parser.Parse` method is proved to follow):
    which packet types it decodes, where each field comes from, how a short
    input fails or is padded, and that a well-formed REMB message is read
    back exactly. */
module ParserLaws {
  import opened Wire
  import opened Feedback
  import opened BitFields
  import opened Labels
  import opened Tmmbn
  import opened Parser

  /** `null` is returned, consuming nothing, exactly for the packet types
      that are not RTPFB or PSFB. */
  lemma NullIffNotFeedback(packetType: int, fmt: int, length: int, s: seq<Byte>)
    ensures Decode(packetType, fmt, length, s) == Ok(Decoded(None, 0))
        <==> packetType != RTPFB && packetType != PSFB
  {
  }

  /** A feedback message starts with the two SSRCs: fewer than eight bytes
      fail at end of input, and a decoded record carries the unsigned
      big-endian words at offsets 0 and 4. */
  lemma HeaderSsrcs(packetType: int, fmt: int, length: int, s: seq<Byte>)
    requires packetType == RTPFB || packetType == PSFB
    ensures |s| < 8 ==> Decode(packetType, fmt, length, s) == Err(EndOfInput)
    ensures Decode(packetType, fmt, length, s).Ok? ==>
      var p := Decode(packetType, fmt, length, s).value.packet;
      |s| >= 8 && p.Some? && p.value.senderSsrc == Word(s, 0) && p.value.sourceSsrc == Word(s, 4)
      && p.value.senderSsrc < 0x1_0000_0000 && p.value.sourceSsrc < 0x1_0000_0000
  {
  }

  /** REMB is chosen for PSFB with FMT 15 and nothing else; every other
      feedback message keeps its FMT and type, and is a `NACKPacket` exactly
      for the RTPFB Generic NACK. */
  lemma Routing(packetType: int, fmt: int, length: int, s: seq<Byte>)
    ensures match Decode(packetType, fmt, length, s)
      case Ok(Decoded(Some(p), _)) =>
        (p.Remb? <==> packetType == PSFB && fmt == REMB_FMT)
        && (p.Fb? ==> p.fmt == fmt && p.packetType == packetType
                      && (p.variant == Nack <==> packetType == RTPFB && fmt == NACK_FMT))
      case _ => true
  {
  }

  /** The generic decoder: a declared length below 12 fails on the array
      size, exactly 12 leaves the FCI unset, and a larger one takes
      `length - 12` FCI bytes, zero-padded rather than failing when the input
      is shorter. */
  lemma GenericFci(packetType: int, fmt: int, length: int, s: seq<Byte>)
    requires packetType == RTPFB || (packetType == PSFB && fmt != REMB_FMT)
    requires |s| >= 8
    ensures var variant := VariantOf(packetType, fmt);
      var d := Decode(packetType, fmt, length, s);
      var sender, source := Word(s, 0), Word(s, 4);
      (length < 12 ==> d == Err(NegativeArraySize))
      && (length == 12 ==> d == Ok(Decoded(Some(Fb(variant, fmt, packetType, sender, source, None)), 8)))
      && (length > 12 && length - 4 <= |s| ==>
            d == Ok(Decoded(Some(Fb(variant, fmt, packetType, sender, source, Some(s[8..length - 4]))),
                            length - 4)))
      && (length - 4 > |s| ==>
            d == Ok(Decoded(Some(Fb(variant, fmt, packetType, sender, source,
                                    Some(s[8..] + seq(length - 4 - |s|, _ => 0)))), |s|)))
  {
    var t := s[8..];
    if length > 12 && length - 4 <= |s| {
      assert ShortRead(t, 0, length - 12) == s[8..length - 4];
    } else if length - 4 > |s| {
      assert ShortRead(t, 0, length - 12) == s[8..] + seq(length - 4 - |s|, _ => 0);
    }
  }

  /** With at least eight bytes after the SSRCs, the bitrate read is whole. */
  lemma BitrateWhole(t: seq<Byte>)
    requires |t| >= 8
    ensures Filled(t, 5, 3) == 3 && ShortRead(t, 5, 3) == t[5..8]
  {
  }

  /** The REMB body after the SSRCs, when all of it is present. */
  lemma RembBodyComplete(sender: nat, source: nat, t: seq<Byte>)
    requires |t| >= 8 && 8 + 4 * (t[4] as int) <= |t|
    ensures RembBody(sender, source, t)
         == Ok((Remb(sender, source, Exp(t[5] as bv8),
                     RembMantissa(t[5] as bv8, t[6] as bv8, t[7] as bv8), Words(t, 8, t[4] as int)),
                8 + 4 * (t[4] as int)))
  {
    BitrateWhole(t);
  }

  lemma DecodeOfRembBody(length: int, s: seq<Byte>, p: Packet, n: nat)
    requires |s| >= 8 && RembBody(Word(s, 0), Word(s, 4), s[8..]) == Ok((p, n))
    ensures Decode(PSFB, REMB_FMT, length, s) == Ok(Decoded(Some(p), 8 + n))
  {
  }

  /** When the whole REMB body is present, the record is the one the layout
      describes: count at offset 12, bitrate at 13..15, the SSRC list from
      offset 16; the declared length plays no part. */
  lemma RembLayout(length: int, s: seq<Byte>)
    requires |s| >= 16 && 16 + 4 * (s[12] as int) <= |s|
    ensures Decode(PSFB, REMB_FMT, length, s)
         == Ok(Decoded(Some(Remb(Word(s, 0), Word(s, 4), Exp(s[13] as bv8),
                                 RembMantissa(s[13] as bv8, s[14] as bv8, s[15] as bv8),
                                 Words(s, 16, s[12] as int))),
                       16 + 4 * (s[12] as int)))
  {
    var t, count := s[8..], s[12] as int;
    var exp, mantissa := Exp(s[13] as bv8), RembMantissa(s[13] as bv8, s[14] as bv8, s[15] as bv8);
    var p := Remb(Word(s, 0), Word(s, 4), exp, mantissa, Words(s, 16, count));
    assert RembBody(Word(s, 0), Word(s, 4), t) == Ok((p, 8 + 4 * count)) by {
      var b := ShortRead(t, 5, 3);
      BitrateWhole(t);
      assert t[4] == s[12] && b[0] == s[13] && b[1] == s[14] && b[2] == s[15];
      RembBodyOfReads(Word(s, 0), Word(s, 4), t, count, b, exp, mantissa, 8);
      WordsInSuffix(s, 8, 8, count);
    }
    DecodeOfRembBody(length, s, p, 8 + 4 * count);
  }

  /** The REMB branch never looks at the declared length. */
  lemma RembIgnoresLength(length: int, length': int, s: seq<Byte>)
    ensures Decode(PSFB, REMB_FMT, length, s) == Decode(PSFB, REMB_FMT, length', s)
  {
  }

  /** REMB fails exactly when the input ends before the count byte, or when
      the announced SSRCs are not all there. A count of zero never fails,
      even with the bitrate cut short. */
  lemma RembFailure(length: int, s: seq<Byte>)
    ensures Decode(PSFB, REMB_FMT, length, s).Err? <==>
      |s| < 13 || (s[12] != 0 && |s| < 16 + 4 * (s[12] as int))
    ensures Decode(PSFB, REMB_FMT, length, s).Err? ==>
      Decode(PSFB, REMB_FMT, length, s) == Err(EndOfInput)
  {
    if |s| >= 13 {
      var t := s[8..];
      assert Filled(t, 5, 3) == if |s| >= 16 then 3 else |s| - 13;
    }
  }

  /** A count of zero with the bitrate cut short still decodes: the bitrate
      read is zero-padded, the SSRC list is empty, and the whole input is
      consumed. */
  lemma RembShortBitrate(length: int, s: seq<Byte>)
    requires 13 <= |s| < 16 && s[12] == 0
    ensures var b := ShortRead(s, 13, 3);
      Decode(PSFB, REMB_FMT, length, s)
      == Ok(Decoded(Some(Remb(Word(s, 0), Word(s, 4), Exp(b[0] as bv8),
                              RembMantissa(b[0] as bv8, b[1] as bv8, b[2] as bv8), [])), |s|))
  {
    var t, b := s[8..], ShortRead(s, 13, 3);
    var exp, mantissa := Exp(b[0] as bv8), RembMantissa(b[0] as bv8, b[1] as bv8, b[2] as bv8);
    var p := Remb(Word(s, 0), Word(s, 4), exp, mantissa, []);
    assert RembBody(Word(s, 0), Word(s, 4), t) == Ok((p, |t|)) by {
      ShortReadInSuffix(s, 8, 5, 3);
      assert t[4] == s[12] && Filled(t, 5, 3) == |t| - 5;
      RembBodyOfReads(Word(s, 0), Word(s, 4), t, 0, b, exp, mantissa, |t|);
    }
    DecodeOfRembBody(length, s, p, |t|);
  }

  lemma RembHeadBytes(ssrcs: seq<Byte>, count: nat, bitrate: seq<bv8>, rest: seq<Byte>)
    requires |ssrcs| == 12 && count < 0x100 && |bitrate| == 3
    ensures var s := ssrcs + [count as Byte] + Octets(bitrate) + rest;
      s[12] as int == count && s[13] as bv8 == bitrate[0] && s[14] as bv8 == bitrate[1]
      && s[15] as bv8 == bitrate[2]
  {
  }

  /** The bytes of a REMB message after the common header, in the layout of
      section 2.2 of draft-alvestrand-rmcat-remb: the two SSRCs, the
      identifier, the SSRC count, the bitrate and the SSRC list. */
  function EncodeRemb(sender: nat, source: nat, identifier: nat, exp: bv6, mantissa: bv18,
                      dest: seq<nat>): (r: seq<Byte>)
    requires sender < 0x1_0000_0000 && source < 0x1_0000_0000 && identifier < 0x1_0000_0000
    requires |dest| < 0x100 && forall k :: 0 <= k < |dest| ==> dest[k] < 0x1_0000_0000
    ensures |r| == 16 + 4 * |dest|
  {
    EncodeWord(sender) + EncodeWord(source) + EncodeWord(identifier)
      + [|dest| as Byte] + Octets(PackRemb(exp, mantissa)) + EncodeWords(dest)
  }

  /** Where each field of an encoded REMB message sits. */
  lemma EncodedRembFields(sender: nat, source: nat, identifier: nat, exp: bv6, mantissa: bv18,
                          dest: seq<nat>, trailing: seq<Byte>, s: seq<Byte>)
    requires sender < 0x1_0000_0000 && source < 0x1_0000_0000 && identifier < 0x1_0000_0000
    requires |dest| < 0x100 && forall k :: 0 <= k < |dest| ==> dest[k] < 0x1_0000_0000
    requires s == EncodeRemb(sender, source, identifier, exp, mantissa, dest) + trailing
    ensures |s| >= 16 + 4 * |dest|
    ensures Word(s, 0) == sender
    ensures Word(s, 4) == source
    ensures s[12] as int == |dest|
    ensures Exp(s[13] as bv8) == exp as int
    ensures RembMantissa(s[13] as bv8, s[14] as bv8, s[15] as bv8) == mantissa as int
    ensures Words(s, 16, |dest|) == dest
  {
    var bitrate := PackRemb(exp, mantissa);
    var ssrcs := EncodeWord(sender) + EncodeWord(source) + EncodeWord(identifier);
    var head := ssrcs + [|dest| as Byte] + Octets(bitrate);
    assert s == head + EncodeWords(dest) + trailing;
    assert Word(s, 0) == sender by {
      assert s == [] + EncodeWord(sender) + s[4..];
      WordInContext([], sender, s[4..]);
    }
    assert Word(s, 4) == source by {
      assert s == EncodeWord(sender) + EncodeWord(source) + s[8..];
      WordInContext(EncodeWord(sender), source, s[8..]);
    }
    assert s[12] as int == |dest|
        && s[13] as bv8 == bitrate[0] && s[14] as bv8 == bitrate[1] && s[15] as bv8 == bitrate[2] by {
      RembHeadBytes(ssrcs, |dest|, bitrate, EncodeWords(dest) + trailing);
      assert s == ssrcs + [|dest| as Byte] + Octets(bitrate) + (EncodeWords(dest) + trailing);
    }
    assert Words(s, 16, |dest|) == dest by {
      WordsRoundTrip(head, dest, trailing);
    }
    RembBitrateRoundTrip(exp, mantissa);
  }

  lemma RembFromFields(length: int, s: seq<Byte>, sender: nat, source: nat, exp: nat, mantissa: nat,
                       dest: seq<nat>)
    requires |s| >= 16 + 4 * |dest| && s[12] as int == |dest|
    requires Word(s, 0) == sender && Word(s, 4) == source && Exp(s[13] as bv8) == exp
    requires RembMantissa(s[13] as bv8, s[14] as bv8, s[15] as bv8) == mantissa
    requires Words(s, 16, |dest|) == dest
    ensures Decode(PSFB, REMB_FMT, length, s)
         == Ok(Decoded(Some(Remb(sender, source, exp, mantissa, dest)), 16 + 4 * |dest|))
  {
    RembLayout(length, s);
  }

  /** A REMB message written in the draft's layout (any identifier, any
      trailing bytes, any declared length) decodes to exactly the fields it
      was written from, consuming exactly its own bytes. */
  lemma RembRoundTrip(sender: nat, source: nat, identifier: nat, exp: bv6, mantissa: bv18,
                      dest: seq<nat>, trailing: seq<Byte>, length: int, s: seq<Byte>)
    requires sender < 0x1_0000_0000 && source < 0x1_0000_0000 && identifier < 0x1_0000_0000
    requires |dest| < 0x100 && forall k :: 0 <= k < |dest| ==> dest[k] < 0x1_0000_0000
    requires s == EncodeRemb(sender, source, identifier, exp, mantissa, dest) + trailing
    ensures Decode(PSFB, REMB_FMT, length, s)
         == Ok(Decoded(Some(Remb(sender, source, exp as int, mantissa as int, dest)), 16 + 4 * |dest|))
  {
    EncodedRembFields(sender, source, identifier, exp, mantissa, dest, trailing, s);
    RembFromFields(length, s, sender, source, exp as int, mantissa as int, dest);
  }

  /** The trace's FMT label is never "REMB": the records the generic decoder
      produces are never PSFB with FMT 15, so that label of the switch is
      dead. The PT label is always one of the two feedback names. */
  lemma TraceLabels(packetType: int, fmt: int, length: int, s: seq<Byte>)
    ensures match Decode(packetType, fmt, length, s)
      case Ok(Decoded(Some(Fb(_, f, t, _, _, _)), _)) =>
        FmtLabel(t, f) != "REMB" && (PtLabel(t) == "PSFB" || PtLabel(t) == "RTPFB")
      case _ => true
  {
    FmtLabelNames(packetType, fmt);
  }

  /** The trace of a TMMBN message with declared length L lists
      (L - 13) / 8 entries: one fewer than the (L - 12) / 8 whole entries
      the FCI holds whenever L - 12 is a positive multiple of 8. */
  lemma TmmbnTraceLength(length: int, s: seq<Byte>)
    requires |s| >= 8 && length >= 12
    ensures var d := Decode(RTPFB, TMMBN_FMT, length, s);
      d.Ok? && d.value.packet.Some? && d.value.packet.value.Fb?
      && |TraceOf(d.value.packet.value).tmmbn| == if length == 12 then 0 else (length - 13) / 8
  {
    var d := Decode(RTPFB, TMMBN_FMT, length, s);
    EntriesShape(FciBytes(d.value.packet.value.fci));
  }
}
