/** `RTCPPacketParserEx.parse(base, firstbyte, type, length, in)` and its
    helper `parseRTCPFBPacket`: the decoding of one RTCP feedback message
    whose common header (FMT, packet type, length) the caller has read.

    Each operation is given twice: as a function of the bytes still to be
    read (what the decoder yields and how many bytes it consumes), and as a
    method that advances a `DataInput` step by step, proved to agree. */
module Parser {
  import opened Wire
  import opened Feedback
  import opened BitFields
  import opened Labels
  import opened Tmmbn
  import opened DataInputs

  /** A successful decode: the record (`None` is the `null` returned for a
      packet type that is not feedback) and the number of bytes consumed. */
  datatype Decoded = Decoded(packet: Option<Packet>, consumed: nat)

  /** `NACKPacket` for a Generic NACK, plain `RTCPFBPacket` otherwise. */
  function VariantOf(packetType: int, fmt: int): (v: Variant)
    ensures v == Nack <==> packetType == RTPFB && fmt == NACK_FMT
  {
    if packetType == RTPFB && fmt == NACK_FMT then Nack else Plain
  }

  /** `parseRTCPFBPacket` once the SSRCs are read: `s` is the input after
      them. The FCI size is `length - 12`; a negative size fails when the
      array is created, a zero size leaves the array uncreated, and a
      positive one is filled by a single `read`. */
  function GenericBody(fmt: int, packetType: int, length: int, sender: nat, source: nat,
                       s: seq<Byte>): (r: Result<(Packet, nat)>)
    ensures r.Ok? ==> r.value.1 <= |s|
  {
    var fcilen := length - 12;
    var variant := VariantOf(packetType, fmt);
    if fcilen < 0 then Err(NegativeArraySize)
    else if fcilen == 0 then Ok((Fb(variant, fmt, packetType, sender, source, None), 0))
    else Ok((Fb(variant, fmt, packetType, sender, source, Some(ShortRead(s, 0, fcilen))),
             Filled(s, 0, fcilen)))
  }

  /** The REMB branch of `parse` once the SSRCs are read: `s` is the input
      after them. Four identifier bytes are skipped unchecked, then come the
      count byte, three bitrate bytes (one `read`, so possibly short) and
      `count` SSRC words. `length` plays no part. */
  function RembBody(sender: nat, source: nat, s: seq<Byte>): (r: Result<(Packet, nat)>)
    ensures r.Ok? ==> r.value.1 <= |s|
  {
    if |s| <= 4 then Err(EndOfInput)
    else
      var count := s[4] as int;
      var bitrate := ShortRead(s, 5, 3);
      var start := 5 + Filled(s, 5, 3);
      if start + 4 * count > |s| then Err(EndOfInput)
      else Ok((Remb(sender, source, Exp(bitrate[0] as bv8),
                    RembMantissa(bitrate[0] as bv8, bitrate[1] as bv8, bitrate[2] as bv8),
                    Words(s, start, count)),
               start + 4 * count))
  }

  /** `parse(base, fmt, packetType, length, in)` on the input `s` still to be read. */
  function Decode(packetType: int, fmt: int, length: int, s: seq<Byte>): (r: Result<Decoded>)
    ensures r.Ok? ==> r.value.consumed <= |s|
    ensures r.Ok? && r.value.packet.Some? ==> r.value.consumed >= 8
  {
    if packetType != RTPFB && packetType != PSFB then Ok(Decoded(None, 0))
    else if |s| < 8 then Err(EndOfInput)
    else
      var sender, source := Word(s, 0), Word(s, 4);
      var body := if packetType == PSFB && fmt == REMB_FMT then RembBody(sender, source, s[8..])
                  else GenericBody(fmt, packetType, length, sender, source, s[8..]);
      match body
      case Ok((p, n)) => Ok(Decoded(Some(p), 8 + n))
      case Err(e) => Err(e)
  }

  function FciBytes(fci: Option<seq<Byte>>): seq<Byte>
  {
    match fci
    case None => []
    case Some(bytes) => bytes
  }

  /** What the trace line reports for a record of the generic decoder. Both
      labels are always set, and TMMBN entries are listed only under the
      "TMMBN" label. */
  function TraceOf(p: Packet): (t: Trace)
    requires p.Fb?
    ensures t.senderSsrc == p.senderSsrc && t.sourceSsrc == p.sourceSsrc
    ensures |t.ptLabel| >= 1 && |t.fmtLabel| >= 1
    ensures t.tmmbn != [] ==> t.fmtLabel == "TMMBN" && t.ptLabel == "RTPFB"
  {
    Trace(p.senderSsrc, p.sourceSsrc, PtLabel(p.packetType), FmtLabel(p.packetType, p.fmt),
          if p.packetType == RTPFB && p.fmt == TMMBN_FMT then Entries(FciBytes(p.fci)) else [])
  }

  /** `parseRTCPFBPacket`. With tracing on, it also yields what the trace
      line reports; the record does not depend on it. */
  method ParseFeedback(input: DataInput, fmt: int, packetType: int, length: int,
                       sender: nat, source: nat, traceEnabled: bool)
      returns (r: Result<Packet>, trace: Option<Trace>)
    requires input.Valid()
    modifies input
    ensures input.Valid()
    ensures match GenericBody(fmt, packetType, length, sender, source, old(input.Rest()))
      case Ok((p, n)) => r == Ok(p) && input.pos == old(input.pos) + n
      case Err(e) => r == Err(e) && input.pos == old(input.pos)
    ensures trace == if traceEnabled && r.Ok? then Some(TraceOf(r.value)) else None
  {
    ghost var s := input.Rest();
    var variant := VariantOf(packetType, fmt);
    var fcilen := length - 12;
    var fci: array?<Byte> := null;
    if fcilen != 0 {
      if fcilen < 0 {
        return Err(NegativeArraySize), None;
      }
      fci := new Byte[fcilen](_ => 0);
      var n := input.Read(fci);
      assert fci[..] == ShortRead(s, 0, fcilen);
    }
    var packet := Fb(variant, fmt, packetType, sender, source,
                     if fci == null then None else Some(fci[..]));
    r := Ok(packet);
    trace := None;
    if traceEnabled {
      var entries := [];
      if packetType == RTPFB && fmt == TMMBN_FMT {
        entries := WalkEntries(fci, fcilen);
      }
      trace := Some(Trace(sender, source, PtLabel(packetType), FmtLabel(packetType, fmt), entries));
    }
  }

  method ReadDest(input: DataInput, count: nat) returns (r: Result<seq<nat>>)
    requires input.Valid()
    modifies input`pos
    ensures input.Valid()
    ensures old(input.pos) + 4 * count <= |input.data| ==>
      r == Ok(Words(input.data, old(input.pos), count)) && input.pos == old(input.pos) + 4 * count
    ensures old(input.pos) + 4 * count > |input.data| ==>
      r == Err(EndOfInput) && input.pos == |input.data|
  {
    var dest := new nat[count](_ => 0);
    var i := 0;
    while i < dest.Length
      invariant input.Valid() && 0 <= i <= dest.Length
      invariant input.pos == old(input.pos) + 4 * i
      invariant forall k :: 0 <= k < i ==> dest[k] == Word(input.data, old(input.pos) + 4 * k)
    {
      var w := input.ReadInt();
      if w.Err? {
        return Err(w.error);
      }
      dest[i] := w.value;
      i := i + 1;
    }
    assert dest[..] == Words(input.data, old(input.pos), count);
    r := Ok(dest[..]);
  }

  /** The bitrate field: three bytes in one `read`, then the exponent and
      the mantissa computed from the buffer. */
  method ReadBitrate(input: DataInput) returns (exp: nat, mantissa: nat)
    requires input.Valid()
    modifies input`pos
    ensures input.Valid()
    ensures input.pos == old(input.pos) + Filled(input.data, old(input.pos), 3)
    ensures var b := ShortRead(input.data, old(input.pos), 3);
      exp == Exp(b[0] as bv8) && mantissa == RembMantissa(b[0] as bv8, b[1] as bv8, b[2] as bv8)
  {
    var buf := new Byte[3](_ => 0);
    var n := input.Read(buf);
    assert buf[..] == ShortRead(input.data, old(input.pos), 3);
    exp := Exp(buf[0] as bv8);
    mantissa := RembMantissa(buf[0] as bv8, buf[1] as bv8, buf[2] as bv8);
  }

  /** `RembBody` in terms of what the REMB branch reads: the count byte,
      the bitrate fields decoded from the (possibly short) bitrate read, and
      where the SSRC list starts. */
  lemma RembBodyOfReads(sender: nat, source: nat, s: seq<Byte>, count: nat, b: seq<Byte>,
                        exp: nat, mantissa: nat, start: nat)
    requires |s| > 4 && count == s[4] as int && start == 5 + Filled(s, 5, 3)
    requires b == ShortRead(s, 5, 3)
    requires exp == Exp(b[0] as bv8) && mantissa == RembMantissa(b[0] as bv8, b[1] as bv8, b[2] as bv8)
    ensures start + 4 * count <= |s| ==>
      RembBody(sender, source, s) == Ok((Remb(sender, source, exp, mantissa, Words(s, start, count)),
                                         start + 4 * count))
    ensures start + 4 * count > |s| ==> RembBody(sender, source, s) == Err(EndOfInput)
  {
  }

  /** The REMB branch of `parse`. */
  method ParseRemb(input: DataInput, sender: nat, source: nat) returns (r: Result<Packet>)
    requires input.Valid()
    modifies input
    ensures input.Valid()
    ensures match RembBody(sender, source, old(input.Rest()))
      case Ok((p, n)) => r == Ok(p) && input.pos == old(input.pos) + n
      case Err(e) => r == Err(e) && input.pos == |input.data|
  {
    ghost var s := input.Rest();
    ghost var pos0 := input.pos;
    var identifier := input.ReadInt();
    if identifier.Err? {
      return Err(identifier.error);
    }
    var destlen := input.ReadUnsignedByte();
    if destlen.Err? {
      return Err(destlen.error);
    }
    assert destlen.value == s[4] as int;
    ghost var b := ShortRead(input.data, input.pos, 3);
    ShortReadInSuffix(input.data, pos0, 5, 3);
    var exp, mantissa := ReadBitrate(input);
    ghost var start := input.pos - pos0;
    RembBodyOfReads(sender, source, s, destlen.value, b, exp, mantissa, start);
    var dest := ReadDest(input, destlen.value);
    if dest.Err? {
      return Err(dest.error);
    }
    WordsInSuffix(input.data, pos0, start, destlen.value);
    r := Ok(Remb(sender, source, exp, mantissa, dest.value));
  }

  /** `parse(base, firstbyte, type, length, in)`: `null` (`Ok(None)`) unless
      the type is RTPFB or PSFB; otherwise the two SSRCs, then REMB for PSFB
      with FMT 15 and the generic decoder for everything else. */
  method Parse(input: DataInput, fmt: int, packetType: int, length: int, traceEnabled: bool)
      returns (r: Result<Option<Packet>>, trace: Option<Trace>)
    requires input.Valid()
    modifies input
    ensures input.Valid()
    ensures match Decode(packetType, fmt, length, old(input.Rest()))
      case Ok(d) => r == Ok(d.packet) && input.pos == old(input.pos) + d.consumed
      case Err(e) =>
        r == Err(e) && input.pos == if e == EndOfInput then |input.data| else old(input.pos) + 8
    ensures trace == if traceEnabled && r.Ok? && r.value.Some? && r.value.value.Fb?
                     then Some(TraceOf(r.value.value)) else None
  {
    ghost var s := input.Rest();
    trace := None;
    if packetType == RTPFB || packetType == PSFB {
      var senderSsrc := input.ReadInt();
      if senderSsrc.Err? {
        return Err(senderSsrc.error), None;
      }
      var sourceSsrc := input.ReadInt();
      if sourceSsrc.Err? {
        return Err(sourceSsrc.error), None;
      }
      var sender, source := senderSsrc.value, sourceSsrc.value;
      assert input.Rest() == s[8..];
      var body: Result<Packet>;
      if packetType == RTPFB {
        body, trace := ParseFeedback(input, fmt, RTPFB, length, sender, source, traceEnabled);
      } else if fmt == REMB_FMT {
        body := ParseRemb(input, sender, source);
      } else {
        body, trace := ParseFeedback(input, fmt, PSFB, length, sender, source, traceEnabled);
      }
      r := if body.Ok? then Ok(Some(body.value)) else Err(body.error);
    } else {
      r := Ok(None);
    }
  }
}
