/** The records the decoder produces, and the protocol constants it tests. */
module Feedback {
  import opened Wire

  /** RTCP packet types of the feedback messages (section 6.1 of RFC 4585). */
  const RTPFB: int := 205
  const PSFB: int := 206

  /** Feedback message types (FMT). Under RTPFB: Generic NACK (section 6.2.1
      of RFC 4585), TMMBR and TMMBN (section 4.2 of RFC 5104). Under PSFB:
      PLI (section 6.3.1 of RFC 4585), FIR (section 4.3.1 of RFC 5104) and
      REMB (section 2.2 of draft-alvestrand-rmcat-remb). */
  const NACK_FMT: int := 1
  const TMMBR_FMT: int := 3
  const TMMBN_FMT: int := 4
  const PLI_FMT: int := 1
  const FIR_FMT: int := 4
  const REMB_FMT: int := 15

  /** Which class the generic decoder instantiates: `NACKPacket` or plain
      `RTCPFBPacket`. */
  datatype Variant = Plain | Nack

  /** A decoded feedback message.
      `Fb` is an `RTCPFBPacket` (or its `NACKPacket` subclass) with the fields
      the decoder sets; `fci` is `None` when the decoder never creates the
      array (a declared length of exactly 12).
      `Remb` is an `RTCPREMBPacket`. The back-reference to the enclosing
      compound packet is not modelled. */
  datatype Packet =
    | Fb(variant: Variant, fmt: int, packetType: int,
         senderSsrc: nat, sourceSsrc: nat, fci: Option<seq<Byte>>)
    | Remb(senderSsrc: nat, sourceSsrc: nat, exp: nat, mantissa: nat, dest: seq<nat>)

  /** One entry of a TMMBN message as the trace decodes it. */
  datatype TmmbnEntry = TmmbnEntry(ssrc: nat, exp: nat, mantissa: nat, overhead: nat)

  /** What the trace line reports: the two SSRCs, the payload type label, the
      FMT label and the decoded TMMBN entries (empty for every other FMT). */
  datatype Trace = Trace(senderSsrc: nat, sourceSsrc: nat, ptLabel: string,
                         fmtLabel: string, tmmbn: seq<TmmbnEntry>)
}
