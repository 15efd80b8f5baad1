/** The labels the trace line gives a feedback message: the payload type
    (PT) and the feedback message type (FMT), with `Integer.toString` as the
    fallback for values without a name. */
module Labels {
  import opened Feedback

  predicate IsDigit(c: char)
  {
    '0' <= c <= '9'
  }

  function DigitChar(d: nat): (c: char)
    requires d < 10
    ensures IsDigit(c) && DigitValue(c) == d
  {
    ('0' as int + d) as char
  }

  /** The decimal digits of `n`, most significant first, without leading zeros. */
  function Digits(n: nat): (r: string)
    ensures |r| >= 1
    ensures forall i :: 0 <= i < |r| ==> IsDigit(r[i])
    ensures |r| > 1 ==> r[0] != '0'
    decreases n
  {
    if n < 10 then [DigitChar(n)] else Digits(n / 10) + [DigitChar(n % 10)]
  }

  /** `Integer.toString(n)`. */
  function DecimalString(n: int): (r: string)
    ensures |r| >= 1
    ensures r[0] == '-' <==> n < 0
    ensures r[0] == '-' || IsDigit(r[0])
    ensures forall i :: 0 < i < |r| ==> IsDigit(r[i])
    ensures forall i :: 0 <= i < |r| - 1 && (i == 0 || r[i - 1] == '-') ==> r[i] != '0'
  {
    if n < 0 then "-" + Digits(-n) else Digits(n)
  }

  function DigitValue(c: char): (d: nat)
    requires IsDigit(c)
    ensures d < 10
  {
    c as int - '0' as int
  }

  /** The value of a string of decimal digits. */
  function DigitsValue(s: string): nat
    requires forall i :: 0 <= i < |s| ==> IsDigit(s[i])
  {
    if s == [] then 0 else DigitsValue(s[..|s| - 1]) * 10 + DigitValue(s[|s| - 1])
  }

  /** The reading back of a decimal string: an optional '-' and digits. */
  function ParseDecimal(s: string): int
    requires |s| >= 1 && (s[0] == '-' || IsDigit(s[0]))
    requires forall i :: 0 < i < |s| ==> IsDigit(s[i])
  {
    if s[0] == '-' then 0 - DigitsValue(s[1..]) else DigitsValue(s)
  }

  lemma {:induction false} DigitsRoundTrip(n: nat)
    ensures DigitsValue(Digits(n)) == n
    decreases n
  {
    if n >= 10 {
      var r := Digits(n);
      assert r[..|r| - 1] == Digits(n / 10);
      DigitsRoundTrip(n / 10);
    }
  }

  /** The decimal fallback label names its value exactly. */
  lemma DecimalRoundTrip(n: int)
    ensures ParseDecimal(DecimalString(n)) == n
  {
    if n < 0 {
      assert DecimalString(n)[1..] == Digits(-n);
      DigitsRoundTrip(-n);
    } else {
      DigitsRoundTrip(n);
    }
  }

  /** The PT label: "PSFB", "RTPFB", or the type in decimal. */
  function PtLabel(packetType: int): (r: string)
    ensures |r| >= 1
  {
    if packetType == PSFB then "PSFB"
    else if packetType == RTPFB then "RTPFB"
    else DecimalString(packetType)
  }

  /** The FMT label: a name for FIR, PLI and REMB under PSFB and for Generic
      NACK, TMMBR and TMMBN under RTPFB; otherwise the FMT in decimal. */
  function FmtLabel(packetType: int, fmt: int): (r: string)
    ensures |r| >= 1
  {
    if packetType == PSFB && fmt == FIR_FMT then "FIR"
    else if packetType == PSFB && fmt == PLI_FMT then "PLI"
    else if packetType == PSFB && fmt == REMB_FMT then "REMB"
    else if packetType == RTPFB && fmt == NACK_FMT then "Generic NACK"
    else if packetType == RTPFB && fmt == TMMBR_FMT then "TMMBR"
    else if packetType == RTPFB && fmt == TMMBN_FMT then "TMMBN"
    else DecimalString(fmt)
  }

  /** Each name is given to exactly one (PT, FMT) pair, and every other pair
      is labelled with its FMT in decimal, which no name can be mistaken for. */
  lemma FmtLabelNames(packetType: int, fmt: int)
    ensures FmtLabel(packetType, fmt) == "FIR" <==> packetType == PSFB && fmt == FIR_FMT
    ensures FmtLabel(packetType, fmt) == "PLI" <==> packetType == PSFB && fmt == PLI_FMT
    ensures FmtLabel(packetType, fmt) == "REMB" <==> packetType == PSFB && fmt == REMB_FMT
    ensures FmtLabel(packetType, fmt) == "Generic NACK" <==> packetType == RTPFB && fmt == NACK_FMT
    ensures FmtLabel(packetType, fmt) == "TMMBR" <==> packetType == RTPFB && fmt == TMMBR_FMT
    ensures FmtLabel(packetType, fmt) == "TMMBN" <==> packetType == RTPFB && fmt == TMMBN_FMT
    ensures (IsDigit(FmtLabel(packetType, fmt)[0]) || FmtLabel(packetType, fmt)[0] == '-')
        <==> (!(packetType == PSFB && fmt in {FIR_FMT, PLI_FMT, REMB_FMT})
              && !(packetType == RTPFB && fmt in {NACK_FMT, TMMBR_FMT, TMMBN_FMT}))
    ensures !(packetType == PSFB && fmt in {FIR_FMT, PLI_FMT, REMB_FMT})
            && !(packetType == RTPFB && fmt in {NACK_FMT, TMMBR_FMT, TMMBN_FMT}) ==>
      FmtLabel(packetType, fmt) == DecimalString(fmt) && ParseDecimal(FmtLabel(packetType, fmt)) == fmt
  {
    var d := DecimalString(fmt);
    assert d[0] == '-' || IsDigit(d[0]);
    DecimalRoundTrip(fmt);
  }

  /** The PT label names the two feedback types and falls back to decimal. */
  lemma PtLabelNames(packetType: int)
    ensures PtLabel(packetType) == "PSFB" <==> packetType == PSFB
    ensures PtLabel(packetType) == "RTPFB" <==> packetType == RTPFB
    ensures packetType != PSFB && packetType != RTPFB ==>
      ParseDecimal(PtLabel(packetType)) == packetType
  {
    var d := DecimalString(packetType);
    assert d[0] == '-' || IsDigit(d[0]);
    DecimalRoundTrip(packetType);
  }
}
