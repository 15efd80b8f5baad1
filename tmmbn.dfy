/** The trace's walk over the FCI of a TMMBN message (section 4.2.2.1 of
    RFC 5104): one entry per 8-byte stride, as the decoder computes it. */
module Tmmbn {
  import opened Wire
  import opened Feedback
  import opened BitFields

  /** The entry in the eight bytes at offset `i`, with the decoder's formulas. */
  function EntryAt(fci: seq<Byte>, i: nat): (e: TmmbnEntry)
    requires i + 8 <= |fci|
    ensures e.ssrc < 0x1_0000_0000 && e.exp < 64 && e.mantissa < 0x2_0000 && e.overhead < 0x200
  {
    TmmbnEntry(Word(fci, i), Exp(fci[i + 4] as bv8),
               TmmbnMantissa(fci[i + 4] as bv8, fci[i + 5] as bv8, fci[i + 6] as bv8),
               Overhead(fci[i + 6] as bv8, fci[i + 7] as bv8))
  }

  /** The bits each traced field takes from the entry's second word: the
      exponent is the top six bits of byte 4; the mantissa is bit 0 of byte
      4, then byte 5, then all of byte 6; the overhead is bit 0 of byte 6,
      then byte 7. */
  lemma EntryFields(fci: seq<Byte>, i: nat)
    requires i + 8 <= |fci|
    ensures ExpBits(fci[i + 4] as bv8) == (fci[i + 4] as bv8 >> 2) as bv32
    ensures TmmbnMantissaBits(fci[i + 4] as bv8, fci[i + 5] as bv8, fci[i + 6] as bv8)
         == ((((fci[i + 4] as bv8 & 0x1) as bv32) << 16) | ((fci[i + 5] as bv8 as bv32) << 8))
            | (fci[i + 6] as bv8 as bv32)
    ensures OverheadBits(fci[i + 6] as bv8, fci[i + 7] as bv8)
         == (((fci[i + 6] as bv8 & 0x1) as bv32) << 8) | (fci[i + 7] as bv8 as bv32)
  {
    ExpIsTopBits(fci[i + 4] as bv8);
    TmmbnMantissaUnsigned(fci[i + 4] as bv8, fci[i + 5] as bv8, fci[i + 6] as bv8);
    OverheadUnsigned(fci[i + 6] as bv8, fci[i + 7] as bv8);
  }

  /** The offsets the decoder's loop visits, from `i` on: i, i + 8, ...
      while the offset is below `n - 8`, its loop bound. */
  function Strides(n: int, i: nat): (r: seq<nat>)
    ensures forall j :: 0 <= j < |r| ==> r[j] == i + 8 * j && r[j] + 8 < n
    decreases n - i
  {
    if i < n - 8 then [i] + Strides(n, i + 8) else []
  }

  /** From offset 0, the k-th visited offset is 8k. */
  lemma StridesFromZero(n: int)
    ensures forall j :: 0 <= j < |Strides(n, 0)| ==> Strides(n, 0)[j] == 8 * j && 8 * j + 8 < n
  {
    var r := Strides(n, 0);
    forall j | 0 <= j < |r|
      ensures r[j] == 8 * j && 8 * j + 8 < n
    {
      assert r[j] == 0 + 8 * j && r[j] + 8 < n;
    }
  }

  /** The entries the trace decodes from an FCI, one per visited offset. */
  function Entries(fci: seq<Byte>): (r: seq<TmmbnEntry>)
    ensures forall k :: 0 <= k < |r| ==> 8 * k + 8 < |fci| && r[k] == EntryAt(fci, 8 * k)
  {
    StridesFromZero(|fci|);
    var offsets := Strides(|fci|, 0);
    seq(|offsets|, k requires 0 <= k < |offsets| => EntryAt(fci, offsets[k]))
  }

  lemma {:induction false} StridesCount(n: int, i: nat)
    ensures |Strides(n, i)| == if i < n then (n - 1 - i) / 8 else 0
    decreases n - i
  {
    if i < n - 8 {
      StridesCount(n, i + 8);
    }
  }

  /** The walk yields (|fci| - 1) / 8 entries, so the last full stride is
      never decoded; entry k is the one at offset 8k, read wholly inside
      `fci`. */
  lemma EntriesShape(fci: seq<Byte>)
    ensures |Entries(fci)| == if |fci| == 0 then 0 else (|fci| - 1) / 8
    ensures forall k :: 0 <= k < |Entries(fci)| ==>
      8 * k + 8 < |fci| && Entries(fci)[k] == EntryAt(fci, 8 * k)
  {
    StridesCount(|fci|, 0);
  }

  /** The walk over the FCI array (null when the decoder made none). Every
      index it reads lies inside the array. */
  method WalkEntries(fci: array?<Byte>, fcilen: int) returns (entries: seq<TmmbnEntry>)
    requires fci == null ==> fcilen == 0
    requires fci != null ==> fci.Length == fcilen
    ensures entries == Entries(if fci == null then [] else fci[..])
  {
    ghost var f := if fci == null then [] else fci[..];
    ghost var all := Strides(fcilen, 0);
    entries := [];
    var i, end := 0, fcilen - 8;
    while i < end
      invariant i == 8 * |entries| && |entries| <= |all|
      invariant Strides(fcilen, i) == all[|entries|..]
      invariant forall k :: 0 <= k < |entries| ==> entries[k] == EntryAt(f, all[k])
      decreases end - i
    {
      assert fci != null && f == fci[..];
      assert Strides(fcilen, i) == [i] + Strides(fcilen, i + 8);
      entries := entries + [EntryAt(fci[..], i)];
      i := i + 8;
    }
    assert Strides(fcilen, i) == [];
    assert |entries| == |all| && |f| == fcilen;
  }

  // ------------------------------------------------------------------
  // The walk the layout calls for: every full stride, each entry read with
  // the field boundaries of section 4.2.1.1 of RFC 5104.

  function RfcEntryAt(fci: seq<Byte>, i: nat): (e: TmmbnEntry)
    requires i + 8 <= |fci|
  {
    TmmbnEntry(Word(fci, i), Exp(fci[i + 4] as bv8),
               RfcTmmbnMantissa(fci[i + 4] as bv8, fci[i + 5] as bv8, fci[i + 6] as bv8),
               Overhead(fci[i + 6] as bv8, fci[i + 7] as bv8))
  }

  /** Offsets of every full 8-byte stride from `i` on. */
  function FullStrides(n: int, i: nat): (r: seq<nat>)
    ensures forall j :: 0 <= j < |r| ==> r[j] == i + 8 * j && r[j] + 8 <= n
    decreases n - i
  {
    if i + 8 <= n then [i] + FullStrides(n, i + 8) else []
  }

  function RfcEntries(fci: seq<Byte>): (r: seq<TmmbnEntry>)
  {
    var offsets := FullStrides(|fci|, 0);
    seq(|offsets|, k requires 0 <= k < |offsets| => RfcEntryAt(fci, offsets[k]))
  }

  lemma {:induction false} FullStridesCount(n: int, i: nat)
    requires i <= n
    ensures |FullStrides(n, i)| == (n - i) / 8
    decreases n - i
  {
    if i + 8 <= n {
      FullStridesCount(n, i + 8);
    }
  }

  /** Every full stride is decoded: an FCI of n bytes carries n / 8 entries,
      entry k being the one at offset 8k. */
  lemma RfcEntriesShape(fci: seq<Byte>)
    ensures |RfcEntries(fci)| == |fci| / 8
    ensures forall k :: 0 <= k < |RfcEntries(fci)| ==>
      8 * k + 8 <= |fci| && RfcEntries(fci)[k] == RfcEntryAt(fci, 8 * k)
  {
    FullStridesCount(|fci|, 0);
  }

  /** An entry packed in the RFC 5104 layout is read back field for field. */
  lemma RfcEntryRoundTrip(ssrc: nat, exp: bv6, mantissa: bv17, overhead: bv9)
    requires ssrc < 0x1_0000_0000
    ensures RfcEntryAt(EncodeWord(ssrc) + Octets(PackTmmbn(exp, mantissa, overhead)), 0)
         == TmmbnEntry(ssrc, exp as int, mantissa as int, overhead as int)
  {
    var p := PackTmmbn(exp, mantissa, overhead);
    var bytes := EncodeWord(ssrc) + Octets(p);
    assert Word(bytes, 0) == ssrc by {
      assert bytes == [] + EncodeWord(ssrc) + Octets(p);
      WordInContext([], ssrc, Octets(p));
    }
    assert bytes[4] as bv8 == p[0] && bytes[5] as bv8 == p[1]
        && bytes[6] as bv8 == p[2] && bytes[7] as bv8 == p[3];
    RfcTmmbnRoundTrip(exp, mantissa, overhead);
  }

  lemma StrideArith(n: nat)
    requires n >= 8 && n % 8 == 0
    ensures (n - 1) / 8 == n / 8 - 1
  {
    var q := n / 8;
    assert n == 8 * q;
    assert n - 1 == 8 * (q - 1) + 7;
  }

  /** An FCI made of whole entries loses its last one to the decoder's loop
      bound: two entries (16 bytes) trace as one. */
  lemma WalkDropsLastStride(fci: seq<Byte>)
    requires |fci| >= 8 && |fci| % 8 == 0
    ensures |Entries(fci)| == |RfcEntries(fci)| - 1
  {
    EntriesShape(fci);
    RfcEntriesShape(fci);
    StrideArith(|fci|);
  }
}
