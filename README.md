# RTCP feedback decoding in `RTCPPacketParserEx`

This project models the decoder that libjitsi adds to FMJ's RTCP parser. It
decodes the RTCP feedback messages of RFC 4585 (packet types RTPFB = 205 and
PSFB = 206), the TMMBR/TMMBN messages of RFC 5104, and the Receiver
Estimated Maximum Bitrate (REMB) message of draft-alvestrand-rmcat-remb.

The caller has already read the common header: the FMT field, the packet
type and the declared length in bytes. Given those and a stream positioned
just after the header, `parse` does the following:

- returns `null` for any other packet type;
- otherwise reads the two SSRCs;
- for PSFB with FMT 15, decodes a REMB record: SSRC count, 6-bit exponent,
  18-bit mantissa and the list of SSRCs;
- for every other feedback message, hands over to `parseRTCPFBPacket`.

`parseRTCPFBPacket` does the following:

- builds an `RTCPFBPacket`, or a `NACKPacket` for the RTPFB Generic NACK;
- reads `length - 12` bytes of Feedback Control Information (FCI);
- when tracing is on, builds a trace line with a PT label, an FMT label and,
  for TMMBN, one decoded entry per 8-byte stride of the FCI.

How it is modelled:

- **The stream.** The `DataInputStream` is a class, `DataInputs.DataInput`.
  It holds the packet's bytes and a cursor that only moves forward. Its
  methods model `readInt`, `readUnsignedByte` and `read(byte[])`.
- **The decoder, twice.**
  - `Parser.Decode` is a function of the bytes left to read. It gives the
    decoded record (or the error) and the number of bytes consumed.
  - The methods `Parser.Parse`, `Parser.ParseFeedback`, `Parser.ParseRemb`,
    `Parser.ReadDest`, `Parser.ReadBitrate` and `Tmmbn.WalkEntries` follow
    the source step by step. They use the stream, fresh arrays and loops.
  - Each method is proved to agree with the function.
  - The properties of the decoder are lemmas about `Decode`, in
    `ParserLaws`.
- **Bit fields.** They are computed on 32-bit patterns, as the Java code
  does. A `byte` is first sign-extended to an `int`, then masked and
  shifted.
- **The trace line.** It is modelled as the value it reports, a
  `Feedback.Trace`. Whether tracing is on is a parameter.

Where the code differs from a plain reading of the message formats, the
model follows the code:

- **Short FCI.** A FCI shorter than announced is not an error. The single
  `read` leaves the rest of the fresh array as zeros. The REMB bitrate
  bytes behave the same way.
- **REMB checks nothing.** The REMB branch never looks at the declared
  length. It never checks the 'REMB' identifier either.
- **Length below 12.** A declared length below 12 fails when the FCI array
  is created. This happens after the two SSRCs have been read.
- **Length of exactly 12.** The FCI is left unset. It is not an empty
  array.
- **Failed `readInt`.** When fewer than four bytes are left, `readInt`
  consumes them and then fails.
- **TMMBN trace.** When the FCI is a whole number of entries, the walk
  drops the last one. The TMMBN mantissa
  takes the wrong bits. Both are listed under Findings.

## Model

| member | source | states |
|---|---|---|
| Wire.Word | src/org/jitsi/impl/neomedia/rtcp/RTCPPacketParserEx.java:67-68 | `readInt() & 0xffffffffL` gives an unsigned 32-bit value: the word is below 2^32 |
| Wire.Words | src/org/jitsi/impl/neomedia/rtcp/RTCPPacketParserEx.java:123-125 | the SSRC list has exactly `count` entries; entry k is the unsigned word at `start + 4k`, in stream order |
| Wire.WordRoundTrip | src/org/jitsi/impl/neomedia/rtcp/RTCPPacketParserEx.java:67-68 | reading back a big-endian encoded word gives the value that was encoded |
| Wire.WordsRoundTrip | src/org/jitsi/impl/neomedia/rtcp/RTCPPacketParserEx.java:123-125 | a run of encoded words is read back in order, whatever comes before and after it |
| Wire.Filled | src/org/jitsi/impl/neomedia/rtcp/RTCPPacketParserEx.java:115-116 | one `read` copies at most the bytes asked for; it copies fewer only when it reaches the end of the input |
| Wire.ShortRead | src/org/jitsi/impl/neomedia/rtcp/RTCPPacketParserEx.java:169-173 | after one `read`, a fresh n-byte array holds the input's bytes where the input has them and zeros after that |
| DataInputs.DataInput.ReadInt | src/org/jitsi/impl/neomedia/rtcp/RTCPPacketParserEx.java:67-68 | with four bytes left: the unsigned big-endian word, and the cursor moves 4; otherwise `EndOfInput`, and the cursor moves to the end |
| DataInputs.DataInput.ReadUnsignedByte | src/org/jitsi/impl/neomedia/rtcp/RTCPPacketParserEx.java:113 | the next byte as 0..255 and the cursor moves 1; at the end of input, `EndOfInput` and the cursor stays |
| DataInputs.DataInput.Read | src/org/jitsi/impl/neomedia/rtcp/RTCPPacketParserEx.java:116 | copies as many of the requested bytes as remain and leaves the other slots untouched; returns the count, or -1 at the end of input |
| BitFields.JavaInt | src/org/jitsi/impl/neomedia/rtcp/RTCPPacketParserEx.java:117-121 | promoting a byte to `int` sign-extends it: the low 8 bits are the byte's, and the upper 24 bits are all clear for a non-negative byte and all set for a negative one |
| BitFields.ExpBits | src/org/jitsi/impl/neomedia/rtcp/RTCPPacketParserEx.java:117 | `(b & 0xFC) >> 2` on the promoted byte is below 64, and the masked operand has bit 31 clear, so Java's arithmetic `>>` (line 117) and logical `>>>` (line 218) both equal the logical shift the model uses |
| BitFields.Exp | src/org/jitsi/impl/neomedia/rtcp/RTCPPacketParserEx.java:117 | the REMB exponent is below 64 |
| BitFields.ExpIsTopBits | src/org/jitsi/impl/neomedia/rtcp/RTCPPacketParserEx.java:117 | `(b & 0xFC) >> 2` is the byte's top six bits, whatever its sign |
| BitFields.RembMantissa | src/org/jitsi/impl/neomedia/rtcp/RTCPPacketParserEx.java:118-121 | the REMB mantissa is below 2^18 |
| BitFields.RembMantissaBits | src/org/jitsi/impl/neomedia/rtcp/RTCPPacketParserEx.java:118-121 | the mantissa expression as written, on the promoted bytes, is below 2^18 |
| BitFields.RembMantissaUnsigned | src/org/jitsi/impl/neomedia/rtcp/RTCPPacketParserEx.java:118-121 | sign extension does not leak into the mantissa: it is the low 2 bits of b0, then b1, then b2, unsigned |
| BitFields.RembBitrateRoundTrip | src/org/jitsi/impl/neomedia/rtcp/RTCPPacketParserEx.java:115-121 | decoding the three bytes packed from any (6-bit exponent, 18-bit mantissa) pair gives that pair back |
| BitFields.RembBitrateComplete | src/org/jitsi/impl/neomedia/rtcp/RTCPPacketParserEx.java:115-121 | any three bytes are the packing of the fields decoded from them, so no bit is lost or shared |
| BitFields.TmmbnMantissa | src/org/jitsi/impl/neomedia/rtcp/RTCPPacketParserEx.java:220-223 | the traced TMMBN mantissa is below 2^17 |
| BitFields.TmmbnMantissaBits | src/org/jitsi/impl/neomedia/rtcp/RTCPPacketParserEx.java:220-223 | the TMMBN mantissa expression as written, on the promoted bytes, is below 2^17 |
| BitFields.TmmbnMantissaUnsigned | src/org/jitsi/impl/neomedia/rtcp/RTCPPacketParserEx.java:220-223 | for every three bytes, the as-written mantissa is bit 0 of b4, then b5, then all of b6, unsigned |
| BitFields.Overhead | src/org/jitsi/impl/neomedia/rtcp/RTCPPacketParserEx.java:224-226 | the traced measured overhead is below 2^9 |
| BitFields.OverheadBits | src/org/jitsi/impl/neomedia/rtcp/RTCPPacketParserEx.java:224-226 | the overhead expression as written, on the promoted bytes, is below 2^9 |
| BitFields.OverheadUnsigned | src/org/jitsi/impl/neomedia/rtcp/RTCPPacketParserEx.java:224-226 | the overhead is bit 0 of b6 followed by b7, unsigned |
| BitFields.TmmbnMantissaSharesBit | src/org/jitsi/impl/neomedia/rtcp/RTCPPacketParserEx.java:219-226 | as written, the mantissa's lowest bit is always the overhead's highest bit, because both take bit 0 of b6 |
| BitFields.RfcTmmbnMantissa | src/org/jitsi/impl/neomedia/rtcp/RTCPPacketParserEx.java:218-226 | the mantissa read with the boundaries of RFC 5104 is below 2^17 |
| BitFields.RfcTmmbnRoundTrip | src/org/jitsi/impl/neomedia/rtcp/RTCPPacketParserEx.java:218-226 | read with the boundaries of RFC 5104, any packed (exponent, mantissa, overhead) triple is recovered field for field |
| BitFields.TmmbnMantissaMisread | src/org/jitsi/impl/neomedia/rtcp/RTCPPacketParserEx.java:220-223 | an entry that carries mantissa 1 is traced as mantissa 2, while the RFC 5104 reading gives 1 |
| Labels.DecimalString | src/org/jitsi/impl/neomedia/rtcp/RTCPPacketParserEx.java:243 | `Integer.toString`: non-empty, starts with '-' exactly for negative values, is digits otherwise, and has no leading zero |
| Labels.DecimalRoundTrip | src/org/jitsi/impl/neomedia/rtcp/RTCPPacketParserEx.java:246-247 | the decimal fallback label reads back as exactly its value |
| Labels.PtLabel | src/org/jitsi/impl/neomedia/rtcp/RTCPPacketParserEx.java:181-184 | the PT label is always set (never empty): the switch of lines 181-245 assigns it on every branch |
| Labels.FmtLabel | src/org/jitsi/impl/neomedia/rtcp/RTCPPacketParserEx.java:185-247 | the FMT label is always set (never empty): the fallback of lines 246-247 fills in any FMT the switch leaves unnamed |
| Labels.FmtLabelNames | src/org/jitsi/impl/neomedia/rtcp/RTCPPacketParserEx.java:181-247 | each FMT name is given to exactly one (PT, FMT) pair; every other pair gets `Integer.toString(fmt)`, which reads back as the FMT and which no name can be mistaken for |
| Labels.PtLabelNames | src/org/jitsi/impl/neomedia/rtcp/RTCPPacketParserEx.java:181-184 | "PSFB" and "RTPFB" exactly for their types; any other type is labelled with a decimal string that reads back as the type |
| Tmmbn.EntryAt | src/org/jitsi/impl/neomedia/rtcp/RTCPPacketParserEx.java:216-226 | an entry decoded from 8 bytes has an SSRC below 2^32, a 6-bit exponent, a 17-bit mantissa and a 9-bit overhead |
| Tmmbn.EntryFields | src/org/jitsi/impl/neomedia/rtcp/RTCPPacketParserEx.java:216-226 | the bits each traced field takes: the exponent is the top six bits of byte 4, the mantissa is bit 0 of byte 4 then byte 5 then all of byte 6, and the overhead is bit 0 of byte 6 then byte 7 |
| Tmmbn.Strides | src/org/jitsi/impl/neomedia/rtcp/RTCPPacketParserEx.java:214 | the loop visits offsets i, i + 8, ..., each one with `offset + 8 < n` |
| Tmmbn.Entries | src/org/jitsi/impl/neomedia/rtcp/RTCPPacketParserEx.java:212-237 | the traced entries: entry k is decoded from offset 8k, and its 8 bytes lie strictly before the end of the FCI |
| Tmmbn.StridesCount | src/org/jitsi/impl/neomedia/rtcp/RTCPPacketParserEx.java:214 | the loop runs `(n - 1 - i) / 8` times from offset i |
| Tmmbn.EntriesShape | src/org/jitsi/impl/neomedia/rtcp/RTCPPacketParserEx.java:212-237 | an n-byte FCI traces `(n - 1) / 8` entries; entry k is decoded from offset 8k, inside the array |
| Tmmbn.WalkEntries | src/org/jitsi/impl/neomedia/rtcp/RTCPPacketParserEx.java:212-237 | the loop over the FCI array (null when none was made) yields exactly the entries of `Entries`, and every index it reads is in bounds |
| Tmmbn.FullStrides | src/org/jitsi/impl/neomedia/rtcp/RTCPPacketParserEx.java:214 | the intended walk: offsets i, i + 8, ..., each one a whole stride with `offset + 8 <= n` |
| Tmmbn.RfcEntriesShape | src/org/jitsi/impl/neomedia/rtcp/RTCPPacketParserEx.java:212-237 | the intended walk decodes `n / 8` entries, one per whole stride; entry k is at offset 8k |
| Tmmbn.RfcEntryRoundTrip | src/org/jitsi/impl/neomedia/rtcp/RTCPPacketParserEx.java:216-226 | an entry written in the RFC 5104 layout is read back as its SSRC, exponent, mantissa and overhead |
| Tmmbn.WalkDropsLastStride | src/org/jitsi/impl/neomedia/rtcp/RTCPPacketParserEx.java:214 | for a FCI made of whole 8-byte entries, the trace lists one entry fewer than the FCI holds |
| Parser.VariantOf | src/org/jitsi/impl/neomedia/rtcp/RTCPPacketParserEx.java:157-160 | a `NACKPacket` is created exactly for RTPFB with FMT 1; every other pair gets a plain `RTCPFBPacket` |
| Parser.GenericBody | src/org/jitsi/impl/neomedia/rtcp/RTCPPacketParserEx.java:155-173 | the generic decoder never consumes more than the input holds |
| Parser.RembBody | src/org/jitsi/impl/neomedia/rtcp/RTCPPacketParserEx.java:105-127 | the REMB decoder never consumes more than the input holds |
| Parser.Decode | src/org/jitsi/impl/neomedia/rtcp/RTCPPacketParserEx.java:52-142 | a decode consumes at most the input, and at least the two SSRC words whenever it returns a record |
| Parser.TraceOf | src/org/jitsi/impl/neomedia/rtcp/RTCPPacketParserEx.java:175-256 | the trace reports the record's two SSRCs and always has both labels set; TMMBN entries appear only under the labels "RTPFB" and "TMMBN" |
| Parser.ParseFeedback | src/org/jitsi/impl/neomedia/rtcp/RTCPPacketParserEx.java:145-260 | the method returns the record of `GenericBody` and advances the stream by the bytes it consumes; on error the stream stays put; with tracing on it yields the `Trace` of the record, otherwise none |
| Parser.ReadDest | src/org/jitsi/impl/neomedia/rtcp/RTCPPacketParserEx.java:123-125 | the loop fills `dest` with the next `count` unsigned words, in order; if a word is missing, `EndOfInput` and the stream is exhausted |
| Parser.ReadBitrate | src/org/jitsi/impl/neomedia/rtcp/RTCPPacketParserEx.java:115-121 | one `read` of three bytes, zero-padded when short; the exponent and the mantissa are decoded from that buffer |
| Parser.ParseRemb | src/org/jitsi/impl/neomedia/rtcp/RTCPPacketParserEx.java:105-127 | the method returns the record of `RembBody` and advances the stream by the bytes it consumes; on error the stream is exhausted |
| Parser.Parse | src/org/jitsi/impl/neomedia/rtcp/RTCPPacketParserEx.java:43-143 | the method returns what `Decode` gives and advances the stream by `consumed`; after an error the stream is at its end (`EndOfInput`) or past the SSRCs (negative FCI size); the trace is that of the generic record, and none for REMB or `null` |
| ParserLaws.NullIffNotFeedback | src/org/jitsi/impl/neomedia/rtcp/RTCPPacketParserEx.java:52 | `null` is returned, consuming nothing, exactly when the type is neither RTPFB nor PSFB |
| ParserLaws.HeaderSsrcs | src/org/jitsi/impl/neomedia/rtcp/RTCPPacketParserEx.java:67-68 | for feedback types, fewer than 8 bytes fail with `EndOfInput`; any record carries the unsigned words at offsets 0 and 4 as sender and source SSRC |
| ParserLaws.Routing | src/org/jitsi/impl/neomedia/rtcp/RTCPPacketParserEx.java:70-86 | a REMB record comes exactly from PSFB with FMT 15; every other record keeps its FMT and type, and is a `NACKPacket` exactly for the RTPFB Generic NACK |
| ParserLaws.GenericFci | src/org/jitsi/impl/neomedia/rtcp/RTCPPacketParserEx.java:167-173 | length < 12 fails with a negative array size; length 12 leaves the FCI unset and consumes 8 bytes; otherwise the FCI is the next `length - 12` bytes, zero-padded when the input is short, and the bytes consumed are exactly the ones present |
| ParserLaws.RembBodyComplete | src/org/jitsi/impl/neomedia/rtcp/RTCPPacketParserEx.java:110-125 | when the whole body is present, the REMB body is count at offset 4, bitrate at 5..7 and the SSRC list from 8 |
| ParserLaws.RembLayout | src/org/jitsi/impl/neomedia/rtcp/RTCPPacketParserEx.java:105-127 | for a complete message: count at offset 12, bitrate at 13..15, SSRCs from 16, consuming `16 + 4 * count` bytes whatever the declared length |
| ParserLaws.RembShortBitrate | src/org/jitsi/impl/neomedia/rtcp/RTCPPacketParserEx.java:113-125 | a count of 0 with fewer than three bitrate bytes still decodes: the bitrate is read zero-padded, the SSRC list is empty and the whole input is consumed |
| ParserLaws.RembIgnoresLength | src/org/jitsi/impl/neomedia/rtcp/RTCPPacketParserEx.java:105-127 | the REMB branch gives the same result for every declared length |
| ParserLaws.RembFailure | src/org/jitsi/impl/neomedia/rtcp/RTCPPacketParserEx.java:111-125 | REMB fails exactly when the input ends before the count byte, or when a non-zero count of SSRCs is not all there; every failure is `EndOfInput` |
| ParserLaws.EncodeRemb | src/org/jitsi/impl/neomedia/rtcp/RTCPPacketParserEx.java:87-104 | a REMB message in the draft's layout takes `16 + 4 * count` bytes after the common header |
| ParserLaws.RembRoundTrip | src/org/jitsi/impl/neomedia/rtcp/RTCPPacketParserEx.java:105-127 | any REMB message in the draft's layout decodes to exactly the SSRCs, exponent, mantissa and SSRC list it was written from, consuming exactly its bytes, whatever the identifier, the trailing bytes or the declared length |
| ParserLaws.TraceLabels | src/org/jitsi/impl/neomedia/rtcp/RTCPPacketParserEx.java:183-199 | no traced record is labelled "REMB", so that case of the switch is unreachable; the PT label is always "PSFB" or "RTPFB" |
| ParserLaws.TmmbnTraceLength | src/org/jitsi/impl/neomedia/rtcp/RTCPPacketParserEx.java:167-237 | a TMMBN message with declared length L ≥ 12 always decodes, and its trace lists 0 entries when L = 12 and `(L - 13) / 8` entries otherwise |

## Left out

- The `parse(byte[], int, int)` entry point (lines 31–41) is left out. It wraps the data in a `UDPPacket` and calls into FMJ's `RTCPPacketParser`, which reads the common header and calls the modelled `parse`. FMJ is not part of this model.
- The `RTCPCompoundPacket base` back-reference is left out. The records are values; which class is created is recorded as `Variant`.
- The `Logger` output is left out: hex formatting, decimal SSRC rendering and string concatenation. The trace is the value the line reports. Whether tracing is on is a parameter.
- `RTPTranslatorImpl.readInt(byte[], int)` is not part of this model. The TMMBN trace takes it to read four bytes big-endian, like `DataInputStream.readInt`.
- The stream is assumed to behave like a `DataInputStream` over a byte array. A single `read(byte[])` copies as many bytes as remain. A general `InputStream` may return fewer; that is not modelled.
- Other `IOException`s, `BadFormatException` and `OutOfMemoryError` are left out. Failures are the two `Error` values.
- Parser.GenericBody: `length` is an unbounded integer. The 32-bit wrap-around of `length - 12`, for a length within 12 of `Integer.MIN_VALUE`, is not modelled; the caller derives `length` from a 16-bit field.
- BitFields.Exp states only the 6-bit bound. That the value is the byte's top six bits is stated separately, by `BitFields.ExpIsTopBits`.
- Parser.GenericBody, Parser.RembBody and Parser.Decode state only a bound on the bytes consumed. Their results are stated exactly by the lemmas in `ParserLaws` (`NullIffNotFeedback`, `HeaderSsrcs`, `GenericFci`, `RembLayout`, `RembShortBitrate` and `RembFailure` together cover every input).
- The trace line (`TraceOf`, `Tmmbn.Entries`) follows the code as written, including both findings below. The intended walk and mantissa exist as separate definitions: `Tmmbn.RfcEntries` and `BitFields.RfcTmmbnMantissa`.

## Findings

| source | as written | input that shows it | evidently intended | confidence | as-written member | corrected member |
|---|---|---|---|---|---|---|
| src/org/jitsi/impl/neomedia/rtcp/RTCPPacketParserEx.java:214 | the TMMBN walk stops at `i < fcilen - 8` | a TMMBN FCI of 16 bytes (two entries) traces one entry | every whole 8-byte stride is decoded (`i + 8 <= fcilen`), giving `fcilen / 8` entries | not executed; follows from the loop bound | Tmmbn.WalkDropsLastStride | Tmmbn.RfcEntriesShape |
| src/org/jitsi/impl/neomedia/rtcp/RTCPPacketParserEx.java:220-223 | the 17-bit mantissa is bit 0 of b4, then b5, then all of b6 | entry bytes 4..7 = 00 00 02 00 (exponent 0, mantissa 1, overhead 0 in the RFC 5104 layout) trace mantissa 2 | the layout of section 4.2.1.1 of RFC 5104: the low 2 bits of b4, then b5, then the top 7 bits of b6 | not executed; the formula also shares bit 0 of b6 with the overhead | BitFields.TmmbnMantissaMisread | BitFields.RfcTmmbnRoundTrip |
