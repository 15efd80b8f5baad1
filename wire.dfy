/** Values on the wire: bytes, Java's view of a byte as an `int`, big-endian
    32-bit words, and the outcome of a decode step. */
module Wire {

  /** One octet of the RTCP packet, as its unsigned value. Java holds it in
      a signed `byte`; the bit fields take its 8-bit pattern (`bv8`). */
  newtype Byte = x: int | 0 <= x < 0x100

  datatype Option<+T> = None | Some(value: T)

  /** The two ways a decode fails: `EndOfInput` is the `EOFException` of
      `DataInputStream.readInt`/`readUnsignedByte`; `NegativeArraySize` is the
      exception of `new byte[n]` with `n < 0`. */
  datatype Error = EndOfInput | NegativeArraySize

  datatype Result<+T> = Ok(value: T) | Err(error: Error)

  /** The unsigned value of the big-endian word whose bytes are a, b, c, d. */
  function WordOf(a: nat, b: nat, c: nat, d: nat): nat
  {
    a * 0x100_0000 + b * 0x1_0000 + c * 0x100 + d
  }

  /** `readInt() & 0xffffffffL`: the four bytes at `i`, big-endian, unsigned. */
  function Word(s: seq<Byte>, i: nat): (r: nat)
    requires i + 4 <= |s|
    ensures r < 0x1_0000_0000
  {
    WordOf(s[i] as int, s[i + 1] as int, s[i + 2] as int, s[i + 3] as int)
  }

  /** A word read at `j` of a suffix is the word at the same place in the whole. */
  lemma WordInSuffix(s: seq<Byte>, p: nat, j: nat)
    requires p + j + 4 <= |s|
    ensures Word(s[p..], j) == Word(s, p + j)
  {
  }

  /** Reading a run of words from a suffix is reading it in the whole. */
  lemma WordsInSuffix(s: seq<Byte>, p: nat, start: nat, n: nat)
    requires p + start + 4 * n <= |s|
    ensures Words(s[p..], start, n) == Words(s, p + start, n)
  {
    forall k | 0 <= k < n
      ensures Words(s[p..], start, n)[k] == Words(s, p + start, n)[k]
    {
      WordInSuffix(s, p, start + 4 * k);
    }
  }

  /** The `n` words that follow position `start`, in stream order. */
  function Words(s: seq<Byte>, start: nat, n: nat): (r: seq<nat>)
    requires start + 4 * n <= |s|
    ensures |r| == n
    ensures forall k :: 0 <= k < n ==> r[k] == Word(s, start + 4 * k) && r[k] < 0x1_0000_0000
  {
    seq(n, k requires 0 <= k < n => Word(s, start + 4 * k))
  }

  /** The big-endian bytes of an unsigned 32-bit value. */
  function EncodeWord(w: nat): (r: seq<Byte>)
    requires w < 0x1_0000_0000
    ensures |r| == 4
  {
    [(w / 0x100_0000) as Byte, (w / 0x1_0000 % 0x100) as Byte,
     (w / 0x100 % 0x100) as Byte, (w % 0x100) as Byte]
  }

  function EncodeWords(ws: seq<nat>): (r: seq<Byte>)
    requires forall k :: 0 <= k < |ws| ==> ws[k] < 0x1_0000_0000
    ensures |r| == 4 * |ws|
  {
    if ws == [] then [] else EncodeWord(ws[0]) + EncodeWords(ws[1..])
  }

  lemma WordSplit(w: nat)
    requires w < 0x1_0000_0000
    ensures WordOf(w / 0x100_0000, w / 0x1_0000 % 0x100, w / 0x100 % 0x100, w % 0x100) == w
  {
    assert w / 0x1_0000 == (w / 0x100_0000) * 0x100 + w / 0x1_0000 % 0x100;
    assert w / 0x100 == (w / 0x1_0000) * 0x100 + w / 0x100 % 0x100;
  }

  /** Reading back an encoded word gives the value that was encoded. */
  lemma WordRoundTrip(w: nat)
    requires w < 0x1_0000_0000
    ensures Word(EncodeWord(w), 0) == w
  {
    WordSplit(w);
  }

  /** An encoded word is read back wherever it sits in the stream. */
  lemma WordInContext(pre: seq<Byte>, w: nat, post: seq<Byte>)
    requires w < 0x1_0000_0000
    ensures Word(pre + EncodeWord(w) + post, |pre|) == w
  {
    var s, e := pre + EncodeWord(w) + post, EncodeWord(w);
    assert s[|pre|] == e[0] && s[|pre| + 1] == e[1] && s[|pre| + 2] == e[2] && s[|pre| + 3] == e[3];
    WordRoundTrip(w);
  }

  /** Reading a run of encoded words back, wherever it sits in the stream. */
  lemma {:induction false} WordsRoundTrip(pre: seq<Byte>, ws: seq<nat>, post: seq<Byte>)
    requires forall k :: 0 <= k < |ws| ==> ws[k] < 0x1_0000_0000
    ensures |pre| + 4 * |ws| <= |pre + EncodeWords(ws) + post|
    ensures Words(pre + EncodeWords(ws) + post, |pre|, |ws|) == ws
    decreases |ws|
  {
    var s := pre + EncodeWords(ws) + post;
    if ws != [] {
      var pre' := pre + EncodeWord(ws[0]);
      var rest := EncodeWords(ws[1..]) + post;
      assert s == pre + EncodeWord(ws[0]) + rest;
      assert s == pre' + EncodeWords(ws[1..]) + post;
      WordsRoundTrip(pre', ws[1..], post);
      WordInContext(pre, ws[0], rest);
      var tail := Words(s, |pre'|, |ws| - 1);
      forall k | 0 < k < |ws|
        ensures Words(s, |pre|, |ws|)[k] == ws[k]
      {
        assert |pre'| + 4 * (k - 1) == |pre| + 4 * k;
        assert tail[k - 1] == Word(s, |pre| + 4 * k) == ws[k];
      }
    }
  }

  /** Number of bytes `read(buf)` copies when `n` are asked for at `pos`. */
  function Filled(s: seq<Byte>, pos: nat, n: nat): (k: nat)
    requires pos <= |s|
    ensures k <= n && pos + k <= |s|
    ensures k < n ==> pos + k == |s|
  {
    if n <= |s| - pos then n else |s| - pos
  }

  /** The contents of a fresh `new byte[n]` after one `read` at `pos`: the
      bytes that were there, then the zeros the array started with. */
  function ShortRead(s: seq<Byte>, pos: nat, n: nat): (r: seq<Byte>)
    requires pos <= |s|
    ensures |r| == n
    ensures forall j :: 0 <= j < n ==> r[j] == if pos + j < |s| then s[pos + j] else 0
  {
    var k := Filled(s, pos, n);
    s[pos..pos + k] + seq(n - k, _ => 0)
  }

  /** A short read from a suffix is the same short read in the whole. */
  lemma ShortReadInSuffix(s: seq<Byte>, p: nat, i: nat, n: nat)
    requires p + i <= |s|
    ensures Filled(s[p..], i, n) == Filled(s, p + i, n)
    ensures ShortRead(s[p..], i, n) == ShortRead(s, p + i, n)
  {
  }
}
