/** The decoder's input: a `java.io.DataInputStream` over the bytes of one
    compound packet, seen as the bytes and a cursor that only moves forward. */
module DataInputs {
  import opened Wire

  class DataInput {
    /** Every byte of the underlying buffer. */
    const data: seq<Byte>
    /** Index of the next byte to be read. */
    var pos: nat

    ghost predicate Valid()
      reads this
    {
      pos <= |data|
    }

    /** The bytes not yet read. */
    function Rest(): (r: seq<Byte>)
      reads this
      requires Valid()
      ensures |r| == |data| - pos
    {
      data[pos..]
    }

    constructor (bytes: seq<Byte>)
      ensures Valid() && data == bytes && pos == 0
    {
      data := bytes;
      pos := 0;
    }

    /** `readInt() & 0xffffffffL`: every caller in the decoder either masks the
        result that way or drops it, so the unsigned value is returned. When
        fewer than four bytes are left, they are consumed and the read fails. */
    method ReadInt() returns (r: Result<nat>)
      requires Valid()
      modifies this`pos
      ensures Valid()
      ensures old(pos) + 4 <= |data| ==> r == Ok(Word(data, old(pos))) && pos == old(pos) + 4
      ensures old(pos) + 4 > |data| ==> r == Err(EndOfInput) && pos == |data|
    {
      if pos + 4 <= |data| {
        r := Ok(Word(data, pos));
        pos := pos + 4;
      } else {
        r := Err(EndOfInput);
        pos := |data|;
      }
    }

    /** `readUnsignedByte()`: the next byte as a value in 0..255. */
    method ReadUnsignedByte() returns (r: Result<nat>)
      requires Valid()
      modifies this`pos
      ensures Valid()
      ensures old(pos) < |data| ==> r == Ok(data[old(pos)] as int) && pos == old(pos) + 1
      ensures old(pos) == |data| ==> r == Err(EndOfInput) && pos == old(pos)
    {
      if pos < |data| {
        r := Ok(data[pos] as int);
        pos := pos + 1;
      } else {
        r := Err(EndOfInput);
      }
    }

    /** `read(buf)`: copies as many of the next `buf.Length` bytes as are
        left, leaves the other slots of `buf` as they were, and never fails.
        The count is -1 at end of input. */
    method Read(buf: array<Byte>) returns (n: int)
      requires Valid()
      modifies this`pos, buf
      ensures Valid()
      ensures pos == old(pos) + Filled(data, old(pos), buf.Length)
      ensures forall j :: 0 <= j < buf.Length ==>
        buf[j] == if j < pos - old(pos) then data[old(pos) + j] else old(buf[j])
      ensures n == if old(pos) == |data| then -1 else pos - old(pos)
    {
      var k := Filled(data, pos, buf.Length);
      forall j | 0 <= j < k {
        buf[j] := data[pos + j];
      }
      n := if pos == |data| then -1 else k;
      pos := pos + k;
    }
  }
}
