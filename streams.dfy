/** The `BinaryReader` the container readers pull fields from, over the
    bytes of an opened file. Its position may be moved past the end (a
    seek); every read from there on finds nothing. */
module Streams {
  import opened Common

  /** What is left to read at `pos`. */
  function Rest(data: seq<byte>, pos: nat): (r: seq<byte>)
    ensures pos <= |data| ==> r == data[pos..]
    ensures pos > |data| ==> r == []
  {
    if pos <= |data| then data[pos..] else []
  }

  /** `count` bytes or as many as there are: what `ReadBytes` returns at the
      end of a stream. */
  function Take(s: seq<byte>, count: nat): (r: seq<byte>)
    ensures |r| == if count <= |s| then count else |s|
    ensures r == s[..|r|]
  {
    if count <= |s| then s[..count] else s
  }

  class Reader {
    const data: seq<byte>
    var pos: nat

    constructor (bytes: seq<byte>)
      ensures data == bytes && pos == 0
    {
      data, pos := bytes, 0;
    }

    /** The bytes from the position on. */
    function Remaining(): seq<byte>
      reads this
    {
      Rest(data, pos)
    }

    method ReadByte() returns (r: Result<byte>)
      modifies this`pos
      ensures |old(Remaining())| == 0 ==> r == Err(EndOfStream) && pos == old(pos)
      ensures |old(Remaining())| > 0 ==> r == Ok(old(Remaining())[0]) && Remaining() == old(Remaining())[1..]
    {
      if pos >= |data| {
        return Err(EndOfStream);
      }
      r := Ok(data[pos]);
      pos := pos + 1;
    }

    /** `ReadInt32`: four bytes, two's complement, little-endian. */
    method ReadInt32() returns (r: Result<int>)
      modifies this`pos
      ensures |old(Remaining())| < 4 ==> r == Err(EndOfStream)
      ensures |old(Remaining())| >= 4 ==>
        r == Ok(Int32Of(old(Remaining())[..4])) && Remaining() == old(Remaining())[4..]
    {
      if pos + 4 > |data| {
        return Err(EndOfStream);
      }
      r := Ok(Int32Of(data[pos..pos + 4]));
      pos := pos + 4;
    }

    /** `ReadUInt32`: four bytes, little-endian. */
    method ReadUInt32() returns (r: Result<nat>)
      modifies this`pos
      ensures |old(Remaining())| < 4 ==> r == Err(EndOfStream)
      ensures |old(Remaining())| >= 4 ==>
        r == Ok(UInt32Of(old(Remaining())[..4])) && Remaining() == old(Remaining())[4..]
    {
      if pos + 4 > |data| {
        return Err(EndOfStream);
      }
      r := Ok(UInt32Of(data[pos..pos + 4]));
      pos := pos + 4;
    }

    /** `ReadBytes(count)`: up to `count` bytes, fewer at the end. */
    method ReadBytes(count: nat) returns (bytes: array<byte>)
      modifies this`pos
      ensures fresh(bytes) && bytes[..] == Take(old(Remaining()), count)
      ensures Remaining() == old(Remaining())[bytes.Length..]
    {
      var rest := Rest(data, pos);
      var n := if count <= |rest| then count else |rest|;
      bytes := new byte[n](i requires 0 <= i < n => rest[i]);
      pos := pos + n;
      assert bytes[..] == rest[..n];
    }

    /** `BaseStream.Position += n`. */
    method Skip(n: nat)
      modifies this`pos
      ensures pos == old(pos) + n
      ensures Remaining() == if n <= |old(Remaining())| then old(Remaining())[n..] else []
    {
      pos := pos + n;
    }
  }
}
