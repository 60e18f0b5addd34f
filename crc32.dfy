/** The standard CRC-32 of `Utils.cs` (reflected polynomial 0xEDB88320,
    initial value and final XOR 0xFFFFFFFF, as in section 8 of RFC 1952),
    which the key schedule hashes the password with. Registers are `uint`
    values; `>> k` is division by `2^k` and `& (2^k - 1)` the remainder. */
module Crc {
  import opened Common

  const Polynomial: uint := 0xEDB8_8320

  /** The bits of one byte. */
  const Rounds: nat := 8

  /** One bit of the table construction: shift right, and fold the
      polynomial in when the bit shifted out was set. */
  function ReflectStep(c: uint): uint {
    if c % 2 == 0 then c / 2 else Xor32(Polynomial, c / 2)
  }

  /** `rounds` reflected steps applied to `c`. */
  function Reflect(c: uint, rounds: nat): uint {
    if rounds == 0 then c else ReflectStep(Reflect(c, rounds - 1))
  }

  /** Entry `i` of the 256-entry lookup table: `i` after eight steps. */
  function Entry(i: byte): uint {
    Reflect(i, Rounds)
  }

  /** The lookup table, which the static field `crc_table` holds and
      `InitializeTable` computes. */
  function Table(): (t: seq<uint>)
    ensures |t| == 256
  {
    seq(256, n requires 0 <= n < 256 => Entry(n))
  }

  lemma {:induction false} ReflectZero(rounds: nat)
    ensures Reflect(0, rounds) == 0
  {
    if rounds > 0 {
      ReflectZero(rounds - 1);
    }
  }

  /** A zero byte contributes nothing: the first table entry is 0. */
  lemma TableStartsAtZero()
    ensures Table()[0] == 0
  {
    ReflectZero(Rounds);
  }

  method InitializeTable() returns (table: array<uint>)
    ensures fresh(table)
    ensures table[..] == Table()
  {
    table := new uint[256];
    for num := 0 to 256
      invariant forall n :: 0 <= n < num ==> table[n] == Entry(n)
    {
      var c: uint := num;
      for i := 0 to Rounds
        invariant c == Reflect(num, i)
      {
        c := if c % 2 == 0 then c / 2 else Xor32(Polynomial, c / 2);
      }
      table[num] := c;
    }
  }

  /** The register after one more byte: the table entry that the low byte
      of the register XOR the input selects (`(c ^ b) & 0xFF`), XOR the
      register shifted right by eight. */
  function Next(c: uint, b: byte): uint {
    Xor32(Table()[Xor8(c % 0x100, b)], c / 0x100)
  }

  /** The register after the bytes of `s`, one after the other. */
  function Register(c: uint, s: seq<byte>): uint {
    if |s| == 0 then c else Next(Register(c, s[..|s| - 1]), s[|s| - 1])
  }

  /** The checksum of `s`: the register starts with all bits set, and the
      result is complemented. */
  function Crc(s: seq<byte>): uint {
    Xor32(Register(0xFFFF_FFFF, s), 0xFFFF_FFFF)
  }

  lemma RegisterOneMore(c: uint, s: seq<byte>, b: byte)
    ensures Register(c, s + [b]) == Next(Register(c, s), b)
  {
    assert (s + [b])[..|s|] == s;
  }

  /** Feeding bytes in two pieces is feeding them at once: what makes the
      incremental `Update` of an instance agree with `Compute`. */
  lemma {:induction false} RegisterAppend(c: uint, a: seq<byte>, b: seq<byte>)
    ensures Register(c, a + b) == Register(Register(c, a), b)
    decreases |b|
  {
    if |b| > 0 {
      var b' := b[..|b| - 1];
      assert (a + b)[..|a + b| - 1] == a + b';
      RegisterAppend(c, a, b');
    } else {
      assert a + b == a;
    }
  }

  /** The checksum of no bytes is zero. */
  lemma CrcOfNothing()
    ensures Crc([]) == 0
  {
    XorBitsSelf(0xFFFF_FFFF);
  }

  /** `UpdateCrc(crc, buf, pos, len)`: the register after bytes
      `pos .. pos + len` of `buf`. */
  method UpdateCrc(crc: uint, buf: array<byte>, pos: nat, len: nat) returns (r: uint)
    requires pos + len <= buf.Length
    ensures r == Register(crc, buf[pos..pos + len])
  {
    r := crc;
    for i := 0 to len
      invariant r == Register(crc, buf[pos..pos + i])
    {
      assert buf[pos..pos + i + 1] == buf[pos..pos + i] + [buf[pos + i]];
      RegisterOneMore(crc, buf[pos..pos + i], buf[pos + i]);
      r := Xor32(Table()[Xor8(r % 0x100, buf[pos + i])], r / 0x100);
    }
  }

  /** `Compute(buf, pos, len)`: the checksum of bytes `pos .. pos + len`;
      zero for an empty range. */
  method Compute(buf: array<byte>, pos: nat, len: nat) returns (r: uint)
    requires pos + len <= buf.Length
    ensures r == Crc(buf[pos..pos + len])
    ensures len == 0 ==> r == 0
  {
    r := UpdateCrc(0xFFFF_FFFF, buf, pos, len);
    if len == 0 {
      CrcOfNothing();
    }
    r := Xor32(r, 0xFFFF_FFFF);
  }

  /** A running checksum: an instance is fed bytes over several calls. */
  class Crc32 {
    var crc: uint

    constructor ()
      ensures crc == 0xFFFF_FFFF
    {
      crc := 0xFFFF_FFFF;
    }

    function Value(): uint
      reads this
    {
      Xor32(crc, 0xFFFF_FFFF)
    }

    method Update(buf: array<byte>, pos: nat, len: nat)
      requires pos + len <= buf.Length
      modifies this
      ensures crc == Register(old(crc), buf[pos..pos + len])
    {
      crc := UpdateCrc(crc, buf, pos, len);
    }
  }

  /** A fresh instance fed `a` and then `b` reports the checksum of `a + b`,
      the value `Compute` gives for the two ranges at once. */
  method Incremental(a: array<byte>, b: array<byte>) returns (v: uint)
    ensures v == Crc(a[..] + b[..])
  {
    var c := new Crc32();
    c.Update(a, 0, a.Length);
    c.Update(b, 0, b.Length);
    assert a[0..a.Length] == a[..] && b[0..b.Length] == b[..];
    RegisterAppend(0xFFFF_FFFF, a[..], b[..]);
    v := c.Value();
  }
}
