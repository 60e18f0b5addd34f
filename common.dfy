/** Bytes, results and the little-endian integer layouts shared by every part
    of the container tool. */
module Common {

  /** One octet, as stored in a .NET `byte[]`. */
  type byte = b: int | 0 <= b < 256

  predicate IsInt32(x: int) {
    -0x8000_0000 <= x < 0x8000_0000
  }

  /** The most bytes a `MemoryStream` can hold: its capacity is an `int`. */
  const MaxStreamLength: nat := 0x7FFF_FFFF

  predicate IsUInt32(x: int) {
    0 <= x < 0x1_0000_0000
  }

  /** A .NET `uint`. */
  type uint = x: int | 0 <= x < 0x1_0000_0000

  function Pow2(k: nat): (r: nat)
    ensures r >= 1
  {
    if k == 0 then 1 else 2 * Pow2(k - 1)
  }

  lemma Pow2Word()
    ensures Pow2(32) == 0x1_0000_0000
  {
    assert Pow2(8) == 0x100;
    assert Pow2(16) == 0x1_0000 by {
      var k := 8;
      while k < 16
        invariant 8 <= k <= 16 && Pow2(k) == 0x100 * Pow2(k - 8)
      {
        k := k + 1;
      }
    }
    var k := 16;
    while k < 32
      invariant 16 <= k <= 32 && Pow2(k) == 0x1_0000 * Pow2(k - 16)
    {
      k := k + 1;
    }
  }

  /** Bitwise exclusive or of two naturals, one binary digit at a time
      from the lowest. */
  function XorBits(a: nat, b: nat): nat
    decreases a + b
  {
    if a == 0 && b == 0 then 0 else 2 * XorBits(a / 2, b / 2) + (a + b) % 2
  }

  lemma {:induction false} XorBitsBelow(a: nat, b: nat, k: nat)
    requires a < Pow2(k) && b < Pow2(k)
    ensures XorBits(a, b) < Pow2(k)
    decreases k
  {
    if k > 0 && !(a == 0 && b == 0) {
      XorBitsBelow(a / 2, b / 2, k - 1);
    }
  }

  lemma {:induction false} XorBitsZero(a: nat)
    ensures XorBits(a, 0) == a
    decreases a
  {
    if a > 0 {
      XorBitsZero(a / 2);
    }
  }

  lemma HalveTwice(h: nat, r: nat, x: nat)
    requires r < 2 && x == 2 * h + r
    ensures x / 2 == h && x % 2 == r
  {
  }

  lemma ParityOfSum(a: nat, b: nat, x: nat)
    requires x % 2 == (a + b) % 2
    ensures (x + b) % 2 == a % 2
  {
  }

  /** XOR-ing with the same operand twice is the identity. */
  lemma {:induction false} XorBitsTwice(a: nat, b: nat)
    ensures XorBits(XorBits(a, b), b) == a
    decreases a + b
  {
    var x := XorBits(a, b);
    if a == 0 && b == 0 {
    } else if b == 0 {
      XorBitsZero(a);
      XorBitsZero(a);
    } else {
      var half := XorBits(a / 2, b / 2);
      XorBitsTwice(a / 2, b / 2);
      HalveTwice(half, (a + b) % 2, x);
      assert XorBits(x, b) == 2 * XorBits(half, b / 2) + (x + b) % 2;
      assert (x + b) % 2 == a % 2 by { ParityOfSum(a, b, x); }
    }
  }

  /** A value XOR itself is zero. */
  lemma {:induction false} XorBitsSelf(a: nat)
    ensures XorBits(a, a) == 0
    decreases a
  {
    if a > 0 {
      XorBitsSelf(a / 2);
    }
  }

  /** `a ^ b` on two bytes. */
  function Xor8(a: byte, b: byte): byte {
    XorBitsBelow(a, b, 8);
    XorBits(a, b)
  }

  /** `a ^ b` on two `uint`s. */
  function Xor32(a: uint, b: uint): uint {
    Pow2Word();
    XorBitsBelow(a, b, 32);
    XorBits(a, b)
  }

  /** The first four bytes of every image file, read and written as a
      little-endian 32-bit word. */
  const Magic: nat := 0x9A92_5A98

  datatype Option<T> = None | Some(value: T)

  /** Every way a conversion can stop: the exceptions of the codec, of the
      container readers and of the image conversion, and the `Trace.Assert`
      checks of the readers. */
  datatype Error =
    | PixelOutOfBounds        // a run longer than the pixels still to fill
    | InsufficientSourceData  // a literal run longer than the payload left
    | ShiftParamIncorrect     // a copy run pointing forward or before the start
    | EndOfStream             // a header field read past the end of the file
    | InvalidBufferSize       // width * height * depth is not a positive size
    | InvalidVersion          // an RCT version digit other than 0
    | AssertionFailed         // a header check of the reader failed
    | MissingKey              // encrypted data but no password configured
    | UnknownFormat(tag: byte) // a type byte other than '8' and 'T'
    | IndexOutOfRange         // an index past the end of an array
    | UnsupportedBpp          // a source image neither 24 nor 32 bits per pixel
    | StreamTooLong           // a memory stream asked for more than an int of capacity

  datatype Result<T> = Ok(value: T) | Err(error: Error)

  /** How an operation that changes state in place ended: normally, or with
      the exception it raised. */
  datatype Outcome = Done | Failed(error: Error)

  /** Bytes already written in front of whatever a later stage writes. */
  function Prepend(prefix: seq<byte>, r: Result<seq<byte>>): (q: Result<seq<byte>>)
    ensures q.Ok? <==> r.Ok?
    ensures r.Err? ==> q == r
    ensures r.Ok? ==> |q.value| == |prefix| + |r.value|
    ensures r.Ok? ==> q.value[..|prefix|] == prefix && q.value[|prefix|..] == r.value
  {
    match r
    case Ok(v) => Ok(prefix + v)
    case Err(e) => Err(e)
  }

  /** Writing `head` and then a later stage's bytes, behind `written`. */
  lemma PrependAfter(written: seq<byte>, head: seq<byte>, r: Result<seq<byte>>, whole: Result<seq<byte>>)
    requires whole == match r case Err(e) => Err(e) case Ok(rest) => Ok(head + rest)
    ensures Prepend(written, whole) == Prepend(written + head, r)
  {
    if r.Ok? {
      assert written + (head + r.value) == written + head + r.value;
    }
  }

  /** Bytes `w` stored at `pos` of an array, nothing else changed: the
      prefix up to `pos` is followed by `w`. */
  lemma StoredAfter(before: seq<byte>, after: seq<byte>, pos: nat, w: seq<byte>)
    requires pos + |w| <= |before| == |after|
    requires after[pos..pos + |w|] == w
    requires forall k :: 0 <= k < |after| && !(pos <= k < pos + |w|) ==> after[k] == before[k]
    ensures after[..pos + |w|] == before[..pos] + w
  {
    assert after[..pos + |w|] == after[..pos] + after[pos..pos + |w|];
  }

  function Zeros(n: nat): (z: seq<byte>)
    ensures |z| == n && forall k :: 0 <= k < n ==> z[k] == 0
  {
    seq(n, _ => 0)
  }

  /** The two bytes `BinaryWriter.Write((ushort)v)` emits. */
  function UInt16Bytes(v: nat): (s: seq<byte>)
    requires v < 0x1_0000
    ensures |s| == 2 && s[0] as int + 256 * s[1] as int == v
  {
    [v % 256, v / 256]
  }

  /** `(ushort)(lo | hi << 8)` for two bytes read from a stream. */
  function UInt16Of(lo: byte, hi: byte): (v: nat)
    ensures v < 0x1_0000
    ensures UInt16Bytes(v) == [lo, hi]
  {
    lo as int + 256 * hi as int
  }

  /** The four bytes of an unsigned 32-bit value, least significant first:
      `(byte)v`, `(byte)(v >> 8)`, `(byte)(v >> 16)`, `(byte)(v >> 24)`. */
  function UInt32Bytes(v: nat): (s: seq<byte>)
    requires IsUInt32(v)
    ensures |s| == 4
  {
    var q1 := v / 0x100;
    var q2 := q1 / 0x100;
    [v % 0x100, q1 % 0x100, q2 % 0x100, q2 / 0x100]
  }

  /** The four bytes `BinaryWriter.Write(int)` emits: two's complement, little-endian. */
  function Int32Bytes(v: int): (s: seq<byte>)
    requires IsInt32(v)
    ensures |s| == 4
  {
    UInt32Bytes(if v < 0 then v + 0x1_0000_0000 else v)
  }

  /** `BinaryReader.ReadUInt32` on four bytes. */
  function UInt32Of(s: seq<byte>): (v: nat)
    requires |s| == 4
    ensures IsUInt32(v)
  {
    s[0] as int + 0x100 * s[1] as int + 0x1_0000 * s[2] as int + 0x100_0000 * s[3] as int
  }

  /** `BinaryReader.ReadInt32` on four bytes. */
  function Int32Of(s: seq<byte>): (v: int)
    requires |s| == 4
    ensures IsInt32(v)
  {
    var u := UInt32Of(s);
    if u < 0x8000_0000 then u else u - 0x1_0000_0000
  }

  lemma UInt32RoundTrip(v: nat)
    requires IsUInt32(v)
    ensures UInt32Of(UInt32Bytes(v)) == v
  {
    var q1 := v / 0x100;
    var q2 := q1 / 0x100;
    assert v == v % 0x100 + 0x100 * q1;
    assert q1 == q1 % 0x100 + 0x100 * q2;
    assert q2 == q2 % 0x100 + 0x100 * (q2 / 0x100);
  }

  lemma Int32RoundTrip(v: int)
    requires IsInt32(v)
    ensures Int32Of(Int32Bytes(v)) == v
  {
    UInt32RoundTrip(if v < 0 then v + 0x1_0000_0000 else v);
  }
}
