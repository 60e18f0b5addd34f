/** The pixel decoder (`RCImage.Unpack`) as a function: the stream of
    literal and copy commands, and what each one appends to the pixels. */
module Decoder {
  import opened Common
  import opened BitLayout
  import Utils

  /** One decoded command, with its run length already in pixels. The table
      index of a copy command is -1 when the command byte lay past the end. */
  datatype Command = Literal(pixels: nat) | Copy(pixels: nat, shiftIdx: int)

  /** A command and the stream position just after it. */
  datatype Parsed = Parsed(cmd: Command, next: nat)

  /** `MemoryStream.ReadByte`: the byte at `pos`, or -1 once the stream is
      exhausted. Every position from the end on reads as the end. */
  function ReadByteAt(src: seq<byte>, pos: nat): (b: int)
    ensures -1 <= b < 256 && (b == -1 <==> pos >= |src|)
  {
    if pos < |src| then src[pos] else -1
  }

  /** `(ushort)(lo | hi << 8)` where either read may have returned -1: a -1 in
      the low byte sets every bit, a -1 in the high byte sets the high eight. */
  function Extension(lo: int, hi: int): (v: nat)
    requires -1 <= lo < 256 && -1 <= hi < 256
    ensures v < 0x1_0000
    ensures 0 <= lo && 0 <= hi ==> v == UInt16Of(lo, hi)
  {
    if lo == -1 then 0xFFFF
    else if hi == -1 then 0xFF00 + lo
    else UInt16Of(lo, hi)
  }

  /** Whether a command byte is followed by a 16-bit extension: the literal
      escape 0x7F, or a copy command whose count field is saturated (the -1
      of an exhausted stream has every bit set, so it is one). */
  predicate HasExtension(pr: Params, cmd: int)
    requires Valid(pr)
  {
    cmd == 0x7F || cmd == -1 || (cmd >= 0x80 && cmd % (CountMask(|pr.table|) + 1) == CountMask(|pr.table|))
  }

  /** Reads the command byte at `rp` and its extension if it has one. A byte
      below 0x80 starts a literal run of `cmd + 1` pixels, where 0x7F is the
      escape that adds the extension. Anything else, including the -1 of an
      exhausted stream, starts a copy run: its low bits (`cmd & countMask`)
      count pixels above `countBase`, a saturated count adds the extension,
      and `(cmd >> shiftStart) % tableSize` selects the shift-table entry. */
  function ReadCommand(pr: Params, src: seq<byte>, rp: nat): (r: Parsed)
    requires Valid(pr)
    ensures r.next == rp + (if HasExtension(pr, ReadByteAt(src, rp)) then 3 else 1)
    ensures r.cmd.pixels >= 1 && (r.cmd.Literal? <==> 0 <= ReadByteAt(src, rp) < 0x80)
    ensures r.cmd.Copy? ==> r.cmd.shiftIdx < |pr.table| && (r.cmd.shiftIdx < 0 <==> rp >= |src|)
  {
    var cmd := ReadByteAt(src, rp);
    if 0 <= cmd < 0x80 then
      if cmd == 0x7F then
        Parsed(Literal(cmd + Extension(ReadByteAt(src, rp + 1), ReadByteAt(src, rp + 2)) + 1), rp + 3)
      else Parsed(Literal(cmd + 1), rp + 1)
    else
      var mask := CountMask(|pr.table|);
      var count := if cmd == -1 then mask else cmd % (mask + 1);
      var idx := if cmd == -1 then -1 else (cmd / Pow2(ShiftStart(|pr.table|))) % |pr.table|;
      if count == mask then
        Parsed(Copy(count + Extension(ReadByteAt(src, rp + 1), ReadByteAt(src, rp + 2)) + CountBase(pr.depth), idx), rp + 3)
      else Parsed(Copy(count + CountBase(pr.depth), idx), rp + 1)
  }

  /** Where the decoder stands between two commands. */
  datatype State = State(rp: nat, out: seq<byte>)

  /** Carries out the one command at `rp`, with `out` the pixel bytes produced
      so far and `n` the size of the pixel buffer. The command appends
      `pixels * depth` bytes: a literal run copies them from the payload, a
      copy run repeats the bytes that start `delta` bytes back. A run longer
      than the space left, a literal run longer than the payload left, a copy
      command read past the end (a negative table index), and a copy offset
      that does not point into the bytes already written are errors, checked
      in that order. */
  function Step(pr: Params, src: seq<byte>, rp: nat, out: seq<byte>, n: nat): (r: Result<State>)
    requires Valid(pr) && |out| < n
    ensures r.Ok? ==> |out| < |r.value.out| <= n && r.value.out[..|out|] == out
  {
    var Parsed(cmd, next) := ReadCommand(pr, src, rp);
    var count := cmd.pixels * pr.depth;
    if count > n - |out| then Err(PixelOutOfBounds)
    else
      RunIsLongerThanZero(cmd.pixels, pr.depth);
      match cmd
      case Literal(_) =>
        if next + count > |src| then Err(InsufficientSourceData)
        else Ok(State(next + count, Grown(out, src[next..next + count])))
      case Copy(_, idx) =>
        if idx < 0 then Err(IndexOutOfRange)
        else
          var delta := Delta(pr, idx) * pr.depth;
          if delta >= 0 || |out| + delta < 0 then Err(ShiftParamIncorrect)
          else Ok(State(next, Grown(out, Utils.Periodic(out, |out| + delta, -delta, count))))
  }

  /** The pixels produced so far followed by the bytes of one more run. */
  function Grown(out: seq<byte>, run: seq<byte>): (r: seq<byte>)
    ensures |r| == |out| + |run| && r[..|out|] == out
  {
    out + run
  }

  lemma RunIsLongerThanZero(pixels: nat, depth: nat)
    requires pixels >= 1 && depth >= 1
    ensures pixels * depth >= 1
  {
    Utils.MulAtLeast(depth, pixels);
  }

  /** The decode loop: commands run until the buffer of `n` bytes is full. */
  function DecodeFrom(pr: Params, src: seq<byte>, rp: nat, out: seq<byte>, n: nat): Result<seq<byte>>
    requires Valid(pr) && |out| <= n
    decreases n - |out|
  {
    if |out| == n then Ok(out)
    else
      match Step(pr, src, rp, out, n)
      case Err(e) => Err(e)
      case Ok(st) => DecodeFrom(pr, src, st.rp, st.out, n)
  }

  /** One turn of the decode loop when the buffer is not yet full. */
  lemma DecodeFromUnfold(pr: Params, src: seq<byte>, rp: nat, out: seq<byte>, n: nat)
    requires Valid(pr) && |out| < n
    ensures DecodeFrom(pr, src, rp, out, n) ==
      match Step(pr, src, rp, out, n)
      case Err(e) => Err(e)
      case Ok(st) => DecodeFrom(pr, src, st.rp, st.out, n)
  {
  }

  function SeedLength(pr: Params, src: seq<byte>): nat {
    if |src| < pr.depth then |src| else pr.depth
  }

  lemma PositiveSizeHoldsSeed(w: int, h: int, d: nat)
    requires d >= 1 && w * h * d > 0
    ensures w * h * d >= d
  {
    var a := w * h;
    PositiveFactor(a, d);
    Utils.MulAtLeast(a, d);
  }

  lemma PositiveFactor(a: int, d: nat)
    requires d >= 1 && a * d > 0
    ensures a >= 1
  {
  }

  /** `Unpack` on a non-empty payload: a buffer of `width * height * depth`
      bytes whose first pixel is read verbatim (a payload shorter than one
      pixel leaves the rest of it zero), then the command loop. */
  function Decode(pr: Params, height: int, src: seq<byte>): Result<seq<byte>>
    requires Valid(pr)
  {
    var n := pr.width * height * pr.depth;
    if n <= 0 then Err(InvalidBufferSize)
    else
      PositiveSizeHoldsSeed(pr.width, height, pr.depth);
      var seed := SeedLength(pr, src);
      DecodeFrom(pr, src, seed, src[..seed] + Zeros(pr.depth - seed), n)
  }

  /** Commands only append: a successful decode fills the whole buffer and
      keeps every byte already produced. */
  lemma {:induction false} DecodeFromExtends(pr: Params, src: seq<byte>, rp: nat, out: seq<byte>, n: nat)
    requires Valid(pr) && |out| <= n
    requires DecodeFrom(pr, src, rp, out, n).Ok?
    ensures var r := DecodeFrom(pr, src, rp, out, n).value; |r| == n && r[..|out|] == out
    decreases n - |out|
  {
    if |out| < n {
      var st := Step(pr, src, rp, out, n).value;
      DecodeFromExtends(pr, src, st.rp, st.out, n);
      var r := DecodeFrom(pr, src, rp, out, n).value;
      assert r[..|st.out|][..|out|] == r[..|out|];
    }
  }

  /** A successful decode has exactly `width * height * depth` bytes, and
      its first pixel is the payload's first bytes. */
  lemma DecodeShape(pr: Params, height: int, src: seq<byte>)
    requires Valid(pr) && Decode(pr, height, src).Ok?
    ensures var r := Decode(pr, height, src).value;
      && |r| == pr.width * height * pr.depth
      && r[..SeedLength(pr, src)] == src[..SeedLength(pr, src)]
      && forall k :: SeedLength(pr, src) <= k < pr.depth ==> r[k] == 0
  {
    var n := pr.width * height * pr.depth;
    PositiveSizeHoldsSeed(pr.width, height, pr.depth);
    var seed := SeedLength(pr, src);
    var out := src[..seed] + Zeros(pr.depth - seed);
    DecodeFromExtends(pr, src, seed, out, n);
    var r := Decode(pr, height, src).value;
    assert r[..pr.depth] == out;
    assert r[..seed] == out[..seed];
  }

  /** A command reads the same after any bytes put in front of the payload. */
  lemma ReadCommandShift(pr: Params, a: seq<byte>, b: seq<byte>, rp: nat)
    requires Valid(pr)
    ensures ReadCommand(pr, a + b, |a| + rp) ==
            Parsed(ReadCommand(pr, b, rp).cmd, |a| + ReadCommand(pr, b, rp).next)
  {
    assert ReadByteAt(a + b, |a| + rp) == ReadByteAt(b, rp);
    assert ReadByteAt(a + b, |a| + rp + 1) == ReadByteAt(b, rp + 1);
    assert ReadByteAt(a + b, |a| + rp + 2) == ReadByteAt(b, rp + 2);
  }

  lemma StepShift(pr: Params, a: seq<byte>, b: seq<byte>, rp: nat, out: seq<byte>, n: nat)
    requires Valid(pr) && |out| < n
    ensures Step(pr, a + b, |a| + rp, out, n) ==
            match Step(pr, b, rp, out, n)
            case Ok(st) => Ok(State(|a| + st.rp, st.out))
            case Err(e) => Err(e)
  {
    ReadCommandShift(pr, a, b, rp);
    var Parsed(cmd, next) := ReadCommand(pr, b, rp);
    if cmd.Literal? && next + cmd.pixels * pr.depth <= |b| {
      var end := next + cmd.pixels * pr.depth;
      assert (a + b)[|a| + next..|a| + end] == b[next..end];
    }
  }

  /** Decoding depends only on the payload from the read position on: bytes
      in front of it change nothing. */
  lemma {:induction false} DecodeFromShift(pr: Params, a: seq<byte>, b: seq<byte>, rp: nat, out: seq<byte>, n: nat)
    requires Valid(pr) && |out| <= n
    ensures DecodeFrom(pr, a + b, |a| + rp, out, n) == DecodeFrom(pr, b, rp, out, n)
    decreases n - |out|
  {
    if |out| < n {
      match Step(pr, b, rp, out, n)
      case Err(_) => StepShift(pr, a, b, rp, out, n);
      case Ok(st) =>
        DecodeFromShift(pr, a, b, st.rp, st.out, n);
        ShiftOneStep(pr, a, b, rp, out, n, st);
    }
  }

  lemma ShiftOneStep(pr: Params, a: seq<byte>, b: seq<byte>, rp: nat, out: seq<byte>, n: nat, st: State)
    requires Valid(pr) && |out| < n && Step(pr, b, rp, out, n) == Ok(st)
    requires DecodeFrom(pr, a + b, |a| + st.rp, st.out, n) == DecodeFrom(pr, b, st.rp, st.out, n)
    ensures DecodeFrom(pr, a + b, |a| + rp, out, n) == DecodeFrom(pr, b, rp, out, n)
  {
    StepShift(pr, a, b, rp, out, n);
  }
}
