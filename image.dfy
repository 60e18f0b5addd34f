/** The `RCImage` object shared by both image kinds: its dimensions, the
    pixel buffer, the compressed payload and the literal buffer of the
    encoder, with `Unpack` and `Pack` working on them in place. Each method
    is proved against the matching function of `Decoder` or `Encoder`. */
module Image {
  import opened Common
  import opened BitLayout
  import opened Decoder
  import opened Encoder
  import Utils
  import Streams

  class RCImage {
    var width: int
    var height: int
    var offsetX: int
    var offsetY: int
    /** Bits per pixel and the shift table, fixed by the image kind. */
    const bpp: nat
    const shiftTable: seq<int>
    var pixelData: array<byte>
    var rctRawData: array<byte>
    /** The pending literal pixels of `Pack` and how many pixels they are. */
    var buffer: seq<byte>
    var bufferSize: nat

    /** The fields of a freshly constructed image of the kind `table` and
        `bitsPerPixel` describe; both arrays start empty. */
    constructor (table: seq<int>, bitsPerPixel: nat)
      ensures shiftTable == table && bpp == bitsPerPixel
      ensures width == 0 && height == 0 && offsetX == 0 && offsetY == 0
      ensures fresh(pixelData) && pixelData.Length == 0
      ensures fresh(rctRawData) && rctRawData.Length == 0
      ensures buffer == [] && bufferSize == 0
    {
      shiftTable, bpp := table, bitsPerPixel;
      width, height, offsetX, offsetY := 0, 0, 0, 0;
      pixelData := new byte[0];
      rctRawData := new byte[0];
      buffer, bufferSize := [], 0;
    }

    /** The image kinds this code knows: a table of 16 or 32 signed bytes
        and 8 or 24 bits per pixel. */
    predicate Shaped() {
      Valid(Params(shiftTable, 0, bpp / 8))
    }

    /** The codec parameters the current fields give. */
    function Layout(): (pr: Params)
      reads this
      ensures pr.table == shiftTable && pr.width == width && pr.depth == bpp / 8
      ensures Shaped() ==> Valid(pr)
    {
      Params(shiftTable, width, bpp / 8)
    }

    /** Decodes `rctRawData` into a new pixel buffer of `width * height`
        pixels. An empty payload leaves the pixels as they are. */
    method Unpack() returns (o: Outcome)
      requires Shaped()
      modifies this`pixelData
      ensures old(rctRawData.Length) == 0 ==> o == Done && pixelData == old(pixelData)
      ensures old(rctRawData.Length) > 0 ==>
        match Decode(Layout(), height, rctRawData[..])
        case Ok(px) => o == Done && fresh(pixelData) && pixelData[..] == px
        case Err(e) => o == Failed(e)
    {
      if rctRawData.Length == 0 {
        return Done;
      }
      var pr := Layout();
      var depth := pr.depth;
      var n := width * height * depth;
      if n <= 0 {
        return Failed(InvalidBufferSize);
      }
      PositiveSizeHoldsSeed(width, height, depth);
      var raw := rctRawData;
      var data := new byte[n](_ => 0);
      pixelData := data;
      // the first pixel: as many of its bytes as the payload holds
      var seed := if raw.Length < depth then raw.Length else depth;
      forall k | 0 <= k < seed {
        data[k] := raw[k];
      }
      ghost var src := raw[..];
      ghost var first := src[..seed] + Zeros(depth - seed);
      assert data[..depth] == first;
      assert Decode(pr, height, src) == DecodeFrom(pr, src, seed, first, n);
      o := UnpackLoop(pr, raw, seed, data, depth, src, first);
    }

    /** The `while (pixelRemaining > 0)` loop of `Unpack`: commands from
        `rp` on fill `data` from `dstPos` to its end. */
    static method UnpackLoop(pr: Params, raw: array<byte>, rp: nat, data: array<byte>, dstPos: nat,
                             ghost src: seq<byte>, ghost out: seq<byte>)
      returns (o: Outcome)
      requires Valid(pr) && dstPos <= data.Length && raw != data
      requires raw[..] == src && data[..dstPos] == out
      modifies data
      ensures match DecodeFrom(pr, src, rp, out, data.Length)
        case Ok(px) => o == Done && data[..] == px
        case Err(e) => o == Failed(e)
    {
      ghost var n := data.Length;
      ghost var goal := DecodeFrom(pr, src, rp, out, n);
      ghost var done := out;
      var rp, dstPos, pixelRemaining := rp, dstPos, data.Length - dstPos;
      while pixelRemaining > 0
        invariant raw[..] == src && 0 <= dstPos <= n && pixelRemaining == n - dstPos
        invariant data[..dstPos] == done && |done| == dstPos
        invariant DecodeFrom(pr, src, rp, done, n) == goal
        decreases pixelRemaining
      {
        var r, grown := UnpackRun(pr, raw, rp, data, dstPos, src, done);
        match r
        case Err(e) =>
          return Failed(e);
        case Ok((next, count)) =>
          rp, done := next, grown;
          pixelRemaining := pixelRemaining - count;
          dstPos := dstPos + count;
      }
      assert data[..] == done;
      return Done;
    }

    /** What one pass of the loop means for the rest of the decode. */
    static lemma DecodeFromRun(pr: Params, src: seq<byte>, rp: nat, out: seq<byte>, n: nat,
                               r: Result<(nat, nat)>, after: seq<byte>)
      requires Valid(pr) && |out| < n && |after| == n
      requires match Step(pr, src, rp, out, n)
        case Ok(st) => r.Ok? && r.value.0 == st.rp && |out| + r.value.1 == |st.out| && after[..|st.out|] == st.out
        case Err(e) => r == Err(e)
      ensures r.Err? ==> DecodeFrom(pr, src, rp, out, n) == Err(r.error)
      ensures r.Ok? ==> |out| < |out| + r.value.1 <= n
      ensures r.Ok? ==>
        DecodeFrom(pr, src, rp, out, n) == DecodeFrom(pr, src, r.value.0, after[..|out| + r.value.1], n)
    {
      DecodeFromUnfold(pr, src, rp, out, n);
    }

    /** One pass of the `Unpack` loop: reads the command at `rp` and writes
        its run into `data` from `dst` on, returning the next read position
        and the number of bytes written. What is left of the decode is then
        the rest of the loop from there, or the pass's error. */
    static method UnpackRun(pr: Params, raw: array<byte>, rp: nat, data: array<byte>, dst: nat,
                            ghost src: seq<byte>, ghost out: seq<byte>)
      returns (r: Result<(nat, nat)>, ghost grown: seq<byte>)
      requires Valid(pr) && dst < data.Length && raw != data
      requires raw[..] == src && data[..dst] == out
      modifies data
      ensures r.Err? ==> DecodeFrom(pr, src, rp, out, data.Length) == Err(r.error)
      ensures r.Ok? ==> dst < dst + r.value.1 <= data.Length
      ensures r.Ok? ==> data[..dst + r.value.1] == grown && |grown| == dst + r.value.1
      ensures r.Ok? ==> DecodeFrom(pr, src, rp, out, data.Length) == DecodeFrom(pr, src, r.value.0, grown, data.Length)
    {
      r := RunCommand(pr, raw, rp, data, dst);
      DecodeFromRun(pr, src, rp, out, data.Length, r, data[..]);
      grown := if r.Ok? then data[..dst + r.value.1] else out;
    }

    /** The command at `rp` carried out as `Step` describes it. */
    static method RunCommand(pr: Params, raw: array<byte>, rp: nat, data: array<byte>, dst: nat)
      returns (r: Result<(nat, nat)>)
      requires Valid(pr) && dst < data.Length && raw != data
      modifies data
      ensures match Step(pr, raw[..], rp, old(data[..dst]), data.Length)
        case Ok(st) => r.Ok? && r.value.0 == st.rp && dst + r.value.1 == |st.out| && data[..|st.out|] == st.out
        case Err(e) => r == Err(e)
    {
      ghost var out := data[..dst];
      var c, next := ReadRunCommand(pr, raw, rp);
      var count := c.pixels * pr.depth;
      if count > data.Length - dst {
        assert Step(pr, raw[..], rp, out, data.Length) == Err(PixelOutOfBounds);
        return Err(PixelOutOfBounds);
      }
      RunIsLongerThanZero(c.pixels, pr.depth);
      match c
      case Literal(_) =>
        if next + count > raw.Length {
          assert Step(pr, raw[..], rp, out, data.Length) == Err(InsufficientSourceData);
          return Err(InsufficientSourceData);
        }
        ReadInto(raw, next, data, dst, count);
        assert Step(pr, raw[..], rp, out, data.Length) == Ok(State(next + count, data[..dst + count]));
        return Ok((next + count, count));
      case Copy(_, idx) =>
        if idx < 0 {
          assert Step(pr, raw[..], rp, out, data.Length) == Err(IndexOutOfRange);
          return Err(IndexOutOfRange);
        }
        var advance := ShiftDelta(pr.table[idx], pr.width) * pr.depth;
        if advance >= 0 || dst + advance < 0 {
          assert Step(pr, raw[..], rp, out, data.Length) == Err(ShiftParamIncorrect);
          return Err(ShiftParamIncorrect);
        }
        RepeatBack(data, dst, -advance, count, out);
        assert Step(pr, raw[..], rp, out, data.Length) == Ok(State(next, data[..dst + count]));
        return Ok((next, count));
    }

    /** A copy run: the `count` bytes at `dst` continue the `gap` bytes
        before it, repeated. */
    static method RepeatBack(data: array<byte>, dst: nat, gap: nat, count: nat, ghost out: seq<byte>)
      requires 0 < gap <= dst && dst + count <= data.Length && data[..dst] == out
      modifies data
      ensures data[..dst + count] == out + Utils.Periodic(out, dst - gap, gap, count)
    {
      ghost var before := data[..];
      Utils.CopyOverlapped(data, dst - gap, dst, count);
      Utils.PeriodicPrefix(before, dst, dst - gap, gap, count);
      assert data[..dst + count] == data[..dst] + data[dst..dst + count];
    }

    /** The command byte at `rp` and its extension, read as `Unpack` reads
        them: `cmd & 0x80` tells a literal from a copy, a literal counts
        `cmd + 1` pixels, and a copy counts `(cmd & countMask) + countBase`
        pixels from the table entry `(cmd >> shiftStart) % tableSize`. */
    static method ReadRunCommand(pr: Params, raw: array<byte>, rp: nat) returns (c: Command, next: nat)
      requires Valid(pr)
      ensures ReadCommand(pr, raw[..], rp) == Parsed(c, next)
    {
      var mask := CountMask(|pr.table|);
      var cmd := ReadByteAt(raw[..], rp);
      next := rp + 1;
      if 0 <= cmd < 0x80 {
        var run := cmd;
        if cmd == 0x7F {
          run := cmd + Extension(ReadByteAt(raw[..], rp + 1), ReadByteAt(raw[..], rp + 2));
          next := rp + 3;
        }
        c := Literal(run + 1);
      } else {
        // the -1 of an exhausted stream has every bit set
        var run := if cmd == -1 then mask else cmd % (mask + 1);
        if run == mask {
          run := run + Extension(ReadByteAt(raw[..], rp + 1), ReadByteAt(raw[..], rp + 2));
          next := rp + 3;
        }
        var idx := if cmd == -1 then -1 else (cmd / Pow2(ShiftStart(|pr.table|))) % |pr.table|;
        c := Copy(run + CountBase(pr.depth), idx);
      }
    }

    /** `reader.Read(data, dst, count)` with `count` payload bytes left. */
    static method ReadInto(raw: array<byte>, from: nat, data: array<byte>, dst: nat, count: nat)
      requires from + count <= raw.Length && dst + count <= data.Length && raw != data
      modifies data
      ensures data[..dst + count] == old(data[..dst]) + raw[from..from + count]
    {
      ghost var before := data[..dst];
      forall k | 0 <= k < count {
        data[dst + k] := raw[from + k];
      }
      assert data[..dst + count] == before + raw[from..from + count];
    }

    /** Width and height, stored as they are read, and the payload size:
        the fields `FromRCT` of either image kind reads after its tag. */
    method ReadDimensions(br: Streams.Reader) returns (size: Result<int>)
      modifies br`pos, this`width, this`height
      ensures |old(br.Remaining())| < 12 ==> size == Err(EndOfStream)
      ensures |old(br.Remaining())| >= 12 ==>
        var t := old(br.Remaining());
        && size == Ok(Int32Of(t[8..12]))
        && width == Int32Of(t[0..4]) && height == Int32Of(t[4..8])
        && br.Remaining() == t[12..]
    {
      ghost var t := br.Remaining();
      var w := br.ReadInt32();
      if w.Err? {
        return Err(w.error);
      }
      width := w.value;
      assert t[..4] == t[0..4] && br.Remaining() == t[4..];
      var h := br.ReadInt32();
      if h.Err? {
        return Err(h.error);
      }
      height := h.value;
      assert t[4..][..4] == t[4..8] && br.Remaining() == t[8..];
      size := br.ReadInt32();
      if size.Ok? {
        assert t[8..][..4] == t[8..12] && br.Remaining() == t[12..];
      }
    }

    /** `FromPixels`: adopts `pixels` (the array itself, not a copy) as the
        pixel buffer of an image of `w` by `h` pixels and packs it. */
    method FromPixels(pixels: array<byte>, w: int, h: int) returns (o: Outcome)
      requires Shaped()
      modifies this`width, this`height, this`pixelData, this`rctRawData, this`buffer, this`bufferSize
      ensures width == w && height == h && pixelData == pixels
      ensures pixels.Length == 0 ==> o == Done && rctRawData == old(rctRawData)
      ensures pixels.Length > 0 ==>
        match Encode(Layout(), h, pixels[..], true)
        case Ok(raw) => o == Done && fresh(rctRawData) && rctRawData[..] == raw
        case Err(e) => o == Failed(e)
    {
      width, height, pixelData := w, h, pixels;
      o := Pack();
    }

    /** Encodes `pixelData` into a new `rctRawData`, with the search that
        only tries table entries pointing strictly backward. An empty pixel
        buffer leaves the payload as it is. */
    method Pack() returns (o: Outcome)
      requires Shaped()
      modifies this`rctRawData, this`buffer, this`bufferSize
      ensures pixelData.Length == 0 ==> o == Done && rctRawData == old(rctRawData)
      ensures pixelData.Length > 0 ==>
        match Encode(Layout(), height, pixelData[..], true)
        case Ok(raw) => o == Done && fresh(rctRawData) && rctRawData[..] == raw && buffer == [] && bufferSize == 0
        case Err(e) => o == Failed(e)
    {
      if pixelData.Length == 0 {
        return Done;
      }
      var pr := Layout();
      var depth := pr.depth;
      ghost var P := pixelData[..];
      ghost var goal := Encode(pr, height, P, true);
      buffer, bufferSize := [], 0;
      if width * height * depth < 0 {
        return Failed(InvalidBufferSize);
      }
      var shifts := InitShiftTable();
      // the first pixel goes out verbatim
      if pixelData.Length < depth {
        return Failed(IndexOutOfRange);
      }
      var written := pixelData[..depth];
      var current, last := 1, pixelData.Length / depth;
      PixelCount(pixelData.Length, depth);
      ghost var buf, k := buffer, bufferSize;
      assert goal == Prepend(written, EncodeFrom(pr, P, true, current, last, buf, k));
      while current != last
        invariant 1 <= current <= last && last * depth <= |P| && pixelData[..] == P
        invariant shifts[..] == ShiftTable(pr)
        invariant buffer == buf && bufferSize == k && Pending(buf, k, depth)
        invariant Prepend(written, EncodeFrom(pr, P, true, current, last, buf, k)) == goal
        decreases last - current
      {
        var r;
        r, written, current, buf, k := PackStep(pr, shifts, current, last, written, P, buf, k);
        if r.Failed? {
          return r;
        }
      }
      var chunk := Flush();
      written := written + chunk;
      rctRawData := new byte[|written|](i requires 0 <= i < |written| => written[i]);
      assert rctRawData[..] == written;
      return Done;
    }

    /** The literal buffer holds `k` whole pixels, `buf`, no more than one
        flush can take. */
    static predicate Pending(buf: seq<byte>, k: nat, depth: nat) {
      k <= MaxThunkSize && |buf| == k * depth && (|buf| == 0 <==> k == 0)
    }

    /** One pass of the `while (current != last)` loop of `Pack`: the
        search at `current`, then a copy run or one more literal pixel.
        It returns the bytes written so far and the next pixel, which leave
        the rest of the encoding as it was. */
    method PackStep(pr: Params, shifts: array<int>, current: nat, last: nat, written: seq<byte>,
                    ghost P: seq<byte>, ghost buf: seq<byte>, ghost k: nat)
      returns (r: Outcome, w: seq<byte>, next: nat, ghost buf': seq<byte>, ghost k': nat)
      requires Valid(pr) && shifts[..] == ShiftTable(pr) && pixelData[..] == P
      requires current < last && last * pr.depth <= |P|
      requires buffer == buf && bufferSize == k && Pending(buf, k, pr.depth)
      modifies this`buffer, this`bufferSize
      ensures buffer == buf' && bufferSize == k' && Pending(buf', k', pr.depth)
      ensures r.Failed? ==> EncodeFrom(pr, P, true, current, last, buf, k) == Err(r.error)
      ensures r.Done? ==> current < next <= last
      ensures r.Done? ==> Prepend(written, EncodeFrom(pr, P, true, current, last, buf, k)) ==
                          Prepend(w, EncodeFrom(pr, P, true, next, last, buf', k'))
    {
      var pos := FindMatch(pr, shifts, current, last, P);
      match pos
      case Err(e) =>
        EncodeFromSearchFails(pr, P, true, current, last, buf, k);
        return Failed(e), written, current, buf, k;
      case Ok(m) =>
        r := Done;
        if m.len > IgnoreThreshold(pr.depth) {
          w, next, buf', k' := CopyRun(pr, current, last, written, m, P, buf, k);
        } else {
          w, next, buf', k' := LiteralRun(pr, current, last, written, m, P, buf, k);
        }
    }

    /** A match longer than `ignoreThreshold`: the pending literals are
        flushed and the copy command follows. */
    method CopyRun(pr: Params, current: nat, last: nat, written: seq<byte>, m: Match,
                   ghost P: seq<byte>, ghost buf: seq<byte>, ghost k: nat)
      returns (w: seq<byte>, next: nat, ghost buf': seq<byte>, ghost k': nat)
      requires Valid(pr) && current < last && last * pr.depth <= |P|
      requires Search(pr, P, true, current, SearchLimit(current, last), 0, Match(0, 0)) == Ok(m)
      requires m.len > IgnoreThreshold(pr.depth)
      requires buffer == buf && bufferSize == k && Pending(buf, k, pr.depth)
      modifies this`buffer, this`bufferSize
      ensures buffer == buf' && bufferSize == k' && Pending(buf', k', pr.depth)
      ensures buf' == [] && k' == 0 && next == current + m.len && current < next <= last
      ensures Prepend(written, EncodeFrom(pr, P, true, current, last, buf, k)) ==
              Prepend(w, EncodeFrom(pr, P, true, next, last, buf', k'))
    {
      var chunk := Flush();
      assert chunk == FlushBytes(buf, k);
      w := written + chunk + CopyCommand(pr, m);
      next, buf', k' := current + m.len, [], 0;
      EncodeFromCopyPrepend(pr, P, true, current, last, buf, k, m, written);
    }

    /** A match too short to pay off: pixel `current` joins the literal
        buffer, which is flushed first when it is full. */
    method LiteralRun(pr: Params, current: nat, last: nat, written: seq<byte>, m: Match,
                      ghost P: seq<byte>, ghost buf: seq<byte>, ghost k: nat)
      returns (w: seq<byte>, next: nat, ghost buf': seq<byte>, ghost k': nat)
      requires Valid(pr) && current < last && last * pr.depth <= |P| && pixelData[..] == P
      requires Search(pr, P, true, current, SearchLimit(current, last), 0, Match(0, 0)) == Ok(m)
      requires m.len <= IgnoreThreshold(pr.depth)
      requires buffer == buf && bufferSize == k && Pending(buf, k, pr.depth)
      modifies this`buffer, this`bufferSize
      ensures buffer == buf' && bufferSize == k' && Pending(buf', k', pr.depth)
      ensures next == current + 1 && current < next <= last
      ensures Prepend(written, EncodeFrom(pr, P, true, current, last, buf, k)) ==
              Prepend(w, EncodeFrom(pr, P, true, next, last, buf', k'))
    {
      next := current + 1;
      var depth := pr.depth;
      PixelInside(current, last, depth, |P|);
      OneMore(current, depth);
      if bufferSize == MaxThunkSize {
        w, buf', k' := RestartLiteral(pr, current, last, written, m, P, buf, k);
      } else {
        w := written;
        buf', k' := ExtendLiteral(pr, current, last, written, m, P, buf, k);
      }
    }

    /** `LiteralRun` with room in the buffer: pixel `current` joins it. */
    method ExtendLiteral(pr: Params, current: nat, last: nat, written: seq<byte>, m: Match,
                         ghost P: seq<byte>, ghost buf: seq<byte>, ghost k: nat)
      returns (ghost buf': seq<byte>, ghost k': nat)
      requires Valid(pr) && current < last && last * pr.depth <= |P| && pixelData[..] == P
      requires (current + 1) * pr.depth == current * pr.depth + pr.depth <= |P|
      requires Search(pr, P, true, current, SearchLimit(current, last), 0, Match(0, 0)) == Ok(m)
      requires m.len <= IgnoreThreshold(pr.depth)
      requires buffer == buf && bufferSize == k < MaxThunkSize && Pending(buf, k, pr.depth)
      modifies this`buffer, this`bufferSize
      ensures buffer == buf' && bufferSize == k' && Pending(buf', k', pr.depth)
      ensures Prepend(written, EncodeFrom(pr, P, true, current, last, buf, k)) ==
              Prepend(written, EncodeFrom(pr, P, true, current + 1, last, buf', k'))
    {
      EncodeFromLiteralPrepend(pr, P, true, current, last, buf, k, m, written);
      buf', k' := PushPixel(current, pr.depth, P, buf, k);
    }

    /** `LiteralRun` with a full buffer: the flush, then pixel `current`
        alone in the buffer. */
    method RestartLiteral(pr: Params, current: nat, last: nat, written: seq<byte>, m: Match,
                          ghost P: seq<byte>, ghost buf: seq<byte>, ghost k: nat)
      returns (w: seq<byte>, ghost buf': seq<byte>, ghost k': nat)
      requires Valid(pr) && current < last && last * pr.depth <= |P| && pixelData[..] == P
      requires (current + 1) * pr.depth == current * pr.depth + pr.depth <= |P|
      requires Search(pr, P, true, current, SearchLimit(current, last), 0, Match(0, 0)) == Ok(m)
      requires m.len <= IgnoreThreshold(pr.depth)
      requires buffer == buf && bufferSize == k == MaxThunkSize && Pending(buf, k, pr.depth)
      modifies this`buffer, this`bufferSize
      ensures buffer == buf' && bufferSize == k' && Pending(buf', k', pr.depth)
      ensures Prepend(written, EncodeFrom(pr, P, true, current, last, buf, k)) ==
              Prepend(w, EncodeFrom(pr, P, true, current + 1, last, buf', k'))
    {
      EncodeFromLiteralPrepend(pr, P, true, current, last, buf, k, m, written);
      var chunk := Flush();
      w := written + chunk;
      buf', k' := PushPixel(current, pr.depth, P, [], 0);
      assert buf' == P[current * pr.depth..(current + 1) * pr.depth];
    }

    /** Appends pixel `current` to the pending literals and counts it. */
    method PushPixel(current: nat, depth: nat, ghost P: seq<byte>, ghost buf: seq<byte>, ghost k: nat)
      returns (ghost buf': seq<byte>, ghost k': nat)
      requires depth > 0 && (current + 1) * depth == current * depth + depth <= |P| && pixelData[..] == P
      requires buffer == buf && bufferSize == k && Pending(buf, k, depth) && k < MaxThunkSize
      modifies this`buffer, this`bufferSize
      ensures buf' == buf + P[current * depth..(current + 1) * depth] && k' == k + 1
      ensures buffer == buf' && bufferSize == k' && Pending(buf', k', depth)
    {
      assert pixelData[current * depth..current * depth + depth] == P[current * depth..(current + 1) * depth];
      AddPixel(current, depth);
      bufferSize := bufferSize + 1;
      OneMore(k, depth);
      buf', k' := buffer, bufferSize;
    }

    static lemma OneMore(k: nat, d: nat)
      ensures (k + 1) * d == k * d + d
    {
    }

    /** `InitShiftTable`: the pixel-index offset of every table entry,
        `(shift >> 4) - (shift & 0x0f) * width`. */
    method InitShiftTable() returns (shifts: array<int>)
      requires Shaped()
      ensures fresh(shifts) && shifts[..] == ShiftTable(Layout())
    {
      shifts := new int[|shiftTable|];
      for i := 0 to |shiftTable|
        invariant forall j :: 0 <= j < i ==> shifts[j] == Delta(Layout(), j)
      {
        var shift := shiftTable[i];
        var shiftRow := shift % 16;
        shifts[i] := shift / 16 - shiftRow * width;
      }
    }

    /** The `for` loop over the shift table at pixel `current`: every entry
        whose source pixel lies before `current` (and not before the first
        pixel) is tried, and a strictly longer match replaces the best. */
    method FindMatch(pr: Params, shifts: array<int>, current: nat, last: nat, ghost P: seq<byte>)
      returns (r: Result<Match>)
      requires Valid(pr) && shifts[..] == ShiftTable(pr) && pixelData[..] == P
      requires current < last
      ensures r == Search(pr, P, true, current, SearchLimit(current, last), 0, Match(0, 0))
    {
      var maxMatchIdx := if current + MaxMatchSize < last then current + MaxMatchSize else last;
      var pos := Match(0, 0);
      for i := 0 to shifts.Length
        invariant pos.shiftIdx < |pr.table| && pos.len <= maxMatchIdx - current
        invariant Search(pr, P, true, current, maxMatchIdx, 0, Match(0, 0)) ==
                  Search(pr, P, true, current, maxMatchIdx, i, pos)
      {
        var prevIdx := current + shifts[i];
        if prevIdx < 0 || prevIdx >= current {
          continue;
        }
        var weight := MatchLength(prevIdx, current, maxMatchIdx, pr.depth, P);
        if weight.Err? {
          return Err(weight.error);
        }
        if weight.value > pos.len {
          pos := Match(i, weight.value);
        }
      }
      return Ok(pos);
    }

    /** The match at `prevIdx` for the pixels from `current` on: the first
        comparison, then the inner `while` up to `maxMatchIdx`; the weight
        is how far the source index moved. */
    method MatchLength(prevIdx: nat, current: nat, maxMatchIdx: nat, depth: nat, ghost P: seq<byte>)
      returns (r: Result<nat>)
      requires current < maxMatchIdx && pixelData[..] == P
      ensures r == MatchRun(P, depth, prevIdx, current, maxMatchIdx)
    {
      var same := ComparePixel(pixelData, prevIdx, current, depth, P);
      if same.Err? {
        return Err(same.error);
      }
      if !same.value {
        return Ok(0);
      }
      var searchForwardIdx, curPrevIdx := current + 1, prevIdx + 1;
      while searchForwardIdx != maxMatchIdx
        invariant current < searchForwardIdx <= maxMatchIdx
        invariant curPrevIdx - prevIdx == searchForwardIdx - current
        invariant MatchRun(P, depth, prevIdx, current, maxMatchIdx) ==
                  Plus(curPrevIdx - prevIdx, MatchRun(P, depth, curPrevIdx, searchForwardIdx, maxMatchIdx))
        decreases maxMatchIdx - searchForwardIdx
      {
        same := ComparePixel(pixelData, curPrevIdx, searchForwardIdx, depth, P);
        if same.Err? {
          return Err(same.error);
        }
        if !same.value {
          break;
        }
        searchForwardIdx, curPrevIdx := searchForwardIdx + 1, curPrevIdx + 1;
      }
      return Ok(curPrevIdx - prevIdx);
    }

    /** `ComparePixel`: the bytes of pixels `indexA` and `indexB` compared
        one by one; reading past the buffer is an error. */
    static method ComparePixel(pixels: array<byte>, indexA: nat, indexB: nat, depth: nat, ghost P: seq<byte>)
      returns (r: Result<bool>)
      requires pixels[..] == P
      ensures r == SamePixel(P, depth, indexA, indexB)
    {
      var a, b := indexA * depth, indexB * depth;
      for i := 0 to depth
        invariant SameFrom(P, a, b, 0, depth) == SameFrom(P, a, b, i, depth)
      {
        if a + i >= pixels.Length || b + i >= pixels.Length {
          return Err(IndexOutOfRange);
        }
        if pixels[a + i] != pixels[b + i] {
          return Ok(false);
        }
      }
      return Ok(true);
    }

    /** `Flush`: the bytes written for the pending literal pixels (none when
        there are none), after which the buffer is empty. */
    method Flush() returns (chunk: seq<byte>)
      requires bufferSize <= MaxThunkSize && (|buffer| == 0 <==> bufferSize == 0)
      modifies this`buffer, this`bufferSize
      ensures chunk == FlushBytes(old(buffer), old(bufferSize))
      ensures buffer == [] && bufferSize == 0
    {
      chunk := [];
      if |buffer| > 0 {
        if bufferSize > 0x7F {
          chunk := [0x7F] + UInt16Bytes(bufferSize - 0x80);
        } else {
          chunk := [bufferSize - 1];
        }
        chunk := chunk + buffer;
        buffer, bufferSize := [], 0;
      }
    }

    /** Appends the bytes of pixel `current` to the literal buffer. */
    method AddPixel(current: nat, depth: nat)
      requires current * depth + depth <= pixelData.Length
      modifies this`buffer
      ensures buffer == old(buffer) + pixelData[current * depth..current * depth + depth]
    {
      ghost var start := buffer;
      for i := 0 to depth
        invariant buffer == start + pixelData[current * depth..current * depth + i]
      {
        buffer := buffer + [pixelData[current * depth + i]];
      }
    }
  }

  /** A count of pixels already matched in front of a later stage's count. */
  function Plus(k: nat, r: Result<nat>): (q: Result<nat>)
    ensures q.Ok? <==> r.Ok?
    ensures r.Ok? ==> q.value == k + r.value
  {
    match r
    case Ok(v) => Ok(k + v)
    case Err(e) => Err(e)
  }
}
