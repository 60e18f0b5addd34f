/** The pixel encoder (`RCImage.Pack`) as functions: the longest-match search
    over the shift table, the literal buffer and its flush, and the command
    bytes each run becomes.

    The search takes a flag `guard`. With `guard == false` it is the search
    as written, which tries every table entry whose source pixel index is not
    negative. With `guard == true` it also skips the entries that do not point
    strictly backward, which are the only ones the decoder accepts. For every
    table entry that points backward the two agree (`RoundTrip` proves it). */
module Encoder {
  import opened Common
  import opened BitLayout

  /** The largest literal run one flush writes, in pixels. */
  const MaxThunkSize: nat := 0xFFFF + 0x7F

  /** The longest copy run the search looks for, in pixels. */
  const MaxMatchSize: nat := 0xFFFF + 1

  /** The byte loop of `ComparePixel` from byte `t` of the two pixels on:
      it stops at the first difference, and indexing past the buffer is an
      error. */
  function SameFrom(p: seq<byte>, ia: nat, ib: nat, t: nat, depth: nat): Result<bool>
    decreases depth - t
  {
    if t >= depth then Ok(true)
    else if ia + t >= |p| || ib + t >= |p| then Err(IndexOutOfRange)
    else if p[ia + t] != p[ib + t] then Ok(false)
    else SameFrom(p, ia, ib, t + 1, depth)
  }

  /** `ComparePixel(p, a, b, depth)`: whether pixels `a` and `b` are equal. */
  function SamePixel(p: seq<byte>, depth: nat, a: nat, b: nat): Result<bool> {
    SameFrom(p, a * depth, b * depth, 0, depth)
  }

  /** Two pixels inside the buffer compare equal exactly when their bytes do. */
  lemma {:induction false} SameFromInBounds(p: seq<byte>, ia: nat, ib: nat, t: nat, depth: nat)
    requires t <= depth && ia + depth <= |p| && ib + depth <= |p|
    ensures SameFrom(p, ia, ib, t, depth) == Ok(p[ia + t..ia + depth] == p[ib + t..ib + depth])
    decreases depth - t
  {
    if t < depth {
      SameFromInBounds(p, ia, ib, t + 1, depth);
      assert p[ia + t..ia + depth] == [p[ia + t]] + p[ia + t + 1..ia + depth];
      assert p[ib + t..ib + depth] == [p[ib + t]] + p[ib + t + 1..ib + depth];
    }
  }

  /** The inner `while` of the search: how many pixels, from `cur` up to
      `limit`, equal the pixels the same distance on from `prev`. */
  function MatchRun(p: seq<byte>, depth: nat, prev: nat, cur: nat, limit: nat): (r: Result<nat>)
    requires cur <= limit
    ensures r.Ok? ==> r.value <= limit - cur
    decreases limit - cur
  {
    if cur == limit then Ok(0)
    else
      match SamePixel(p, depth, prev, cur)
      case Err(e) => Err(e)
      case Ok(same) =>
        if !same then Ok(0)
        else
          match MatchRun(p, depth, prev + 1, cur + 1, limit)
          case Err(e) => Err(e)
          case Ok(w) => Ok(w + 1)
  }

  /** The pixel-index offset each table entry stands for in a row of
      `width` pixels (`InitShiftTable`): entry `i` is `Delta(pr, i)`. */
  function ShiftTable(pr: Params): (t: seq<int>)
    ensures |t| == |pr.table| && forall i :: 0 <= i < |t| ==> t[i] == Delta(pr, i)
  {
    seq(|pr.table|, i requires 0 <= i < |pr.table| => Delta(pr, i))
  }

  /** Whether the search skips table entry `i` at pixel `cur`: its source lies
      before the first pixel or, with the guard, not strictly before `cur`. */
  predicate Skipped(pr: Params, guard: bool, cur: nat, i: nat)
    requires i < |pr.table|
  {
    cur + Delta(pr, i) < 0 || (guard && cur + Delta(pr, i) >= cur)
  }

  /** The weight table entry `i` gets at pixel `cur`: zero when skipped, the
      length of its match otherwise. A zero weight never wins. */
  function Candidate(pr: Params, p: seq<byte>, guard: bool, cur: nat, limit: nat, i: nat): (r: Result<nat>)
    requires i < |pr.table| && cur <= limit
    ensures r.Ok? ==> r.value <= limit - cur
  {
    if Skipped(pr, guard, cur, i) then Ok(0)
    else MatchRun(p, pr.depth, cur + Delta(pr, i), cur, limit)
  }

  /** The `ChunkPosition` the search keeps: best table entry and its weight. */
  datatype Match = Match(shiftIdx: nat, len: nat)

  /** The `for` loop over the shift table from entry `i` on, with `best` the
      longest match so far: an entry replaces it only when strictly longer,
      so the first of several longest entries wins. */
  function Search(pr: Params, p: seq<byte>, guard: bool, cur: nat, limit: nat, i: nat, best: Match): (r: Result<Match>)
    requires Valid(pr) && cur <= limit && i <= |pr.table|
    requires best.shiftIdx < |pr.table| && best.len <= limit - cur
    ensures r.Ok? ==> r.value.shiftIdx < |pr.table| && best.len <= r.value.len <= limit - cur
    decreases |pr.table| - i
  {
    if i == |pr.table| then Ok(best)
    else
      match Candidate(pr, p, guard, cur, limit, i)
      case Err(e) => Err(e)
      case Ok(w) => Search(pr, p, guard, cur, limit, i + 1, if w > best.len then Match(i, w) else best)
  }

  /** No table entry from `i` on matches longer than the search result. */
  lemma {:induction false} SearchIsLongest(pr: Params, p: seq<byte>, guard: bool, cur: nat, limit: nat,
                                             i: nat, best: Match)
    requires Valid(pr) && cur <= limit && i <= |pr.table|
    requires best.shiftIdx < |pr.table| && best.len <= limit - cur
    requires Search(pr, p, guard, cur, limit, i, best).Ok?
    ensures forall j :: i <= j < |pr.table| ==>
      Candidate(pr, p, guard, cur, limit, j).Ok? &&
      Candidate(pr, p, guard, cur, limit, j).value <= Search(pr, p, guard, cur, limit, i, best).value.len
    decreases |pr.table| - i
  {
    if i < |pr.table| {
      var w := Candidate(pr, p, guard, cur, limit, i).value;
      var best' := if w > best.len then Match(i, w) else best;
      assert Search(pr, p, guard, cur, limit, i, best) == Search(pr, p, guard, cur, limit, i + 1, best');
      SearchIsLongest(pr, p, guard, cur, limit, i + 1, best');
    }
  }

  /** Unless `best` survives, the search result is the first entry from `i`
      on whose weight reaches its length, and that length beats `best`. */
  lemma {:induction false} SearchIsFirst(pr: Params, p: seq<byte>, guard: bool, cur: nat, limit: nat,
                                           i: nat, best: Match)
    requires Valid(pr) && cur <= limit && i <= |pr.table|
    requires best.shiftIdx < |pr.table| && best.len <= limit - cur
    requires Search(pr, p, guard, cur, limit, i, best).Ok?
    ensures var m := Search(pr, p, guard, cur, limit, i, best).value;
      m == best || (i <= m.shiftIdx && best.len < m.len && Candidate(pr, p, guard, cur, limit, m.shiftIdx) == Ok(m.len)
                    && forall j :: i <= j < m.shiftIdx ==>
                         Candidate(pr, p, guard, cur, limit, j).Ok? && Candidate(pr, p, guard, cur, limit, j).value < m.len)
    decreases |pr.table| - i
  {
    if i < |pr.table| {
      var w := Candidate(pr, p, guard, cur, limit, i).value;
      var best' := if w > best.len then Match(i, w) else best;
      assert Search(pr, p, guard, cur, limit, i, best) == Search(pr, p, guard, cur, limit, i + 1, best');
      SearchIsFirst(pr, p, guard, cur, limit, i + 1, best');
    }
  }

  /** The bytes `Flush` writes for a literal run of `k` pixels: `k - 1` in one
      byte while it fits below the escape, else the escape 0x7F and `k - 0x80`
      as a little-endian 16-bit extension. */
  function LiteralHeader(k: nat): (h: seq<byte>)
    requires 1 <= k <= MaxThunkSize
    ensures |h| == (if k > 0x7F then 3 else 1)
    ensures k > 0x7F ==> h[0] == 0x7F && h[1] as int + 256 * h[2] as int + 0x80 == k
    ensures k <= 0x7F ==> h[0] as int + 1 == k && h[0] < 0x7F
  {
    if k > 0x7F then [0x7F] + UInt16Bytes(k - 0x80) else [k - 1]
  }

  /** `Flush`: the pending literal pixels `buf` (`k` pixels), behind their
      header; nothing when no pixel is pending. */
  function FlushBytes(buf: seq<byte>, k: nat): (r: seq<byte>)
    requires k <= MaxThunkSize && (|buf| == 0 <==> k == 0)
    ensures |buf| == 0 ==> r == []
    ensures |buf| > 0 ==> r == LiteralHeader(k) + buf
  {
    if |buf| > 0 then LiteralHeader(k) + buf else []
  }

  lemma HeadFits(pr: Params, idx: nat)
    requires Valid(pr) && idx < |pr.table|
    ensures idx * Pow2(ShiftStart(|pr.table|)) + CountMask(|pr.table|) < 0x80
  {
    if |pr.table| == 32 {
      assert Pow2(2) == 4;
    } else {
      assert Pow2(3) == 8;
    }
  }

  /** The command byte of a copy run and, for a run that does not fit the
      count field, its extension: `0x80 | idx << shiftStart` carries the
      table entry, and the count field holds `len - countBase`, or the
      saturated mask with `len - countThreshold` following. The three fields
      of the byte do not overlap, so the source's `|` is a sum here. */
  function CopyCommand(pr: Params, m: Match): (c: seq<byte>)
    requires Valid(pr) && m.shiftIdx < |pr.table|
    requires CountBase(pr.depth) <= m.len <= MaxMatchSize
    ensures var threshold := CountBase(pr.depth) + CountMask(|pr.table|);
      && |c| == (if m.len >= threshold then 3 else 1)
      && c[0] >= 0x80
      && (m.len >= threshold ==> c[1] as int + 256 * c[2] as int + threshold == m.len)
  {
    var mask := CountMask(|pr.table|);
    var threshold := CountBase(pr.depth) + mask;
    var head := CommandHead(pr, m.shiftIdx);
    if m.len >= threshold then [head + mask] + UInt16Bytes(m.len - threshold)
    else [head + m.len - CountBase(pr.depth)]
  }

  /** `0x80 | idx << shiftStart`: the command byte with an empty count field. */
  function CommandHead(pr: Params, idx: nat): (h: nat)
    requires Valid(pr) && idx < |pr.table|
    ensures 0x80 <= h && h + CountMask(|pr.table|) < 0x100
  {
    HeadFits(pr, idx);
    0x80 + idx * Pow2(ShiftStart(|pr.table|))
  }

  lemma PixelInside(cur: nat, last: nat, depth: nat, size: nat)
    requires cur < last && last * depth <= size
    ensures cur * depth + depth <= size
  {
    assert last * depth == (last - cur - 1) * depth + cur * depth + depth;
  }

  /** `maxMatchIdx`: the search looks at most `MaxMatchSize` pixels ahead
      and never past the last pixel. */
  function SearchLimit(cur: nat, last: nat): (limit: nat)
    requires cur < last
    ensures cur < limit <= last && limit - cur <= MaxMatchSize
    ensures limit == last || limit == cur + MaxMatchSize
  {
    if cur + MaxMatchSize < last then cur + MaxMatchSize else last
  }

  /** The `while (current != last)` loop of `Pack` from pixel `cur`, with
      `buf` the `k` pending literal pixels: the bytes it writes from here on.
      At each pixel the search runs over the next `MaxMatchSize` pixels at
      most; a match longer than `ignoreThreshold` flushes the literal buffer
      and becomes a copy run, anything else adds the pixel to the literal
      buffer, which is flushed first when it already holds `MaxThunkSize`
      pixels. The last flush follows the loop. */
  function EncodeFrom(pr: Params, p: seq<byte>, guard: bool, cur: nat, last: nat,
                      buf: seq<byte>, k: nat): Result<seq<byte>>
    requires Valid(pr) && cur <= last && last * pr.depth <= |p|
    requires k <= MaxThunkSize && |buf| == k * pr.depth
    decreases last - cur
  {
    if cur == last then Ok(FlushBytes(buf, k))
    else
      match Search(pr, p, guard, cur, SearchLimit(cur, last), 0, Match(0, 0))
      case Err(e) => Err(e)
      case Ok(m) =>
        if m.len > IgnoreThreshold(pr.depth) then
          match EncodeFrom(pr, p, guard, cur + m.len, last, [], 0)
          case Err(e) => Err(e)
          case Ok(rest) => Ok(FlushBytes(buf, k) + CopyCommand(pr, m) + rest)
        else
          PixelInside(cur, last, pr.depth, |p|);
          var pixel := p[cur * pr.depth..cur * pr.depth + pr.depth];
          if k == MaxThunkSize then
            match EncodeFrom(pr, p, guard, cur + 1, last, pixel, 1)
            case Err(e) => Err(e)
            case Ok(rest) => Ok(FlushBytes(buf, k) + rest)
          else
            EncodeFrom(pr, p, guard, cur + 1, last, buf + pixel, k + 1)
  }

  /** One iteration of the loop at a pixel where the search finds a match
      longer than `ignoreThreshold`: a flush, the copy command, the rest. */
  lemma EncodeFromCopyThen(pr: Params, p: seq<byte>, guard: bool, cur: nat, last: nat,
                           buf: seq<byte>, k: nat, m: Match)
    requires Valid(pr) && cur < last && last * pr.depth <= |p|
    requires k <= MaxThunkSize && |buf| == k * pr.depth
    requires Search(pr, p, guard, cur, SearchLimit(cur, last), 0, Match(0, 0)) == Ok(m)
    requires m.len > IgnoreThreshold(pr.depth)
    ensures EncodeFrom(pr, p, guard, cur, last, buf, k) ==
      match EncodeFrom(pr, p, guard, cur + m.len, last, [], 0)
      case Err(e) => Err(e)
      case Ok(rest) => Ok(FlushBytes(buf, k) + CopyCommand(pr, m) + rest)
  {
  }

  /** One iteration at a pixel stored as a literal: with a full buffer, a
      flush and then the pixel as the start of the next buffer; otherwise
      the pixel joins the buffer. */
  lemma EncodeFromLiteral(pr: Params, p: seq<byte>, guard: bool, cur: nat, last: nat,
                          buf: seq<byte>, k: nat, m: Match)
    requires Valid(pr) && cur < last && last * pr.depth <= |p|
    requires k <= MaxThunkSize && |buf| == k * pr.depth
    requires Search(pr, p, guard, cur, SearchLimit(cur, last), 0, Match(0, 0)) == Ok(m)
    requires m.len <= IgnoreThreshold(pr.depth)
    requires cur * pr.depth + pr.depth == (cur + 1) * pr.depth <= |p|
    ensures var pixel := p[cur * pr.depth..(cur + 1) * pr.depth];
      k == MaxThunkSize && EncodeFrom(pr, p, guard, cur + 1, last, pixel, 1).Ok? ==>
      EncodeFrom(pr, p, guard, cur, last, buf, k) ==
      Ok(FlushBytes(buf, k) + EncodeFrom(pr, p, guard, cur + 1, last, pixel, 1).value)
    ensures var pixel := p[cur * pr.depth..(cur + 1) * pr.depth];
      k < MaxThunkSize ==>
      EncodeFrom(pr, p, guard, cur, last, buf, k) == EncodeFrom(pr, p, guard, cur + 1, last, buf + pixel, k + 1)
  {
  }

  /** The loop steps above with the bytes written so far in front: what
      `Pack` keeps track of while it writes. */
  lemma EncodeFromSearchFails(pr: Params, p: seq<byte>, guard: bool, cur: nat, last: nat,
                              buf: seq<byte>, k: nat)
    requires Valid(pr) && cur < last && last * pr.depth <= |p|
    requires k <= MaxThunkSize && |buf| == k * pr.depth
    requires Search(pr, p, guard, cur, SearchLimit(cur, last), 0, Match(0, 0)).Err?
    ensures EncodeFrom(pr, p, guard, cur, last, buf, k) ==
            Err(Search(pr, p, guard, cur, SearchLimit(cur, last), 0, Match(0, 0)).error)
  {
  }

  lemma EncodeFromCopyPrepend(pr: Params, p: seq<byte>, guard: bool, cur: nat, last: nat,
                              buf: seq<byte>, k: nat, m: Match, written: seq<byte>)
    requires Valid(pr) && cur < last && last * pr.depth <= |p|
    requires k <= MaxThunkSize && |buf| == k * pr.depth
    requires Search(pr, p, guard, cur, SearchLimit(cur, last), 0, Match(0, 0)) == Ok(m)
    requires m.len > IgnoreThreshold(pr.depth)
    ensures cur + m.len <= last
    ensures Prepend(written, EncodeFrom(pr, p, guard, cur, last, buf, k)) ==
            Prepend(written + FlushBytes(buf, k) + CopyCommand(pr, m), EncodeFrom(pr, p, guard, cur + m.len, last, [], 0))
  {
    EncodeFromCopyThen(pr, p, guard, cur, last, buf, k, m);
    assert written + (FlushBytes(buf, k) + CopyCommand(pr, m)) == written + FlushBytes(buf, k) + CopyCommand(pr, m);
    PrependAfter(written, FlushBytes(buf, k) + CopyCommand(pr, m),
                 EncodeFrom(pr, p, guard, cur + m.len, last, [], 0), EncodeFrom(pr, p, guard, cur, last, buf, k));
  }

  lemma EncodeFromLiteralPrepend(pr: Params, p: seq<byte>, guard: bool, cur: nat, last: nat,
                                 buf: seq<byte>, k: nat, m: Match, written: seq<byte>)
    requires Valid(pr) && cur < last && last * pr.depth <= |p|
    requires k <= MaxThunkSize && |buf| == k * pr.depth
    requires Search(pr, p, guard, cur, SearchLimit(cur, last), 0, Match(0, 0)) == Ok(m)
    requires m.len <= IgnoreThreshold(pr.depth)
    requires cur * pr.depth + pr.depth == (cur + 1) * pr.depth <= |p|
    ensures var pixel := p[cur * pr.depth..(cur + 1) * pr.depth];
      k == MaxThunkSize ==>
      Prepend(written, EncodeFrom(pr, p, guard, cur, last, buf, k)) ==
      Prepend(written + FlushBytes(buf, k), EncodeFrom(pr, p, guard, cur + 1, last, pixel, 1))
    ensures var pixel := p[cur * pr.depth..(cur + 1) * pr.depth];
      k < MaxThunkSize ==>
      Prepend(written, EncodeFrom(pr, p, guard, cur, last, buf, k)) ==
      Prepend(written, EncodeFrom(pr, p, guard, cur + 1, last, buf + pixel, k + 1))
  {
    var pixel := p[cur * pr.depth..(cur + 1) * pr.depth];
    if k == MaxThunkSize {
      EncodeFromFullBuffer(pr, p, guard, cur, last, buf, k, m);
      PrependAfter(written, FlushBytes(buf, k),
                   EncodeFrom(pr, p, guard, cur + 1, last, pixel, 1), EncodeFrom(pr, p, guard, cur, last, buf, k));
    } else {
      EncodeFromLiteral(pr, p, guard, cur, last, buf, k, m);
    }
  }

  lemma EncodeFromFullBuffer(pr: Params, p: seq<byte>, guard: bool, cur: nat, last: nat,
                             buf: seq<byte>, k: nat, m: Match)
    requires Valid(pr) && cur < last && last * pr.depth <= |p|
    requires k == MaxThunkSize && |buf| == k * pr.depth
    requires Search(pr, p, guard, cur, SearchLimit(cur, last), 0, Match(0, 0)) == Ok(m)
    requires m.len <= IgnoreThreshold(pr.depth)
    requires cur * pr.depth + pr.depth == (cur + 1) * pr.depth <= |p|
    ensures EncodeFrom(pr, p, guard, cur, last, buf, k) ==
      match EncodeFrom(pr, p, guard, cur + 1, last, p[cur * pr.depth..(cur + 1) * pr.depth], 1)
      case Err(e) => Err(e)
      case Ok(rest) => Ok(FlushBytes(buf, k) + rest)
  {
  }

  lemma PixelCount(size: nat, depth: nat)
    requires depth >= 1
    ensures (size / depth) * depth <= size
  {
  }

  /** `Pack` on the pixel buffer `p` of an image `height` rows high. An empty
      buffer encodes to nothing. A negative `width * height * depth` cannot be
      the capacity of the output stream, and a buffer shorter than one pixel
      cannot supply the first pixel, which is written verbatim before the
      loop starts at pixel 1. Bytes past the last whole pixel are ignored. */
  function Encode(pr: Params, height: int, p: seq<byte>, guard: bool): Result<seq<byte>>
    requires Valid(pr)
  {
    if |p| == 0 then Ok([])
    else if pr.width * height * pr.depth < 0 then Err(InvalidBufferSize)
    else if |p| < pr.depth then Err(IndexOutOfRange)
    else
      PixelCount(|p|, pr.depth);
      match EncodeFrom(pr, p, guard, 1, |p| / pr.depth, [], 0)
      case Err(e) => Err(e)
      case Ok(rest) => Ok(p[..pr.depth] + rest)
  }

  /** Each pixel still to encode adds at most nine bytes (a command of up
      to three bytes and a pixel of up to three, or a flushed literal
      header), and the pending buffer comes out behind a header of at most
      three bytes. */
  lemma {:induction false} EncodeFromLength(pr: Params, p: seq<byte>, guard: bool, cur: nat, last: nat,
                                            buf: seq<byte>, k: nat)
    requires Valid(pr) && cur <= last && last * pr.depth <= |p|
    requires k <= MaxThunkSize && |buf| == k * pr.depth
    ensures EncodeFrom(pr, p, guard, cur, last, buf, k).Ok? ==>
      |EncodeFrom(pr, p, guard, cur, last, buf, k).value| <= 9 * (last - cur) + |buf| + 3
    decreases last - cur, 1
  {
    if cur < last {
      var r := Search(pr, p, guard, cur, SearchLimit(cur, last), 0, Match(0, 0));
      if r.Err? {
        EncodeFromSearchFails(pr, p, guard, cur, last, buf, k);
      } else if r.value.len > IgnoreThreshold(pr.depth) {
        CopyLength(pr, p, guard, cur, last, buf, k, r.value);
      } else if k == MaxThunkSize {
        FullLength(pr, p, guard, cur, last, buf, k, r.value);
      } else {
        JoinLength(pr, p, guard, cur, last, buf, k, r.value);
      }
    }
  }

  lemma {:induction false} CopyLength(pr: Params, p: seq<byte>, guard: bool, cur: nat, last: nat,
                                      buf: seq<byte>, k: nat, m: Match)
    requires Valid(pr) && cur < last && last * pr.depth <= |p|
    requires k <= MaxThunkSize && |buf| == k * pr.depth
    requires Search(pr, p, guard, cur, SearchLimit(cur, last), 0, Match(0, 0)) == Ok(m)
    requires m.len > IgnoreThreshold(pr.depth)
    ensures EncodeFrom(pr, p, guard, cur, last, buf, k).Ok? ==>
      |EncodeFrom(pr, p, guard, cur, last, buf, k).value| <= 9 * (last - cur) + |buf| + 3
    decreases last - cur, 0
  {
    var limit := SearchLimit(cur, last);
    assert m.len <= limit - cur;
    EncodeFromLength(pr, p, guard, cur + m.len, last, [], 0);
    CopyStepLength(pr, p, guard, cur, last, buf, k, m, 9 * (last - cur - m.len) + 3);
  }

  lemma CopyStepLength(pr: Params, p: seq<byte>, guard: bool, cur: nat, last: nat,
                        buf: seq<byte>, k: nat, m: Match, bound: int)
    requires Valid(pr) && cur < last && last * pr.depth <= |p|
    requires k <= MaxThunkSize && |buf| == k * pr.depth
    requires Search(pr, p, guard, cur, SearchLimit(cur, last), 0, Match(0, 0)) == Ok(m)
    requires m.len > IgnoreThreshold(pr.depth) && cur + m.len <= last
    requires EncodeFrom(pr, p, guard, cur + m.len, last, [], 0).Ok? ==>
      |EncodeFrom(pr, p, guard, cur + m.len, last, [], 0).value| <= bound
    ensures EncodeFrom(pr, p, guard, cur, last, buf, k).Ok? ==>
      |EncodeFrom(pr, p, guard, cur, last, buf, k).value| <= |buf| + 6 + bound
  {
    EncodeFromCopyThen(pr, p, guard, cur, last, buf, k, m);
  }

  lemma FullStepLength(pr: Params, p: seq<byte>, guard: bool, cur: nat, last: nat,
                        buf: seq<byte>, k: nat, m: Match, bound: int)
    requires Valid(pr) && cur < last && last * pr.depth <= |p|
    requires k == MaxThunkSize && |buf| == k * pr.depth
    requires Search(pr, p, guard, cur, SearchLimit(cur, last), 0, Match(0, 0)) == Ok(m)
    requires m.len <= IgnoreThreshold(pr.depth)
    requires cur * pr.depth + pr.depth == (cur + 1) * pr.depth <= |p|
    requires var pixel := p[cur * pr.depth..(cur + 1) * pr.depth];
      EncodeFrom(pr, p, guard, cur + 1, last, pixel, 1).Ok? ==>
      |EncodeFrom(pr, p, guard, cur + 1, last, pixel, 1).value| <= bound
    ensures EncodeFrom(pr, p, guard, cur, last, buf, k).Ok? ==>
      |EncodeFrom(pr, p, guard, cur, last, buf, k).value| <= |buf| + 3 + bound
  {
    EncodeFromFullBuffer(pr, p, guard, cur, last, buf, k, m);
  }

  lemma JoinStepLength(pr: Params, p: seq<byte>, guard: bool, cur: nat, last: nat,
                        buf: seq<byte>, k: nat, m: Match, bound: int)
    requires Valid(pr) && cur < last && last * pr.depth <= |p|
    requires k < MaxThunkSize && |buf| == k * pr.depth
    requires Search(pr, p, guard, cur, SearchLimit(cur, last), 0, Match(0, 0)) == Ok(m)
    requires m.len <= IgnoreThreshold(pr.depth)
    requires cur * pr.depth + pr.depth == (cur + 1) * pr.depth <= |p|
    requires var pixel := p[cur * pr.depth..(cur + 1) * pr.depth];
      EncodeFrom(pr, p, guard, cur + 1, last, buf + pixel, k + 1).Ok? ==>
      |EncodeFrom(pr, p, guard, cur + 1, last, buf + pixel, k + 1).value| <= bound
    ensures EncodeFrom(pr, p, guard, cur, last, buf, k).Ok? ==>
      |EncodeFrom(pr, p, guard, cur, last, buf, k).value| <= bound
  {
    EncodeFromLiteral(pr, p, guard, cur, last, buf, k, m);
  }

  lemma {:induction false} FullLength(pr: Params, p: seq<byte>, guard: bool, cur: nat, last: nat,
                                      buf: seq<byte>, k: nat, m: Match)
    requires Valid(pr) && cur < last && last * pr.depth <= |p|
    requires k == MaxThunkSize && |buf| == k * pr.depth
    requires Search(pr, p, guard, cur, SearchLimit(cur, last), 0, Match(0, 0)) == Ok(m)
    requires m.len <= IgnoreThreshold(pr.depth)
    ensures EncodeFrom(pr, p, guard, cur, last, buf, k).Ok? ==>
      |EncodeFrom(pr, p, guard, cur, last, buf, k).value| <= 9 * (last - cur) + |buf| + 3
    decreases last - cur, 0
  {
    PixelInside(cur, last, pr.depth, |p|);
    assert (cur + 1) * pr.depth == cur * pr.depth + pr.depth;
    var pixel := p[cur * pr.depth..(cur + 1) * pr.depth];
    EncodeFromLength(pr, p, guard, cur + 1, last, pixel, 1);
    FullStepLength(pr, p, guard, cur, last, buf, k, m, 9 * (last - cur - 1) + |pixel| + 3);
  }

  lemma {:induction false} JoinLength(pr: Params, p: seq<byte>, guard: bool, cur: nat, last: nat,
                                      buf: seq<byte>, k: nat, m: Match)
    requires Valid(pr) && cur < last && last * pr.depth <= |p|
    requires k < MaxThunkSize && |buf| == k * pr.depth
    requires Search(pr, p, guard, cur, SearchLimit(cur, last), 0, Match(0, 0)) == Ok(m)
    requires m.len <= IgnoreThreshold(pr.depth)
    ensures EncodeFrom(pr, p, guard, cur, last, buf, k).Ok? ==>
      |EncodeFrom(pr, p, guard, cur, last, buf, k).value| <= 9 * (last - cur) + |buf| + 3
    decreases last - cur, 0
  {
    PixelInside(cur, last, pr.depth, |p|);
    assert (cur + 1) * pr.depth == cur * pr.depth + pr.depth;
    var pixel := p[cur * pr.depth..(cur + 1) * pr.depth];
    assert |buf + pixel| == k * pr.depth + pr.depth == (k + 1) * pr.depth;
    EncodeFromLength(pr, p, guard, cur + 1, last, buf + pixel, k + 1);
    var bound := 9 * (last - cur) + |buf| + 3;
    WithinBound(EncodeFrom(pr, p, guard, cur + 1, last, buf + pixel, k + 1),
                9 * (last - cur - 1) + |buf + pixel| + 3, bound);
    JoinStepLength(pr, p, guard, cur, last, buf, k, m, bound);
  }

  lemma WithinBound(r: Result<seq<byte>>, tight: int, loose: int)
    requires r.Ok? ==> |r.value| <= tight
    requires tight <= loose
    ensures r.Ok? ==> |r.value| <= loose
  {
  }

  lemma LengthStep(whole: Result<seq<byte>>, head: seq<byte>, rest: Result<seq<byte>>, bound: int)
    requires whole == match rest case Err(e) => Err(e) case Ok(t) => Ok(head + t)
    requires rest.Ok? ==> |rest.value| <= bound
    ensures whole.Ok? ==> |whole.value| <= |head| + bound
  {
  }

  /** The encoded payload is at most nine bytes per pixel byte, plus three. */
  lemma EncodeLength(pr: Params, height: int, p: seq<byte>, guard: bool)
    requires Valid(pr)
    ensures Encode(pr, height, p, guard).Ok? ==> |Encode(pr, height, p, guard).value| <= 9 * |p| + 3
  {
    if |p| >= pr.depth && pr.width * height * pr.depth >= 0 {
      var last := |p| / pr.depth;
      PixelCount(|p|, pr.depth);
      EncodeFromLength(pr, p, guard, 1, last, [], 0);
      assert last <= |p|;
    }
  }
}
