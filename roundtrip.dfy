/** What ties the encoder to the decoder: every command the encoder writes
    reads back as the run it came from, a copy run reproduces the pixels the
    match search compared, and so decoding the encoder's output gives back
    the pixels. */
module RoundTrip {
  import opened Common
  import opened BitLayout
  import Utils
  import opened Decoder
  import opened Encoder

  lemma MulAdd(a: int, b: int, d: int)
    ensures (a + b) * d == a * d + b * d
  {
  }

  lemma MulMono(a: int, b: int, d: nat)
    requires a <= b
    ensures a * d <= b * d
  {
    MulAdd(a, b - a, d);
    assert (b - a) * d >= 0;
  }

  /** A literal header reads back as the literal run of `k` pixels. */
  lemma ReadLiteralHeader(pr: Params, s: seq<byte>, at: nat, k: nat)
    requires Valid(pr) && 1 <= k <= MaxThunkSize
    requires at + |LiteralHeader(k)| <= |s| && s[at..at + |LiteralHeader(k)|] == LiteralHeader(k)
    ensures ReadCommand(pr, s, at) == Parsed(Literal(k), at + |LiteralHeader(k)|)
  {
    var h := LiteralHeader(k);
    assert s[at] == h[0];
    if k > 0x7F {
      assert s[at + 1] == h[1] && s[at + 2] == h[2];
    }
  }

  lemma CommandFields(size: nat, pw: nat, idx: nat, f: nat)
    requires size * pw == 0x80 && 0 < pw && idx < size && f < pw
    ensures (0x80 + idx * pw + f) % pw == f
    ensures ((0x80 + idx * pw + f) / pw) % size == idx
  {
    var c := 0x80 + idx * pw + f;
    assert c == (size + idx) * pw + f;
    Utils.ModUnique(c, pw, size + idx, f);
    Utils.ModUnique(size + idx, size, 1, idx);
  }

  /** A copy command reads back as the copy run it encodes: the same table
      entry and the same pixel count. */
  lemma ReadCopyCommand(pr: Params, s: seq<byte>, at: nat, m: Match)
    requires Valid(pr) && m.shiftIdx < |pr.table| && CountBase(pr.depth) <= m.len <= MaxMatchSize
    requires at + |CopyCommand(pr, m)| <= |s| && s[at..at + |CopyCommand(pr, m)|] == CopyCommand(pr, m)
    ensures ReadCommand(pr, s, at) == Parsed(Copy(m.len, m.shiftIdx), at + |CopyCommand(pr, m)|)
  {
    var c := CopyCommand(pr, m);
    var mask := CountMask(|pr.table|);
    var threshold := CountBase(pr.depth) + mask;
    var pw := Pow2(ShiftStart(|pr.table|));
    var f := if m.len >= threshold then mask else m.len - CountBase(pr.depth);
    assert s[at] == c[0];
    assert c[0] == 0x80 + m.shiftIdx * pw + f;
    CommandFields(|pr.table|, pw, m.shiftIdx, f);
    if m.len >= threshold {
      assert s[at + 1] == c[1] && s[at + 2] == c[2];
    }
  }

  /** A literal command followed by its pixels appends exactly those pixels. */
  lemma LiteralStep(pr: Params, s: seq<byte>, rp: nat, out: seq<byte>, n: nat, buf: seq<byte>, k: nat)
    requires Valid(pr) && 1 <= k <= MaxThunkSize && |buf| == k * pr.depth && |out| + |buf| <= n
    requires rp + |LiteralHeader(k)| + |buf| <= |s|
    requires s[rp..rp + |LiteralHeader(k)| + |buf|] == LiteralHeader(k) + buf
    ensures |out| < n
    ensures Step(pr, s, rp, out, n) == Ok(State(rp + |LiteralHeader(k)| + |buf|, out + buf))
  {
    var h := LiteralHeader(k);
    assert s[rp..rp + |h|] == (h + buf)[..|h|];
    ReadLiteralHeader(pr, s, rp, k);
    assert s[rp + |h|..rp + |h| + |buf|] == (h + buf)[|h|..];
  }

  /** A copy command repeats the bytes `delta * depth` back. */
  lemma CopyStep(pr: Params, s: seq<byte>, rp: nat, out: seq<byte>, n: nat, m: Match)
    requires Valid(pr) && m.shiftIdx < |pr.table| && CountBase(pr.depth) <= m.len <= MaxMatchSize
    requires Delta(pr, m.shiftIdx) < 0 && |out| + Delta(pr, m.shiftIdx) * pr.depth >= 0
    requires |out| + m.len * pr.depth <= n
    requires rp + |CopyCommand(pr, m)| <= |s| && s[rp..rp + |CopyCommand(pr, m)|] == CopyCommand(pr, m)
    ensures |out| < n && 0 < -(Delta(pr, m.shiftIdx) * pr.depth) <= |out|
    ensures Step(pr, s, rp, out, n) ==
      Ok(State(rp + |CopyCommand(pr, m)|,
               out + Utils.Periodic(out, |out| + Delta(pr, m.shiftIdx) * pr.depth,
                                    -(Delta(pr, m.shiftIdx) * pr.depth), m.len * pr.depth)))
  {
    ReadCopyCommand(pr, s, rp, m);
    MulMono(1, m.len, pr.depth);
    MulMono(Delta(pr, m.shiftIdx), -1, pr.depth);
  }

  /** Bytes `[from, to)` of `a` equal the bytes `gap` before them. */
  ghost predicate ShiftedEqual(a: seq<byte>, from: int, to: int, gap: int) {
    0 <= gap <= from <= to <= |a| && a[from..to] == a[from - gap..to - gap]
  }

  /** A region equal to itself shifted by `gap` is the `gap` bytes before it
      repeated: what the decoder's overlapping copy produces. */
  lemma {:induction false} ShiftedAt(a: seq<byte>, from: nat, to: nat, gap: nat, k: nat)
    requires 0 < gap && ShiftedEqual(a, from, to, gap) && k < to - from
    ensures a[from + k] == a[from - gap + k % gap]
    decreases k
  {
    assert a[from + k] == a[from..to][k] == a[from - gap..to - gap][k];
    if k < gap {
      Utils.ModUnique(k, gap, 0, k);
    } else {
      ShiftedAt(a, from, to, gap, k - gap);
      Utils.OnePeriodLater(k, k - gap, gap);
    }
  }

  lemma ShiftedIsPeriodic(a: seq<byte>, from: nat, to: nat, gap: nat)
    requires 0 < gap && ShiftedEqual(a, from, to, gap) && from <= to
    ensures a[..from] + Utils.Periodic(a[..from], from - gap, gap, to - from) == a[..to]
  {
    var r := Utils.Periodic(a[..from], from - gap, gap, to - from);
    forall k | 0 <= k < to - from
      ensures r[k] == a[from + k]
    {
      ShiftedAt(a, from, to, gap, k);
    }
  }

  lemma ShiftedJoin(p: seq<byte>, a: nat, b: nat, c: nat, gap: nat)
    requires ShiftedEqual(p, a, b, gap) && ShiftedEqual(p, b, c, gap)
    ensures ShiftedEqual(p, a, c, gap)
  {
    assert p[a..c] == p[a..b] + p[b..c];
    assert p[a - gap..c - gap] == p[a - gap..b - gap] + p[b - gap..c - gap];
  }

  /** Pixels `[from, to)` of `p`, `d` bytes each, equal the pixels `gap`
      before them. */
  ghost predicate PixelsShifted(p: seq<byte>, d: nat, from: int, to: int, gap: int) {
    && 0 <= gap <= from <= to
    && 0 <= (from - gap) * d <= (to - gap) * d <= to * d <= |p| && (from - gap) * d <= from * d <= to * d
    && p[from * d..to * d] == p[(from - gap) * d..(to - gap) * d]
  }

  /** An empty run of pixels is trivially shifted. */
  lemma PixelsEmpty(p: seq<byte>, d: nat, at: nat, gap: nat)
    requires gap <= at && at * d <= |p|
    ensures PixelsShifted(p, d, at, at, gap)
  {
    MulMono(0, at - gap, d);
    MulMono(at - gap, at, d);
  }

  /** One pixel equal to the pixel `gap` before it. */
  lemma PixelsOne(p: seq<byte>, d: nat, prev: nat, cur: nat)
    requires d >= 1 && prev < cur && (cur + 1) * d <= |p|
    requires SamePixel(p, d, prev, cur) == Ok(true)
    ensures PixelsShifted(p, d, cur, cur + 1, cur - prev)
  {
    MulAdd(cur, 1, d);
    MulAdd(prev, 1, d);
    MulMono(prev + 1, cur, d);
    MulMono(0, prev, d);
    SameFromInBounds(p, prev * d, cur * d, 0, d);
  }

  lemma PixelsJoin(p: seq<byte>, d: nat, a: nat, b: nat, c: nat, gap: nat)
    requires PixelsShifted(p, d, a, b, gap) && PixelsShifted(p, d, b, c, gap)
    ensures PixelsShifted(p, d, a, c, gap)
  {
    SlicesJoin(p, a * d, b * d, c * d, (a - gap) * d, (b - gap) * d, (c - gap) * d);
  }

  lemma SlicesJoin(p: seq<byte>, a: nat, b: nat, c: nat, a': nat, b': nat, c': nat)
    requires a <= b <= c <= |p| && a' <= b' <= c' <= |p|
    requires p[a..b] == p[a'..b'] && p[b..c] == p[b'..c']
    ensures p[a..c] == p[a'..c']
  {
    assert p[a..c] == p[a..b] + p[b..c];
    assert p[a'..c'] == p[a'..b'] + p[b'..c'];
  }

  /** In bytes: the region is equal to itself shifted by `gap * d`. */
  lemma PixelsToBytes(p: seq<byte>, d: nat, from: nat, to: nat, gap: nat)
    requires PixelsShifted(p, d, from, to, gap)
    ensures ShiftedEqual(p, from * d, to * d, gap * d)
    ensures from * d - gap * d == (from - gap) * d && to * d - gap * d == (to - gap) * d
  {
    MulAdd(from - gap, gap, d);
    MulAdd(to - gap, gap, d);
  }

  /** Inside the buffer and strictly backward, the match search never indexes
      out of range, and every pixel it counts equals the pixel `cur - prev`
      before it. */
  lemma {:induction false} MatchRunSound(p: seq<byte>, d: nat, prev: nat, cur: nat, limit: nat)
    requires d >= 1 && prev < cur <= limit && limit * d <= |p|
    ensures MatchRun(p, d, prev, cur, limit).Ok?
    ensures PixelsShifted(p, d, cur, cur + MatchRun(p, d, prev, cur, limit).value, cur - prev)
    decreases limit - cur
  {
    if cur < limit && SamePixel(p, d, prev, cur) == Ok(true) {
      MatchRunSound(p, d, prev + 1, cur + 1, limit);
      MatchRunGrows(p, d, prev, cur, limit);
    } else {
      MatchRunStops(p, d, prev, cur, limit);
    }
  }

  /** The match ends at the limit or at the first differing pixel. */
  lemma MatchRunStops(p: seq<byte>, d: nat, prev: nat, cur: nat, limit: nat)
    requires d >= 1 && prev < cur <= limit && limit * d <= |p|
    requires cur < limit ==> SamePixel(p, d, prev, cur) != Ok(true)
    ensures MatchRun(p, d, prev, cur, limit) == Ok(0)
    ensures PixelsShifted(p, d, cur, cur, cur - prev)
  {
    MulMono(cur, limit, d);
    PixelsEmpty(p, d, cur, cur - prev);
    if cur < limit {
      MulAdd(cur, 1, d);
      MulMono(cur + 1, limit, d);
      MulMono(prev, cur, d);
      SameFromInBounds(p, prev * d, cur * d, 0, d);
    }
  }

  /** An equal pixel extends the match found from the next pixel on by one. */
  lemma MatchRunGrows(p: seq<byte>, d: nat, prev: nat, cur: nat, limit: nat)
    requires d >= 1 && prev < cur < limit && limit * d <= |p|
    requires SamePixel(p, d, prev, cur) == Ok(true)
    requires MatchRun(p, d, prev + 1, cur + 1, limit).Ok?
    requires PixelsShifted(p, d, cur + 1, cur + 1 + MatchRun(p, d, prev + 1, cur + 1, limit).value, cur - prev)
    ensures MatchRun(p, d, prev, cur, limit).Ok?
    ensures PixelsShifted(p, d, cur, cur + MatchRun(p, d, prev, cur, limit).value, cur - prev)
  {
    var w' := MatchRun(p, d, prev + 1, cur + 1, limit).value;
    assert MatchRun(p, d, prev, cur, limit) == Ok(w' + 1);
    MulMono(cur + 1, limit, d);
    PixelsOne(p, d, prev, cur);
    PixelsJoin(p, d, cur, cur + 1, cur + 1 + w', cur - prev);
  }

  /** With the guard, no candidate indexes out of range. */
  lemma {:induction false} SearchOk(pr: Params, p: seq<byte>, cur: nat, limit: nat, i: nat, best: Match)
    requires Valid(pr) && cur <= limit && i <= |pr.table| && limit * pr.depth <= |p|
    requires best.shiftIdx < |pr.table| && best.len <= limit - cur
    ensures Search(pr, p, true, cur, limit, i, best).Ok?
    decreases |pr.table| - i
  {
    if i < |pr.table| {
      if !Skipped(pr, true, cur, i) {
        MatchRunSound(p, pr.depth, cur + Delta(pr, i), cur, limit);
      }
      var w := Candidate(pr, p, true, cur, limit, i).value;
      SearchOk(pr, p, cur, limit, i + 1, if w > best.len then Match(i, w) else best);
    }
  }

  /** Decoding the flushed literal run continues with its pixels appended. */
  lemma FlushDecodes(pr: Params, rest: seq<byte>, pre: seq<byte>, buf: seq<byte>, k: nat, n: nat)
    requires Valid(pr) && k <= MaxThunkSize && |buf| == k * pr.depth && |pre| + |buf| <= n
    requires |buf| == 0 <==> k == 0
    ensures DecodeFrom(pr, FlushBytes(buf, k) + rest, 0, pre, n) == DecodeFrom(pr, rest, 0, pre + buf, n)
  {
    if k > 0 {
      LiteralThenRest(pr, rest, pre, buf, k, n, pre + buf);
    } else {
      assert FlushBytes(buf, k) + rest == rest && pre + buf == pre;
    }
  }

  /** A literal header and its pixels in front of the rest of the stream
      append the pixels and hand decoding on to the rest. */
  lemma LiteralThenRest(pr: Params, rest: seq<byte>, out: seq<byte>, buf: seq<byte>, k: nat, n: nat, grown: seq<byte>)
    requires Valid(pr) && 1 <= k <= MaxThunkSize && |buf| == k * pr.depth && |out| + |buf| <= n
    requires grown == out + buf
    ensures DecodeFrom(pr, LiteralHeader(k) + buf + rest, 0, out, n) == DecodeFrom(pr, rest, 0, grown, n)
  {
    var f := LiteralHeader(k) + buf;
    assert (f + rest)[..|f|] == f;
    LiteralStep(pr, f + rest, 0, out, n, buf, k);
    StepThenRest(pr, f, rest, out, grown, n);
  }

  /** A command that steps over its own bytes hands the rest of the stream
      on to the next command. */
  lemma StepThenRest(pr: Params, c: seq<byte>, rest: seq<byte>, out: seq<byte>, grown: seq<byte>, n: nat)
    requires Valid(pr) && |out| < n && |grown| <= n
    requires Step(pr, c + rest, 0, out, n) == Ok(State(|c|, grown))
    ensures DecodeFrom(pr, c + rest, 0, out, n) == DecodeFrom(pr, rest, 0, grown, n)
  {
    DecodeFromShift(pr, c, rest, 0, grown, n);
  }

  /** The bytes a found match covers are the bytes before them repeated with
      the offset of its table entry. */
  lemma CopyRegion(p: seq<byte>, d: nat, delta: int, cur: nat, limit: nat, len: nat)
    requires d >= 1 && delta < 0 && cur + delta >= 0 && cur <= limit && limit * d <= |p|
    requires MatchRun(p, d, cur + delta, cur, limit) == Ok(len)
    ensures cur * d + delta * d >= 0 && cur * d + len * d == (cur + len) * d <= |p|
    ensures 0 < -(delta * d) <= |p[..cur * d]|
    ensures p[..cur * d] + Utils.Periodic(p[..cur * d], |p[..cur * d]| + delta * d, -(delta * d), len * d)
            == p[..(cur + len) * d]
  {
    MatchRunSound(p, d, cur + delta, cur, limit);
    PixelsToBytes(p, d, cur, cur + len, -delta);
    CopyOffsets(cur, len, delta, d);
    var from, to, gap := cur * d, (cur + len) * d, -(delta * d);
    ShiftedIsPeriodic(p, from, to, gap);
    assert from - gap == |p[..cur * d]| + delta * d && to - from == len * d;
  }

  lemma CopyOffsets(cur: nat, len: nat, delta: int, d: nat)
    requires d >= 1 && delta < 0 && cur + delta >= 0
    ensures (-delta) * d == -(delta * d) > 0
    ensures cur * d + len * d == (cur + len) * d
    ensures cur * d + delta * d == (cur + delta) * d >= 0
  {
    MulAdd(cur, len, d);
    MulAdd(cur, delta, d);
    Utils.MulAtLeast(-delta, d);
    MulMono(0, cur + delta, d);
  }

  /** A copy command in front of the rest of the stream appends the repeated
      bytes and hands decoding on to the rest. */
  lemma CopyThenRest(pr: Params, rest: seq<byte>, out: seq<byte>, n: nat, m: Match, grown: seq<byte>)
    requires Valid(pr) && m.shiftIdx < |pr.table| && CountBase(pr.depth) <= m.len <= MaxMatchSize
    requires Delta(pr, m.shiftIdx) < 0 && |out| + Delta(pr, m.shiftIdx) * pr.depth >= 0
    requires |out| + m.len * pr.depth <= n
    requires 0 < -(Delta(pr, m.shiftIdx) * pr.depth) <= |out|
    requires grown == out + Utils.Periodic(out, |out| + Delta(pr, m.shiftIdx) * pr.depth,
                                           -(Delta(pr, m.shiftIdx) * pr.depth), m.len * pr.depth)
    ensures DecodeFrom(pr, CopyCommand(pr, m) + rest, 0, out, n) == DecodeFrom(pr, rest, 0, grown, n)
  {
    var c := CopyCommand(pr, m);
    assert (c + rest)[..|c|] == c;
    CopyStep(pr, c + rest, 0, out, n, m);
    StepThenRest(pr, c, rest, out, grown, n);
  }

  /** Decoding a copy command the search chose continues with the matched
      pixels appended. */
  lemma CopyDecodes(pr: Params, rest: seq<byte>, p: seq<byte>, cur: nat, limit: nat, m: Match)
    requires Valid(pr) && cur < limit && limit * pr.depth <= |p|
    requires m.shiftIdx < |pr.table| && CountBase(pr.depth) <= m.len <= MaxMatchSize
    requires !Skipped(pr, true, cur, m.shiftIdx) && Candidate(pr, p, true, cur, limit, m.shiftIdx) == Ok(m.len)
    ensures (cur + m.len) * pr.depth <= |p|
    ensures DecodeFrom(pr, CopyCommand(pr, m) + rest, 0, p[..cur * pr.depth], |p|) ==
            DecodeFrom(pr, rest, 0, p[..(cur + m.len) * pr.depth], |p|)
  {
    CopyRegion(p, pr.depth, Delta(pr, m.shiftIdx), cur, limit, m.len);
    CopyThenRest(pr, rest, p[..cur * pr.depth], |p|, m, p[..(cur + m.len) * pr.depth]);
  }

  /** The pending literal pixels are the last `k` pixels before `cur`. */
  ghost predicate Pending(pr: Params, p: seq<byte>, cur: nat, buf: seq<byte>, k: nat) {
    && k <= cur && k <= MaxThunkSize && |buf| == k * pr.depth && (|buf| == 0 <==> k == 0)
    && (cur - k) * pr.depth <= cur * pr.depth <= |p| && buf == p[(cur - k) * pr.depth..cur * pr.depth]
  }

  /** Flushing the pending pixels hands decoding on to the rest with the
      pixels up to `cur` in place. */
  lemma FlushPending(pr: Params, p: seq<byte>, cur: nat, buf: seq<byte>, k: nat, rest: seq<byte>)
    requires Valid(pr) && Pending(pr, p, cur, buf, k)
    ensures DecodeFrom(pr, FlushBytes(buf, k) + rest, 0, p[..(cur - k) * pr.depth], |p|)
         == DecodeFrom(pr, rest, 0, p[..cur * pr.depth], |p|)
  {
    var pre := p[..(cur - k) * pr.depth];
    assert pre + buf == p[..cur * pr.depth];
    FlushDecodes(pr, rest, pre, buf, k, |p|);
  }

  /** From pixel `cur` on, with `buf` the `k` pending pixels, the encoder
      succeeds and what it writes decodes, after the pixels before the
      pending ones, to the whole image. */
  ghost predicate Sound(pr: Params, p: seq<byte>, cur: nat, last: nat, buf: seq<byte>, k: nat)
    requires Valid(pr) && cur <= last && last * pr.depth <= |p| && k <= cur
    requires k <= MaxThunkSize && |buf| == k * pr.depth && (cur - k) * pr.depth <= |p|
  {
    && EncodeFrom(pr, p, true, cur, last, buf, k).Ok?
    && DecodeFrom(pr, EncodeFrom(pr, p, true, cur, last, buf, k).value, 0, p[..(cur - k) * pr.depth], |p|) == Ok(p)
  }

  lemma PendingEmpty(pr: Params, p: seq<byte>, cur: nat, last: nat)
    requires Valid(pr) && cur <= last && last * pr.depth == |p|
    ensures Pending(pr, p, cur, [], 0)
  {
    MulMono(cur, last, pr.depth);
  }

  /** The pixel at `cur`, and the pending run it starts or extends. */
  lemma PendingNext(pr: Params, p: seq<byte>, cur: nat, last: nat, buf: seq<byte>, k: nat)
    requires Valid(pr) && cur < last && last * pr.depth == |p| && Pending(pr, p, cur, buf, k)
    ensures cur * pr.depth + pr.depth == (cur + 1) * pr.depth <= |p|
    ensures Pending(pr, p, cur + 1, p[cur * pr.depth..(cur + 1) * pr.depth], 1)
    ensures k < MaxThunkSize ==> Pending(pr, p, cur + 1, buf + p[cur * pr.depth..(cur + 1) * pr.depth], k + 1)
  {
    var d := pr.depth;
    MulAdd(cur, 1, d);
    MulMono(cur + 1, last, d);
    MulMono(cur - k, cur + 1, d);
    MulMono(1, k + 1, d);
    assert buf + p[cur * d..(cur + 1) * d] == p[(cur - k) * d..(cur + 1) * d];
  }

  /** The end of the loop: the final flush decodes to the pending pixels. */
  lemma EndSound(pr: Params, p: seq<byte>, last: nat, buf: seq<byte>, k: nat)
    requires Valid(pr) && last * pr.depth == |p| && Pending(pr, p, last, buf, k)
    ensures Sound(pr, p, last, last, buf, k)
  {
    FlushPending(pr, p, last, buf, k, []);
    assert p[..last * pr.depth] == p;
    assert FlushBytes(buf, k) + [] == FlushBytes(buf, k);
  }

  /** The match the search returns is the candidate of its table entry,
      which therefore was not skipped. */
  lemma SearchChoice(pr: Params, p: seq<byte>, cur: nat, limit: nat, m: Match)
    requires Valid(pr) && cur < limit && limit - cur <= MaxMatchSize
    requires Search(pr, p, true, cur, limit, 0, Match(0, 0)) == Ok(m)
    requires m.len > IgnoreThreshold(pr.depth)
    ensures m.shiftIdx < |pr.table| && CountBase(pr.depth) <= m.len <= MaxMatchSize
    ensures !Skipped(pr, true, cur, m.shiftIdx) && Candidate(pr, p, true, cur, limit, m.shiftIdx) == Ok(m.len)
  {
    SearchIsFirst(pr, p, true, cur, limit, 0, Match(0, 0));
  }

  /** A copy run: the flush and the copy command decode to the pending
      pixels and the matched ones, and the rest follows from `cur + len`. */
  lemma CopySound(pr: Params, p: seq<byte>, cur: nat, last: nat, buf: seq<byte>, k: nat, m: Match)
    requires Valid(pr) && last * pr.depth == |p| && cur < last && Pending(pr, p, cur, buf, k)
    requires Search(pr, p, true, cur, SearchLimit(cur, last), 0, Match(0, 0)) == Ok(m)
    requires m.len > IgnoreThreshold(pr.depth)
    requires Pending(pr, p, cur + m.len, [], 0) && Sound(pr, p, cur + m.len, last, [], 0)
    ensures Sound(pr, p, cur, last, buf, k)
  {
    var d, limit := pr.depth, SearchLimit(cur, last);
    MulMono(limit, last, d);
    SearchChoice(pr, p, cur, limit, m);
    var rest := EncodeFrom(pr, p, true, cur + m.len, last, [], 0).value;
    EncodeFromCopyThen(pr, p, true, cur, last, buf, k, m);
    var f, c := FlushBytes(buf, k), CopyCommand(pr, m);
    assert f + c + rest == f + (c + rest);
    FlushPending(pr, p, cur, buf, k, c + rest);
    CopyDecodes(pr, rest, p, cur, limit, m);
  }

  /** A literal pixel when the buffer is full: the full buffer is flushed and
      the pixel starts the next one. */
  lemma RestartSound(pr: Params, p: seq<byte>, cur: nat, last: nat, buf: seq<byte>, k: nat, m: Match)
    requires Valid(pr) && last * pr.depth == |p| && cur < last && Pending(pr, p, cur, buf, k)
    requires Search(pr, p, true, cur, SearchLimit(cur, last), 0, Match(0, 0)) == Ok(m)
    requires m.len <= IgnoreThreshold(pr.depth) && k == MaxThunkSize
    requires cur * pr.depth + pr.depth == (cur + 1) * pr.depth <= |p|
    requires Pending(pr, p, cur + 1, p[cur * pr.depth..(cur + 1) * pr.depth], 1)
    requires Sound(pr, p, cur + 1, last, p[cur * pr.depth..(cur + 1) * pr.depth], 1)
    ensures Sound(pr, p, cur, last, buf, k)
  {
    var d := pr.depth;
    var pixel := p[cur * d..(cur + 1) * d];
    var rest := EncodeFrom(pr, p, true, cur + 1, last, pixel, 1).value;
    EncodeFromLiteral(pr, p, true, cur, last, buf, k, m);
    FlushPending(pr, p, cur, buf, k, rest);
  }

  /** A literal pixel that joins the buffer writes nothing yet. */
  lemma GrowSound(pr: Params, p: seq<byte>, cur: nat, last: nat, buf: seq<byte>, k: nat, m: Match)
    requires Valid(pr) && last * pr.depth == |p| && cur < last && Pending(pr, p, cur, buf, k)
    requires Search(pr, p, true, cur, SearchLimit(cur, last), 0, Match(0, 0)) == Ok(m)
    requires m.len <= IgnoreThreshold(pr.depth) && k < MaxThunkSize
    requires cur * pr.depth + pr.depth == (cur + 1) * pr.depth <= |p|
    requires Pending(pr, p, cur + 1, buf + p[cur * pr.depth..(cur + 1) * pr.depth], k + 1)
    requires Sound(pr, p, cur + 1, last, buf + p[cur * pr.depth..(cur + 1) * pr.depth], k + 1)
    ensures Sound(pr, p, cur, last, buf, k)
  {
    EncodeFromLiteral(pr, p, true, cur, last, buf, k, m);
  }

  /** The encoder loop keeps the decoding invariant: from every state it
      reaches, with `buf` the pending literal pixels, what it writes decodes,
      after the pixels it has already consumed, to the whole image. */
  lemma {:induction false} EncodeFromSound(pr: Params, p: seq<byte>, cur: nat, last: nat, buf: seq<byte>, k: nat)
    requires Valid(pr) && last * pr.depth == |p| && 1 <= cur <= last && Pending(pr, p, cur, buf, k)
    ensures Sound(pr, p, cur, last, buf, k)
    decreases last - cur, 1
  {
    if cur == last {
      EndSound(pr, p, last, buf, k);
    } else {
      var limit := SearchLimit(cur, last);
      MulMono(limit, last, pr.depth);
      SearchOk(pr, p, cur, limit, 0, Match(0, 0));
      var m := Search(pr, p, true, cur, limit, 0, Match(0, 0)).value;
      if m.len > IgnoreThreshold(pr.depth) {
        CopyBranch(pr, p, cur, last, buf, k, m);
      } else if k == MaxThunkSize {
        RestartBranch(pr, p, cur, last, buf, k, m);
      } else {
        GrowBranch(pr, p, cur, last, buf, k, m);
      }
    }
  }

  lemma {:induction false} CopyBranch(pr: Params, p: seq<byte>, cur: nat, last: nat, buf: seq<byte>, k: nat, m: Match)
    requires Valid(pr) && last * pr.depth == |p| && 1 <= cur < last && Pending(pr, p, cur, buf, k)
    requires Search(pr, p, true, cur, SearchLimit(cur, last), 0, Match(0, 0)) == Ok(m)
    requires m.len > IgnoreThreshold(pr.depth)
    ensures Sound(pr, p, cur, last, buf, k)
    decreases last - cur, 0
  {
    PendingEmpty(pr, p, cur + m.len, last);
    EncodeFromSound(pr, p, cur + m.len, last, [], 0);
    CopySound(pr, p, cur, last, buf, k, m);
  }

  lemma {:induction false} RestartBranch(pr: Params, p: seq<byte>, cur: nat, last: nat, buf: seq<byte>, k: nat, m: Match)
    requires Valid(pr) && last * pr.depth == |p| && 1 <= cur < last && Pending(pr, p, cur, buf, k)
    requires Search(pr, p, true, cur, SearchLimit(cur, last), 0, Match(0, 0)) == Ok(m)
    requires m.len <= IgnoreThreshold(pr.depth) && k == MaxThunkSize
    ensures Sound(pr, p, cur, last, buf, k)
    decreases last - cur, 0
  {
    PendingNext(pr, p, cur, last, buf, k);
    EncodeFromSound(pr, p, cur + 1, last, p[cur * pr.depth..(cur + 1) * pr.depth], 1);
    RestartSound(pr, p, cur, last, buf, k, m);
  }

  lemma {:induction false} GrowBranch(pr: Params, p: seq<byte>, cur: nat, last: nat, buf: seq<byte>, k: nat, m: Match)
    requires Valid(pr) && last * pr.depth == |p| && 1 <= cur < last && Pending(pr, p, cur, buf, k)
    requires Search(pr, p, true, cur, SearchLimit(cur, last), 0, Match(0, 0)) == Ok(m)
    requires m.len <= IgnoreThreshold(pr.depth) && k < MaxThunkSize
    ensures Sound(pr, p, cur, last, buf, k)
    decreases last - cur, 0
  {
    PendingNext(pr, p, cur, last, buf, k);
    EncodeFromSound(pr, p, cur + 1, last, buf + p[cur * pr.depth..(cur + 1) * pr.depth], k + 1);
    GrowSound(pr, p, cur, last, buf, k, m);
  }

  lemma WholePixels(size: nat, d: nat, pixels: int)
    requires d >= 1 && size == pixels * d
    ensures size / d == pixels && pixels >= 0
  {
    if pixels < 0 {
      MulMono(pixels, -1, d);
    }
    Utils.ModUnique(size, d, pixels, 0);
  }

  /** The round trip of the corrected encoder: for every image kind and every
      width, the pixels of a non-empty `width * height` image decode back
      from what the encoder writes. */
  lemma DecodeEncode(pr: Params, height: int, p: seq<byte>)
    requires Valid(pr) && |p| == pr.width * height * pr.depth && |p| > 0
    ensures Encode(pr, height, p, true).Ok?
    ensures Decode(pr, height, Encode(pr, height, p, true).value) == Ok(p)
  {
    var d := pr.depth;
    var last := |p| / d;
    WholePixels(|p|, d, pr.width * height);
    PositiveSizeHoldsSeed(pr.width, height, d);
    MulMono(0, 1, d);
    EncodeFromSound(pr, p, 1, last, [], 0);
    assert Sound(pr, p, 1, last, [], 0);
    var rest := EncodeFrom(pr, p, true, 1, last, [], 0).value;
    var r := p[..d] + rest;
    assert Encode(pr, height, p, true) == Ok(r);
    assert r[..d] == p[..d];
    assert SeedLength(pr, r) == d;
    assert r[..d] + Zeros(0) == p[..d];
    DecodeFromShift(pr, p[..d], rest, 0, p[..d], |p|);
  }

  /** Where every table entry points backward, the guard never fires: the
      search as written and the corrected search are the same function. */
  lemma {:induction false} SearchGuardIrrelevant(pr: Params, p: seq<byte>, cur: nat, limit: nat, i: nat, best: Match)
    requires Valid(pr) && AllBackward(pr) && cur <= limit && i <= |pr.table|
    requires best.shiftIdx < |pr.table| && best.len <= limit - cur
    ensures Search(pr, p, false, cur, limit, i, best) == Search(pr, p, true, cur, limit, i, best)
    decreases |pr.table| - i
  {
    if i < |pr.table| {
      assert Candidate(pr, p, false, cur, limit, i) == Candidate(pr, p, true, cur, limit, i) by {
        assert Delta(pr, i) < 0;
      }
      match Candidate(pr, p, true, cur, limit, i)
      case Err(_) =>
      case Ok(w) =>
        SearchGuardIrrelevant(pr, p, cur, limit, i + 1, if w > best.len then Match(i, w) else best);
    }
  }

  lemma {:induction false} EncodeFromGuardIrrelevant(pr: Params, p: seq<byte>, cur: nat, last: nat,
                                                     buf: seq<byte>, k: nat)
    requires Valid(pr) && AllBackward(pr) && cur <= last && last * pr.depth <= |p|
    requires k <= MaxThunkSize && |buf| == k * pr.depth
    ensures EncodeFrom(pr, p, false, cur, last, buf, k) == EncodeFrom(pr, p, true, cur, last, buf, k)
    decreases last - cur, 1
  {
    if cur < last {
      var limit := SearchLimit(cur, last);
      SearchGuardIrrelevant(pr, p, cur, limit, 0, Match(0, 0));
      match Search(pr, p, true, cur, limit, 0, Match(0, 0))
      case Err(_) =>
      case Ok(m) =>
        if m.len > IgnoreThreshold(pr.depth) {
          CopyGuardIrrelevant(pr, p, cur, last, buf, k, m);
        } else if k == MaxThunkSize {
          RestartGuardIrrelevant(pr, p, cur, last, buf, k, m);
        } else {
          GrowGuardIrrelevant(pr, p, cur, last, buf, k, m);
        }
    }
  }

  lemma {:induction false} CopyGuardIrrelevant(pr: Params, p: seq<byte>, cur: nat, last: nat,
                                               buf: seq<byte>, k: nat, m: Match)
    requires Valid(pr) && AllBackward(pr) && cur < last && last * pr.depth <= |p|
    requires k <= MaxThunkSize && |buf| == k * pr.depth
    requires Search(pr, p, false, cur, SearchLimit(cur, last), 0, Match(0, 0)) == Ok(m)
    requires Search(pr, p, true, cur, SearchLimit(cur, last), 0, Match(0, 0)) == Ok(m)
    requires m.len > IgnoreThreshold(pr.depth)
    ensures EncodeFrom(pr, p, false, cur, last, buf, k) == EncodeFrom(pr, p, true, cur, last, buf, k)
    decreases last - cur, 0
  {
    EncodeFromGuardIrrelevant(pr, p, cur + m.len, last, [], 0);
    EncodeFromCopyThen(pr, p, false, cur, last, buf, k, m);
    EncodeFromCopyThen(pr, p, true, cur, last, buf, k, m);
  }

  lemma {:induction false} RestartGuardIrrelevant(pr: Params, p: seq<byte>, cur: nat, last: nat,
                                                  buf: seq<byte>, k: nat, m: Match)
    requires Valid(pr) && AllBackward(pr) && cur < last && last * pr.depth <= |p|
    requires k == MaxThunkSize && |buf| == k * pr.depth
    requires Search(pr, p, false, cur, SearchLimit(cur, last), 0, Match(0, 0)) == Ok(m)
    requires Search(pr, p, true, cur, SearchLimit(cur, last), 0, Match(0, 0)) == Ok(m)
    requires m.len <= IgnoreThreshold(pr.depth)
    ensures EncodeFrom(pr, p, false, cur, last, buf, k) == EncodeFrom(pr, p, true, cur, last, buf, k)
    decreases last - cur, 0
  {
    PixelInside(cur, last, pr.depth, |p|);
    EncodeFromGuardIrrelevant(pr, p, cur + 1, last, p[cur * pr.depth..cur * pr.depth + pr.depth], 1);
  }

  lemma {:induction false} GrowGuardIrrelevant(pr: Params, p: seq<byte>, cur: nat, last: nat,
                                               buf: seq<byte>, k: nat, m: Match)
    requires Valid(pr) && AllBackward(pr) && cur < last && last * pr.depth <= |p|
    requires k < MaxThunkSize && |buf| == k * pr.depth
    requires Search(pr, p, false, cur, SearchLimit(cur, last), 0, Match(0, 0)) == Ok(m)
    requires Search(pr, p, true, cur, SearchLimit(cur, last), 0, Match(0, 0)) == Ok(m)
    requires m.len <= IgnoreThreshold(pr.depth)
    ensures EncodeFrom(pr, p, false, cur, last, buf, k) == EncodeFrom(pr, p, true, cur, last, buf, k)
    decreases last - cur, 0
  {
    PixelInside(cur, last, pr.depth, |p|);
    MulAdd(k, 1, pr.depth);
    EncodeFromGuardIrrelevant(pr, p, cur + 1, last, buf + p[cur * pr.depth..cur * pr.depth + pr.depth], k + 1);
  }

  lemma EncodeGuardIrrelevant(pr: Params, height: int, p: seq<byte>)
    requires Valid(pr) && AllBackward(pr)
    ensures Encode(pr, height, p, false) == Encode(pr, height, p, true)
  {
    if |p| >= pr.depth > 0 {
      PixelCount(|p|, pr.depth);
      EncodeFromGuardIrrelevant(pr, p, 1, |p| / pr.depth, [], 0);
    }
  }
}
