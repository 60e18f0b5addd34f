/** The array helpers of `Utils.Binary`: the overlapping forward copy the
    pixel decoder relies on, and the little-endian 32-bit store the key
    schedule uses. */
module Utils {
  import opened Common

  /** `count` bytes that repeat `a[src .. src + period)` over and over:
      what a forward copy from `src` produces at `src + period` when the
      destination runs into the bytes it is still writing. */
  function Periodic(a: seq<byte>, src: nat, period: nat, count: nat): (r: seq<byte>)
    requires 0 < period && src + period <= |a|
    ensures |r| == count
    ensures forall k :: 0 <= k < count ==> r[k] == a[src + k % period]
  {
    seq(count, k requires 0 <= k < count => a[src + k % period])
  }

  /** A repetition only reads its one period: bytes past it do not matter. */
  lemma PeriodicPrefix(a: seq<byte>, m: nat, src: nat, period: nat, count: nat)
    requires 0 < period && src + period <= m <= |a|
    ensures Periodic(a, src, period, count) == Periodic(a[..m], src, period, count)
  {
    var x, y := Periodic(a, src, period, count), Periodic(a[..m], src, period, count);
    forall k | 0 <= k < count
      ensures x[k] == y[k]
    {
      assert k % period < period;
    }
  }

  /** `Buffer.BlockCopy(data, src, data, dst, n)` on one array: a .NET
      primitive with memmove semantics, so an overlap reads the old bytes. */
  method BlockCopy(data: array<byte>, src: nat, dst: nat, n: nat)
    requires src + n <= data.Length && dst + n <= data.Length
    modifies data
    ensures data[..] == old(data[..dst] + data[src..src + n] + data[dst + n..])
  {
    var from := data[src..src + n];
    forall k | 0 <= k < n {
      data[dst + k] := from[k];
    }
    assert data[..] == old(data[..dst]) + from + old(data[dst + n..]);
  }

  /** Division with remainder is unique: the arithmetic fact behind
      every "repeats with period p" argument below. */
  lemma ModUnique(y: int, p: int, q: int, r: int)
    requires p > 0 && 0 <= r < p && y == q * p + r
    ensures y % p == r && y / p == q
  {
    var q0, r0 := y / p, y % p;
    assert y == q0 * p + r0;
    if q0 > q {
      assert (q0 - q) * p >= p by { MulAtLeast(q0 - q, p); }
      assert false;
    } else if q0 < q {
      assert (q - q0) * p >= p by { MulAtLeast(q - q0, p); }
      assert false;
    }
  }

  lemma MulAtLeast(a: int, p: int)
    requires a >= 1 && p > 0
    ensures a * p >= p
  {
  }

  /** Adding a multiple of the period does not change a residue. */
  lemma ModShift(a: int, m: int, p: int)
    requires p > 0 && m % p == 0
    ensures (a + m) % p == a % p
  {
    var q := m / p;
    assert m == q * p;
    assert a + m == (a / p + q) * p + a % p;
    ModUnique(a + m, p, a / p + q, a % p);
  }

  lemma OnePeriodLater(a: int, b: int, p: int)
    requires p > 0 && a == b + p
    ensures a % p == b % p
  {
    ModUnique(p, p, 1, 0);
    ModShift(b, p, p);
  }

  /** `a[src .. end)` repeats the `period` bytes of `orig` that start at `src`. */
  ghost predicate Repeats(a: seq<byte>, orig: seq<byte>, src: nat, period: nat, end: nat)
    requires 0 < period && src + period <= |orig| && end <= |a|
  {
    forall k :: src <= k < end ==> a[k] == orig[src + (k - src) % period]
  }

  lemma RepeatsInitially(a: seq<byte>, src: nat, period: nat)
    requires 0 < period && src + period <= |a|
    ensures Repeats(a, a, src, period, src + period)
  {
    forall k | src <= k < src + period
      ensures a[k] == a[src + (k - src) % period]
    {
      ModUnique(k - src, period, 0, k - src);
    }
  }

  /** One round of `CopyOverlapped`: copying the `n <= dst - src` bytes at
      `src` to `dst` extends the repeating region `[src, dst)` to `dst + n`
      and leaves every byte outside `[dst, dst + n)` alone. */
  lemma ChunkRepeats(orig: seq<byte>, before: seq<byte>, after: seq<byte>,
                     src: nat, dst: nat, n: nat, period: nat)
    requires |orig| == |before| && period > 0 && src + period <= dst
    requires n <= dst - src && dst + n <= |before|
    requires (dst - src) % period == 0
    requires Repeats(before, orig, src, period, dst)
    requires after == before[..dst] + before[src..src + n] + before[dst + n..]
    ensures |after| == |before|
    ensures Repeats(after, orig, src, period, dst + n)
    ensures after[..dst] == before[..dst] && after[dst + n..] == before[dst + n..]
  {
    forall k | src <= k < dst + n
      ensures after[k] == orig[src + (k - src) % period]
    {
      if k < dst {
        assert after[k] == before[k];
      } else {
        var j := src + (k - dst);
        assert after[k] == before[j];
        ModShift(k - dst, dst - src, period);
        assert k - src == (k - dst) + (dst - src);
      }
    }
  }

  /** After the last round: from `start = src + period` on, the region is
      the pattern at `src` repeated, which is what `Periodic` describes. */
  lemma RepeatsIsPeriodic(orig: seq<byte>, a: seq<byte>, src: nat, start: nat, total: nat,
                          period: nat)
    requires src < start && start + total <= |a| && |orig| == |a| && period == start - src
    requires Repeats(a, orig, src, period, start + total)
    requires a[..start] == orig[..start] && a[start + total..] == orig[start + total..]
    ensures a == orig[..start] + Periodic(orig, src, period, total) + orig[start + total..]
  {
    var p := Periodic(orig, src, period, total);
    forall j | 0 <= j < total
      ensures a[start + j] == p[j]
    {
      assert a[start + j] == orig[src + (start + j - src) % period];
      OnePeriodLater(start + j - src, j, period);
    }
    assert a[start..start + total] == p;
    assert a == a[..start] + a[start..start + total] + a[start + total..];
  }

  /** One round of the copy loop: the `n` bytes at `src` go to `dst`, which
      extends the repeating region to `dst + n`. */
  method CopyRound(data: array<byte>, src: nat, dst: nat, n: nat,
                   ghost orig: seq<byte>, ghost period: nat, ghost start: nat)
    requires |orig| == data.Length && 0 < period && src + period == start <= dst
    requires n <= dst - src && dst + n <= data.Length && (dst - src) % period == 0
    requires Repeats(data[..], orig, src, period, dst)
    requires data[..start] == orig[..start] && data[dst..] == orig[dst..]
    modifies data
    ensures Repeats(data[..], orig, src, period, dst + n)
    ensures data[..start] == orig[..start] && data[dst + n..] == orig[dst + n..]
  {
    ghost var before := data[..];
    BlockCopy(data, src, dst, n);
    assert data[..] == before[..dst] + before[src..src + n] + before[dst + n..];
    ChunkRepeats(orig, before, data[..], src, dst, n, period);
    assert data[..start] == before[..start] by {
      assert data[..dst][..start] == before[..dst][..start];
    }
    assert data[dst + n..] == orig[dst + n..] by {
      assert before[dst..][n..] == orig[dst..][n..];
    }
  }

  /** Copies `count` bytes from `src` to `dst` within `data`. When the
      destination lies after the source, the bytes already written become
      the source of the rest, so the `dst - src` bytes before `dst` repeat. */
  method CopyOverlapped(data: array<byte>, src: nat, dst: nat, count: nat)
    requires dst + count <= data.Length
    requires dst <= src ==> src + count <= data.Length
    modifies data
    ensures dst > src ==>
      data[..] == old(data[..dst]) + Periodic(old(data[..]), src, dst - src, count) + old(data[dst + count..])
    ensures dst <= src ==>
      data[..] == old(data[..dst] + data[src..src + count] + data[dst + count..])
  {
    if dst > src {
      ghost var period, start, total, orig := dst - src, dst, count, data[..];
      ghost var rounds: nat := 1;
      var dst, count := dst, count;
      RepeatsInitially(data[..], src, period);
      while count > 0
        invariant |orig| == data.Length && src + period == start
        invariant start <= dst && 0 <= count && dst + count <= data.Length
        invariant dst + count == start + total
        invariant count > 0 ==> dst - src == period * rounds
        invariant Repeats(data[..], orig, src, period, dst)
        invariant data[..start] == orig[..start] && data[dst..] == orig[dst..]
        decreases count
      {
        var preceding := if dst - src < count then dst - src else count;
        ModUnique(dst - src, period, rounds, 0);
        CopyRound(data, src, dst, preceding, orig, period, start);
        dst := dst + preceding;
        count := count - preceding;
        rounds := rounds + rounds;
      }
      RepeatsIsPeriodic(orig, data[..], src, start, total, period);
    } else {
      BlockCopy(data, src, dst, count);
    }
  }

  /** Stores the four little-endian bytes of `val` at `pos .. pos + 3`
      and changes nothing else. */
  method WriteUint32LE(dst: array<byte>, pos: nat, val: uint)
    requires pos + 4 <= dst.Length
    modifies dst
    ensures dst[pos..pos + 4] == UInt32Bytes(val)
    ensures forall k :: 0 <= k < dst.Length && !(pos <= k < pos + 4) ==> dst[k] == old(dst[k])
  {
    var q1 := val / 0x100;
    var q2 := q1 / 0x100;
    dst[pos + 3] := q2 / 0x100;
    dst[pos + 2] := q2 % 0x100;
    dst[pos + 1] := q1 % 0x100;
    dst[pos + 0] := val % 0x100;
  }
}
