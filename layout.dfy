/** How a command byte of the pixel codec is split, and how a shift-table
    code becomes a backward pixel offset. The decoder and the encoder both
    derive these numbers from the table size and the byte depth alone. */
module BitLayout {
  import opened Common
  import Utils

  /** Everything the codec needs to know about an image kind: its shift
      table (signed byte codes), the image width the codes are resolved
      against, and the number of bytes per pixel. */
  datatype Params = Params(table: seq<int>, width: int, depth: nat)

  predicate IsSByte(x: int) {
    -128 <= x < 128
  }

  /** The `sbyte` entries of a shift table. */
  type sbyte = x: int | IsSByte(x)

  /** The shapes the two image kinds use: a 16- or 32-entry table of signed
      bytes and one or three bytes per pixel (8 or 24 bits). */
  predicate Valid(pr: Params) {
    && (|pr.table| == 16 || |pr.table| == 32)
    && (pr.depth == 1 || pr.depth == 3)
    && forall i :: 0 <= i < |pr.table| ==> IsSByte(pr.table[i])
  }

  /** The `(sbyte)` cast: two's-complement truncation to eight bits. */
  function SByte(x: int): (r: int)
    ensures IsSByte(r)
  {
    (x + 128) % 256 - 128
  }

  /** `~x` on a two's-complement integer. */
  function BitNot(x: int): int {
    -x - 1
  }

  /** `16 + (sbyte)~(8 + ((tableSize >> 5) * 4))`: the mask of the count
      field inside a copy command. It is one below a power of two, and
      that power of two is the weight of the lowest shift-index bit. */
  function CountMask(tableSize: nat): (m: int)
    requires tableSize == 16 || tableSize == 32
    ensures m == (if tableSize == 32 then 3 else 7)
    ensures m + 1 == Pow2(ShiftStart(tableSize))
  {
    16 + SByte(BitNot(8 + (tableSize / 32) * 4))
  }

  /** `3 - (tableSize >> 5)`: where the shift index starts inside a copy
      command. The index field exactly fills the seven bits below 0x80. */
  function ShiftStart(tableSize: nat): (s: nat)
    requires tableSize == 16 || tableSize == 32
    ensures s == (if tableSize == 32 then 2 else 3)
    ensures tableSize * Pow2(s) == 0x80
  {
    3 - tableSize / 32
  }

  /** The pixel count a copy command implies on top of its count field. */
  function CountBase(depth: nat): (b: nat)
    ensures b == (if depth == 1 then 3 else 1)
  {
    if depth == 1 then 3 else 1
  }

  /** The longest match the encoder still stores as literal pixels. */
  function IgnoreThreshold(depth: nat): (t: nat)
    ensures t + 1 == CountBase(depth)
  {
    if depth == 1 then 2 else 0
  }

  /** The pixel-index offset one shift-table code stands for: `code >> 4`
      (arithmetic shift, so floor division) columns to the right and
      `code & 0x0F` rows up. */
  function ShiftDelta(code: int, width: int): int {
    code / 16 - (code % 16) * width
  }

  function Delta(pr: Params, i: nat): int
    requires i < |pr.table|
  {
    ShiftDelta(pr.table[i], pr.width)
  }

  /** Every entry of the table points strictly backward. */
  predicate AllBackward(pr: Params) {
    forall i :: 0 <= i < |pr.table| ==> Delta(pr, i) < 0
  }

  /** A code reaching one to four rows up, or left along its own row, by
      at most six columns to either side: the shape of every code of both
      tables. */
  predicate NearBackward(code: int) {
    && (1 <= code % 16 <= 4 || (code % 16 == 0 && code / 16 < 0))
    && -6 <= code / 16 <= 3
  }

  /** Such a code never points forward in a row of three pixels or more,
      and points strictly backward once the row is four pixels wide. */
  lemma BackwardForWideImages(code: int, width: int)
    requires NearBackward(code) && width >= 3
    ensures ShiftDelta(code, width) <= 0
    ensures width >= 4 ==> ShiftDelta(code, width) < 0
  {
    var row := code % 16;
    if row >= 1 {
      assert row * width >= width by { Utils.MulAtLeast(row, width); }
    }
  }
}
