/** The 8-bit image kind (`.rc8`): one palette index per pixel, the palette
    stored in the header. The files carry the alpha channel of 32-bit
    images; their payload is never encrypted. */
module Rc8 {
  import opened Common
  import opened BitLayout
  import opened Decoder
  import opened Encoder
  import RoundTrip
  import opened Image
  import opened Streams
  import Cipher

  /** The 16 codes of the 8-bit kind. */
  const CodeTable: seq<sbyte> := [
    -16, -32, -48, -64,  49,  33,  17,   1,
    -15, -31, -47,  34,  18,   2, -14, -30
  ]

  /** One byte per pixel. */
  const Depth: nat := 1

  /** The codec parameters of an 8-bit image `width` pixels wide. */
  function Kind(width: int): (pr: Params)
    ensures Valid(pr) && pr.table == CodeTable && pr.width == width && pr.depth == Depth
  {
    Params(CodeTable, width, Depth)
  }

  /** Every code reaches one to four rows up, or left along its row, by at
      most six columns to either side. */
  lemma TableIsNear()
    ensures forall i :: 0 <= i < |CodeTable| ==> NearBackward(CodeTable[i])
  {
  }

  /** For images at least four pixels wide every code points strictly
      backward. */
  lemma {:induction false} TableBackward(width: int)
    requires width >= 4
    ensures AllBackward(Kind(width))
  {
    TableIsNear();
    forall i | 0 <= i < |CodeTable|
      ensures Delta(Kind(width), i) < 0
    {
      BackwardForWideImages(CodeTable[i], width);
    }
  }

  /** The round trip for 8-bit images at least four pixels wide, with the
      search exactly as written. */
  lemma WideRoundTrip(width: int, height: int, p: seq<byte>)
    requires width >= 4 && |p| == width * height * Depth && |p| > 0
    ensures Encode(Kind(width), height, p, false).Ok?
    ensures Decode(Kind(width), height, Encode(Kind(width), height, p, false).value) == Ok(p)
  {
    TableBackward(width);
    RoundTrip.EncodeGuardIrrelevant(Kind(width), height, p);
    RoundTrip.DecodeEncode(Kind(width), height, p);
  }

  /** A palette entry: the red, green and blue channel of a `Bgr24`. */
  datatype Color = Color(r: byte, g: byte, b: byte)

  /** The tag word after the magic, "8_00". Its first byte, '8', is the
      type byte. */
  const Tag: nat := 0x3030_5F38

  /** The number of palette entries, and the bytes they take in a file. */
  const Colors: nat := 256
  const PaletteSize: nat := 0x300

  /** The palette `FromRCT` builds from the 768 palette bytes: entry `i`
      takes byte `3i + 1` for both red and green and byte `3i` for blue
      (byte `3i + 2` is never read). */
  function PaletteOf(block: seq<byte>): (pal: seq<Color>)
    requires |block| == PaletteSize
    ensures |pal| == Colors
    ensures forall i :: 0 <= i < Colors ==> pal[i] == Color(block[3 * i + 1], block[3 * i + 1], block[3 * i])
  {
    seq(Colors, i requires 0 <= i < Colors => Color(block[3 * i + 1], block[3 * i + 1], block[3 * i]))
  }

  /** What an `.rc8` header holds after the magic and the type byte. */
  datatype Header = Header(width: int, height: int, palette: seq<Color>, payload: seq<byte>)

  /** What `FromRCT` reads from `s`, the bytes after the type byte: it
      skips the rest of the tag (a seek, which may pass the end), reads
      width, height and payload size, 768 palette bytes and up to `size`
      payload bytes. A field past the end, a short palette and a size that
      is not positive are errors. */
  function ParseRc8(s: seq<byte>): Result<Header> {
    var t := Rest(s, 3);
    if |t| < 12 then Err(EndOfStream)
    else if |t| < 12 + PaletteSize then Err(AssertionFailed)
    else if Int32Of(t[8..12]) <= 0 then Err(AssertionFailed)
    else
      Ok(Header(Int32Of(t[0..4]), Int32Of(t[4..8]), PaletteOf(t[12..12 + PaletteSize]),
                Take(t[12 + PaletteSize..], Int32Of(t[8..12]))))
  }

  /** The palette `GetRCIamge` writes: entry `i` is three bytes `i`, a grey
      ramp. */
  function GreyRamp(n: nat): (block: seq<byte>)
    requires n <= Colors
    ensures |block| == 3 * n
    ensures forall k :: 0 <= k < 3 * n ==> block[k] == k / 3
  {
    seq(3 * n, k requires 0 <= k < 3 * n => k / 3)
  }

  /** The file `GetRCIamge` writes: magic, tag, width, height and payload
      length as little-endian 32-bit words, the grey palette, the payload. */
  function Rc8File(width: int, height: int, payload: seq<byte>): (f: seq<byte>)
    requires IsInt32(width) && IsInt32(height) && IsInt32(|payload|)
  {
    UInt32Bytes(Magic) + UInt32Bytes(Tag) + Int32Bytes(width) + Int32Bytes(height)
    + Int32Bytes(|payload|) + GreyRamp(Colors) + payload
  }

  /** The file is 788 bytes longer than the payload, starts with the magic
      and the type byte '8', and holds the palette and then the payload. */
  lemma Rc8FileLayout(width: int, height: int, payload: seq<byte>)
    requires IsInt32(width) && IsInt32(height) && IsInt32(|payload|)
    ensures var f := Rc8File(width, height, payload);
      && |f| == |payload| + 20 + PaletteSize
      && f[..4] == UInt32Bytes(Magic) && f[4] == 0x38
      && f[20..20 + PaletteSize] == GreyRamp(Colors)
      && f[20 + PaletteSize..] == payload
  {
  }

  /** Re-reading the grey ramp gives entry `i` the color `(i, i, i)`. */
  lemma GreyPalette()
    ensures forall i :: 0 <= i < Colors ==> PaletteOf(GreyRamp(Colors))[i] == Color(i, i, i)
  {
    var block := GreyRamp(Colors);
    forall i | 0 <= i < Colors
      ensures PaletteOf(block)[i] == Color(i, i, i)
    {
      assert block[3 * i] == i && block[3 * i + 1] == i;
    }
  }

  /** The grey palette as colors. */
  function Greys(): (pal: seq<Color>)
    ensures |pal| == Colors && forall i :: 0 <= i < Colors ==> pal[i] == Color(i, i, i)
  {
    seq(Colors, i requires 0 <= i < Colors => Color(i, i, i))
  }

  /** Reading back what `GetRCIamge` wrote, from the byte after the type
      byte on, gives the dimensions, the grey palette and the payload. */
  lemma {:induction false} ParseRc8File(width: int, height: int, payload: seq<byte>)
    requires IsInt32(width) && IsInt32(height) && IsInt32(|payload|) && |payload| > 0
    ensures ParseRc8(Rc8File(width, height, payload)[5..]) == Ok(Header(width, height, Greys(), payload))
  {
    var f := Rc8File(width, height, payload);
    Rc8FileLayout(width, height, payload);
    var t := Rest(f[5..], 3);
    assert t == f[8..];
    assert t[0..4] == Int32Bytes(width);
    assert t[4..8] == Int32Bytes(height);
    assert t[8..12] == Int32Bytes(|payload|);
    assert t[12..12 + PaletteSize] == GreyRamp(Colors);
    assert t[12 + PaletteSize..] == payload;
    Int32RoundTrip(width);
    Int32RoundTrip(height);
    Int32RoundTrip(|payload|);
    GreyPalette();
    assert PaletteOf(GreyRamp(Colors)) == Greys();
    assert Take(payload, |payload|) == payload;
  }

  /** An opened RC8 image: dimensions, palette and decoded pixel bytes,
      none when the payload is empty. */
  datatype Loaded = Loaded(width: int, height: int, palette: seq<Color>, pixels: seq<byte>)

  /** What a fresh image holds after `FromRCT` reads `s`, or the error that
      stops it. */
  function Load(s: seq<byte>): Result<Loaded> {
    match ParseRc8(s)
    case Err(e) => Err(e)
    case Ok(h) =>
      if |h.payload| == 0 then Ok(Loaded(h.width, h.height, h.palette, []))
      else
        match Decode(Kind(h.width), h.height, h.payload)
        case Err(e) => Err(e)
        case Ok(px) => Ok(Loaded(h.width, h.height, h.palette, px))
  }

  /** A picture as `GetImage` returns it: dimensions and row-major colors. */
  datatype Picture = Picture(width: nat, height: nat, pixels: seq<Color>)

  /** The picture of an image without pixels or palette: one black pixel. */
  const Blank: Picture := Picture(1, 1, [Color(0, 0, 0)])

  /** Pixel `k` of the picture is the palette entry pixel byte `k` selects. */
  function Colored(palette: seq<Color>, pixels: seq<byte>, n: nat): (c: seq<Color>)
    requires n <= |pixels| && forall k :: 0 <= k < n ==> pixels[k] < |palette|
    ensures |c| == n && forall k :: 0 <= k < n ==> c[k] == palette[pixels[k]]
  {
    seq(n, k requires 0 <= k < n => palette[pixels[k]])
  }

  /** The first `n` pixel bytes exist and select palette entries. */
  predicate Fits(pixels: seq<byte>, colors: nat, n: nat) {
    n <= |pixels| && forall k :: 0 <= k < n ==> pixels[k] < colors
  }

  /** The first `n` pixels of `img` are painted from the palette. */
  predicate Painted(img: seq<Color>, pixels: seq<byte>, palette: seq<Color>, n: nat) {
    n <= |img| && n <= |pixels| && forall k :: 0 <= k < n ==> pixels[k] < |palette| && img[k] == palette[pixels[k]]
  }

  /** Row `y` of a picture `w` pixels wide starts at `y * w` and ends
      inside a picture of `h` rows. */
  lemma RowStart(y: nat, w: nat, h: nat)
    requires y < h
    ensures (y + 1) * w == y * w + w <= w * h
  {
    assert (y + 1) * w <= h * w by { RoundTrip.MulMono(y + 1, h, w); }
  }

  /** The 8-bit image: the shared codec object with this kind's table and
      the palette. */
  class RC8Image {
    const base: RCImage
    var palette: array<Color>

    /** The base object carries the 16-entry table and 8 bits per pixel. */
    predicate Valid() {
      base.shiftTable == CodeTable && base.bpp == 8
    }

    constructor ()
      ensures Valid() && fresh(base) && fresh(base.pixelData) && fresh(base.rctRawData) && fresh(palette) && palette.Length == 0
      ensures base.width == 0 && base.height == 0
      ensures base.pixelData.Length == 0 && base.rctRawData.Length == 0
    {
      base := new RCImage(CodeTable, 8);
      palette := new Color[0];
    }

    /** Reads the header, the palette and the payload from `br`
        (positioned after the type byte) and decodes the payload. The
        payload is never encrypted, so no key is consulted. */
    method FromRCT(br: Reader) returns (o: Outcome)
      requires Valid()
      modifies br`pos, base`width, base`height, base`rctRawData, base`pixelData, this`palette
      ensures ParseRc8(old(br.Remaining())).Err? ==> o == Failed(ParseRc8(old(br.Remaining())).error)
      ensures ParseRc8(old(br.Remaining())).Ok? ==>
        var h := ParseRc8(old(br.Remaining())).value;
        && base.width == h.width && base.height == h.height
        && fresh(palette) && palette[..] == h.palette
        && fresh(base.rctRawData) && base.rctRawData[..] == h.payload
        && (|h.payload| == 0 ==> o == Done && base.pixelData == old(base.pixelData))
        && (|h.payload| > 0 ==> match Decode(Kind(h.width), h.height, h.payload)
                                case Ok(px) => o == Done && fresh(base.pixelData) && base.pixelData[..] == px
                                case Err(e) => o == Failed(e))
    {
      var r := ReadHeader(br);
      if r.Err? {
        return Failed(r.error);
      }
      assert base.Layout() == Kind(r.value.width);
      o := base.Unpack();
    }

    /** The reads of `FromRCT` up to the payload, which becomes `rctRawData`;
        the fields are stored as soon as they are read. */
    method ReadHeader(br: Reader) returns (r: Result<Header>)
      modifies br`pos, base`width, base`height, base`rctRawData, this`palette
      ensures r == ParseRc8(old(br.Remaining()))
      ensures r.Ok? ==>
        && base.width == r.value.width && base.height == r.value.height
        && fresh(palette) && palette[..] == r.value.palette
        && fresh(base.rctRawData) && base.rctRawData[..] == r.value.payload
    {
      ghost var s := br.Remaining();
      br.Skip(3);
      ghost var t := br.Remaining();
      assert t == Rest(s, 3);
      var size := base.ReadDimensions(br);
      if size.Err? {
        return Err(size.error);
      }
      var block := br.ReadBytes(PaletteSize);
      if block.Length != PaletteSize {
        return Err(AssertionFailed);
      }
      assert block[..] == t[12..12 + PaletteSize];
      palette := ReadPalette(block);
      if size.value <= 0 {
        return Err(AssertionFailed);
      }
      assert br.Remaining() == t[12 + PaletteSize..];
      var raw := br.ReadBytes(size.value);
      base.rctRawData := raw;
      r := Ok(Header(base.width, base.height, palette[..], raw[..]));
    }

    /** The palette loop of `FromRCT`. */
    static method ReadPalette(block: array<byte>) returns (pal: array<Color>)
      requires block.Length == PaletteSize
      ensures fresh(pal) && pal[..] == PaletteOf(block[..])
    {
      pal := new Color[Colors];
      for i := 0 to Colors
        invariant forall j :: 0 <= j < i ==> pal[j] == Color(block[3 * j + 1], block[3 * j + 1], block[3 * j])
      {
        pal[i] := Color(block[i * 3 + 1], block[i * 3 + 1], block[i * 3]);
      }
    }

    /** The picture: one black pixel when there are no pixels or no
        palette; otherwise pixel `(x, y)` is the palette entry that pixel
        byte `y * width + x` selects. A pixel byte past the buffer or a
        palette index past the palette is an error, and so are dimensions
        no picture can have. */
    method GetImage() returns (r: Result<Picture>)
      ensures base.pixelData.Length == 0 || palette.Length == 0 ==> r == Ok(Blank)
      ensures base.pixelData.Length > 0 && palette.Length > 0 ==>
        if base.width <= 0 || base.height <= 0 then r == Err(InvalidBufferSize)
        else if base.width * base.height > base.pixelData.Length then r == Err(IndexOutOfRange)
        else if exists k :: 0 <= k < base.width * base.height && base.pixelData[k] >= palette.Length then
          r == Err(IndexOutOfRange)
        else r == Ok(Picture(base.width, base.height,
                            Colored(palette[..], base.pixelData[..], base.width * base.height)))
    {
      var pixels, pal := base.pixelData, palette;
      if pixels.Length == 0 || pal.Length == 0 {
        return Ok(Blank);
      }
      var w, h := base.width, base.height;
      if w <= 0 || h <= 0 {
        return Err(InvalidBufferSize);
      }
      var ok, img := Paint(pixels, pal, w, h);
      if !ok {
        return Err(IndexOutOfRange);
      }
      return Ok(Picture(w, h, img[..]));
    }

    /** The pixel loop of `GetImage`: row by row, each pixel byte looked
        up in the palette; stops at the first pixel past the end of either
        array. */
    static method Paint(pixels: array<byte>, pal: array<Color>, w: int, h: int)
        returns (ok: bool, img: array<Color>)
      requires w > 0 && h > 0
      ensures ok <==> Fits(pixels[..], |pal[..]|, w * h)
      ensures ok ==> img[..] == Colored(pal[..], pixels[..], w * h)
    {
      img := new Color[w * h];
      ghost var done := 0;
      for y := 0 to h
        invariant done == y * w
        invariant Painted(img[..], pixels[..], pal[..], done)
      {
        RowStart(y, w, h);
        for x := 0 to w
          invariant done == y * w + x
          invariant Painted(img[..], pixels[..], pal[..], done)
        {
          var index := y * w + x;
          if index >= pixels.Length || pixels[index] >= pal.Length {
            assert index < w * h;
            return false, img;
          }
          img[index] := pal[pixels[index]];
          done := done + 1;
        }
      }
      assert h * w == w * h;
      return true, img;
    }

    /** The file bytes: header, the grey palette, the payload; nothing
        when there is no payload, and an error when the stream capacity
        asked for, payload plus 788 bytes, is more than an `int`. The
        payload of this kind is never encrypted, so neither the key holder
        nor the flag is used. */
    method GetRCIamge(file: Cipher.RCFile, encrypt: bool) returns (out: Result<seq<byte>>)
      requires IsInt32(base.width) && IsInt32(base.height)
      ensures base.rctRawData.Length == 0 ==> out == Ok([])
      ensures base.rctRawData.Length + 20 + PaletteSize > MaxStreamLength ==> out == Err(StreamTooLong)
      ensures 0 < base.rctRawData.Length && base.rctRawData.Length + 20 + PaletteSize <= MaxStreamLength ==>
        out == Ok(Rc8File(base.width, base.height, base.rctRawData[..]))
    {
      var raw := base.rctRawData;
      if raw.Length == 0 {
        return Ok([]);
      }
      if raw.Length + 20 + PaletteSize > MaxStreamLength {
        return Err(StreamTooLong);
      }
      var bytes := UInt32Bytes(Magic) + UInt32Bytes(Tag);
      bytes := bytes + Int32Bytes(base.width);
      bytes := bytes + Int32Bytes(base.height);
      bytes := bytes + Int32Bytes(raw.Length);
      var grey: seq<byte> := [];
      for i := 0 to Colors
        invariant grey == GreyRamp(i)
      {
        grey := grey + [i, i, i];
      }
      bytes := bytes + grey;
      bytes := bytes + raw[..];
      return Ok(bytes);
    }
  }
}
