/** The conversions of the container tool `RCFile`: opening an image file
    of either kind, turning a picture into an RCT file (and, for a picture
    with alpha, an RC8 mask file beside it), and blending an opened RCT
    image with its RC8 mask. The key the tool holds is `Cipher.RCFile`. */
module Files {
  import opened Common
  import opened Streams
  import opened Cipher
  import Encoder
  import RoundTrip
  import Rct
  import Rc8

  /** The type bytes after the magic word: '8' and 'T'. */
  const Rc8Type: byte := 0x38
  const RctType: byte := 0x54

  /** The first five bytes `OpenRCImage` reads: the magic word, which it
      asserts, and the type byte. */
  function FileType(s: seq<byte>): Result<byte> {
    if |s| < 4 then Err(EndOfStream)
    else if UInt32Of(s[..4]) != Magic then Err(AssertionFailed)
    else if |s| < 5 then Err(EndOfStream)
    else Ok(s[4])
  }

  /** An opened image of either kind. */
  datatype Opened = Rc8Of(rc8: Rc8.RC8Image) | RctOf(rct: Rct.RCTImage)

  /** `img` holds the dimensions and pixels `l` describes. */
  predicate HoldsRct(img: Rct.RCTImage, l: Rct.Loaded)
    reads img.base, img.base.pixelData
  {
    img.Valid() && img.base.width == l.width && img.base.height == l.height && img.base.pixelData[..] == l.pixels
  }

  /** `img` holds the dimensions, palette and pixels `l` describes. */
  predicate HoldsRc8(img: Rc8.RC8Image, l: Rc8.Loaded)
    reads img, img.base, img.base.pixelData, img.palette
  {
    && img.Valid() && img.base.width == l.width && img.base.height == l.height
    && img.palette[..] == l.palette && img.base.pixelData[..] == l.pixels
  }

  /** Opens the file `bytes`: the magic word, the type byte, then the
      reader of that kind, given the key holder for the RCT payload. */
  method OpenRCImage(file: RCFile, bytes: seq<byte>) returns (r: Result<Opened>)
    requires file.Valid()
    ensures FileType(bytes).Err? ==> r == Err(FileType(bytes).error)
    ensures FileType(bytes).Ok? && FileType(bytes).value != Rc8Type && FileType(bytes).value != RctType ==>
      r == Err(UnknownFormat(FileType(bytes).value))
    ensures FileType(bytes) == Ok(Rc8Type) ==>
      match Rc8.Load(bytes[5..])
      case Err(e) => r == Err(e)
      case Ok(l) => r.Ok? && r.value.Rc8Of? && fresh(r.value.rc8) && HoldsRc8(r.value.rc8, l)
    ensures FileType(bytes) == Ok(RctType) ==>
      match Rct.Load(bytes[5..], file.imgKey)
      case Err(e) => r == Err(e)
      case Ok(l) => r.Ok? && r.value.RctOf? && fresh(r.value.rct) && HoldsRct(r.value.rct, l)
  {
    var br := new Reader(bytes);
    var magic := br.ReadUInt32();
    if magic.Err? {
      return Err(magic.error);
    }
    if magic.value != Magic {
      return Err(AssertionFailed);
    }
    var t := br.ReadByte();
    if t.Err? {
      return Err(t.error);
    }
    assert bytes[4..][1..] == bytes[5..];
    if t.value == Rc8Type {
      r := OpenRc8(br);
    } else if t.value == RctType {
      r := OpenRct(br, file);
    } else {
      r := Err(UnknownFormat(t.value));
    }
  }

  /** The RC8 branch of `OpenRCImage`. */
  method OpenRc8(br: Reader) returns (r: Result<Opened>)
    modifies br`pos
    ensures match Rc8.Load(old(br.Remaining()))
      case Err(e) => r == Err(e)
      case Ok(l) => r.Ok? && r.value.Rc8Of? && fresh(r.value.rc8) && HoldsRc8(r.value.rc8, l)
  {
    var ret := new Rc8.RC8Image();
    var o := ret.FromRCT(br);
    if o.Failed? {
      return Err(o.error);
    }
    return Ok(Rc8Of(ret));
  }

  /** The RCT branch of `OpenRCImage`. */
  method OpenRct(br: Reader, file: RCFile) returns (r: Result<Opened>)
    requires file.Valid()
    modifies br`pos
    ensures match Rct.Load(old(br.Remaining()), file.imgKey)
      case Err(e) => r == Err(e)
      case Ok(l) => r.Ok? && r.value.RctOf? && fresh(r.value.rct) && HoldsRct(r.value.rct, l)
  {
    var ret := new Rct.RCTImage();
    var o := ret.FromRCT(br, file);
    if o.Failed? {
      return Err(o.error);
    }
    return Ok(RctOf(ret));
  }

  /** A file `GetRCIamge` of an RCT image writes is opened as an RCT image. */
  lemma RctFileType(sealed: bool, width: int, height: int, payload: seq<byte>)
    requires IsInt32(width) && IsInt32(height) && IsInt32(|payload|)
    ensures FileType(Rct.RctFile(sealed, width, height, payload)) == Ok(RctType)
  {
    Rct.RctFileLayout(sealed, width, height, payload);
    UInt32RoundTrip(Magic);
  }

  /** A file `GetRCIamge` of an RC8 image writes is opened as an RC8 image. */
  lemma Rc8FileType(width: int, height: int, payload: seq<byte>)
    requires IsInt32(width) && IsInt32(height) && IsInt32(|payload|)
    ensures FileType(Rc8.Rc8File(width, height, payload)) == Ok(Rc8Type)
  {
    Rc8.Rc8FileLayout(width, height, payload);
    UInt32RoundTrip(Magic);
  }

  /** A picture as ImageSharp hands it over: the color depth of the source
      file and the pixels in row-major order. A 24-bit picture has no alpha
      channel; its `a` components are not read. */
  datatype Pixel = Pixel(r: byte, g: byte, b: byte, a: byte)
  datatype Picture = Picture(bpp: int, width: int, height: int, pixels: seq<Pixel>)

  /** What a decoded picture always satisfies: positive 32-bit dimensions
      and one pixel per position. */
  predicate Decoded(src: Picture) {
    && 0 < src.width && IsInt32(src.width) && 0 < src.height && IsInt32(src.height)
    && |src.pixels| == src.width * src.height
  }

  /** The pixel buffer of an RCT image: blue, green, red for each pixel. */
  function Bgr(px: seq<Pixel>): (s: seq<byte>)
    ensures |s| == 3 * |px|
  {
    if |px| == 0 then []
    else var p := px[|px| - 1]; Bgr(px[..|px| - 1]) + [p.b, p.g, p.r]
  }

  /** The pixel buffer of the RC8 mask: `(byte)~a`, that is `255 - a`, for
      each pixel. */
  function Inverted(px: seq<Pixel>): (s: seq<byte>)
    ensures |s| == |px|
  {
    if |px| == 0 then [] else Inverted(px[..|px| - 1]) + [255 - px[|px| - 1].a]
  }

  /** Blue, green, red, alpha for each pixel: the `Bgra32` layout. */
  function Bgra(px: seq<Pixel>): (s: seq<byte>)
    ensures |s| == 4 * |px|
  {
    if |px| == 0 then []
    else var p := px[|px| - 1]; Bgra(px[..|px| - 1]) + [p.b, p.g, p.r, p.a]
  }

  /** One more pixel adds its three color bytes and its mask byte. */
  lemma SplitStep(px: seq<Pixel>, n: nat)
    requires n < |px|
    ensures Bgr(px[..n + 1]) == Bgr(px[..n]) + [px[n].b, px[n].g, px[n].r]
    ensures Inverted(px[..n + 1]) == Inverted(px[..n]) + [255 - px[n].a]
  {
    assert px[..n + 1][..n] == px[..n];
  }

  /** The three color stores of one pixel, blue at `index`. */
  method PutColors(pixels: array<byte>, index: nat, pixel: Pixel, ghost px: seq<Pixel>, ghost n: nat)
    requires n < |px| && px[n] == pixel && index == 3 * n && index + 3 <= pixels.Length
    requires pixels[..index] == Bgr(px[..n])
    modifies pixels
    ensures pixels[..index + 3] == Bgr(px[..n + 1])
  {
    ghost var before := pixels[..];
    pixels[index + 2] := pixel.r;
    pixels[index + 1] := pixel.g;
    pixels[index + 0] := pixel.b;
    StoredAfter(before, pixels[..], index, [pixel.b, pixel.g, pixel.r]);
    SplitStep(px, n);
  }

  /** The stores of one pixel in the 32-bit case: the inverted alpha at
      `index` of the mask, then the colors at `3 * index`. */
  method PutMasked(pixels: array<byte>, mask: array<byte>, index: nat, pixel: Pixel,
                   ghost px: seq<Pixel>, ghost n: nat)
    requires pixels != mask
    requires n < |px| && px[n] == pixel && index == n < mask.Length && 3 * index + 3 <= pixels.Length
    requires mask[..index] == Inverted(px[..n]) && pixels[..3 * index] == Bgr(px[..n])
    modifies pixels, mask
    ensures mask[..index + 1] == Inverted(px[..n + 1])
    ensures pixels[..3 * index + 3] == Bgr(px[..n + 1])
  {
    ghost var before := mask[..];
    mask[index] := 255 - pixel.a;
    StoredAfter(before, mask[..], index, [255 - pixel.a]);
    SplitStep(px, n);
    PutColors(pixels, index * 3, pixel, px, n);
  }

  /** The loop of the 24-bit case: pixel `(x, y)` goes to bytes
      `3 * (y * width + x)` onwards as blue, green, red. */
  method SplitColors(src: Picture) returns (pixels: array<byte>)
    requires Decoded(src)
    ensures fresh(pixels) && pixels[..] == Bgr(src.pixels)
  {
    var w, h := src.width, src.height;
    pixels := new byte[w * h * 3];
    ghost var done := 0;
    for y := 0 to h
      invariant done == y * w <= w * h
      invariant pixels[..3 * done] == Bgr(src.pixels[..done])
    {
      Rc8.RowStart(y, w, h);
      for x := 0 to w
        invariant done == y * w + x <= w * h
        invariant pixels[..3 * done] == Bgr(src.pixels[..done])
      {
        assert y * w + x == done;
        var index := (y * w + x) * 3;
        var pixel := src.pixels[y * w + x];
        PutColors(pixels, index, pixel, src.pixels, done);
        done := done + 1;
      }
    }
    assert h * w == w * h;
    assert src.pixels[..done] == src.pixels;
  }

  /** The loop of the 32-bit case: the colors as in `SplitColors`, and the
      inverted alpha of pixel `(x, y)` at `y * width + x` of the mask. */
  method SplitAlpha(src: Picture) returns (pixels: array<byte>, mask: array<byte>)
    requires Decoded(src)
    ensures fresh(pixels) && pixels[..] == Bgr(src.pixels)
    ensures fresh(mask) && mask[..] == Inverted(src.pixels)
  {
    var w, h := src.width, src.height;
    pixels := new byte[w * h * 3];
    mask := new byte[w * h];
    ghost var done := 0;
    for y := 0 to h
      invariant done == y * w <= w * h
      invariant pixels[..3 * done] == Bgr(src.pixels[..done])
      invariant mask[..done] == Inverted(src.pixels[..done])
    {
      Rc8.RowStart(y, w, h);
      for x := 0 to w
        invariant done == y * w + x <= w * h
        invariant pixels[..3 * done] == Bgr(src.pixels[..done])
        invariant mask[..done] == Inverted(src.pixels[..done])
      {
        var index := y * w + x;
        assert index == done;
        PutMasked(pixels, mask, index, src.pixels[index], src.pixels, done);
        done := done + 1;
      }
    }
    assert h * w == w * h;
    assert src.pixels[..done] == src.pixels;
  }

  /** The RCT file of an image with pixel buffer `rgb`: the encoded payload,
      encrypted when asked to and a key is set; nothing for an empty
      payload; an error when the writer's stream cannot hold the file. */
  function RctBytes(key: seq<byte>, encrypt: bool, width: int, height: int, rgb: seq<byte>): Result<seq<byte>>
    requires |key| == 0 || |key| == KeySize
    requires IsInt32(width) && IsInt32(height)
  {
    match Encoder.Encode(Rct.Kind(width), height, rgb, true)
    case Err(e) => Err(e)
    case Ok(raw) =>
      var sealed := encrypt && |key| == KeySize;
      if |raw| == 0 then Ok([])
      else if |raw| + 20 > MaxStreamLength then Err(StreamTooLong)
      else Ok(Rct.RctFile(sealed, width, height, if sealed then Crypted(key, raw) else raw))
  }

  /** The RC8 file of an image with pixel bytes `mask`. */
  function Rc8Bytes(width: int, height: int, mask: seq<byte>): Result<seq<byte>>
    requires IsInt32(width) && IsInt32(height)
  {
    match Encoder.Encode(Rc8.Kind(width), height, mask, true)
    case Err(e) => Err(e)
    case Ok(raw) =>
      if |raw| == 0 then Ok([])
      else if |raw| + 20 + Rc8.PaletteSize > MaxStreamLength then Err(StreamTooLong)
      else Ok(Rc8.Rc8File(width, height, raw))
  }

  /** The files `PNGToRC` writes: the RCT file, and for a picture with alpha
      the RC8 mask file. */
  datatype Written = Written(rct: seq<byte>, mask: Option<seq<byte>>)

  /** What `PNGToRC` writes for `src`, or the error that stops it. */
  function Converted(key: seq<byte>, encrypt: bool, src: Picture): Result<Written>
    requires |key| == 0 || |key| == KeySize
    requires Decoded(src)
  {
    if src.bpp != 24 && src.bpp != 32 then Err(UnsupportedBpp)
    else if !IsInt32(3 * |src.pixels|) then Err(InvalidBufferSize)
    else if src.bpp == 24 then
      match RctBytes(key, encrypt, src.width, src.height, Bgr(src.pixels))
      case Err(e) => Err(e)
      case Ok(f) => Ok(Written(f, None))
    else
      match RctBytes(key, encrypt, src.width, src.height, Bgr(src.pixels))
      case Err(e) => Err(e)
      case Ok(f) =>
        match Rc8Bytes(src.width, src.height, Inverted(src.pixels))
        case Err(e) => Err(e)
        case Ok(g) => Ok(Written(f, Some(g)))
  }

  /** Converts a decoded picture: a 24-bit one into an RCT image, a 32-bit
      one into an RCT image of its colors and an RC8 image of its inverted
      alpha; any other depth is refused, and so is a picture whose
      `width * height * 3` overflows the `int` size of the color buffer.
      Returns the file contents. */
  method PNGToRC(file: RCFile, src: Picture, encrypt: bool) returns (r: Result<Written>)
    requires file.Valid() && Decoded(src)
    ensures r == Converted(file.imgKey, encrypt, src)
  {
    if src.bpp != 24 && src.bpp != 32 {
      return Err(UnsupportedBpp);
    }
    if !IsInt32(3 * |src.pixels|) {
      return Err(InvalidBufferSize);
    }
    if src.bpp == 24 {
      var pixels := SplitColors(src);
      var f := EncodeRct(file, pixels, src.width, src.height, encrypt);
      if f.Err? {
        return Err(f.error);
      }
      return Ok(Written(f.value, None));
    } else {
      var pixels, mask := SplitAlpha(src);
      var f := EncodeRct(file, pixels, src.width, src.height, encrypt);
      if f.Err? {
        return Err(f.error);
      }
      var g := EncodeRc8(file, mask, src.width, src.height, encrypt);
      if g.Err? {
        return Err(g.error);
      }
      return Ok(Written(f.value, Some(g.value)));
    }
  }

  /** A new RCT image from `pixels`, packed and written out. */
  method EncodeRct(file: RCFile, pixels: array<byte>, width: int, height: int, encrypt: bool)
      returns (r: Result<seq<byte>>)
    requires file.Valid() && IsInt32(width) && IsInt32(height)
    ensures r == RctBytes(file.imgKey, encrypt, width, height, pixels[..])
  {
    var rctImage := new Rct.RCTImage();
    assert rctImage.base.Layout() == Rct.Kind(0);
    var o := rctImage.base.FromPixels(pixels, width, height);
    assert rctImage.base.Layout() == Rct.Kind(width);
    if o.Failed? {
      return Err(o.error);
    }
    r := rctImage.GetRCIamge(file, encrypt);
  }

  /** A new RC8 image from `mask`, packed and written out. */
  method EncodeRc8(file: RCFile, mask: array<byte>, width: int, height: int, encrypt: bool)
      returns (r: Result<seq<byte>>)
    requires IsInt32(width) && IsInt32(height)
    ensures r == Rc8Bytes(width, height, mask[..])
  {
    var rc8Image := new Rc8.RC8Image();
    assert rc8Image.base.Layout() == Rc8.Kind(0);
    var o := rc8Image.base.FromPixels(mask, width, height);
    assert rc8Image.base.Layout() == Rc8.Kind(width);
    if o.Failed? {
      return Err(o.error);
    }
    r := rc8Image.GetRCIamge(file, encrypt);
  }

  /** The alpha `BlendRCTImages` gives a mask color: 255 less the mean of
      its components. */
  function AlphaOf(c: Rc8.Color): byte {
    255 - (c.r + c.g + c.b) / 3
  }

  /** The reads of the first `n` pixels stay inside the color buffer, the
      mask and the palette. */
  predicate BlendFits(rgb: seq<byte>, mask: seq<byte>, colors: nat, n: nat) {
    3 * n <= |rgb| && n <= |mask| && forall k :: 0 <= k < n ==> mask[k] < colors
  }

  /** The `Bgra32` buffer of the first `n` pixels: the three color bytes of
      each pixel, then the alpha its mask color gives. */
  function Blended(rgb: seq<byte>, palette: seq<Rc8.Color>, mask: seq<byte>, n: nat): (s: seq<byte>)
    requires BlendFits(rgb, mask, |palette|, n)
    ensures |s| == 4 * n
  {
    if n == 0 then []
    else Blended(rgb, palette, mask, n - 1) + rgb[3 * (n - 1)..3 * n] + [AlphaOf(palette[mask[n - 1]])]
  }

  /** The first `n` pixels of `out` are blended. */
  predicate BlendedUpTo(out: seq<byte>, rgb: seq<byte>, palette: seq<Rc8.Color>, mask: seq<byte>, n: nat) {
    BlendFits(rgb, mask, |palette|, n) && 4 * n <= |out| && out[..4 * n] == Blended(rgb, palette, mask, n)
  }

  /** The color image with its mask as one `Bgra32` buffer, row by row;
      a read outside either image is an error, and so are dimensions the
      image library refuses. */
  method BlendRCTImages(rgbImage: Rct.RCTImage, alphaImage: Rc8.RC8Image) returns (r: Result<seq<byte>>)
    ensures var w, h := rgbImage.base.width, rgbImage.base.height;
      var rgb, mask := rgbImage.base.pixelData[..], alphaImage.base.pixelData[..];
      if w <= 0 || h <= 0 then r == Err(InvalidBufferSize)
      else if BlendFits(rgb, mask, alphaImage.palette.Length, w * h) then
        r == Ok(Blended(rgb, alphaImage.palette[..], mask, w * h))
      else r == Err(IndexOutOfRange)
  {
    var w, h := rgbImage.base.width, rgbImage.base.height;
    if w <= 0 || h <= 0 {
      return Err(InvalidBufferSize);
    }
    var ok, out := Blend(rgbImage.base.pixelData, alphaImage.base.pixelData, alphaImage.palette, w, h);
    if !ok {
      return Err(IndexOutOfRange);
    }
    return Ok(out[..]);
  }

  /** The pixel loop of `BlendRCTImages`. */
  method Blend(rgb: array<byte>, mask: array<byte>, palette: array<Rc8.Color>, w: int, h: int)
      returns (ok: bool, out: array<byte>)
    requires w > 0 && h > 0
    ensures ok <==> BlendFits(rgb[..], mask[..], palette.Length, w * h)
    ensures ok ==> out[..] == Blended(rgb[..], palette[..], mask[..], w * h)
  {
    out := new byte[w * h * 4];
    ghost var R, M, C := rgb[..], mask[..], palette[..];
    for y := 0 to h
      invariant rgb[..] == R && mask[..] == M && palette[..] == C
      invariant BlendedUpTo(out[..], R, C, M, y * w)
    {
      Rc8.RowStart(y, w, h);
      ok := BlendRow(out, rgb, mask, palette, w, h, y, R, M, C);
      if !ok {
        return false, out;
      }
    }
    assert h * w == w * h;
    return true, out;
  }

  /** The inner loop of `Blend`: row `y`. */
  method BlendRow(out: array<byte>, rgb: array<byte>, mask: array<byte>, palette: array<Rc8.Color>,
                  w: int, h: int, y: int, ghost R: seq<byte>, ghost M: seq<byte>, ghost C: seq<Rc8.Color>)
      returns (ok: bool)
    requires 0 <= y < h && w > 0 && out.Length == w * h * 4
    requires out != rgb && out != mask
    requires rgb[..] == R && mask[..] == M && palette[..] == C
    requires BlendedUpTo(out[..], R, C, M, y * w)
    modifies out
    ensures ok ==> BlendedUpTo(out[..], R, C, M, y * w + w)
    ensures !ok ==> !BlendFits(R, M, |C|, w * h)
  {
    Rc8.RowStart(y, w, h);
    for x := 0 to w
      invariant BlendedUpTo(out[..], R, C, M, y * w + x)
    {
      var index := y * w + x;
      if index >= mask.Length || mask[index] >= palette.Length || index * 3 + 2 >= rgb.Length {
        return false;
      }
      PutBlended(out, index, rgb, mask, palette, R, M, C);
    }
    return true;
  }

  /** The four stores of one pixel of `Blend`. */
  method PutBlended(out: array<byte>, index: nat, rgb: array<byte>, mask: array<byte>, palette: array<Rc8.Color>,
                    ghost R: seq<byte>, ghost M: seq<byte>, ghost C: seq<Rc8.Color>)
    requires out != rgb && out != mask
    requires rgb[..] == R && mask[..] == M && palette[..] == C
    requires BlendedUpTo(out[..], R, C, M, index)
    requires index < |M| && M[index] < |C| && 3 * index + 3 <= |R|
    requires 4 * index + 4 <= out.Length
    modifies out
    ensures BlendedUpTo(out[..], R, C, M, index + 1)
  {
    ghost var before := out[..];
    var alphaPix := palette[mask[index]];
    out[index * 4 + 0] := rgb[index * 3 + 0];
    out[index * 4 + 1] := rgb[index * 3 + 1];
    out[index * 4 + 2] := rgb[index * 3 + 2];
    out[index * 4 + 3] := AlphaOf(alphaPix);
    StoredAfter(before, out[..], 4 * index, R[3 * index..3 * index + 3] + [AlphaOf(alphaPix)]);
  }

  /** Pixel `i` of a picture is bytes `3i .. 3i + 2` of its color buffer. */
  lemma {:induction false} BgrAt(px: seq<Pixel>, i: nat)
    requires i < |px|
    ensures Bgr(px)[3 * i..3 * i + 3] == [px[i].b, px[i].g, px[i].r]
  {
    var front := px[..|px| - 1];
    var p := px[|px| - 1];
    assert Bgr(px) == Bgr(front) + [p.b, p.g, p.r];
    if i < |px| - 1 {
      BgrAt(front, i);
      SliceOfFront(Bgr(front), [p.b, p.g, p.r], 3 * i, 3 * i + 3);
    } else {
      assert (Bgr(front) + [p.b, p.g, p.r])[3 * i..] == [p.b, p.g, p.r];
    }
  }

  lemma {:induction false} InvertedAt(px: seq<Pixel>, i: nat)
    requires i < |px|
    ensures Inverted(px)[i] == 255 - px[i].a
  {
    var front := px[..|px| - 1];
    assert Inverted(px) == Inverted(front) + [255 - px[|px| - 1].a];
    if i < |px| - 1 {
      InvertedAt(front, i);
    }
  }

  /** The mask of a pixel with alpha `a` is `255 - a`, the grey palette
      turns it into the color `(255 - a, 255 - a, 255 - a)`, and blending
      gives back `a`. */
  lemma GreyAlpha(a: byte)
    ensures AlphaOf(Rc8.Greys()[255 - a]) == a
  {
    var g := 255 - a;
    assert Rc8.Greys()[g] == Rc8.Color(g, g, g);
    assert (g + g + g) / 3 == g;
  }

  /** Blending the color buffer of a picture with its mask through the grey
      palette gives back the picture, alpha included. */
  lemma {:induction false} BlendRestores(px: seq<Pixel>, n: nat)
    requires n <= |px|
    ensures BlendFits(Bgr(px), Inverted(px), |Rc8.Greys()|, n)
    ensures Blended(Bgr(px), Rc8.Greys(), Inverted(px), n) == Bgra(px[..n])
  {
    if n > 0 {
      BlendRestores(px, n - 1);
      BgrAt(px, n - 1);
      InvertedAt(px, n - 1);
      GreyAlpha(px[n - 1].a);
      assert px[..n][..n - 1] == px[..n - 1];
    }
  }

  lemma SliceOfFront(front: seq<byte>, back: seq<byte>, lo: nat, hi: nat)
    requires lo <= hi <= |front|
    ensures (front + back)[lo..hi] == front[lo..hi]
  {
  }

  /** Packing a color buffer, writing it out (encrypted or not) and opening
      the file with the same key gives back the buffer. The only way the
      write fails is a file too long for the writer's stream, and a buffer
      of at most `(MaxStreamLength - 23) / 9` bytes is never too long. */
  lemma RctReopens(key: seq<byte>, encrypt: bool, width: int, height: int, rgb: seq<byte>)
    requires |key| == 0 || |key| == KeySize
    requires IsInt32(width) && IsInt32(height)
    requires |rgb| == width * height * Rct.Depth && |rgb| > 0
    ensures Encoder.Encode(Rct.Kind(width), height, rgb, true).Ok?
    ensures RctBytes(key, encrypt, width, height, rgb) == Err(StreamTooLong) <==>
      |Encoder.Encode(Rct.Kind(width), height, rgb, true).value| + 20 > MaxStreamLength
    ensures RctBytes(key, encrypt, width, height, rgb).Ok? || RctBytes(key, encrypt, width, height, rgb) == Err(StreamTooLong)
    ensures RctBytes(key, encrypt, width, height, rgb).Ok? ==>
      var f := RctBytes(key, encrypt, width, height, rgb).value;
      FileType(f) == Ok(RctType) && Rct.Load(f[5..], key) == Ok(Rct.Loaded(width, height, rgb))
    ensures 9 * |rgb| + 23 <= MaxStreamLength ==> RctBytes(key, encrypt, width, height, rgb).Ok?
  {
    var pr := Rct.Kind(width);
    RoundTrip.DecodeEncode(pr, height, rgb);
    Encoder.EncodeLength(pr, height, rgb, true);
    var raw := Encoder.Encode(pr, height, rgb, true).value;
    assert |raw| >= Rct.Depth;
    if |raw| + 20 <= MaxStreamLength {
      var sealed := encrypt && |key| == KeySize;
      var payload := if sealed then Crypted(key, raw) else raw;
      RctFileType(sealed, width, height, payload);
      Rct.ParseRctFile(sealed, width, height, payload);
      if sealed {
        CryptedTwice(key, raw);
      }
    }
  }

  /** Packing a mask and writing it out: opening the file gives back the
      mask and the grey palette. The only way the write fails is a file too
      long for the writer's stream. */
  lemma Rc8Reopens(width: int, height: int, mask: seq<byte>)
    requires IsInt32(width) && IsInt32(height)
    requires |mask| == width * height * Rc8.Depth && |mask| > 0
    ensures Encoder.Encode(Rc8.Kind(width), height, mask, true).Ok?
    ensures Rc8Bytes(width, height, mask) == Err(StreamTooLong) <==>
      |Encoder.Encode(Rc8.Kind(width), height, mask, true).value| + 20 + Rc8.PaletteSize > MaxStreamLength
    ensures Rc8Bytes(width, height, mask).Ok? || Rc8Bytes(width, height, mask) == Err(StreamTooLong)
    ensures Rc8Bytes(width, height, mask).Ok? ==>
      var f := Rc8Bytes(width, height, mask).value;
      FileType(f) == Ok(Rc8Type) && Rc8.Load(f[5..]) == Ok(Rc8.Loaded(width, height, Rc8.Greys(), mask))
    ensures 9 * |mask| + 23 + Rc8.PaletteSize <= MaxStreamLength ==> Rc8Bytes(width, height, mask).Ok?
  {
    var pr := Rc8.Kind(width);
    RoundTrip.DecodeEncode(pr, height, mask);
    Encoder.EncodeLength(pr, height, mask, true);
    var raw := Encoder.Encode(pr, height, mask, true).value;
    assert |raw| >= Rc8.Depth;
    if |raw| + 20 + Rc8.PaletteSize <= MaxStreamLength {
      Rc8FileType(width, height, raw);
      Rc8.ParseRc8File(width, height, raw);
    }
  }

  /** Converting a 24- or 32-bit picture and opening the RCT file written
      gives back its colors; only a 32-bit picture gets a mask file. The
      conversion fails only when `width * height * 3` overflows an `int` or
      a file is too long for its stream, and a picture of at most
      `(MaxStreamLength - 791) / 27` pixels always converts. */
  lemma PictureRoundTrip(key: seq<byte>, encrypt: bool, src: Picture)
    requires |key| == 0 || |key| == KeySize
    requires Decoded(src) && (src.bpp == 24 || src.bpp == 32)
    ensures var c := Converted(key, encrypt, src);
      c.Ok? || c == Err(InvalidBufferSize) || c == Err(StreamTooLong)
    ensures Converted(key, encrypt, src) == Err(InvalidBufferSize) <==> !IsInt32(3 * |src.pixels|)
    ensures Converted(key, encrypt, src).Ok? ==>
      var out := Converted(key, encrypt, src).value;
      && FileType(out.rct) == Ok(RctType)
      && Rct.Load(out.rct[5..], key) == Ok(Rct.Loaded(src.width, src.height, Bgr(src.pixels)))
      && (src.bpp == 24 <==> out.mask == None)
    ensures 27 * |src.pixels| + 23 + Rc8.PaletteSize <= MaxStreamLength ==> Converted(key, encrypt, src).Ok?
  {
    var w, h, px := src.width, src.height, src.pixels;
    if IsInt32(3 * |px|) {
      assert |px| > 0 by { RoundTrip.MulMono(1, h, w); }
      RctReopens(key, encrypt, w, h, Bgr(px));
      if src.bpp == 32 {
        Rc8Reopens(w, h, Inverted(px));
      }
    }
  }

  /** For a 32-bit picture the mask file, when the conversion succeeds,
      opens as the inverted alpha with the grey palette, and blending it
      with the colors gives back every pixel with its alpha. */
  lemma MaskRoundTrip(key: seq<byte>, encrypt: bool, src: Picture)
    requires |key| == 0 || |key| == KeySize
    requires Decoded(src) && src.bpp == 32
    ensures Converted(key, encrypt, src).Ok? ==>
      && Converted(key, encrypt, src).value.mask.Some?
      && var mask := Converted(key, encrypt, src).value.mask.value;
      && FileType(mask) == Ok(Rc8Type)
      && Rc8.Load(mask[5..]) == Ok(Rc8.Loaded(src.width, src.height, Rc8.Greys(), Inverted(src.pixels)))
    ensures Blended(Bgr(src.pixels), Rc8.Greys(), Inverted(src.pixels), src.width * src.height) == Bgra(src.pixels)
  {
    var w, h, px := src.width, src.height, src.pixels;
    PictureRoundTrip(key, encrypt, src);
    if Converted(key, encrypt, src).Ok? {
      Rc8Reopens(w, h, Inverted(px));
    }
    BlendRestores(px, |px|);
    assert px[..|px|] == px;
  }
}
