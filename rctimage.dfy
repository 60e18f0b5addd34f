/** The 24-bit image kind (`.rct`): its shift table, the container header
    that `FromRCT` reads and `GetRCIamge` writes, and the optional
    encryption of the payload with the key of an `RCFile`. */
module Rct {
  import opened Common
  import opened BitLayout
  import opened Decoder
  import opened Encoder
  import RoundTrip
  import opened Image
  import opened Streams
  import opened Cipher

  /** The 32 codes of the 24-bit kind. */
  const CodeTable: seq<sbyte> := [
    -16, -32, -48, -64, -80, -96,  49,  33,
     17,   1, -15, -31, -47,  50,  34,  18,
      2, -14, -30, -46,  51,  35,  19,   3,
    -13, -29, -45,  36,  20,   4, -12, -28
  ]

  /** Three bytes per pixel. */
  const Depth: nat := 3

  /** The codec parameters of a 24-bit image `width` pixels wide. */
  function Kind(width: int): (pr: Params)
    ensures Valid(pr) && pr.table == CodeTable && pr.width == width && pr.depth == Depth
  {
    Params(CodeTable, width, Depth)
  }

  /** Every code reaches one to four rows up, or left along its row, by at
      most six columns to either side. */
  lemma TableIsNear()
    ensures forall i :: 0 <= i < |CodeTable| ==> NearBackward(CodeTable[i])
  {
  }

  /** For images at least four pixels wide every code points strictly
      backward. */
  lemma {:induction false} TableBackward(width: int)
    requires width >= 4
    ensures AllBackward(Kind(width))
  {
    TableIsNear();
    forall i | 0 <= i < |CodeTable|
      ensures Delta(Kind(width), i) < 0
    {
      BackwardForWideImages(CodeTable[i], width);
    }
  }

  /** The round trip for 24-bit images at least four pixels wide, with the
      search exactly as written. */
  lemma WideRoundTrip(width: int, height: int, p: seq<byte>)
    requires width >= 4 && |p| == width * height * Depth && |p| > 0
    ensures Encode(Kind(width), height, p, false).Ok?
    ensures Decode(Kind(width), height, Encode(Kind(width), height, p, false).value) == Ok(p)
  {
    TableBackward(width);
    RoundTrip.EncodeGuardIrrelevant(Kind(width), height, p);
    RoundTrip.DecodeEncode(Kind(width), height, p);
  }

  /** A match run from a pixel at or before `cur` stays inside the buffer. */
  lemma {:induction false} RunInside(p: seq<byte>, prev: nat, cur: nat, limit: nat)
    requires prev <= cur <= limit && limit * Depth <= |p|
    ensures MatchRun(p, Depth, prev, cur, limit).Ok?
    decreases limit - cur
  {
    if cur < limit {
      SameFromInBounds(p, prev * Depth, cur * Depth, 0, Depth);
      RunInside(p, prev + 1, cur + 1, limit);
    }
  }

  /** In rows of three pixels or more no code points forward. */
  lemma {:induction false} TableNeverForward(width: int)
    requires width >= 3
    ensures forall i :: 0 <= i < |Kind(width).table| ==> Delta(Kind(width), i) <= 0
  {
    TableIsNear();
    forall i | 0 <= i < |CodeTable|
      ensures Delta(Kind(width), i) <= 0
    {
      BackwardForWideImages(CodeTable[i], width);
    }
  }

  /** Once the best match reaches the limit, no later entry replaces it
      when no code points forward. */
  lemma {:induction false} SearchSaturated(pr: Params, p: seq<byte>, cur: nat, limit: nat, i: nat, best: Match)
    requires Valid(pr) && pr.depth == Depth && forall j :: 0 <= j < |pr.table| ==> Delta(pr, j) <= 0
    requires cur <= limit && limit * Depth <= |p| && i <= |pr.table|
    requires best.shiftIdx < |pr.table| && best.len == limit - cur
    ensures Search(pr, p, false, cur, limit, i, best) == Ok(best)
    decreases |pr.table| - i
  {
    if i < |pr.table| {
      if !Skipped(pr, false, cur, i) {
        RunInside(p, cur + Delta(pr, i), cur, limit);
      }
      assert Candidate(pr, p, false, cur, limit, i).Ok?;
      SearchSaturated(pr, p, cur, limit, i + 1, best);
    }
  }

  /** Three pixels of an image one row high and three wide: black, then
      two equal grey ones. */
  const NarrowPixels: seq<byte> := [0, 0, 0, 1, 1, 1, 1, 1, 1]

  /** Entry 0 points at the black pixel, entries 1 to 5 before the row. */
  lemma NarrowSearchSkips(pr: Params, P: seq<byte>)
    requires pr == Kind(3) && P == NarrowPixels
    ensures Search(pr, P, false, 1, 3, 0, Match(0, 0)) == Search(pr, P, false, 1, 3, 6, Match(0, 0))
  {
    NarrowDelta(pr, 0);
    assert SameFrom(P, 0, 3, 0, 3) == Ok(false);
    SearchPasses(pr, P, 1, 3, 0, Match(0, 0));
    for i := 1 to 6
      invariant Search(pr, P, false, 1, 3, 0, Match(0, 0)) == Search(pr, P, false, 1, 3, i, Match(0, 0))
    {
      NarrowDelta(pr, i);
      SearchPasses(pr, P, 1, 3, i, Match(0, 0));
    }
  }

  /** The pixel offsets of the first seven codes in a row of three. */
  lemma NarrowDelta(pr: Params, i: nat)
    requires pr == Kind(3) && i < 7
    ensures Delta(pr, i) == if i == 6 then 0 else -(i + 1)
  {
    assert pr.width == 3;
    if i == 6 {
      assert pr.table[6] == 49;
    } else {
      assert pr.table[i] % 16 == 0;
      assert pr.table[i] / 16 == -(i + 1);
    }
  }

  /** An entry of weight zero leaves the search as it was. */
  lemma SearchPasses(pr: Params, p: seq<byte>, cur: nat, limit: nat, i: nat, best: Match)
    requires Valid(pr) && cur <= limit && i < |pr.table|
    requires best.shiftIdx < |pr.table| && best.len <= limit - cur
    requires Candidate(pr, p, false, cur, limit, i) == Ok(0)
    ensures Search(pr, p, false, cur, limit, i, best) == Search(pr, p, false, cur, limit, i + 1, best)
  {
  }

  /** Entry 6, code 49, points zero pixels back and matches the rest of the
      row. */
  lemma NarrowSearchTakes49(pr: Params, P: seq<byte>)
    requires pr == Kind(3) && P == NarrowPixels
    ensures Search(pr, P, false, 1, 3, 6, Match(0, 0)) == Search(pr, P, false, 1, 3, 7, Match(6, 2))
  {
    NarrowDelta(pr, 6);
    assert SameFrom(P, 3, 3, 0, 3) == Ok(true);
    assert SameFrom(P, 6, 6, 0, 3) == Ok(true);
    assert MatchRun(P, 3, 1, 1, 3) == Ok(2);
    assert Candidate(pr, P, false, 1, 3, 6) == Ok(2);
  }

  /** Entry 6 with a run of two pixels: count field 1 below the index. */
  lemma CopyOf49()
    ensures CopyCommand(Kind(3), Match(6, 2)) == [153]
  {
    var pr := Kind(3);
    assert |pr.table| == 32;
    assert Pow2(2) == 4;
    assert CommandHead(pr, 6) == 152;
  }

  /** At the second pixel of that row the search as written takes code 49
      (`3 - width`, zero pixels back), which matches the pixel against itself
      up to the end of the row, and the encoder emits one copy command. */
  lemma NarrowImageEncodes()
    ensures Encode(Kind(3), 1, NarrowPixels, false) == Ok([0, 0, 0, 153])
  {
    NarrowEncoding(Kind(3), NarrowPixels);
  }

  /** The same with the parameters held in variables. */
  lemma NarrowEncoding(pr: Params, P: seq<byte>)
    requires pr == Kind(3) && P == NarrowPixels
    ensures Encode(pr, 1, P, false) == Ok([0, 0, 0, 153])
  {
    NarrowSearchSkips(pr, P);
    NarrowSearchTakes49(pr, P);
    TableNeverForward(3);
    SearchSaturated(pr, P, 1, 3, 7, Match(6, 2));
    assert SearchLimit(1, 3) == 3;
    EncodeFromCopyThen(pr, P, false, 1, 3, [], 0, Match(6, 2));
    CopyOf49();
    var rest := EncodeFrom(pr, P, false, 3, 3, [], 0);
    assert rest == Ok([]);
    var copy := CopyCommand(pr, Match(6, 2));
    assert copy == [153];
    var flushed := FlushBytes([], 0);
    assert flushed == [];
    assert EncodeFrom(pr, P, false, 1, 3, [], 0) == Ok(flushed + copy + rest.value);
    assert flushed + copy + rest.value == [153];
    assert |P| == 9 && pr.depth == 3 && |P| / pr.depth == 3;
    EncodeStarts(pr, 1, P, false, [153]);
    assert P[..3] == [0, 0, 0];
    BlackThen(P[..3], 153);
  }

  lemma BlackThen(a: seq<byte>, b: byte)
    requires a == [0, 0, 0]
    ensures a + [b] == [0, 0, 0, b]
  {
  }

  /** `Pack` writes the first pixel and then what the loop writes. */
  lemma EncodeStarts(pr: Params, height: int, p: seq<byte>, guard: bool, rest: seq<byte>)
    requires Valid(pr) && pr.width * height * pr.depth >= 0 && |p| >= pr.depth
    requires |p| / pr.depth * pr.depth <= |p|
    requires EncodeFrom(pr, p, guard, 1, |p| / pr.depth, [], 0) == Ok(rest)
    ensures Encode(pr, height, p, guard) == Ok(p[..pr.depth] + rest)
  {
  }

  /** The decoder refuses that command: its code points zero pixels back. */
  lemma NarrowImageFailsToDecode()
    ensures Decode(Kind(3), 1, [0, 0, 0, 153]) == Err(ShiftParamIncorrect)
  {
    var pr, src := Kind(3), [0, 0, 0, 153];
    assert ReadCommand(pr, src, 3) == Parsed(Copy(2, 6), 4);
    assert Delta(pr, 6) == 0;
    assert Step(pr, src, 3, [0, 0, 0], 9) == Err(ShiftParamIncorrect);
  }

  /** The round trip fails for that three-pixel-wide image. */
  lemma NarrowImageAsWritten()
    ensures Encode(Kind(3), 1, NarrowPixels, false).Ok?
    ensures Decode(Kind(3), 1, Encode(Kind(3), 1, NarrowPixels, false).value) != Ok(NarrowPixels)
  {
    NarrowImageEncodes();
    NarrowImageFailsToDecode();
  }

  /** The tag words after the magic: "TC00" for a plain payload and "TS00"
      for an encrypted one. Their first byte, 'T', is the type byte. */
  const PlainTag: nat := 0x3030_4354
  const SealedTag: nat := 0x3030_5354

  /** What a `.rct` header holds after the magic and the type byte. */
  datatype Header = Header(encrypted: bool, width: int, height: int, payload: seq<byte>)

  /** The three tag bytes `FromRCT` reads first: the encryption flag ('S'),
      the '0' the reader asserts and the version digit, which must be 0. */
  function Signature(s: seq<byte>): Result<bool> {
    if |s| < 2 then Err(EndOfStream)
    else if s[1] != 0x30 then Err(AssertionFailed)
    else if |s| < 3 then Err(EndOfStream)
    else if s[2] != 0x30 then Err(InvalidVersion)
    else Ok(s[0] == 0x53)
  }

  /** What `FromRCT` reads from `s`, the bytes after the type byte: the tag
      bytes, then width, height and payload size, then up to that many
      payload bytes. A field past the end of the file and a size that is
      not positive are errors. */
  function ParseRct(s: seq<byte>): Result<Header> {
    match Signature(s)
    case Err(e) => Err(e)
    case Ok(encrypted) =>
      if |s| < 15 then Err(EndOfStream)
      else if Int32Of(s[11..15]) <= 0 then Err(AssertionFailed)
      else Ok(Header(encrypted, Int32Of(s[3..7]), Int32Of(s[7..11]), Take(s[15..], Int32Of(s[11..15]))))
  }

  /** The payload the decoder gets: decrypted when the header says it is
      encrypted and a key is configured. */
  function Plain(h: Header, key: seq<byte>): seq<byte>
    requires |key| == 0 || |key| == KeySize
  {
    if h.encrypted && |key| == KeySize then Crypted(key, h.payload) else h.payload
  }

  /** An opened RCT image: its dimensions and its decoded pixels, none
      when the payload is empty. */
  datatype Loaded = Loaded(width: int, height: int, pixels: seq<byte>)

  /** What a fresh image holds after `FromRCT` reads `s` with `key`, or the
      error that stops it. */
  function Load(s: seq<byte>, key: seq<byte>): Result<Loaded>
    requires |key| == 0 || |key| == KeySize
  {
    match ParseRct(s)
    case Err(e) => Err(e)
    case Ok(h) =>
      if h.encrypted && |key| == 0 then Err(MissingKey)
      else if |Plain(h, key)| == 0 then Ok(Loaded(h.width, h.height, []))
      else
        match Decode(Kind(h.width), h.height, Plain(h, key))
        case Err(e) => Err(e)
        case Ok(px) => Ok(Loaded(h.width, h.height, px))
  }

  /** The file `GetRCIamge` writes: magic, tag, width, height and payload
      length as little-endian 32-bit words, then the payload. */
  function RctFile(sealed: bool, width: int, height: int, payload: seq<byte>): (f: seq<byte>)
    requires IsInt32(width) && IsInt32(height) && IsInt32(|payload|)
  {
    UInt32Bytes(Magic) + UInt32Bytes(if sealed then SealedTag else PlainTag)
    + Int32Bytes(width) + Int32Bytes(height) + Int32Bytes(|payload|) + payload
  }

  /** The file is 20 bytes longer than the payload, starts with the magic
      and the type byte 'T', carries 'S' or 'C' after it, and ends with
      the payload. */
  lemma RctFileLayout(sealed: bool, width: int, height: int, payload: seq<byte>)
    requires IsInt32(width) && IsInt32(height) && IsInt32(|payload|)
    ensures var f := RctFile(sealed, width, height, payload);
      && |f| == |payload| + 20
      && f[..4] == UInt32Bytes(Magic) && f[4] == 0x54
      && f[5] == (if sealed then 0x53 else 0x43) && f[6] == 0x30 && f[7] == 0x30
      && f[20..] == payload
  {
  }

  /** Reading back what `GetRCIamge` wrote, from the byte after the type
      byte on, gives the flag, the dimensions and the payload. */
  lemma {:induction false} ParseRctFile(sealed: bool, width: int, height: int, payload: seq<byte>)
    requires IsInt32(width) && IsInt32(height) && IsInt32(|payload|) && |payload| > 0
    ensures ParseRct(RctFile(sealed, width, height, payload)[5..]) == Ok(Header(sealed, width, height, payload))
  {
    var f := RctFile(sealed, width, height, payload);
    RctFileLayout(sealed, width, height, payload);
    var s := f[5..];
    assert s[0] == f[5] && s[1] == 0x30 && s[2] == 0x30 && |s| == |payload| + 15;
    assert s[3..7] == Int32Bytes(width);
    assert s[7..11] == Int32Bytes(height);
    assert s[11..15] == Int32Bytes(|payload|);
    assert s[15..] == payload;
    Int32RoundTrip(width);
    Int32RoundTrip(height);
    Int32RoundTrip(|payload|);
    assert Take(s[15..], |payload|) == payload;
  }

  /** A payload written encrypted and read back with the same key is the
      payload that was there before the write. */
  lemma SealedRoundTrip(key: seq<byte>, width: int, height: int, payload: seq<byte>)
    requires |key| == KeySize && IsInt32(width) && IsInt32(height) && IsInt32(|payload|) && |payload| > 0
    ensures var h := ParseRct(RctFile(true, width, height, Crypted(key, payload))[5..]);
      h.Ok? && h.value.encrypted && Plain(h.value, key) == payload
  {
    ParseRctFile(true, width, height, Crypted(key, payload));
    CryptedTwice(key, payload);
  }

  /** The 24-bit image: the shared codec object with this kind's table. */
  class RCTImage {
    const base: RCImage

    /** The base object carries the 32-entry table and 24 bits per pixel. */
    predicate Valid() {
      base.shiftTable == CodeTable && base.bpp == 24
    }

    constructor ()
      ensures Valid() && fresh(base) && fresh(base.pixelData) && fresh(base.rctRawData)
      ensures base.width == 0 && base.height == 0
      ensures base.pixelData.Length == 0 && base.rctRawData.Length == 0
    {
      base := new RCImage(CodeTable, 24);
    }

    /** Reads the header and the payload from `br` (positioned after the
        type byte), decrypts the payload with the key of `file` when the
        header says it is encrypted, and decodes it. */
    method FromRCT(br: Reader, file: RCFile) returns (o: Outcome)
      requires Valid() && file.Valid()
      modifies br`pos, base`width, base`height, base`rctRawData, base`pixelData
      ensures ParseRct(old(br.Remaining())).Err? ==> o == Failed(ParseRct(old(br.Remaining())).error)
      ensures ParseRct(old(br.Remaining())).Ok? ==>
        var h := ParseRct(old(br.Remaining())).value;
        && base.width == h.width && base.height == h.height && fresh(base.rctRawData)
        && br.Remaining() == old(br.Remaining())[15 + |h.payload|..]
        && (h.encrypted && |file.imgKey| == 0 ==> o == Failed(MissingKey) && base.rctRawData[..] == h.payload)
        && (!(h.encrypted && |file.imgKey| == 0) ==>
              var raw := Plain(h, file.imgKey);
              && base.rctRawData[..] == raw
              && (|raw| == 0 ==> o == Done && base.pixelData == old(base.pixelData))
              && (|raw| > 0 ==> match Decode(Kind(h.width), h.height, raw)
                                case Ok(px) => o == Done && fresh(base.pixelData) && base.pixelData[..] == px
                                case Err(e) => o == Failed(e)))
    {
      var r := ReadHeader(br);
      if r.Err? {
        return Failed(r.error);
      }
      var raw := base.rctRawData;
      if r.value.encrypted {
        var ok := file.DoCrypt(raw);
        if !ok {
          return Failed(MissingKey);
        }
      }
      assert base.Layout() == Kind(r.value.width);
      o := base.Unpack();
    }

    /** The reads of `FromRCT` up to the payload, which becomes `rctRawData`;
        width and height are stored as soon as they are read. */
    method ReadHeader(br: Reader) returns (r: Result<Header>)
      modifies br`pos, base`width, base`height, base`rctRawData
      ensures r == ParseRct(old(br.Remaining()))
      ensures r.Ok? ==>
        && base.width == r.value.width && base.height == r.value.height
        && fresh(base.rctRawData) && base.rctRawData[..] == r.value.payload
        && br.Remaining() == old(br.Remaining())[15 + |r.value.payload|..]
    {
      ghost var s := br.Remaining();
      var sig := ReadSignature(br);
      if sig.Err? {
        return Err(sig.error);
      }
      assert br.Remaining() == s[3..];
      var size := base.ReadDimensions(br);
      if size.Err? {
        return Err(size.error);
      }
      assert s[3..][0..4] == s[3..7] && s[3..][4..8] == s[7..11] && s[3..][8..12] == s[11..15];
      assert s[3..][12..] == s[15..];
      if size.value <= 0 {
        return Err(AssertionFailed);
      }
      var raw := br.ReadBytes(size.value);
      base.rctRawData := raw;
      r := Ok(Header(sig.value, base.width, base.height, raw[..]));
    }

    /** The three tag bytes. */
    static method ReadSignature(br: Reader) returns (r: Result<bool>)
      modifies br`pos
      ensures r == Signature(old(br.Remaining()))
      ensures r.Ok? ==> br.Remaining() == old(br.Remaining())[3..]
    {
      ghost var s := br.Remaining();
      var tag := br.ReadByte();
      if tag.Err? {
        return Err(tag.error);
      }
      var isEnc := tag.value == 0x53;
      var zero := br.ReadByte();
      if zero.Err? {
        return Err(zero.error);
      }
      if zero.value != 0x30 {
        return Err(AssertionFailed);
      }
      var digit := br.ReadByte();
      if digit.Err? {
        return Err(digit.error);
      }
      if digit.value - 0x30 != 0 {
        return Err(InvalidVersion);
      }
      assert br.Remaining() == s[3..];
      return Ok(isEnc);
    }

    /** Serialises the image: nothing for an empty payload; an error when
        the stream capacity asked for, payload plus 20 header bytes, is
        more than an `int`; otherwise the header and the payload, which is
        first encrypted in place when encryption is asked for and `file`
        has a key, and then tagged "TS00" instead of "TC00". */
    method GetRCIamge(file: RCFile, encrypt: bool) returns (out: Result<seq<byte>>)
      requires file.Valid()
      requires IsInt32(base.width) && IsInt32(base.height)
      modifies base.rctRawData
      ensures base.rctRawData.Length == 0 ==> out == Ok([])
      ensures base.rctRawData.Length + 20 > MaxStreamLength ==>
        out == Err(StreamTooLong) && base.rctRawData[..] == old(base.rctRawData[..])
      ensures 0 < base.rctRawData.Length && base.rctRawData.Length + 20 <= MaxStreamLength ==>
        var sealed := encrypt && |file.imgKey| == KeySize;
        && base.rctRawData[..] == (if sealed then Crypted(file.imgKey, old(base.rctRawData[..])) else old(base.rctRawData[..]))
        && out == Ok(RctFile(sealed, base.width, base.height, base.rctRawData[..]))
    {
      var raw := base.rctRawData;
      if raw.Length == 0 {
        return Ok([]);
      }
      if raw.Length + 20 > MaxStreamLength {
        return Err(StreamTooLong);
      }
      var bytes := UInt32Bytes(Magic);
      var sealed := false;
      if encrypt {
        sealed := file.DoCrypt(raw);
      }
      bytes := bytes + UInt32Bytes(if sealed then SealedTag else PlainTag);
      bytes := bytes + Int32Bytes(base.width);
      bytes := bytes + Int32Bytes(base.height);
      bytes := bytes + Int32Bytes(raw.Length);
      bytes := bytes + raw[..];
      return Ok(bytes);
    }
  }
}
