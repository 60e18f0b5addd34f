# MajiroRCT image codec, modelled in Dafny

This project models the image codec of MajiroRCT. MajiroRCT converts the
Majiro engine's RCT (24-bit true colour) and RC8 (8-bit paletted) images to
and from PNG. The model covers:

- **The shared pixel codec** (`RCImage.Unpack`, `RCImage.Pack`, `Flush`,
  `ComparePixel`).
  - The compressed payload is a stream of literal runs and copy runs.
  - A copy run repeats earlier pixels at one of the offsets in a per-format
    shift table.
  - Each offset is `(code >> 4) - (code & 0xF) * width` pixels back.
  - The decoder is the function `Decoder.Decode`. The search encoder is the
    function `Encoder.Encode`.
  - The class `Image.RCImage` implements both with the source's fields,
    loops and in-place writes, and is proved equal to them.
- **The bit layout** derived from the table size and the byte depth
  (`BitLayout`).
- **Binary helpers**: the overlapping block copy, the little-endian word
  writer, and the table-driven CRC-32 with reflected polynomial 0xEDB88320
  (`Utils`, `Crc`).
- **The key schedule and cyclic XOR cipher** of encrypted RCT files
  (`Cipher`).
- **The two containers.**
  - RCT: magic 0x9A925A98, tag "TC00" or "TS00", width, height, length and
    payload (`Rct`).
  - RC8: magic, tag "8_00", width, height, length, a 768-byte palette and
    the payload (`Rc8`).
  - For each, the model has the header parser, the writer and, for RC8, the
    palette lookup.
- **The file-level operations** (`Files`):
  - the magic and type dispatch of `OpenRCImage`;
  - the channel and alpha split of `PNGToRC`;
  - the alpha compositing of `BlendRCTImages`.

The central results are these:

- `RoundTrip.DecodeEncode`: every non-empty image decodes back from the
  output of the corrected encoder (`Encoder.Encode` with the guard on; see
  Findings).
- `Rct.WideRoundTrip` and `Rc8.WideRoundTrip`: the same holds for the
  encoder exactly as written whenever the image is at least 4 pixels wide.
  For narrower images the encoder as written can fail to round-trip
  (`Rct.NarrowImageAsWritten`).
- `Files.PictureRoundTrip` and `Files.MaskRoundTrip`: converting a picture
  and opening the files written gives back its colours and alpha.

Reads from a byte stream are modelled by `Streams.Reader`, a cursor over a
byte sequence. It behaves like `BinaryReader`: `ReadBytes` returns fewer
bytes at the end, and fixed-size reads past the end fail with
`EndOfStream`.

Where the encoder must choose among table entries, the model does the same
as the C# code:

- the longest match wins;
- a tie goes to the lowest table index;
- a copy is emitted only when it is longer than the ignore threshold.

The decoder also follows the C# code past the end of the payload. There,
`MemoryStream.ReadByte` returns -1. The code treats -1 as a copy command
whose count bits are all set and whose table index is -1. That access is out
of range, and the model reports it as `IndexOutOfRange`.

## Model

| member | source | states |
|---|---|---|
| BitLayout.CountMask | RCImage.cs:43 | The count mask is 3 for the 32-entry table and 7 for the 16-entry one; mask + 1 is 2 to the power shiftStart, so the count field and the shift field do not overlap |
| BitLayout.ShiftStart | RCImage.cs:44 | shiftStart is 2 for 32 entries and 3 for 16; table size times 2^shiftStart is 0x80, so every copy command byte has its top bit set |
| BitLayout.CountBase | RCImage.cs:45 | countBase is 3 for one-byte (RC8) pixels and 1 otherwise |
| BitLayout.IgnoreThreshold | RCImage.cs:127 | ignoreThreshold is countBase - 1 (2 for RC8, 0 for RCT), so every copy the encoder emits is at least countBase long |
| BitLayout.BackwardForWideImages | RCImage.cs:86-88 | A table code whose column part is at most 3 gives a delta of at most 0 for width 3, and a strictly negative delta for width 4 or more |
| Decoder.ReadCommand | RCImage.cs:60-84 | A command byte below 0x80 is a literal run, and anything else (including -1 past the end) is a copy run; the read advances 3 bytes exactly when a LE16 extension follows (0x7F, or saturated count bits), else 1; the table index is -1 exactly when the command lies past the end |
| Decoder.ReadByteAt | RCImage.cs:60 | A read inside the payload gives its byte, and a read past the end gives -1 |
| Decoder.Extension | RCImage.cs:65-66 | Two in-range bytes give their little-endian 16-bit value; any result is below 0x10000 |
| Decoder.Step | RCImage.cs:58-99 | A successful command grows the output strictly, never beyond the buffer end, and keeps every byte already written |
| Decoder.DecodeFromExtends | RCImage.cs:58-99 | A successful decode loop fills the buffer exactly and keeps its prefix |
| Decoder.DecodeShape | RCImage.cs:42-54 | A successful decode has exactly width*height*byteDepth bytes; it starts with the seed bytes the payload holds, zero-padded up to one pixel |
| Image.RCImage.Unpack | RCImage.cs:35-101 | An empty payload leaves the pixels untouched; otherwise the new pixel buffer is exactly the decode of the payload, or the error that stops it |
| Image.RCImage.UnpackLoop | RCImage.cs:58-100 | The loop over commands writes into the pixel buffer what the decoder yields from that cursor, or returns the decoder's error |
| Image.RCImage.RunCommand | RCImage.cs:60-99 | One command: the bytes written after dstPos and the new read position are those of Decoder.Step, or its error ("Pixel out of bounds", "Insufficient source data", "Shift param incorrect") |
| Image.RCImage.ReadRunCommand | RCImage.cs:60-84 | Reading the command byte and its extension from the payload array agrees with Decoder.ReadCommand |
| Image.RCImage.ReadInto | RCImage.cs:69-73 | Copying a literal run appends exactly those payload bytes and keeps the prefix |
| Image.RCImage.RepeatBack | RCImage.cs:95 | The copy run appends the periodic continuation of the bytes gap back and keeps the prefix |
| Utils.CopyOverlapped | Utils.cs:15-31 | With dst > src the count bytes at dst are the old bytes from src repeated with period dst - src; otherwise they are the old bytes src..src+count; every other byte is unchanged |
| Utils.BlockCopy | Utils.cs:29 | `Buffer.BlockCopy` within one array: the n bytes at dst become the old bytes at src, even when the ranges overlap, and every other byte is unchanged |
| Utils.Periodic | Utils.cs:9-26 | The repeated sequence: byte k is the source byte at src + k mod period |
| Utils.WriteUint32LE | Utils.cs:33-39 | The four bytes at pos become the little-endian bytes of val; every other byte is unchanged |
| Crc.Table | Utils.cs:45 | The CRC table has 256 entries |
| Crc.InitializeTable | Utils.cs:53-68 | Entry n of the table built is n after 8 reflected shift/xor-0xEDB88320 rounds |
| Crc.TableStartsAtZero | Utils.cs:53-68 | Table entry 0 is 0 |
| Crc.UpdateCrc | Utils.cs:70-79 | The register after the loop is the byte-by-byte table update over buf[pos..pos+len] |
| Crc.RegisterAppend | Utils.cs:70-79 | Updating over a+b equals updating over b, starting from the register after a |
| Crc.Compute | Utils.cs:81-84 | The result is the CRC-32 of the range, and 0 for an empty range |
| Crc.CrcOfNothing | Utils.cs:81-84 | The CRC-32 of no bytes is 0 |
| Crc.Crc32.constructor | Utils.cs:47 | A fresh instance starts its register at 0xFFFFFFFF |
| Crc.Crc32.Update | Utils.cs:86-89 | Update advances the register over the bytes given |
| Crc.Incremental | Utils.cs:47-89 | A fresh instance updated with a and then b has Value equal to the CRC-32 of a+b, which is what Compute returns |
| Cipher.KeyOf | RCFile.cs:15-20 | The key derived from a password is 0x400 bytes long |
| Cipher.KeyWordAt | RCFile.cs:19-20 | Key bytes 4i..4i+3 are the little-endian bytes of crc ^ Table[(i + crc) & 0xFF] |
| Cipher.RCFile.constructor | RCFile.cs:11 | A new file object holds no key |
| Cipher.RCFile.SetPassword | RCFile.cs:13-21 | The key becomes the 1024-byte key derived from the CRC-32 of the password bytes |
| Cipher.RCFile.FillKey | RCFile.cs:17-20 | The 256-word loop fills the whole key, word by word |
| Cipher.RCFile.DoCrypt | RCFile.cs:23-35 | It succeeds exactly when a key is set; then byte j becomes data[j] ^ key[j & 0x3FF], and without a key the data is unchanged |
| Cipher.Crypted | RCFile.cs:30-34 | The cipher keeps the length and XORs byte j with key byte j mod 0x400 |
| Cipher.CryptedTwice | RCFile.cs:30-34 | Applying the cipher twice with the same key restores the data |
| Encoder.ShiftTable | RCImage.cs:139-146 | The working table has one delta (code>>4) - (code&0xF)*width per table code |
| Image.RCImage.InitShiftTable | RCImage.cs:139-146 | The array built holds exactly those deltas |
| Encoder.MatchRun | RCImage.cs:173-179 | The forward match from one table entry never runs past the search limit |
| Image.RCImage.MatchLength | RCImage.cs:173-181 | The compare loop returns the match length of Encoder.MatchRun |
| Image.RCImage.ComparePixel | RCImage.cs:269-279 | Two pixels compare equal exactly when all byteDepth bytes agree; a read outside the buffer is an error |
| Encoder.SameFromInBounds | RCImage.cs:269-279 | Inside the buffer, the byte-by-byte comparison is equality of the two pixel slices |
| Encoder.SearchLimit | RCImage.cs:158 | The match bound is min(current + 0x10000, last), and it lies strictly after current |
| Encoder.Search | RCImage.cs:156-188 | The match chosen has a valid table index and a length between the best so far and the search limit |
| Encoder.SearchIsLongest | RCImage.cs:160-187 | No table entry gives a longer match than the one chosen |
| Encoder.SearchIsFirst | RCImage.cs:182-186 | The match chosen is the first entry reaching its length, since the comparison is a strict >; every earlier entry is shorter |
| Image.RCImage.FindMatch | RCImage.cs:156-188 | The search loop over the table returns the match of Encoder.Search, with the corrected skip rule |
| Encoder.LiteralHeader | RCImage.cs:249-257 | A literal run of k ≤ 0x7F pixels is the byte k-1; a longer one is 0x7F followed by LE16 k-0x80 |
| Encoder.FlushBytes | RCImage.cs:245-267 | An empty buffer writes nothing; otherwise the header followed by the buffered bytes |
| Image.RCImage.Flush | RCImage.cs:245-267 | Writes those bytes and leaves the buffer and its count empty |
| Encoder.CopyCommand | RCImage.cs:208-221 | A copy command has its top bit set; a match of at least countBase+countMask is 3 bytes with LE16 len - threshold, otherwise 1 byte |
| Encoder.CommandHead | RCImage.cs:210 | (index << shiftStart) | 0x80 leaves room for the count bits below 0x100 |
| Encoder.EncodeLength | RCImage.cs:114-243 | The output is at most 9 bytes per pixel byte plus 3 |
| Image.RCImage.Pack | RCImage.cs:114-243 | Empty pixels leave the payload untouched; otherwise the new payload is exactly Encode of the pixels (corrected search), and the buffer ends empty |
| Image.RCImage.PackStep | RCImage.cs:154-238 | One iteration: the bytes written so far followed by the rest of the encoding equals the encoding from the previous cursor, and the cursor advances |
| Image.RCImage.CopyRun | RCImage.cs:191-224 | A copy run flushes the pending literals, writes the command and advances by the match length |
| Image.RCImage.LiteralRun | RCImage.cs:225-238 | A literal step buffers one pixel, flushing first when the buffer holds 0xFFFF+0x7F pixels |
| Image.RCImage.PushPixel | RCImage.cs:232-237 | The pixel's bytes are appended to the buffer and its pixel count grows by one |
| Image.RCImage.FromPixels | RCImage.cs:23-29 | The fields become the given pixels and size, and the payload is what Pack produces |
| RoundTrip.DecodeEncode | RCImage.cs:35-243 | For every table, every width and depth, and every non-empty width*height image, the corrected encoder (guard on) succeeds and decoding its output gives back the pixels; the encoder as written is covered by the WideRoundTrip rows |
| RoundTrip.EncodeGuardIrrelevant | RCImage.cs:162-166 | When every table delta is negative, the search as written and the corrected search give the same output |
| Rct.Kind | RCTImage.cs:19-25 | RCT uses the 32-entry table and 3-byte pixels, a valid layout for every width |
| Rct.TableIsNear | RCTImage.cs:19-25 | Every RCT table code has a column part of at most 3 |
| Rct.TableBackward | RCTImage.cs:19-25 | For width ≥ 4 every RCT table entry's delta is strictly negative |
| Rct.WideRoundTrip | RCImage.cs:35-243 | For RCT images of width ≥ 4, decoding what the encoder as written emits gives back the pixels |
| Rct.NarrowImageEncodes | RCImage.cs:156-243 | The as-written encoder turns the 3×1 RCT image of one black and two (1,1,1) pixels into [0,0,0,153] |
| Rct.NarrowImageFailsToDecode | RCImage.cs:86-93 | Decoding [0,0,0,153] at width 3 fails with "Shift param incorrect" |
| Rct.NarrowImageAsWritten | RCImage.cs:162-166 | For that width-3 image, the round trip of the as-written encoder fails |
| Rct.RctFileLayout | RCTImage.cs:68-82 | The written file is magic, 'T', the TS/TC tag, width, height and length, then the payload: payload + 20 bytes |
| Rct.ParseRctFile | RCTImage.cs:28-48 | Parsing a written file after its type byte gives back the encryption flag, width, height and payload |
| Rct.SealedRoundTrip | RCTImage.cs:42-46 | A payload written encrypted and read back with the same key is the original payload |
| Rct.RCTImage.constructor | RCTImage.cs:12-26 | A new RCT image is empty and uses the RCT table and 24 bits per pixel |
| Rct.RCTImage.FromRCT | RCTImage.cs:28-48 | Bad signature, version or size gives an error; otherwise the fields and payload are set, an encrypted file without a key fails, and the pixels are the decode of the decrypted payload |
| Rct.RCTImage.ReadHeader | RCTImage.cs:30-40 | Reading the header is the header parser on the remaining bytes |
| Rct.RCTImage.ReadSignature | RCTImage.cs:30-34 | 'S' means encrypted, the next byte must be '0' and the version digit must be 0 |
| Rct.RCTImage.GetRCIamge | RCTImage.cs:55-84 | An empty payload writes nothing; a stream capacity (payload + 20) beyond an `int` fails with the payload untouched; otherwise the payload is encrypted in place and tagged TS00 exactly when encryption is asked for and a key is set (else TC00), and the file laid out as above is returned |
| Rc8.Kind | RC8Image.cs:20-24 | RC8 uses the 16-entry table and 1-byte pixels, a valid layout for every width |
| Rc8.TableIsNear | RC8Image.cs:20-24 | Every RC8 table code has a column part of at most 3 |
| Rc8.TableBackward | RC8Image.cs:20-24 | For width ≥ 4 every RC8 table entry's delta is strictly negative |
| Rc8.WideRoundTrip | RCImage.cs:35-243 | For RC8 images of width ≥ 4, decoding what the encoder as written emits gives back the pixels |
| Rc8.PaletteOf | RC8Image.cs:37-39 | Palette entry i is R = G = block[3i+1], B = block[3i] |
| Rc8.RC8Image.ReadPalette | RC8Image.cs:37-39 | The palette loop fills the array with those entries |
| Rc8.GreyRamp | RC8Image.cs:84-89 | The written palette block has byte k equal to k / 3 |
| Rc8.GreyPalette | RC8Image.cs:39 | Reading the written palette gives entry i = (i, i, i) |
| Rc8.Greys | RC8Image.cs:84-89 | The grey palette has 256 entries, entry i being (i, i, i) |
| Rc8.Rc8FileLayout | RC8Image.cs:79-90 | The written file is magic, '8', "_00", width, height, length, the 768-byte grey ramp, then the payload: payload + 788 bytes |
| Rc8.ParseRc8File | RC8Image.cs:27-44 | Parsing a written file after its type byte gives back width, height, the grey palette and the payload |
| Rc8.RC8Image.constructor | RC8Image.cs:13-25 | A new RC8 image is empty, with no palette, and uses the RC8 table and 8 bits per pixel |
| Rc8.RC8Image.FromRCT | RC8Image.cs:27-44 | Skips three bytes and reads the header and a full palette, requiring a positive size; the palette and payload are set, and the pixels are the decode of the payload |
| Rc8.RC8Image.ReadHeader | RC8Image.cs:29-42 | Reading the header is the header parser on the remaining bytes |
| Rc8.RC8Image.GetImage | RC8Image.cs:46-64 | Without pixels or palette the result is a 1×1 image; otherwise pixel (x, y) is palette[pixelData[y*width + x]], and an index outside the palette or buffer is an error |
| Rc8.RC8Image.Paint | RC8Image.cs:55-61 | The nested loop fills the image with the palette colour of each pixel byte |
| Rc8.Colored | RC8Image.cs:55-61 | Colour k of the image is the palette entry of pixel byte k |
| Rc8.RC8Image.GetRCIamge | RC8Image.cs:66-92 | An empty payload writes nothing; a stream capacity (payload + 788) beyond an `int` fails; otherwise the file laid out as above, never encrypted |
| Files.OpenRCImage | RCFile.cs:37-64 | A wrong magic fails; type 0x38 opens an RC8 image, type 0x54 an RCT image with the file's key, and any other type fails with "Unknown Image Format" |
| Files.RctFileType | RCFile.cs:42-56 | A written RCT file passes the magic check and has type 0x54 |
| Files.Rc8FileType | RCFile.cs:42-49 | A written RC8 file passes the magic check and has type 0x38 |
| Files.Bgr | RCFile.cs:92-102 | The colour buffer has 3 bytes per pixel |
| Files.BgrAt | RCFile.cs:96-100 | Bytes 3i..3i+2 of the colour buffer are B, G, R of pixel i |
| Files.Inverted | RCFile.cs:122 | The mask has one byte per pixel |
| Files.InvertedAt | RCFile.cs:122 | Mask byte i is ~A = 255 - A of pixel i |
| Files.SplitStep | RCFile.cs:116-127 | Each pixel appends its B, G, R to the colour buffer and ~A to the mask |
| Files.SplitColors | RCFile.cs:92-102 | The 24-bit loop fills the buffer with the B, G, R bytes of every pixel |
| Files.SplitAlpha | RCFile.cs:116-127 | The 32-bit loop fills the colour buffer with B, G, R and the mask with ~A |
| Files.PNGToRC | RCFile.cs:79-138 | 24-bit pictures give one RCT file; 32-bit pictures give an RCT file of the colours and an RC8 file of the inverted alpha; any other depth fails, a `width * height * 3` beyond an `int` fails, and so does a file too long for its stream |
| Files.EncodeRct | RCFile.cs:89-105 | A new RCT image built from the colour buffer and written out gives the RCT file of the packed buffer, or the error of the packer or the writer |
| Files.EncodeRc8 | RCFile.cs:112-132 | A new RC8 image built from the mask and written out gives the RC8 file of the packed mask, or the error of the packer or the writer |
| Files.RctReopens | RCFile.cs:104-105 | For every colour buffer, packing and writing it, with or without encryption, either fails because the file is too long for the stream (exactly when payload + 20 exceeds an `int`) or gives a file that opens with the same key to the size and the buffer; a buffer of at most (2^31 - 24) / 9 bytes always succeeds |
| Files.Rc8Reopens | RCFile.cs:130-132 | For every mask, packing and writing it either fails because the file is too long for the stream (exactly when payload + 788 exceeds an `int`) or gives a file that opens to the size, the grey palette and the mask |
| Files.PictureRoundTrip | RCFile.cs:79-138 | Converting a 24- or 32-bit picture fails only by the `width * height * 3` overflow (exactly when 3·pixels exceeds an `int`) or a file too long for its stream; otherwise its RCT file opens to its colours, and only a 32-bit picture gets a mask file; pictures of at most (2^31 - 792) / 27 pixels always convert |
| Files.MaskRoundTrip | RCFile.cs:109-134 | Whenever a 32-bit picture converts, its mask file opens as its inverted alpha with the grey palette, and blending gives back every pixel with its alpha |
| Files.Blended | RCFile.cs:145-158 | The blended buffer has 4 bytes per pixel |
| Files.BlendRCTImages | RCFile.cs:140-161 | The result is width*height*4 bytes; pixel i is RGB bytes 3i..3i+2, then 255 - (R+G+B)/3 of the palette entry of mask byte i; a read outside either image is an error |
| Files.Blend | RCFile.cs:145-159 | The nested loop succeeds exactly when every read is in range, and then fills the buffer with the blended pixels |
| Files.GreyAlpha | RCFile.cs:157 | Through the grey palette, the alpha of mask byte 255 - a is a again |
| Files.BlendRestores | RCFile.cs:140-161 | Blending a colour buffer with its inverted-alpha mask and the grey palette gives back every pixel's B, G, R, A |

## Left out

- Program.cs is not part of this model: argument parsing, console output and the batch loop.
- File and stream I/O (`File.OpenRead`, `File.WriteAllBytes`, `File.Exists`) is left out. So is the path rewriting in `RCToPNG`. Files are byte sequences, and readers are cursors over them.
- The image library (ImageSharp) is not modelled. `Image.Load` is replaced by an already decoded `Files.Picture`, a width, a height and a sequence of RGBA pixels with a bit depth. `LoadPixelData` and `new Image<Bgr24>` are replaced by pixel sequences and `Rc8.Picture`, and `SaveAsPng` is left out.
- `RCTImage.GetImage` only hands the pixel buffer to the image library, so it is not modelled.
- SetPassword's shift_jis encoding of the password is left out: the password is taken as its encoded bytes.
- `Trace.Assert` failures become error results (`AssertionFailed` and the other `Error` values) rather than a process abort. Thrown exceptions become `Err` values too.
- The encryption delegate is modelled by the `Cipher.RCFile` object that holds the key, which is what the delegate closes over.
- `m_offsetX` and `m_offsetY` are kept as fields but never read. `Capacity` is used only where it makes the writers fail: a capacity beyond an `int` is `StreamTooLong`.
- Decoder.Decode: the pixel buffer size `m_width * m_height * byteDepth` is computed without 32-bit wrap-around. A non-positive size is `InvalidBufferSize`. Where the source's product overflows to a positive value, the source decodes into a buffer of the wrapped size, and the model does not reproduce that.
- Image.RCImage.Pack: the limit of its own output stream (2^31 - 1 bytes) is not modelled. Writing the file then needs a stream 20 or 788 bytes longer, so `Files.RctBytes` and `Files.Rc8Bytes` report any such payload as `StreamTooLong`, and the conversion fails either way.
- Files.PNGToRC: a `width * height * 3` beyond an `int` is reported as `InvalidBufferSize`, where the runtime throws `OverflowException` or `IndexOutOfRangeException` depending on the wrapped value. The stream limit is taken as `int.MaxValue`, not the runtime's slightly lower array length limit.
- BlendRCTImages does not check that the two images have the same size. The model does not require it either: a read past either pixel buffer, or a mask byte outside the palette, is an `IndexOutOfRange` error.
- Image.RCImage.Pack, Image.RCImage.FindMatch, Image.RCImage.PackStep, Image.RCImage.FromPixels, Files.EncodeRct, Files.EncodeRc8 and Files.PNGToRC use the corrected search described under Findings. For every image at least 4 pixels wide, `RoundTrip.EncodeGuardIrrelevant` with `Rct.TableBackward`/`Rc8.TableBackward` proves that this search gives the same output as the one written. For narrower images the two differ, and the as-written behaviour is captured by `Encoder.Encode` with the guard off.
- Files.PNGToRC: the files it returns are those of the corrected encoder, so for images 1 to 3 pixels wide they are not the bytes the source writes.
- The pending buffer is a `seq` field that `Pack` reassigns, instead of a `List<byte>`. The output stream is the `seq` the method builds.

## Findings

| source | as written | input that shows it | evidently intended | confidence | as-written member | corrected member |
|---|---|---|---|---|---|---|
| RCImage.cs:162-166 | The encoder skips a table entry only when `prevIdx < 0`. For an image 3 pixels wide, table code 49 (0x31) has delta 3 - 1*3 = 0. So `prevIdx == current`, the pixel always matches itself, and the encoder emits a copy from zero pixels back. The decoder rejects that copy. | RCT image, width 3, height 1, pixels (0,0,0), (1,1,1), (1,1,1). The encoder emits [0, 0, 0, 153]. Decoding that gives "Shift param incorrect", not the pixels. | Only entries that point strictly backward should be candidates (`prevIdx >= current` should be skipped). Then every image round-trips. | not executed | Rct.NarrowImageAsWritten | RoundTrip.DecodeEncode |
