# Arduboy video converter — verified model

This project models the core of `Converter/converter.js`, the script that turns a
video into the `.bin` file played by the Arduboy FX video player. Once ffmpeg has
written the monochrome frame images and jimp has decoded each one into RGBA bytes,
the script does four things:

- **Thresholding.** It walks the RGBA bytes four at a time. A pixel is lit (1) when
  R + G + B + A is at least 380 and dark (0) otherwise. The pixels are stored row by
  row, and a new (empty) row is started whenever the column reaches the width.
- **Band packing.** For every band of 8 rows, top band first, and every column, left
  to right, it shifts in the pixels of rows y+7 down to y+0. This gives one byte whose
  bit k is the pixel in row y+k: the page layout of the SSD1306-style display.
- **Container.** The file starts with seven big-endian 16-bit fields:
  `0, width, height, frames, fps, title.length+1, duration.length+1`. Next come the
  title and the duration text, each cut to 17 characters and followed by a NUL. Then
  come all packed frames, in the order of the frame list. The file size is read back,
  and `FX_DATA_PAGE = 0xffffff - size / 256` is derived from it.
- **Settings.** The title is cut to 19 characters. `validate_width` accepts even widths
  in 1..128 and `validate_height` accepts multiples of 8 in 1..64; each returns its
  argument, or 0 when the argument is rejected.

Modules follow the components: `Bytes` (bytes, bits, big-endian fields, the 'ascii'
encoding, concatenation), `Decimal` (JavaScript's decimal text of a whole number),
`Duration` (`readable_duration`), `Settings` (validators, title cut, the settings
record), `FrameEncoder` (threshold loop, packing loop, unpacking) and `Container`
(header buffer, output file, the artifact, `FX_DATA_PAGE`). The loops of the source
are methods proved against specification functions (`BinarizeFrame` against
`Binarized`, `PackFrame` against `Packed`, `EncodeMetaBuffer` against `HeaderBytes`,
`WriteArtifact` against `Artifact`). The lemmas then prove the promised properties
of those functions: bit placement, the unpack round trip in both directions, header
field decoding, the artifact layout and its size.

`readable_duration` is modelled as the code behaves, not as its apparent intent.
Line 65 (`h += ', '`) appends the comma to the number `h` and not to the string
`hours`. This slip has two visible effects. No comma is ever written after the hours,
so 3725 gives "1h2m, 5s". And the append turns `h` into a string, so the later test
`h > 0` on line 67 is false (NaN compared with 0): with hours and seconds but no
minutes, no "0m" is written, so 3605 gives "1h5s". With line 65 reading
`hours += ', '` these would be "1h, 2m, 5s" and "1h, 0m5s". When an hour count has no
minutes and no seconds, line 65 is skipped, `h` stays a number, and line 67 itself
writes "0m" after the hours: 3600 gives "1h0m" and 7200 gives "2h0m", with or
without the slip. The model follows the code as written.

Another place where the code is followed as written:

- The header's title-length field is `title.length + 1` of the 19-character title.
  Only 17 characters and a NUL are stored, so for 18- or 19-character titles the field
  is larger than what is stored (`TitleFieldOverstates`).
  The artifact itself holds `min(|title|, 17) + 1` title bytes, whatever the field says.

The duration is computed from the whole number of seconds `frames / fps`. For
non-negative values every `Math.floor` and `%` step of the source gives the same
hours, minutes and seconds on the real quotient as on its floor.

The shift-and-or of the packing loop (`a = a << 1; a |= bit`) is written as
`a * 2` followed by adding the bit. The shift leaves bit 0 clear, so or-ing in a
0/1 pixel is that addition, and `a` never exceeds 255.

## Model

| member | source | states |
|---|---|---|
| `Settings.ValidateWidth` | Converter/converter.js:117-130 | returns its argument or 0, and is nonzero exactly when 0 < w <= 128 and w is even |
| `Settings.ValidateHeight` | Converter/converter.js:132-145 | returns its argument or 0, and is nonzero exactly when 0 < h <= 64 and h is a multiple of 8 |
| `Settings.ValidatorsIdempotent` | Converter/converter.js:117-145 | validating an already validated width or height returns it unchanged |
| `Settings.TruncateTitle` | Converter/converter.js:109 | the title is cut to a prefix of min(length, 19) characters |
| `Decimal.DecimalString` | Converter/converter.js:63 | the text of a number is non-empty, all digits, and has no leading zero unless it is "0" |
| `Decimal.ParseDecimalString` | Converter/converter.js:63 | reading the decimal text of n gives n back |
| `Settings.ValidSpec` | Converter/converter.js:108-163 | the settings the prompts end with: a title of at most 19 characters, a positive fps, an even width in 1..128 and a height in 1..64 that is a multiple of 8 |
| `Duration.ReadableDuration` | Converter/converter.js:58-73 | the duration text is empty exactly when the number of seconds is 0 |
| `Duration.ReadableDurationValue` | Converter/converter.js:58-73 | the items of the text (h, m, s, ", " skipped) add up to exactly the seconds given |
| `Duration.NoSeparatorAfterHours` | Converter/converter.js:63-67 | with at least one hour, the 'h' is never followed by a separator, only by a digit or the end |
| `Duration.ReadableDurationExamples` | Converter/converter.js:58-73 | 3600 gives "1h0m", 7200 "2h0m", 3725 "1h2m, 5s", 3605 "1h5s" |
| `Duration.ReadableDurationShortExamples` | Converter/converter.js:58-73 | 125 gives "2m, 5s", 5 gives "5s", 0 gives "" |
| `Duration.ReadableDurationShort` | Converter/converter.js:58-73 | below 65536 seconds the text has at most 11 characters |
| `Container.DurationText` | Converter/converter.js:198 | the duration text of at most 65535 frames has at most 11 characters, so the 17-character cut never shortens it |
| `FrameEncoder.ChannelSum` | Converter/converter.js:228 | R + G + B + A of one pixel, at most 4 * 255 |
| `FrameEncoder.PixelBit` | Converter/converter.js:229-233 | a pixel's bit is 1 exactly when its channel sum is at least 380, else 0 |
| `FrameEncoder.Binarized` | Converter/converter.js:224-240 | the thresholded frame has height rows of width bits |
| `FrameEncoder.BinarizedPixel` | Converter/converter.js:227-233 | pixel p of the byte stream lands at row p / width, column p % width, and is 1 iff its four bytes sum to at least 380, else 0 |
| `FrameEncoder.BinarizeFrame` | Converter/converter.js:224-240 | the threshold loop yields the thresholded rows followed by one empty row |
| `FrameEncoder.ColumnByte` | Converter/converter.js:246-262 | the byte built by the eight shift/or steps has bit k equal to the pixel in row y + k of the column |
| `FrameEncoder.Packed` | Converter/converter.js:242-266 | a packed frame has exactly width * (height / 8) bytes |
| `FrameEncoder.PackFrame` | Converter/converter.js:242-266 | the band-packing loop yields exactly the packed frame |
| `FrameEncoder.PackedBandsAt` | Converter/converter.js:244-266 | byte b * width + x is the packed column x of band b (bands top first, columns left to right) |
| `FrameEncoder.PackedBit` | Converter/converter.js:244-264 | bit k of byte b * width + x is the pixel at row 8b + k, column x |
| `FrameEncoder.UnpackPacked` | Converter/converter.js:244-264 | unpacking a packed frame gives back the raster it was packed from |
| `FrameEncoder.PackUnpacked` | Converter/converter.js:244-264 | packing an unpacked byte sequence of the right length gives the bytes back, so packing is a bijection |
| `Bytes.BitsToNat` | Converter/converter.js:246-262 | eight shifted-in bits make a value below 2^8, a byte |
| `Bytes.BitOfBitsToNat` | Converter/converter.js:246-262 | bit k of the shifted-in value is the k-th bit shifted in from the bottom |
| `Bytes.BitsToNatOfNatToBits` | Converter/converter.js:246-262 | splitting a value below 2^n into n bits and shifting them back in gives the value |
| `Bytes.WriteUInt16BE` | Converter/converter.js:211 | the two bytes written for v (high byte first) satisfy 256 * hi + lo == v |
| `Container.MetaData` | Converter/converter.js:200-208 | the seven meta_data fields, each below 65536 for validated settings |
| `Container.HeaderBytes` | Converter/converter.js:209-212 | n fields take 2n bytes |
| `Container.HeaderBytesField` | Converter/converter.js:209-212 | bytes 2i and 2i+1 decode big-endian to field i |
| `Container.EncodeMetaBuffer` | Converter/converter.js:209-212 | the filled 14-byte buffer decodes to every field and equals the header encoding |
| `Bytes.AsciiBytes` | Converter/converter.js:216-217 | the 'ascii' encoding writes one byte per character, the character itself when below 256 |
| `Container.CString` | Converter/converter.js:216-217 | a string is written as its first min(length, 17) characters followed by one NUL |
| `Container.Preamble` | Converter/converter.js:200-217 | the bytes before the frames: 14 header bytes, then min(title, 17) + 1 title bytes and the duration text with its NUL; both strings end in NUL |
| `Container.Artifact` | Converter/converter.js:214-268 | the .bin file starts with the preamble and is followed by the encoded frames, its length the preamble's plus all frame lengths |
| `Container.EncodeFrame` | Converter/converter.js:224-266 | an encoded frame has width * (height / 8) bytes |
| `Container.EncodeFrameUnpacks` | Converter/converter.js:224-266 | unpacking an encoded frame gives its thresholded image |
| `Container.ArtifactHeader` | Converter/converter.js:200-214 | the artifact's first 14 bytes decode to the seven meta_data fields |
| `Container.ArtifactSize` | Converter/converter.js:214-268 | artifact length = 14 + min(title, 17) + 1 + duration + 1 + the lengths of all frames |
| `Container.ArtifactSizeUniform` | Converter/converter.js:214-268 | with frames of the video's size, length = preamble + N * width * (height / 8) |
| `Container.ArtifactFrame` | Converter/converter.js:219-268 | frame i sits right after the preamble and the i frames before it, in frame-list order |
| `Container.ArtifactFrameImage` | Converter/converter.js:219-268 | unpacking the bytes of frame i in the artifact gives the thresholded image of frame i |
| `Container.TitleFieldOverstates` | Converter/converter.js:206-216 | the stored title ends with NUL at 14 + min(title, 17); the title field exceeds the stored title by 1 or 2 for 18- or 19-character titles |
| `Container.HeaderExample` | Converter/converter.js:200-212 | "Test", 75 frames, 15 fps, 128x64 has the fields 0, 128, 64, 75, 15, 5, 3, written as 00 00 00 80 00 40 00 4B 00 0F 00 05 00 03 |
| `Container.PreambleExample` | Converter/converter.js:200-217 | the same video's preamble is that header, "Test" NUL "5s" NUL; a 2560-byte file gives page 16777205 |
| `Container.FxDataPage` | Converter/converter.js:289-290 | 0xffffff minus the page gives the number of whole 256-byte pages in the file |
| `Container.OutputFile.Write` | Converter/converter.js:214 | writeFileSync replaces the file's contents with the buffer |
| `Container.OutputFile.Append` | Converter/converter.js:216-268 | appendFileSync adds the bytes at the end of the file |
| `Container.OutputFile.Size` | Converter/converter.js:271 | the size read back is the number of bytes written |
| `Container.WritePreamble` | Converter/converter.js:198-217 | after the header write and the two appends the file holds exactly the preamble, and the duration text is that of frames / fps seconds |
| `Container.AppendFrame` | Converter/converter.js:219-268 | one frame's callback appends exactly its encoded (thresholded, packed) bytes to the file |
| `Container.AppendFrames` | Converter/converter.js:219-268 | the frame loop appends the encoded frames in list order, after what the file already held |
| `Container.WriteArtifact` | Converter/converter.js:193-290 | the file ends up holding exactly the artifact; the size and page returned are its length and FX_DATA_PAGE |

## Left out

- The ffmpeg run, with its filters, resizing, frame rate and callbacks (lines 186-192). It is an external process; the model takes the decoded frames as input.
- PNG decoding by jimp (lines 220-222). The model takes each frame's RGBA bytes with its width and height. They are assumed to be non-empty with exactly 4 bytes per pixel, which jimp guarantees.
- Prompts, `process.argv`, the re-prompt loops and JavaScript's string-to-number coercion (lines 94-163). Only the validators and the title cut are modelled, on integers.
- File-system calls other than writing, appending and reading the size, such as the temporary directory's creation, listing and removal. The output file is a class holding a byte sequence. The frame list's order, which `readdirSync` decides, is taken as given.
- The text of `video.h` and console output (lines 273-300), apart from the FX_DATA_PAGE arithmetic.
- Floating-point `frames / fps` (line 198). It is replaced by whole-number division, which gives the same text.
- Node's RangeError for a header field above 65535. Instead, `Convertible` requires fewer than 65536 frames and an fps below 65536.
- Write failures. `writeFileSync` and `appendFileSync` throw when a write fails (the `exit` argument is ignored by these calls), which leaves a partly written file. `OutputFile.Write` and `OutputFile.Append` never fail, so `WriteArtifact` promises the whole artifact only when no I/O error occurs.
- Exponent notation. JavaScript writes numbers of 10^21 or more as, say, "1e+21"; `DecimalString` writes every natural number in plain digits. The numbers it is applied to here are at most 65535, so this never arises.
- Characters outside the Basic Multilingual Plane. A JavaScript string counts them as two code units, and the model counts every character as one.
- WriteArtifact: it requires every frame to be decodable and to have a height that is a multiple of 8. The code's behaviour for other heights is not modelled: for heights of 1 to 6 modulo 8 the last band reads a row that does not exist, a TypeError; for heights of 7 modulo 8 the missing row is the empty row pushed after the last one, `a |= undefined` ors in 0, and the last band's bit 7 is written as 0.
