# Image decoders of imageviewer, in Dafny

This project models the image decoding core of the imageviewer program. That core is the Netpbm reader of ppm.c (binary P6 and text P3 files with maxval 255), the PNG reader of png.c, and the pixel buffer of utils.c. It also models the older copy of the Netpbm reader at the top of iv.c, and the size request of that file's own `image_create` (iv.c:54). Every decode is modelled twice:

- **Functions over the file's bytes.** The modules `PpmSpec` and `PngSpec` give, as functions of the bytes, the image each reader returns or the way it fails. They follow the C code, including where it departs from the file formats.
- **An imperative model.** The modules `Ppm`, `Iv` and `Png` read a `Stdio.Stream`, which stands for the `FILE *`, and fill a `PixelBuffer.Image`, a class with the flat pixel array and the row view of utils.c. Each method is proved to compute what those functions say.

The properties proved about these functions include:

- a P6 file or a P3 file written from an opaque picture decodes to that picture;
- an 8-bit RGBA PNG with every row stored unfiltered decodes to the pixels its bytes spell, for every width below 2^27 and every height below 2^31 (beyond those bounds png.c's own arithmetic wraps, see "Wide and tall PNG images" below);
- the walk over a chunk stream written byte by byte applies its chunks in order and never reads past IEND;
- it does not matter where IDAT data is cut into chunks;
- each of the five PNG filters is a bijection that the defilter undoes;
- `be32` and `be16` invert the big-endian encoders;
- the iv.c reader agrees with the ppm.c one except on one class of input.

### Modelling conventions

- **Failure.** The C code fails in one of three ways: `exit` (the process ends), a `NULL` return, or undefined behaviour. The model turns each into a named error of `PpmSpec.PpmError` or `PngSpec.PngError`:
  - `OutOfBounds` stands for a read outside a buffer;
  - `Uninitialised` stands for a read of bytes nothing wrote;
  - `Hang` stands for a loop that never ends.
- **Memory allocation.** `malloc` is modelled only where its result is checked, in `image_create`. Two booleans, `dataOk` and `rowsOk`, say whether the pixel array and the row array are granted.
- **zlib.** `inflate` is a function parameter. It receives the IDAT bytes and the size of the output buffer, and reports whether it reached `Z_STREAM_END` and which bytes it wrote.
- **Integer widths.** They are written out where the code depends on them:
  - `uint32_t` arithmetic in the scanline size and the sample indices;
  - the `uint32_t` to `int` conversion of the PNG dimensions;
  - the `(uint8_t)` casts of P3 samples;
  - the `size_t` and `int` products in the allocation sizes.

### Behaviour worth knowing

The model follows the code in each of these cases:

- **Filter tags above 4.** RFC 2083 (section 6) defines filter types 0 to 4 only. The switch of png.c:144-150 has no default case, so for a larger tag `curr` keeps its old bytes. On the first row those bytes are uninitialised (`Uninitialised`); on later rows they are the previous row (`PngSpec.DefilterRow`).
- **Short inflate output.** png.c:126 checks only that `inflate` returned `Z_STREAM_END`, not how many bytes it wrote. Rows past the end of the output read bytes nothing wrote (`Uninitialised`).
- **Palette indices.** RFC 2083 (section 4.1.2) makes a pixel value past the end of the palette an error. png.c:171-174 reads the palette at that index unchecked (`OutOfBounds`).
- **Zero dimensions.** RFC 2083 (section 4.1.1) makes a width or height of 0 invalid. png.c accepts it, and so does ppm.c.
- **IHDR.** RFC 2083 (section 4.1.1) puts IHDR first and only once. png.c:67-74 accepts it anywhere in the chunk stream and any number of times; the last one wins.
- **CRC.** png.c:65 skips every chunk CRC (section 3.2 of RFC 2083) without checking it.
- **Wide and tall PNG images.** RFC 2083 (section 4.1.1) allows a width and a height up to 2^31 - 1. png.c:111 computes `width * bits_per_pixel + 7` in `uint32_t`, so for 8-bit RGBA it wraps from width 2^27 on (at exactly 2^27 `scanline_bytes` is 0). The row is then shorter than the pixel loop of png.c:153-180 expects, and that loop reads past `curr` (`OutOfBounds`). A height of 2^31 or more becomes negative when png.c:128 passes it to `image_create` as an `int`, and no image is created (`NoImage`).
- **Truncation and bad header fields.** A truncated PNG and a bad PPM header end the process with `exit`; they are not returned as errors.
- **`palette_entries`.** png.c:76 computes it but never uses it.

## Model

| member | source | states |
|---|---|---|
| Common.U32 | png.c:111 | `uint32_t` arithmetic: the result is below 2^32 and equals the value when the value fits |
| Common.SizeT | utils.c:11 | conversion to `size_t`: below 2^64, exact on values that fit |
| Common.Int32 | png.c:128 | the `uint32_t` IHDR dimension passed as `int`: negative exactly when it is at least 2^31, congruent to it modulo 2^32 |
| Common.Truncate8 | ppm.c:70-72 | `(uint8_t)` cast: congruent to the value modulo 256, and the value itself when it fits in a byte |
| Common.Zeros | png.c:131 | `calloc` of the first `prev` row: `n` bytes, all zero |
| PixelBuffer.Image.constructor | utils.c:11-26 | a fresh pixel array of `width * height` cells and a row view with `pixels[y] == y * width` |
| PixelBuffer.CellInBounds | utils.c:24-26 | every in-range `(x, y)` lands inside the `width * height` array |
| PixelBuffer.RowEnd | utils.c:24-26 | row `y` ends where row `y + 1` starts, and the last row ends at the end of the array |
| PixelBuffer.RowStartNext | utils.c:24-26 | row `y + 1` starts one row width after `pixels[y]` |
| PixelBuffer.RowViewInjective | utils.c:24-26 | rows never overlap: two in-range coordinates that reach the same cell are equal |
| PixelBuffer.DataRequestExact | utils.c:11 | with the `size_t` cast first, the request is exactly `width * height * 4` bytes for any non-negative `int` dimensions |
| PixelBuffer.DataRequest | utils.c:11 | the `size_t` product `(size_t)width * height * sizeof(Pixel)`, taken modulo 2^64, so always below 2^64 |
| PixelBuffer.CreateSucceeds | utils.c:11-21 | `image_create` returns an image when neither dimension is negative and both allocations are granted |
| PixelBuffer.NegativeWidthRequest | utils.c:11 | with a negative width and a positive height the `size_t` request wraps to 2^64 + 4 * width * height, so it is small only when -width * height is close to 2^62 |
| PixelBuffer.ImageCreate | utils.c:4-29 | NULL exactly when `CreateSucceeds` does not hold; otherwise a fresh, valid image with the requested dimensions and a row view over its data |
| Stdio.FindByte | ppm.c:12 | the first position at or after `i` holding the byte, with no earlier one; None exactly when there is none |
| Stdio.SkipSpace | ppm.c:30 | `%d` skips white space: the byte it stops at is not white space |
| Stdio.SpaceRun | ppm.c:30 | every byte `%d` skips before a number is white space |
| Stdio.DigitsEnd | ppm.c:30 | the run of digits read by `%d` ends at a non-digit or at end of file |
| Stdio.DigitsRun | ppm.c:30 | every byte of the run of digits read by `%d` is a digit |
| Stdio.ScanDecimal | ppm.c:30-34 | a successful `%d` consumes at least one byte, ends on a digit and is not followed by a digit |
| Stdio.GetsEnd | ppm.c:22 | `fgets` stores at most `room` bytes, stops after the first newline, and stops early only at a newline or end of file |
| Stdio.Stream.Open | ppm.c:79 | a stream over the file's bytes with the cursor at 0 |
| Stdio.Stream.Getc | ppm.c:10-13 | `fgetc` returns the byte at the cursor and advances, or EOF at the end without moving |
| Stdio.Stream.Ungetc | ppm.c:15 | `ungetc` of the byte just read moves the cursor back one; `ungetc(EOF)` leaves it |
| Stdio.Stream.Read | png.c:22-23 | `fread` returns the next `n` bytes, fewer when the file ends, and the cursor moves past them |
| Stdio.Stream.Skip | png.c:65 | `fseek(fp, 4, SEEK_CUR)` moves the cursor by `n`, kept at the end of the file |
| Stdio.Stream.Gets | ppm.c:22 | `fgets` returns the bytes up to `GetsEnd` and leaves the cursor there |
| Stdio.Stream.ScanInt | ppm.c:30 | `fscanf("%d")` converts exactly when `ScanDecimal` does, giving its value and end position |
| Stdio.DecimalRoundTrip | ppm.c:30 | the decimal writer and the digit reader are inverse |
| Stdio.ScanDecimalRoundTrip | ppm.c:30-34 | `%d` reads back any integer written in decimal after white space when no digit follows it |
| PpmSpec.AfterComments | ppm.c:9-16 | `skip_comments` stops in front of the first byte that is not '#', just past a newline when it skipped a comment; None when a comment has no newline |
| PpmSpec.NoComment | ppm.c:10-15 | a byte other than '#' (or end of file) at the cursor makes `skip_comments` leave the cursor where it is |
| PpmSpec.CommentLine | ppm.c:11-13 | a comment line is skipped through its newline; without one the scan never ends |
| PpmSpec.Field | ppm.c:29-34 | a header field consumes at least one byte, or fails as `Hang` or `BadNumber` |
| PpmSpec.HeaderTokens | ppm.c:22-39 | `BadMagic` exactly when the first line is not "P3" or "P6"; on success the file starts with "P3" or "P6" and `isP6` matches; `BadMaxval` only for a maxval other than 255 |
| PpmSpec.MagicOk | ppm.c:22-27 | the magic check: `fgets` stored at least two bytes and they are "P3" or "P6" |
| PpmSpec.AfterMaxval | ppm.c:42 | consumes through the first newline after maxval, or to the end of the file when there is none |
| PpmSpec.ReadHeader | ppm.c:18-43 | `read_ppm_header` succeeds exactly when the tokens parse; the pixel data starts after the rest of the maxval line; errors are passed on |
| PpmSpec.P6Pixels | ppm.c:45-60 | `n` pixels succeed exactly when `3n` bytes remain; pixel `k` is bytes `3k`, `3k+1`, `3k+2` with alpha 255; otherwise `ShortP6` |
| PpmSpec.ScanTriple | ppm.c:66 | three `%d` conversions consume at least one byte |
| PpmSpec.TextPixel | ppm.c:70-73 | each channel is the value modulo 256, and alpha is 255 |
| PpmSpec.P3Scan | ppm.c:62-76 | after `y` rows and `x` cells, `y * w + x` opaque pixels, or `P3Parse` with a 1-based row and column inside the grid |
| PpmSpec.P3ScanNextRow | ppm.c:63-64 | the start of row `y + 1` is the end of row `y` |
| PpmSpec.P3FailureSticks | ppm.c:66-68 | the first triple that fails to parse decides the outcome of the whole read |
| PpmSpec.P3RowFails | ppm.c:63-68 | a row that fails to parse ends the read of the whole grid with that row's error |
| PpmSpec.DecodeBody | ppm.c:88-98 | an image has the header's dimensions and `width * height` opaque pixels; a header error is passed on |
| PpmSpec.DecodePpm | ppm.c:78-102 | an image comes only from a good header and has its dimensions and `width * height` pixels |
| Ppm.SkipLine | ppm.c:12 | the inner loop stops just past the next newline, and ends exactly when there is one |
| Ppm.SkipComments | ppm.c:9-16 | the stream ends where `AfterComments` says, and the loop ends exactly when that is defined |
| Ppm.ReadField | ppm.c:29-30 | the value, the error and the new cursor are those of `Field` |
| Ppm.ConsumeLine | ppm.c:42 | the cursor ends at `AfterMaxval` |
| Ppm.ReadMagic | ppm.c:22-27 | succeeds exactly when the first line is "P3" or "P6"; reports P6 exactly when the second byte is '6' |
| Ppm.ReadHeaderTokens | ppm.c:22-39 | the header, the error and the cursor are those of `HeaderTokens` |
| Ppm.ReadPpmHeader | ppm.c:18-43 | the header, the error and the cursor are those of `ReadHeader` |
| Ppm.ReadP6 | ppm.c:45-60 | the image data becomes `P6Pixels` of the stream, or `ShortP6` exactly when the file is too short |
| Ppm.ReadTriple | ppm.c:66 | the three values and the cursor are those of `ScanTriple` |
| Ppm.ReadP3Pixel | ppm.c:65-73 | one more cell of `P3Scan`, written at `pixels[y][x]` |
| Ppm.ReadP3Cells | ppm.c:64-74 | the inner loop extends `P3Scan` by one row, or stops with its error |
| Ppm.ReadP3Row | ppm.c:63-75 | one pass of the outer loop fills row `y` from `pixels[y]` as `P3Scan` says |
| Ppm.ReadP3 | ppm.c:62-76 | the image data becomes `P3Scan` of the whole grid, or its error |
| Ppm.ReadPpmImage | ppm.c:78-102 | fails exactly when `DecodePpm` does, with its error; otherwise a fresh valid image whose value is `DecodePpm` |
| Iv.IvAfterMaxval | iv.c:45 | just past the first newline after maxval; None, the endless loop, exactly when no newline is left |
| Iv.IvReadHeader | iv.c:23-46 | the ppm.c tokens and their errors, then `Hang` when no newline follows maxval |
| Iv.IvDecodePpm | iv.c:114-138 | an image comes only from a good iv.c header and has its dimensions and `width * height` pixels |
| Iv.IvAgreesWithPpm | iv.c:45 | the iv.c and ppm.c readers give the same result, except that iv.c hangs where ppm.c finds no newline after maxval |
| Iv.NoNewlineAfterMaxval | iv.c:45 | on "P6\n0 0 255", ppm.c returns an empty image and iv.c never returns |
| Iv.IvDataRequest | iv.c:54 | the byte count iv.c asks for: the `int` product `width * height`, wrapped to 32 bits, then converted to `size_t` and multiplied by 4 |
| Iv.IvDataRequestWraps | iv.c:54 | for a 65536 x 65536 image, iv.c asks `malloc` for 0 bytes and utils.c for 16 GiB |
| Iv.SkipComments | iv.c:15-22 | the stream ends where ppm.c's `skip_comments` leaves it, because `ungetc(EOF)` does nothing |
| Iv.ReadField | iv.c:34-35 | the value, the error and the cursor are those of `Field` |
| Iv.ReadHeaderTokens | iv.c:28-44 | the header, the error and the cursor are those of `HeaderTokens` |
| Iv.ReadPpmHeader | iv.c:23-46 | the header, the error and the cursor are those of `IvReadHeader` |
| Iv.ReadPpmImage | iv.c:114-138 | fails exactly when `IvDecodePpm` does, with its error; otherwise a fresh valid image whose value is `IvDecodePpm` |
| PngSpec.Paeth | png.c:29-35 | the predictor is one of `a`, `b`, `c` and nearest to `a + b - c`, with ties going to `a`, then `b` |
| PngSpec.Be32 | png.c:16-18 | a value below 2^32 whose top byte is `p[0]` and whose low byte is `p[3]` |
| PngSpec.Be16 | png.c:19-21 | a value below 2^16 whose high byte is `p[0]` and whose low byte is `p[1]` |
| PngSpec.Predictor | png.c:140-149 | the prediction of each filter; the Average prediction is the floor of the mean of `a` and `b` |
| PngSpec.Recon | png.c:144-150 | a defiltered byte is the filtered byte plus the filter's prediction, modulo 256 |
| PngSpec.Unfilter | png.c:139-151 | the first `n` defiltered bytes of a row; the round trips with `PngProps.Filter` are below |
| PngSpec.ApplyChunk | png.c:67-92 | IDAT appends, PLTE and tRNS replace, other types change nothing; failure exactly for an IHDR shorter than 13 bytes (`OutOfBounds`) or interlaced (`Interlaced`) |
| PngSpec.ChunkAt | png.c:57-65 | succeeds exactly when the length, the type and the payload fit; gives the type, the payload and the position after the CRC; otherwise `Truncated` |
| PngSpec.WalkChunks | png.c:56-98 | the loop only appends to the IDAT buffer, and the dimensions stay 32-bit |
| PngSpec.BitsPerPixel | png.c:101-109 | the switch: grey and palette take the bit depth, grey+alpha twice it, RGB three times, RGBA four times; None exactly for other colour types |
| PngSpec.ScanlineBytes | png.c:111 | the bytes per scanline are `(width * bits + 7) / 8` when the product fits in 32 bits, and always below 2^29 |
| PngSpec.BytesPerPixel | png.c:133 | whole bytes per pixel, rounded up, at least 1 for a non-zero bit count |
| PngSpec.DefilterRow | png.c:139-151 | filters 0-4 undo the filter; a tag above 4 keeps `prev` on later rows and is `Uninitialised` on the first row |
| PngSpec.PaletteAlpha | png.c:175 | the tRNS entry when there is one, opaque otherwise |
| PngSpec.PixelOf | png.c:154-180 | reading one pixel fails only with `OutOfBounds` |
| PngSpec.PixelOfLayout | png.c:154-180 | for each colour type, the bytes pixel `x` is read from, and `OutOfBounds` exactly when one of them lies past the row or the palette |
| PngSpec.RowPixels | png.c:153-181 | `n` pixels, each `PixelOf` its column, or `OutOfBounds` |
| PngSpec.RowPixelsSucceed | png.c:153-181 | a row's pixels are read exactly when every one of its pixels can be read |
| PngSpec.RowFailureSticks | png.c:153-181 | a pixel that cannot be read decides the row |
| PngSpec.RowBytes | png.c:136-151 | a row of `scan` bytes, all written by `inflate`; otherwise `Uninitialised` |
| PngSpec.RowBytesValue | png.c:136-151 | the row is read exactly when its tag and `scan` bytes were written and, on the first row of a non-empty scanline, the tag is 0-4; it is the defiltered bytes for tags 0-4 and `prev` above 4 |
| PngSpec.DecodeRow | png.c:136-181 | the row's bytes and `width` pixels, or `OutOfBounds`/`Uninitialised` |
| PngSpec.DecodeRowValue | png.c:136-182 | a row decodes exactly when its bytes are read and every pixel of them can be read; it gives those bytes and their `RowPixels` |
| PngSpec.DecodeRows | png.c:135-183 | after `y` rows, `y * width` pixels and a `scan`-byte `prev` row |
| PngSpec.RowsFailureSticks | png.c:135-183 | a row that cannot be decoded decides the whole decode |
| PngSpec.RowsStep | png.c:135-183 | one more pass of the row loop decodes the next row against `prev` and appends its pixels |
| PngSpec.RowsAppend | png.c:135-183 | a decoded row appends its pixels to those of the rows before it, and becomes the next `prev` |
| PngSpec.Written | png.c:118-122 | `inflate` writes a prefix of its output of at most `avail_out` bytes |
| PngSpec.BuildPicture | png.c:128-186 | an image has the IHDR dimensions and `width * height` pixels; `NoImage` when `image_create` fails |
| PngSpec.BuildPictureValue | png.c:128-186 | an image comes exactly when `image_create` succeeds and every row decodes, and its pixels are those of the rows |
| PngSpec.DecodeImage | png.c:101-186 | an image has the IHDR dimensions; `BadColorType` for an unknown colour type |
| PngSpec.DecodePng | png.c:37-190 | `Truncated` for a file under 8 bytes, `BadSignature` for a wrong signature, and any image has `width * height` pixels |
| Png.ReadExact | png.c:22-27 | the next `n` bytes, or `Truncated` exactly when the file ends first |
| Png.AppendIdat | png.c:85-92 | the buffer holds the old bytes followed by the payload; it grows by the payload plus 8192 only when the payload does not fit |
| Png.Chunk | png.c:67-92 | the effect is `ApplyChunk`, and the IDAT array holds the state's IDAT bytes |
| Png.NextChunk | png.c:57-65 | the type, the payload and the cursor are those of `ChunkAt`, or `Truncated` |
| Png.ReadChunks | png.c:56-98 | the loop's result is `WalkChunks` from the cursor |
| Png.DefilterInPlace | png.c:139-151 | `curr` becomes `DefilterRow` of the row, and fails exactly when it does |
| Png.WriteRow | png.c:153-181 | the row's cells become `RowPixels`, earlier cells unchanged, or its error |
| Png.DefilterRaw | png.c:136-151 | `curr` becomes `RowBytes` of row `y`, or its error |
| Png.DecodeOneRow | png.c:136-182 | `DecodeRow`: `prev` becomes the defiltered row and the image row its pixels, or its error |
| Png.RowPass | png.c:135-183 | one loop pass extends `DecodeRows` by a row in the image and in `prev` |
| Png.RowLoop | png.c:131-183 | the image data becomes the pixels of `DecodeRows`, or its error |
| Png.DecodeAllRows | png.c:131-185 | the same, allocating `prev` with zeros and `curr` |
| Png.BuildImage | png.c:128-186 | fails exactly when `BuildPicture` does, with its error; otherwise a fresh valid image whose value is `BuildPicture` |
| Png.DecodeChunks | png.c:101-186 | fails exactly when `DecodeImage` does, with its error; otherwise a fresh valid image whose value is `DecodeImage` |
| Png.ReadPngImage | png.c:37-190 | fails exactly when `DecodePng` does, with its error; otherwise a fresh valid image whose value is `DecodePng` |
| PngProps.Be32OfBytes | png.c:16-18 | `be32` reads back every 32-bit value written most significant byte first |
| PngProps.BytesOfBe32 | png.c:16-18 | every four bytes are the big-endian encoding of what `be32` reads |
| PngProps.Be16OfBytes | png.c:19-21 | `be16` reads back every 16-bit value written most significant byte first |
| PngProps.BytesOfBe16 | png.c:19-21 | every two bytes are the big-endian encoding of what `be16` reads |
| PngProps.PaethExample | png.c:29-35 | worked values of the predictor |
| PngProps.AverageFloors | png.c:148 | the Average filter rounds down: 3 and 4 predict 3 |
| PngProps.UnfilterFilterPrefix | png.c:139-151 | defiltering a filtered row gives back each prefix of the original row |
| PngProps.FilterRoundTrip | png.c:139-151 | any row filtered with any of the five filters comes back unchanged from the defilter, on the first row and later ones |
| PngProps.UnfilterPrefixStable | png.c:139-151 | the first bytes defiltered do not depend on the later ones |
| PngProps.FilterUnfilterAt | png.c:139-151 | filtering a defiltered row gives back each filtered byte |
| PngProps.FilterUnfilter | png.c:139-151 | filtering a defiltered row gives back the filtered row, so each filter is a bijection |
| PngProps.UnfilterNone | png.c:145 | filter type 0 stores the bytes as they are |
| PngProps.ChunkAtEncoded | png.c:57-65 | an encoded chunk reads back as its type and payload, with the next chunk after its CRC |
| PngProps.WalkEnd | png.c:93-96 | IEND ends the walk with the state unchanged, whatever follows it |
| PngProps.WalkStops | png.c:93-96 | the walk stops at a chunk of type IEND |
| PngProps.WalkStep | png.c:56-98 | a chunk other than IEND is applied and the walk goes on after its CRC, or stops with its error |
| PngProps.WalkEncoded | png.c:56-98 | the walk over well-formed chunks ending in IEND is their effect in order; bytes after IEND are never read |
| PngProps.ApplyAllAppend | png.c:56-98 | applying two lists of chunks is applying one after the other |
| PngProps.SignatureFirst | png.c:41-45 | a file starting with the signature passes the signature check |
| PngProps.WalkFile | png.c:41-98 | an encoded file passes the signature and its walk is the chunks' effect |
| PngProps.DecodeEncoded | png.c:37-190 | an encoded file decodes as its chunks' effect followed by the image decode |
| PngProps.IdatConcatenated | png.c:85-92 | the IDAT buffer ends with every IDAT payload in file order |
| PngProps.IdatPieces | png.c:85-92 | one IDAT chunk has the effect of two that hold its bytes in order |
| PngProps.IdatSplitChunks | png.c:85-92 | the same with any chunks before and after |
| PngProps.IdatSplit | png.c:85-92 | where the IDAT data is cut into chunks does not change the decoded image, whatever the CRCs |
| PngProps.InterlacedRefused | png.c:67-74 | an interlaced IHDR is refused with `Interlaced` before any other chunk is read |
| PngProps.IhdrRead | png.c:67-72 | the IHDR fields land in the loop's variables unchanged |
| PngProps.RgbaWalk | png.c:56-98 | the IHDR and IDAT chunks of an 8-bit RGBA image leave its dimensions, bit depth, colour type and IDAT bytes |
| PngProps.RgbaPixelOf | png.c:161-166 | an RGBA pixel is the four bytes at `4 * x` |
| PngProps.RgbaRow | png.c:136-182 | an unfiltered RGBA row decodes, and each pixel is the four bytes it spells |
| PngProps.PixelAtAppend | utils.c:24-26 | appending a row leaves the pixels of earlier rows in place and puts the row at the new last row |
| PngProps.RgbaGridAppend | png.c:135-183 | a row of spelled pixels extends a grid of spelled pixels by one row |
| PngProps.RgbaRows | png.c:135-183 | any number of unfiltered RGBA rows decode, and pixel `(x, y)` is the four bytes of row `y` at `4 * x` |
| PngProps.RgbaImage | png.c:101-186 | an RGBA image whose rows are all unfiltered decodes to its IHDR dimensions and the pixels its bytes spell, for width below 2^27 (so that the `uint32_t` product of png.c:111 does not wrap) and height below 2^31 (so that png.c:128 passes a non-negative `int`) |
| PngProps.RgbaFile | png.c:37-190 | the same for a whole file written as signature, IHDR, IDAT and IEND, under the same bounds on width and height |
| PpmProps.FieldOver | ppm.c:29-34 | a header field written in decimal after at most one blank, and not followed by a digit, reads back as its value |
| PpmProps.WidthField | ppm.c:29-30 | the width field of a written header reads back |
| PpmProps.HeightField | ppm.c:31-32 | the height field reads back |
| PpmProps.MaxvalField | ppm.c:33-34 | maxval 255 reads back |
| PpmProps.WrittenFields | ppm.c:22-39 | a written header, P3 or P6, is read as its magic, its width, its height and maxval 255 |
| PpmProps.MaxvalLineEnd | ppm.c:42 | a newline right after maxval ends the header just after it |
| PpmProps.HeaderThen | ppm.c:18-43 | the header read ends where the maxval line ends |
| PpmProps.WrittenTokens | ppm.c:22-39 | a written file's tokens are its magic and dimensions, with the data right after the maxval newline |
| PpmProps.HeaderLineEnd | ppm.c:42 | a header whose maxval is followed by a newline ends after that newline |
| PpmProps.WrittenHeader | ppm.c:18-43 | the header of a written file reads back as its magic and dimensions, and the pixel data starts right after it |
| PpmProps.P6PixelsOf | ppm.c:45-60 | byte triples written from opaque pixels read back as those pixels |
| PpmProps.P6RoundTrip | ppm.c:78-102 | a P6 file written from an opaque picture decodes to that picture |
| PpmProps.UnsignedScan | ppm.c:66 | one `%d` reads back a number written in decimal after at most one blank, when no digit follows it |
| PpmProps.TripleOf | ppm.c:66 | three numbers read one after the other make the triple of `fscanf("%d %d %d")` |
| PpmProps.PixelLineScan | ppm.c:66 | a written pixel line reads back as its three channels, and the read stops at its newline |
| PpmProps.P3TextAppend | ppm.c:63-75 | the text of two runs of pixels is the text of the first followed by that of the second |
| PpmProps.PixelRead | ppm.c:65-73 | pixel `m` of a written text reads back from where the read of the pixel before it stopped |
| PpmProps.TextLinesRead | ppm.c:62-76 | every pixel line of a written text reads back |
| PpmProps.PixelScanned | ppm.c:65-73 | a line that reads back as an opaque pixel extends the pixels read so far by that pixel |
| PpmProps.P3ScanText | ppm.c:62-76 | `read_p3` over readable lines reads the first `y * w + x` pixels, in storage order |
| PpmProps.P3DataScan | ppm.c:62-76 | readable pixel lines are read back as the whole picture |
| PpmProps.P3RoundTrip | ppm.c:78-102 | a P3 file written from an opaque picture decodes to that picture |

## Left out

- I/O: `fopen` failure, `fclose`, the contents of the `fprintf` and `perror` messages, and the SDL display loop and `main` of iv.c. A file is the sequence of its bytes.
- zlib's `inflate` is a parameter. DEFLATE itself and `inflateInit`/`inflateEnd` are not modelled.
- `image_free` (utils.c:31-36, iv.c:73-79) and every other `free`: Dafny has no manual memory management. Two double frees of `idat` are therefore not represented. png.c:124 frees `idat`, and the `fail` label frees it again at png.c:189. Both jumps to `fail` after png.c:124 reach it: the one for a failed inflate (png.c:126) and the one for a failed `image_create` (png.c:129).
- Unchecked `malloc`, `calloc` and `realloc` calls (png.c:63, 77, 82, 88, 114, 131, 132) are assumed to succeed.
- PixelBuffer.ImageCreate: a failed allocation of the `Image` struct itself (utils.c:5-6) is folded into `dataOk`.
- PixelBuffer.ImageCreate: returns NULL for every negative width, as `PixelBuffer.CreateSucceeds` decides; the next line lists where C returns an image instead.
- PixelBuffer.CreateSucceeds: every negative width counts as a failure, so `PixelBuffer.ImageCreate` returns NULL for it. C can return an image in two cases:
  - With height 0, both requests are 0 bytes: `(size_t)width * height * sizeof(Pixel)` at utils.c:11 and `height * sizeof(Pixel *)` at utils.c:17. A `malloc` that grants them lets C return an image of negative width, for example for the P6 header "P6\n-5 0\n255\n".
  - With a positive height, the pixel request is 2^64 - 4 * |width| * height (`PixelBuffer.NegativeWidthRequest`). It is small enough to be granted only when |width| * height is close to 2^62. For example, width -2^31 and height 2^31 - 1 ask for 8 GiB, and the row array for about 16 GiB. Two inputs reach this case: the header "P6\n-2147483648 2147483647\n255\n", and a PNG IHDR with width 0x80000000 and height 0x7FFFFFFF, since png.c:128 turns that width into -2^31. Every such size makes `y * width` at utils.c:25 overflow `int`, which is undefined behaviour in C. The model answers NULL instead.
  - A negative height fails in C as well, because its row request is larger than any memory.
- Iv.ReadPpmImage: allocates through utils.c's `image_create` (`PixelBuffer.ImageCreate`), not through the copy at iv.c:47-72. That copy's `int` request wraps (see Findings), and so do its row offsets (iv.c:68) and the `int` pixel count of `read_p6` (iv.c:81). For a 65536 x 65536 header, iv.c's `read_p6` writes nothing and returns an image with a 0-byte buffer, and its `read_p3` (iv.c:100-110) writes from `pixels[0][0]` on into that buffer. The model instead allocates the full image and reads every pixel.
- PixelBuffer.Image.constructor: the row offset `y * width` (utils.c:25, iv.c:68) is an `int` product in C. It overflows for sizes `malloc` can grant: for a 65536 x 65536 image from row 32768 on, and for the PNG dimensions png.c:128 passes, which go up to 2^31 - 1. The model keeps the exact product, so every row of such an image starts where it should.
- Ppm.ReadField: `fscanf("%d")` of a number that does not fit in an `int` is undefined in C. The model reads the exact value.
- Png.ReadChunks: a cursor moved past the end by `fseek` is kept at the end of the file. Every later read returns nothing either way.
- PngSpec.DecodeImage: the bit depth enters only the bits-per-pixel table. Sub-byte and 16-bit samples are read as png.c:153-181 reads them: one byte per sample index, not unpacked.
- PngSpec.Be32: `p[0] << 24` on an `int` overflows for bytes of 128 and above, which is undefined in C. The model keeps the `uint32_t` value the result is stored as.
- `palette_entries` (png.c:76) is never read by the code and is not modelled.

## Findings

| source | as written | input that shows it | evidently intended | confidence | as-written member | corrected member |
|---|---|---|---|---|---|---|
| iv.c:54 | `malloc(width * height * sizeof(Pixel))` multiplies `width * height` in `int`, which wraps before the conversion to `size_t` | a 65536 x 65536 image: the product wraps to 0 and `malloc` is asked for 0 bytes. The `int` pixel count of `read_p6` (iv.c:81) wraps to 0 as well, so it writes nothing and returns a 0-byte image that claims 65536 x 65536; `read_p3` (iv.c:100-110) writes from `pixels[0][0]` on into the 0-byte buffer | cast to `size_t` before multiplying, as utils.c:11 does | not executed; high (arithmetic) | Iv.IvDataRequestWraps | PixelBuffer.DataRequestExact |
