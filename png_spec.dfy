/** What `read_png_image` of png.c computes, as functions of the file's
    bytes: the chunk walk, the size arithmetic, the scanline filters of the
    PNG format (RFC 2083, sections 6.2 to 6.6) and the conversion of each
    defiltered row to RGBA pixels. zlib's `inflate` is a parameter. */
module PngSpec {
  import opened Common
  import PixelBuffer

  /** How a decode ends without an image. `Truncated` is the `exit(1)` of
      `read_exact`; `BadSignature`, `Interlaced`, `BadColorType`,
      `InflateFailed` and `NoImage` are the NULL returns; `OutOfBounds` and
      `Uninitialised` mark inputs on which the C code reads outside a buffer
      or reads bytes nothing wrote, which C leaves undefined. */
  datatype PngError =
    | Truncated
    | BadSignature
    | Interlaced
    | BadColorType
    | InflateFailed
    | NoImage
    | OutOfBounds
    | Uninitialised

  /** The 8-byte signature every PNG file starts with. */
  const Signature: seq<Byte> := [137, 80, 78, 71, 13, 10, 26, 10]

  /** Chunk types, the four ASCII letters read as a big-endian number. */
  const ChunkIHDR: nat := 0x49484452
  const ChunkIDAT: nat := 0x49444154
  const ChunkIEND: nat := 0x49454E44
  const ChunkPLTE: nat := 0x504C5445
  const ChunkTRNS: nat := 0x74524E53

  /** `be32`: four bytes, most significant first. `p[0] << 24` is taken on
      an `int`; the model keeps the value the `uint32_t` result holds. */
  function Be32(p: seq<Byte>): (r: nat)
    requires |p| == 4
    ensures r < TwoTo32
    ensures r / 0x100_0000 == p[0] && r % 0x100 == p[3]
  {
    (p[0] as int) * 0x100_0000 + (p[1] as int) * 0x1_0000 + (p[2] as int) * 0x100 + p[3]
  }

  /** `be16`: two bytes, most significant first. */
  function Be16(p: seq<Byte>): (r: nat)
    requires |p| == 2
    ensures r < 0x1_0000
    ensures r / 0x100 == p[0] && r % 0x100 == p[1]
  {
    (p[0] as int) * 0x100 + p[1]
  }

  function Abs(n: int): nat
  {
    if n < 0 then -n else n
  }

  /** `paeth`: of `a` (left), `b` (above) and `c` (upper left), the one
      nearest to `a + b - c`, ties going to `a`, then `b`. */
  function Paeth(a: Byte, b: Byte, c: Byte): (r: Byte)
    ensures r == a || r == b || r == c
    ensures var p := a + b - c;
            Abs(p - r) <= Abs(p - a) && Abs(p - r) <= Abs(p - b) && Abs(p - r) <= Abs(p - c)
    ensures var p := a + b - c;
            (Abs(p - a) <= Abs(p - b) && Abs(p - a) <= Abs(p - c) ==> r == a)
            && (Abs(p - b) < Abs(p - a) && Abs(p - b) <= Abs(p - c) ==> r == b)
  {
    var p := a + b - c;
    var pa, pb, pc := Abs(p - a), Abs(p - b), Abs(p - c);
    if pa <= pb && pa <= pc then a
    else if pb <= pc then b
    else c
  }

  /** What the chunk loop keeps: the IHDR fields and the most recent PLTE
      and tRNS payloads (empty when there is none), and the IDAT payloads
      collected so far. */
  datatype ChunkState = ChunkState(
    width: nat, height: nat, bitDepth: Byte, colorType: Byte,
    palette: seq<Byte>, trans: seq<Byte>, idat: seq<Byte>)

  /** The variables of `read_png_image` before the first chunk. */
  const Initial: ChunkState := ChunkState(0, 0, 0, 0, [], [], [])

  /** The effect of one chunk other than IEND on the state of the loop
      (png.c:67-92). An IHDR shorter than 13 bytes is read past its end. */
  function ApplyChunk(st: ChunkState, typ: nat, payload: seq<Byte>): (r: Result<ChunkState, PngError>)
    ensures typ == ChunkIDAT ==> r == Success(st.(idat := st.idat + payload))
    ensures typ == ChunkPLTE ==> r == Success(st.(palette := payload))
    ensures typ == ChunkTRNS ==> r == Success(st.(trans := payload))
    ensures typ != ChunkIHDR && typ != ChunkIDAT && typ != ChunkPLTE && typ != ChunkTRNS ==> r == Success(st)
    ensures r.Failure? <==> typ == ChunkIHDR && (|payload| < 13 || payload[12] != 0)
    ensures r.Failure? ==> r.error == (if |payload| < 13 then OutOfBounds else Interlaced)
    ensures r.Success? && st.width < TwoTo32 && st.height < TwoTo32 ==>
              r.value.width < TwoTo32 && r.value.height < TwoTo32
  {
    if typ == ChunkIHDR then
      if |payload| < 13 then Failure(OutOfBounds)
      else if payload[12] != 0 then Failure(Interlaced)
      else Success(st.(width := Be32(payload[0..4]), height := Be32(payload[4..8]),
                       bitDepth := payload[8], colorType := payload[9]))
    else if typ == ChunkPLTE then Success(st.(palette := payload))
    else if typ == ChunkTRNS then Success(st.(trans := payload))
    else if typ == ChunkIDAT then Success(st.(idat := st.idat + payload))
    else Success(st)
  }

  /** The chunk that starts at byte `pos` (png.c:57-65): its type, its
      payload, and where the next one starts after the four CRC bytes,
      which are skipped unchecked. A file that ends inside the length, the
      type or the payload is `Truncated`. */
  function ChunkAt(s: seq<Byte>, pos: nat): (r: Result<(nat, seq<Byte>, nat), PngError>)
    requires pos <= |s|
    ensures r.Success? <==> pos + 8 <= |s| && pos + 8 + Be32(s[pos..pos + 4]) <= |s|
    ensures r.Failure? ==> r.error == Truncated
    ensures r.Success? ==> var len := Be32(s[pos..pos + 4]);
                           r.value == (Be32(s[pos + 4..pos + 8]), s[pos + 8..pos + 8 + len], Min(pos + 12 + len, |s|))
    ensures r.Success? ==> pos < r.value.2 <= |s|
  {
    if pos + 8 > |s| then Failure(Truncated)
    else
      var len := Be32(s[pos..pos + 4]);
      if pos + 8 + len > |s| then Failure(Truncated)
      else Success((Be32(s[pos + 4..pos + 8]), s[pos + 8..pos + 8 + len], Min(pos + 12 + len, |s|)))
  }

  /** The chunk loop of png.c:56-98 from byte `pos` of the file, until
      IEND. */
  function WalkChunks(s: seq<Byte>, pos: nat, st: ChunkState): (r: Result<ChunkState, PngError>)
    requires pos <= |s| && st.width < TwoTo32 && st.height < TwoTo32
    ensures r.Success? ==> r.value.width < TwoTo32 && r.value.height < TwoTo32
    ensures r.Success? ==> |st.idat| <= |r.value.idat| && st.idat == r.value.idat[..|st.idat|]
    decreases |s| - pos
  {
    var (typ, payload, next) :- ChunkAt(s, pos);
    if typ == ChunkIEND then Success(st)
    else
      var st' :- ApplyChunk(st, typ, payload);
      WalkChunks(s, next, st')
  }

  /** The colour types the switch of png.c:102-109 accepts. */
  predicate KnownColorType(colorType: int)
  {
    colorType == 0 || colorType == 2 || colorType == 3 || colorType == 4 || colorType == 6
  }

  /** Bits per pixel by colour type: grey and palette indices take one
      sample, grey with alpha two, RGB three, RGBA four. */
  function BitsPerPixel(colorType: Byte, bitDepth: Byte): (r: Option<nat>)
    ensures r.Some? <==> KnownColorType(colorType)
    ensures colorType == 0 || colorType == 3 ==> r == Some(bitDepth)
    ensures colorType == 2 ==> r == Some(3 * bitDepth)
    ensures colorType == 4 ==> r == Some(2 * bitDepth)
    ensures colorType == 6 ==> r == Some(4 * bitDepth)
  {
    match colorType
    case 0 => Some(bitDepth)
    case 2 => Some(3 * bitDepth)
    case 3 => Some(bitDepth)
    case 4 => Some(2 * bitDepth)
    case 6 => Some(4 * bitDepth)
    case _ => None
  }

  /** `scanline_bytes`, png.c:111: `width * bits + 7` is computed in
      `uint32_t` and wraps modulo 2^32 before the division. */
  function ScanlineBytes(width: nat, bits: nat): (r: nat)
    ensures width * bits + 7 < TwoTo32 ==> r * 8 <= width * bits + 7 < r * 8 + 8
    ensures r < TwoTo32 / 8
  {
    U32(U32(width * bits) + 7) / 8
  }

  /** The byte distance of `a` and `c` from the byte being defiltered,
      png.c:133: whole bytes per pixel, at least one for any non-zero
      bit count. */
  function BytesPerPixel(bits: nat): (r: nat)
    ensures bits > 0 ==> r >= 1
    ensures r * 8 >= bits && (r == 0 || (r - 1) * 8 < bits)
  {
    (bits + 7) / 8
  }

  /** The prediction each filter of section 6 of RFC 2083 adds back: none,
      the left byte, the byte above, their floor average, or Paeth. */
  function Predictor(filter: Byte, a: Byte, b: Byte, c: Byte): (p: Byte)
    requires filter <= 4
    ensures filter == 3 ==> 2 * p <= a + b <= 2 * p + 1
  {
    match filter
    case 0 => 0
    case 1 => a
    case 2 => b
    case 3 => (a + b) / 2
    case 4 => Paeth(a, b, c)
  }

  /** One defiltered byte (png.c:144-150): the filtered byte `x` plus the
      filter's predictor, modulo 256. `filter` is one of 0 to 4. The body
      follows the switch of png.c case by case; the ensures restate it
      through `Predictor`, which is the form the filter round trip of
      `PngProps` works with. */
  function Recon(filter: Byte, x: Byte, a: Byte, b: Byte, c: Byte): (r: Byte)
    requires filter <= 4
    ensures r == ((x as int) + Predictor(filter, a, b, c)) % 256
  {
    match filter
    case 0 => x
    case 1 => (x + a) % 256
    case 2 => (x + b) % 256
    case 3 => (x + (a + b) / 2) % 256
    case 4 => (x + Paeth(a, b, c)) % 256
  }

  /** The left neighbour `bpp` bytes back, 0 before the first pixel. */
  function Left(row: seq<Byte>, i: nat, bpp: nat): Byte
    requires i <= |row| + bpp
  {
    if i >= bpp && i - bpp < |row| then row[i - bpp] else 0
  }

  /** The first `n` bytes of a row defiltered with `filter` (one of 0 to 4)
      against the row above, `prev`: byte `i` is the filtered byte plus the
      prediction from the bytes already defiltered and the row above. */
  function Unfilter(filter: Byte, src: seq<Byte>, prev: seq<Byte>, bpp: nat, n: nat): (r: seq<Byte>)
    requires filter <= 4 && n <= |src| == |prev| && (n == 0 || bpp >= 1)
    ensures |r| == n
    decreases n
  {
    if n == 0 then []
    else
      var done := Unfilter(filter, src, prev, bpp, n - 1);
      var i := n - 1;
      done + [Recon(filter, src[i], Left(done, i, bpp), prev[i], Left(prev, i, bpp))]
  }

  /** The row the inner loop of png.c:139-151 leaves in `curr`. For a
      filter tag above 4 the switch writes nothing, so `curr` keeps what it
      held: on rows after the first the previous row (it was copied into
      `prev`), on the first row bytes nothing wrote. */
  function DefilterRow(filter: Byte, src: seq<Byte>, prev: seq<Byte>, bpp: nat, first: bool)
    : (r: Result<seq<Byte>, PngError>)
    requires |src| == |prev| && (|src| == 0 || bpp >= 1)
    ensures filter <= 4 ==> r == Success(Unfilter(filter, src, prev, bpp, |src|))
    ensures filter > 4 && !first ==> r == Success(prev)
    ensures r.Failure? <==> filter > 4 && first && |src| > 0
    ensures r.Failure? ==> r.error == Uninitialised
  {
    if filter <= 4 then Success(Unfilter(filter, src, prev, bpp, |src|))
    else if first && |src| > 0 then Failure(Uninitialised)
    else Success(prev)
  }

  /** The decoded image's layout and the tables the pixel conversion uses. */
  datatype Layout = Layout(
    width: nat, height: nat, colorType: Byte, scan: nat, bpp: nat,
    palette: seq<Byte>, trans: seq<Byte>)

  predicate LayoutOk(l: Layout)
  {
    KnownColorType(l.colorType) && (l.scan == 0 || l.bpp >= 1)
  }

  /** `row[i]`, or `OutOfBounds` past the end of the buffer. */
  function ByteAt(row: seq<Byte>, i: nat): (r: Result<Byte, PngError>)
    ensures r.Success? <==> i < |row|
    ensures r.Success? ==> r.value == row[i]
    ensures r.Failure? ==> r.error == OutOfBounds
  {
    if i < |row| then Success(row[i]) else Failure(OutOfBounds)
  }

  /** The alpha of palette entry `idx`: `trans[idx]` when the tRNS payload
      covers it, opaque otherwise. */
  function PaletteAlpha(trans: seq<Byte>, idx: nat): (a: Byte)
    ensures idx < |trans| ==> a == trans[idx]
    ensures idx >= |trans| ==> a == 255
  {
    if idx < |trans| then trans[idx] else 255
  }

  /** Pixel `x` of the defiltered row `curr`, png.c:154-180. Sample indices
      are `uint32_t` products; the palette and `curr` are not bounds
      checked, so a read past either is `OutOfBounds`. */
  function PixelOf(curr: seq<Byte>, l: Layout, x: nat): (r: Result<Pixel, PngError>)
    requires KnownColorType(l.colorType) && x < TwoTo32
    ensures r.Failure? ==> r.error == OutOfBounds
  {
    if l.colorType == 2 then
      var red :- ByteAt(curr, U32(x * 3));
      var green :- ByteAt(curr, U32(x * 3 + 1));
      var blue :- ByteAt(curr, U32(x * 3 + 2));
      Success(Pixel(red, green, blue, 255))
    else if l.colorType == 6 then
      var red :- ByteAt(curr, U32(x * 4));
      var green :- ByteAt(curr, U32(x * 4 + 1));
      var blue :- ByteAt(curr, U32(x * 4 + 2));
      var alpha :- ByteAt(curr, U32(x * 4 + 3));
      Success(Pixel(red, green, blue, alpha))
    else if l.colorType == 0 then
      var grey :- ByteAt(curr, x);
      Success(Pixel(grey, grey, grey, 255))
    else if l.colorType == 3 then
      var idx :- ByteAt(curr, x);
      var red :- ByteAt(l.palette, idx * 3);
      var green :- ByteAt(l.palette, idx * 3 + 1);
      var blue :- ByteAt(l.palette, idx * 3 + 2);
      Success(Pixel(red, green, blue, PaletteAlpha(l.trans, idx)))
    else
      var grey :- ByteAt(curr, U32(x * 2));
      var alpha :- ByteAt(curr, U32(x * 2 + 1));
      Success(Pixel(grey, grey, grey, alpha))
  }

  /** What pixel `x` of a row is, colour type by colour type, when its
      sample indices fit in `uint32_t`: RGBA takes four consecutive bytes,
      RGB three with alpha 255, grey with alpha two with the grey repeated,
      grey one, and a palette index the three bytes of its palette entry
      with the tRNS alpha. A sample past the row, or an entry past the
      palette, is `OutOfBounds`. */
  lemma PixelOfLayout(curr: seq<Byte>, l: Layout, x: nat)
    requires KnownColorType(l.colorType) && x < TwoTo32
    ensures l.colorType == 6 && 4 * x + 3 < TwoTo32 ==>
              if 4 * x + 3 < |curr|
              then PixelOf(curr, l, x) == Success(Pixel(curr[4 * x], curr[4 * x + 1], curr[4 * x + 2], curr[4 * x + 3]))
              else PixelOf(curr, l, x).Failure?
    ensures l.colorType == 2 && 3 * x + 2 < TwoTo32 ==>
              if 3 * x + 2 < |curr|
              then PixelOf(curr, l, x) == Success(Pixel(curr[3 * x], curr[3 * x + 1], curr[3 * x + 2], 255))
              else PixelOf(curr, l, x).Failure?
    ensures l.colorType == 4 && 2 * x + 1 < TwoTo32 ==>
              if 2 * x + 1 < |curr|
              then PixelOf(curr, l, x) == Success(Pixel(curr[2 * x], curr[2 * x], curr[2 * x], curr[2 * x + 1]))
              else PixelOf(curr, l, x).Failure?
    ensures l.colorType == 0 ==>
              if x < |curr| then PixelOf(curr, l, x) == Success(Pixel(curr[x], curr[x], curr[x], 255)) else PixelOf(curr, l, x).Failure?
    ensures l.colorType == 3 ==>
              if x < |curr| && 3 * (curr[x] as int) + 2 < |l.palette|
              then PixelOf(curr, l, x) == Success(Pixel(l.palette[3 * (curr[x] as int)], l.palette[3 * (curr[x] as int) + 1],
                                      l.palette[3 * (curr[x] as int) + 2], PaletteAlpha(l.trans, curr[x])))
              else PixelOf(curr, l, x).Failure?
  {
  }

  /** The first `n` pixels of one row, png.c:153-181. */
  function RowPixels(curr: seq<Byte>, l: Layout, n: nat): (r: Result<seq<Pixel>, PngError>)
    requires KnownColorType(l.colorType) && n < TwoTo32
    ensures r.Success? ==> |r.value| == n
    ensures r.Success? ==> forall x :: 0 <= x < n ==> PixelOf(curr, l, x) == Success(r.value[x])
    ensures r.Failure? ==> r.error == OutOfBounds
    decreases n
  {
    if n == 0 then Success([])
    else
      var done :- RowPixels(curr, l, n - 1);
      var p :- PixelOf(curr, l, n - 1);
      Success(done + [p])
  }

  /** A row converts exactly when each of its pixels does. */
  lemma {:induction false} RowPixelsSucceed(curr: seq<Byte>, l: Layout, n: nat)
    requires KnownColorType(l.colorType) && n < TwoTo32
    ensures RowPixels(curr, l, n).Success? <==> forall x :: 0 <= x < n ==> PixelOf(curr, l, x).Success?
    decreases n
  {
    if n > 0 {
      RowPixelsSucceed(curr, l, n - 1);
    }
  }

  /** A pixel that cannot be read ends the row: every longer prefix fails
      the same way. */
  lemma {:induction false} RowFailureSticks(curr: seq<Byte>, l: Layout, x: nat, n: nat)
    requires KnownColorType(l.colorType) && x <= n < TwoTo32
    requires RowPixels(curr, l, x).Failure?
    ensures RowPixels(curr, l, n) == RowPixels(curr, l, x)
    decreases n
  {
    if x < n {
      RowFailureSticks(curr, l, x, n - 1);
    }
  }

  /** After `y` rows: the last defiltered row (the zeros of `calloc`
      before the first) and the pixels produced so far. */
  datatype RowsState = RowsState(prev: seq<Byte>, pixels: seq<Pixel>)

  /** The bytes of row `k` of the decompressed data `raw` once defiltered
      against `prev` (png.c:136-151): a filter byte and `scan` filtered
      bytes at offset `k * (scan + 1)`. Bytes past the end of `raw` were
      never written by `inflate`. */
  function RowBytes(raw: seq<Byte>, l: Layout, k: nat, prev: seq<Byte>) : (r: Result<seq<Byte>, PngError>)
    requires LayoutOk(l) && |prev| == l.scan
    ensures r.Success? ==> |r.value| == l.scan && RowOffset(k, l.scan) + l.scan + 1 <= |raw|
    ensures r.Failure? ==> r.error == Uninitialised
  {
    var start := RowOffset(k, l.scan);
    if start + l.scan + 1 > |raw| then Failure(Uninitialised)
    else DefilterRow(raw[start], raw[start + 1..start + 1 + l.scan], prev, l.bpp, k == 0)
  }

  /** Row `k` is there exactly when `inflate` wrote all of its bytes and
      it is not a first row whose filter tag is above 4. Its bytes are the
      filtered ones with the filter undone against `prev`, or `prev` itself
      for a tag above 4. */
  lemma RowBytesValue(raw: seq<Byte>, l: Layout, k: nat, prev: seq<Byte>)
    requires LayoutOk(l) && |prev| == l.scan
    ensures var start := RowOffset(k, l.scan);
            RowBytes(raw, l, k, prev).Success?
            <==> start + l.scan + 1 <= |raw| && (raw[start] <= 4 || k > 0 || l.scan == 0)
    ensures var start := RowOffset(k, l.scan);
            RowBytes(raw, l, k, prev).Success? && raw[start] <= 4 ==>
              RowBytes(raw, l, k, prev).value
              == Unfilter(raw[start], raw[start + 1..start + 1 + l.scan], prev, l.bpp, l.scan)
    ensures var start := RowOffset(k, l.scan);
            RowBytes(raw, l, k, prev).Success? && raw[start] > 4 ==> RowBytes(raw, l, k, prev).value == prev
  {
  }

  /** Where row `k` starts in the decompressed data: each row is a filter
      byte and `scan` bytes. */
  function RowOffset(k: nat, scan: nat): (o: nat)
    ensures o + scan + 1 == (k + 1) * (scan + 1)
  {
    k * (scan + 1)
  }

  /** Row `k` defiltered and converted to pixels, png.c:136-181. */
  function DecodeRow(raw: seq<Byte>, l: Layout, k: nat, prev: seq<Byte>)
    : (r: Result<(seq<Byte>, seq<Pixel>), PngError>)
    requires LayoutOk(l) && l.width < TwoTo32 && |prev| == l.scan
    ensures r.Success? ==> |r.value.0| == l.scan && |r.value.1| == l.width
    ensures r.Success? ==> (k + 1) * (l.scan + 1) <= |raw|
    ensures r.Failure? ==> r.error == OutOfBounds || r.error == Uninitialised
  {
    var curr :- RowBytes(raw, l, k, prev);
    var px :- RowPixels(curr, l, l.width);
    Success((curr, px))
  }

  /** A row decodes exactly when its bytes are there and each of its
      pixels converts; the result is the defiltered row and its pixels. */
  lemma DecodeRowValue(raw: seq<Byte>, l: Layout, k: nat, prev: seq<Byte>)
    requires LayoutOk(l) && l.width < TwoTo32 && |prev| == l.scan
    ensures DecodeRow(raw, l, k, prev).Success?
            <==> RowBytes(raw, l, k, prev).Success?
                 && forall x :: 0 <= x < l.width ==> PixelOf(RowBytes(raw, l, k, prev).value, l, x).Success?
    ensures DecodeRow(raw, l, k, prev).Success? ==>
              DecodeRow(raw, l, k, prev).value.0 == RowBytes(raw, l, k, prev).value
              && DecodeRow(raw, l, k, prev).value.1 == RowPixels(RowBytes(raw, l, k, prev).value, l, l.width).value
  {
    if RowBytes(raw, l, k, prev).Success? {
      RowPixelsSucceed(RowBytes(raw, l, k, prev).value, l, l.width);
    }
  }

  /** The row loop of png.c:135-183 over the first `y` rows. */
  function DecodeRows(raw: seq<Byte>, l: Layout, y: nat): (r: Result<RowsState, PngError>)
    requires LayoutOk(l) && l.width < TwoTo32
    ensures r.Success? ==> |r.value.prev| == l.scan && |r.value.pixels| == y * l.width
    ensures r.Success? ==> y * (l.scan + 1) <= |raw|
    ensures r.Failure? ==> r.error == OutOfBounds || r.error == Uninitialised
    decreases y
  {
    if y == 0 then Success(RowsState(Zeros(l.scan), []))
    else
      var st :- DecodeRows(raw, l, y - 1);
      var (curr, px) :- DecodeRow(raw, l, y - 1, st.prev);
      NextRow(y - 1, l.width, l.scan);
      Success(RowsState(curr, st.pixels + px))
  }

  /** A row that cannot be decoded ends the decode: every later row count
      gives the same error. */
  lemma {:induction false} RowsFailureSticks(raw: seq<Byte>, l: Layout, y: nat, n: nat)
    requires LayoutOk(l) && l.width < TwoTo32 && y <= n
    requires DecodeRows(raw, l, y).Failure?
    ensures DecodeRows(raw, l, n) == DecodeRows(raw, l, y)
    decreases n
  {
    if y < n {
      RowsFailureSticks(raw, l, y, n - 1);
    }
  }

  /** One more pass of the row loop. */
  lemma RowsStep(raw: seq<Byte>, l: Layout, y: nat, prev: seq<Byte>, pixels: seq<Pixel>)
    requires LayoutOk(l) && l.width < TwoTo32
    requires DecodeRows(raw, l, y) == Success(RowsState(prev, pixels))
    ensures DecodeRow(raw, l, y, prev).Failure? ==>
              DecodeRows(raw, l, y + 1) == Failure(DecodeRow(raw, l, y, prev).error)
    ensures DecodeRow(raw, l, y, prev).Success? ==>
              DecodeRows(raw, l, y + 1).Success?
              && DecodeRows(raw, l, y + 1).value.prev == DecodeRow(raw, l, y, prev).value.0
              && DecodeRows(raw, l, y + 1).value.pixels == pixels + DecodeRow(raw, l, y, prev).value.1
  {
  }

  /** A pass that decodes row `y` into `next` and `px` extends the state. */
  lemma RowsAppend(raw: seq<Byte>, l: Layout, y: nat, prev: seq<Byte>, pixels: seq<Pixel>,
                   next: seq<Byte>, px: seq<Pixel>)
    requires LayoutOk(l) && l.width < TwoTo32
    requires DecodeRows(raw, l, y) == Success(RowsState(prev, pixels))
    requires DecodeRow(raw, l, y, prev).Success?
    requires DecodeRow(raw, l, y, prev).value.0 == next && DecodeRow(raw, l, y, prev).value.1 == px
    ensures DecodeRows(raw, l, y + 1) == Success(RowsState(next, pixels + px))
  {
    RowsStep(raw, l, y, prev, pixels);
  }

  lemma NextRow(k: nat, width: nat, scan: nat)
    ensures k * width + width == (k + 1) * width
    ensures k * (scan + 1) + scan + 1 == (k + 1) * (scan + 1)
  {
  }

  /** What zlib's `inflate(&strm, Z_FINISH)` reports: whether it returned
      `Z_STREAM_END`, and the bytes it wrote. */
  datatype Inflated = Inflated(streamEnd: bool, out: seq<Byte>)

  /** The bytes of `raw` that `inflate` wrote: it writes at most
      `avail_out`, here `expected`, bytes. */
  function Written(inf: Inflated, expected: nat): (w: seq<Byte>)
    ensures |w| <= expected && |w| <= |inf.out| && w == inf.out[..|w|]
  {
    if |inf.out| <= expected then inf.out else inf.out[..expected]
  }

  /** png.c:124-185 once the output is inflated: `image_create` with the
      IHDR dimensions taken as `int`, then the rows of `raw`. */
  function BuildPicture(l: Layout, raw: seq<Byte>, dataOk: bool, rowsOk: bool): (r: Result<Picture, PngError>)
    requires LayoutOk(l) && l.width < TwoTo32 && l.height < TwoTo32
    ensures r.Success? ==> r.value.width == l.width && r.value.height == l.height
                           && |r.value.pixels| == l.width * l.height
    ensures !PixelBuffer.CreateSucceeds(Int32(l.width), Int32(l.height), dataOk, rowsOk) ==> r == Failure(NoImage)
  {
    var width, height := Int32(l.width), Int32(l.height);
    if !PixelBuffer.CreateSucceeds(width, height, dataOk, rowsOk) then Failure(NoImage)
    else
      var rows :- DecodeRows(raw, l, l.height);
      assert width == l.width && height == l.height;
      assert l.height * l.width == l.width * l.height;
      Success(Picture(width, height, rows.pixels))
  }

  /** The rest of `read_png_image` once the chunk loop has ended
      (png.c:101-186): size arithmetic, `inflate`, then the image. */
  function DecodeImage(st: ChunkState, inflate: (seq<Byte>, nat) -> Inflated, dataOk: bool, rowsOk: bool)
    : (r: Result<Picture, PngError>)
    requires st.width < TwoTo32 && st.height < TwoTo32
    ensures r.Success? ==> r.value.width == st.width && r.value.height == st.height
                           && |r.value.pixels| == st.width * st.height
    ensures !KnownColorType(st.colorType) ==> r == Failure(BadColorType)
  {
    match BitsPerPixel(st.colorType, st.bitDepth)
    case None => Failure(BadColorType)
    case Some(bits) =>
      var scan := ScanlineBytes(st.width, bits);
      var expected := (scan + 1) * st.height;
      var inf := inflate(st.idat, expected);
      if !inf.streamEnd then Failure(InflateFailed)
      else
        assert bits == 0 ==> scan == 0;
        var l := Layout(st.width, st.height, st.colorType, scan, BytesPerPixel(bits), st.palette, st.trans);
        BuildPicture(l, Written(inf, expected), dataOk, rowsOk)
  }

  /** The picture is built exactly when `image_create` succeeds and every
      row decodes; its pixels are the rows' pixels in order. */
  lemma BuildPictureValue(l: Layout, raw: seq<Byte>, dataOk: bool, rowsOk: bool)
    requires LayoutOk(l) && l.width < TwoTo32 && l.height < TwoTo32
    ensures BuildPicture(l, raw, dataOk, rowsOk).Success?
            <==> PixelBuffer.CreateSucceeds(Int32(l.width), Int32(l.height), dataOk, rowsOk)
                 && DecodeRows(raw, l, l.height).Success?
    ensures BuildPicture(l, raw, dataOk, rowsOk).Success? ==>
              BuildPicture(l, raw, dataOk, rowsOk).value.pixels == DecodeRows(raw, l, l.height).value.pixels
  {
  }

  /** `read_png_image` of png.c on a file with contents `file`. `inflate`
      stands for zlib, given the IDAT bytes and the room in the output
      buffer; `dataOk` and `rowsOk` say whether the allocations of
      `image_create` succeed. */
  function DecodePng(file: seq<Byte>, inflate: (seq<Byte>, nat) -> Inflated, dataOk: bool, rowsOk: bool)
    : (r: Result<Picture, PngError>)
    ensures |file| < 8 ==> r == Failure(Truncated)
    ensures |file| >= 8 && file[..8] != Signature ==> r == Failure(BadSignature)
    ensures r.Success? ==> 0 <= r.value.width && 0 <= r.value.height
                           && |r.value.pixels| == r.value.width * r.value.height
  {
    if |file| < 8 then Failure(Truncated)
    else if file[..8] != Signature then Failure(BadSignature)
    else
      var st :- WalkChunks(file, 8, Initial);
      DecodeImage(st, inflate, dataOk, rowsOk)
  }
}
