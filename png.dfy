/** `read_png_image` of png.c step by step: the chunk loop over the file,
    the growing IDAT buffer, the `curr`/`prev` row buffers defiltered in
    place, and the writes into the image. Each method is proved to compute
    what module PngSpec says. */
module Png {
  import opened Common
  import opened Stdio
  import opened PixelBuffer
  import opened PngSpec

  /** `read_exact`: `n` bytes, or `exit(1)` when the file ends first. */
  method ReadExact(st: Stream, n: nat) returns (r: Result<seq<Byte>, PngError>)
    requires st.Valid()
    modifies st
    ensures st.Valid()
    ensures r.Success? <==> old(st.pos) + n <= |st.bytes|
    ensures r.Failure? ==> r.error == Truncated
    ensures r.Success? ==> r.value == st.bytes[old(st.pos)..old(st.pos) + n] && st.pos == old(st.pos) + n
  {
    var got := st.Read(n);
    if |got| != n {
      return Failure(Truncated);
    }
    return Success(got);
  }

  /** png.c:86-91: appends one IDAT payload to `idat[0..size)`, first
      growing the buffer by the payload and 8192 bytes when it does not
      fit. `realloc` keeps the old bytes; the capacity is the array's
      length. */
  method AppendIdat(idat: array<Byte>, size: nat, data: seq<Byte>) returns (idat': array<Byte>, size': nat)
    requires size <= idat.Length
    ensures size' == size + |data| && size' <= idat'.Length
    ensures idat'[..size'] == old(idat[..size]) + data
    ensures size + |data| > idat.Length ==> fresh(idat') && idat'.Length == idat.Length + |data| + 8192
    ensures size + |data| <= idat.Length ==> idat' == idat
    modifies idat
  {
    idat' := idat;
    if size + |data| > idat.Length {
      idat' := new Byte[idat.Length + |data| + 8192];
      forall k | 0 <= k < idat.Length {
        idat'[k] := idat[k];
      }
    }
    forall k | 0 <= k < |data| {
      idat'[size + k] := data[k];
    }
    size' := size + |data|;
    assert idat'[..size'] == idat'[..size] + data;
  }

  /** One chunk other than IEND, png.c:67-92, on the loop's variables. */
  method Chunk(st: ChunkState, typ: nat, data: seq<Byte>, idat: array<Byte>, size: nat)
    returns (r: Result<ChunkState, PngError>, idat': array<Byte>, size': nat)
    requires size <= idat.Length && st.idat == idat[..size]
    modifies idat
    ensures r == ApplyChunk(st, typ, data)
    ensures r.Success? ==> size' <= idat'.Length && r.value.idat == idat'[..size']
    ensures idat' == idat || fresh(idat')
  {
    idat', size' := idat, size;
    if typ == ChunkIHDR {
      if |data| < 13 {
        return Failure(OutOfBounds), idat', size';
      }
      var next := st.(width := Be32(data[0..4]), height := Be32(data[4..8]),
                      bitDepth := data[8], colorType := data[9]);
      if data[12] != 0 {
        return Failure(Interlaced), idat', size';
      }
      r := Success(next);
    } else if typ == ChunkPLTE {
      r := Success(st.(palette := data));
    } else if typ == ChunkTRNS {
      r := Success(st.(trans := data));
    } else if typ == ChunkIDAT {
      idat', size' := AppendIdat(idat, size, data);
      r := Success(st.(idat := idat'[..size']));
    } else {
      r := Success(st);
    }
  }

  /** png.c:57-65: reads one chunk's length, type and payload, then skips
      its CRC. */
  method NextChunk(st: Stream) returns (r: Result<(nat, seq<Byte>), PngError>)
    requires st.Valid()
    modifies st
    ensures st.Valid()
    ensures r.Success? <==> ChunkAt(st.bytes, old(st.pos)).Success?
    ensures r.Failure? ==> r.error == Truncated
    ensures r.Success? ==> var (typ, payload, next) := ChunkAt(st.bytes, old(st.pos)).value;
                           r.value == (typ, payload) && st.pos == next
  {
    ghost var pos := st.pos;
    var lb :- ReadExact(st, 4);
    var len := Be32(lb);
    var tb :- ReadExact(st, 4);
    var typ := Be32(tb);
    var data :- ReadExact(st, len);
    st.Skip(4);
    return Success((typ, data));
  }

  /** The chunk loop of png.c:56-98, from the cursor to IEND. */
  method ReadChunks(st: Stream) returns (r: Result<ChunkState, PngError>)
    requires st.Valid()
    modifies st
    ensures r == WalkChunks(st.bytes, old(st.pos), Initial)
  {
    ghost var start := st.pos;
    var state := Initial;
    var idat := new Byte[0];
    var size: nat := 0;
    while true
      invariant st.Valid() && size <= idat.Length && fresh(idat)
      invariant state.idat == idat[..size]
      invariant state.width < TwoTo32 && state.height < TwoTo32
      invariant WalkChunks(st.bytes, start, Initial) == WalkChunks(st.bytes, st.pos, state)
      decreases |st.bytes| - st.pos
    {
      var chunk :- NextChunk(st);
      var (typ, data) := chunk;
      if typ == ChunkIEND {
        break;
      }
      var next;
      next, idat, size := Chunk(state, typ, data, idat, size);
      if next.Failure? {
        return Failure(next.error);
      }
      state := next.value;
    }
    return Success(state);
  }

  /** The inner loop of png.c:139-151: defilters one row into `curr`, in
      place, against the row above in `prev`. `ok` is false when a filter
      tag above 4 on the first row leaves `curr` as `malloc` returned it. */
  method DefilterInPlace(filter: Byte, src: seq<Byte>, curr: array<Byte>, prev: array<Byte>, bpp: nat, first: bool)
    returns (ok: bool)
    requires curr != prev && curr.Length == prev.Length == |src|
    requires |src| == 0 || bpp >= 1
    requires !first ==> curr[..] == prev[..]
    modifies curr
    ensures ok <==> DefilterRow(filter, src, prev[..], bpp, first).Success?
    ensures ok ==> curr[..] == DefilterRow(filter, src, prev[..], bpp, first).value
  {
    for i := 0 to |src|
      invariant filter <= 4 ==> curr[..i] == Unfilter(filter, src, prev[..], bpp, i)
      invariant filter > 4 ==> curr[..] == old(curr[..])
    {
      if filter <= 4 {
        var a := if i >= bpp then curr[i - bpp] else 0;
        var c := if i >= bpp then prev[i - bpp] else 0;
        curr[i] := Recon(filter, src[i], a, prev[i], c);
        assert curr[..i + 1] == curr[..i] + [curr[i]];
      }
    }
    assert curr[..] == curr[..|src|];
    ok := filter <= 4 || !first || |src| == 0;
  }

  /** The pixel loop of png.c:153-181 for row `y`, whose first cell is
      `row`: pixel `x` is written to `pixels[y][x]`. */
  method WriteRow(curr: array<Byte>, l: Layout, img: Image, row: nat) returns (r: Result<(), PngError>)
    requires KnownColorType(l.colorType) && l.width < TwoTo32
    requires img.width == l.width && row + l.width <= img.data.Length
    modifies img.data
    ensures r.Success? <==> RowPixels(curr[..], l, l.width).Success?
    ensures r.Failure? ==> r.error == RowPixels(curr[..], l, l.width).error
    ensures r.Success? ==> img.data[..row] + RowPixels(curr[..], l, l.width).value == img.data[..row + l.width]
    ensures img.data[..row] == old(img.data[..row])
  {
    for x := 0 to l.width
      invariant RowPixels(curr[..], l, x).Success?
      invariant img.data[..row + x] == old(img.data[..row]) + RowPixels(curr[..], l, x).value
    {
      var p := PixelOf(curr[..], l, x);
      if p.Failure? {
        RowFailureSticks(curr[..], l, x + 1, l.width);
        return Failure(p.error);
      }
      img.data[row + x] := p.value;
      assert img.data[..row + x + 1] == img.data[..row + x] + [p.value];
    }
    return Success(());
  }

  /** png.c:136-151: defilters row `y` of `raw` into `curr`. */
  method DefilterRaw(raw: seq<Byte>, l: Layout, y: nat, curr: array<Byte>, prev: array<Byte>)
    returns (r: Result<(), PngError>)
    requires LayoutOk(l)
    requires curr != prev && curr.Length == prev.Length == l.scan
    requires y > 0 ==> curr[..] == prev[..]
    modifies curr
    ensures r.Success? <==> RowBytes(raw, l, y, prev[..]).Success?
    ensures r.Failure? ==> r.error == RowBytes(raw, l, y, prev[..]).error
    ensures r.Success? ==> curr[..] == RowBytes(raw, l, y, prev[..]).value
  {
    var start := RowOffset(y, l.scan);
    NextRow(y, l.width, l.scan);
    if start + l.scan + 1 > |raw| {
      return Failure(Uninitialised);
    }
    var ok := DefilterInPlace(raw[start], raw[start + 1..start + 1 + l.scan], curr, prev, l.bpp, y == 0);
    if !ok {
      return Failure(Uninitialised);
    }
    return Success(());
  }

  /** One pass of the row loop, png.c:136-182: row `y` of `raw` is
      defiltered into `curr`, written to the image from cell `row` on, and
      copied into `prev`. */
  method DecodeOneRow(raw: seq<Byte>, l: Layout, img: Image, y: nat, row: nat, curr: array<Byte>, prev: array<Byte>)
    returns (r: Result<(), PngError>)
    requires LayoutOk(l) && l.width < TwoTo32 && img.width == l.width
    requires curr != prev && curr.Length == prev.Length == l.scan
    requires y > 0 ==> curr[..] == prev[..]
    requires row + l.width <= img.data.Length
    modifies curr, prev, img.data
    ensures r.Success? <==> DecodeRow(raw, l, y, old(prev[..])).Success?
    ensures r.Failure? ==> r.error == DecodeRow(raw, l, y, old(prev[..])).error
    ensures r.Success? ==> DecodeRow(raw, l, y, old(prev[..])).value.0 == prev[..]
                           && old(img.data[..row]) + DecodeRow(raw, l, y, old(prev[..])).value.1
                              == img.data[..row + l.width]
                           && curr[..] == prev[..]
    ensures img.data[..row] == old(img.data[..row])
  {
    ghost var above := prev[..];
    r := DefilterRaw(raw, l, y, curr, prev);
    if r.Failure? {
      return;
    }
    ghost var bytes := curr[..];
    r := WriteRow(curr, l, img, row);
    if r.Failure? {
      return;
    }
    forall i | 0 <= i < prev.Length {
      prev[i] := curr[i];
    }
    assert prev[..] == bytes;
    assert old(prev[..]) == above;
  }

  /** One pass of the row loop, as a step of `DecodeRows`: the image holds
      the first `y + 1` rows' pixels afterwards, and `prev` the row just
      decoded. */
  method RowPass(raw: seq<Byte>, l: Layout, img: Image, y: nat, curr: array<Byte>, prev: array<Byte>)
    returns (r: Result<(), PngError>)
    requires LayoutOk(l) && l.width < TwoTo32
    requires img.Valid() && img.width == l.width && img.height == l.height && y < l.height
    requires curr != prev && curr.Length == prev.Length == l.scan
    requires y > 0 ==> curr[..] == prev[..]
    requires DecodeRows(raw, l, y) == Success(RowsState(prev[..], img.data[..RowStart(img, y)]))
    modifies curr, prev, img.data
    ensures r.Failure? ==> DecodeRows(raw, l, y + 1) == Failure(r.error)
    ensures r.Success? ==> curr[..] == prev[..]
    ensures r.Success? ==> DecodeRows(raw, l, y + 1)
                           == Success(RowsState(prev[..], img.data[..RowStart(img, y + 1)]))
  {
    var row := img.pixels[y];
    RowStartNext(img, y);
    ghost var before := img.data[..row];
    ghost var above := prev[..];
    r := DecodeOneRow(raw, l, img, y, row, curr, prev);
    if r.Failure? {
      RowsStep(raw, l, y, above, before);
      return;
    }
    RowsAppend(raw, l, y, above, before, prev[..], DecodeRow(raw, l, y, above).value.1);
  }

  /** The row loop of png.c:131-183 over the whole image, with `prev`
      holding zeros and `curr` scratch space on entry. */
  method RowLoop(raw: seq<Byte>, l: Layout, img: Image, curr: array<Byte>, prev: array<Byte>)
    returns (r: Result<(), PngError>)
    requires LayoutOk(l) && l.width < TwoTo32
    requires img.Valid() && img.width == l.width && img.height == l.height
    requires curr != prev && curr.Length == prev.Length == l.scan && prev[..] == Zeros(l.scan)
    modifies img.data, curr, prev
    ensures r.Success? <==> DecodeRows(raw, l, l.height).Success?
    ensures r.Failure? ==> r.error == DecodeRows(raw, l, l.height).error
    ensures r.Success? ==> img.data[..] == DecodeRows(raw, l, l.height).value.pixels
  {
    var y := 0;
    while y < l.height
      invariant 0 <= y <= l.height
      invariant y > 0 ==> curr[..] == prev[..]
      invariant DecodeRows(raw, l, y) == Success(RowsState(prev[..], img.data[..RowStart(img, y)]))
    {
      r := RowPass(raw, l, img, y, curr, prev);
      if r.Failure? {
        RowsFailureSticks(raw, l, y + 1, l.height);
        return;
      }
      y := y + 1;
    }
    assert img.data[..] == img.data[..RowStart(img, y)];
    return Success(());
  }

  /** png.c:131-134 and 184-185: the two row buffers, then the row loop. */
  method DecodeAllRows(raw: seq<Byte>, l: Layout, img: Image) returns (r: Result<(), PngError>)
    requires LayoutOk(l) && l.width < TwoTo32
    requires img.Valid() && img.width == l.width && img.height == l.height
    modifies img.data
    ensures r.Success? <==> DecodeRows(raw, l, l.height).Success?
    ensures r.Failure? ==> r.error == DecodeRows(raw, l, l.height).error
    ensures r.Success? ==> img.data[..] == DecodeRows(raw, l, l.height).value.pixels
  {
    var prev := new Byte[l.scan](_ => 0);
    var curr := new Byte[l.scan];
    assert prev[..] == Zeros(l.scan);
    r := RowLoop(raw, l, img, curr, prev);
  }

  /** png.c:124-185: `image_create`, then the rows of `raw`. */
  method BuildImage(l: Layout, raw: seq<Byte>, dataOk: bool, rowsOk: bool) returns (r: Result<Image, PngError>)
    requires LayoutOk(l) && l.width < TwoTo32 && l.height < TwoTo32
    ensures r.Failure? <==> BuildPicture(l, raw, dataOk, rowsOk).Failure?
    ensures r.Failure? ==> r.error == BuildPicture(l, raw, dataOk, rowsOk).error
    ensures r.Success? ==> fresh(r.value) && fresh(r.value.data) && fresh(r.value.pixels)
    ensures r.Success? ==> r.value.Valid() && r.value.Value() == BuildPicture(l, raw, dataOk, rowsOk).value
  {
    var img := ImageCreate(Int32(l.width), Int32(l.height), dataOk, rowsOk);
    if img == null {
      return Failure(NoImage);
    }
    var rows := DecodeAllRows(raw, l, img);
    if rows.Failure? {
      return Failure(rows.error);
    }
    return Success(img);
  }

  /** png.c:101-186, after the chunk loop: the bits per pixel, the buffer
      sizes, `inflate`, then the image. */
  method DecodeChunks(chunks: ChunkState, inflate: (seq<Byte>, nat) -> Inflated, dataOk: bool, rowsOk: bool)
    returns (r: Result<Image, PngError>)
    requires chunks.width < TwoTo32 && chunks.height < TwoTo32
    ensures r.Failure? <==> DecodeImage(chunks, inflate, dataOk, rowsOk).Failure?
    ensures r.Failure? ==> r.error == DecodeImage(chunks, inflate, dataOk, rowsOk).error
    ensures r.Success? ==> fresh(r.value) && fresh(r.value.data) && fresh(r.value.pixels)
    ensures r.Success? ==> r.value.Valid() && r.value.Value() == DecodeImage(chunks, inflate, dataOk, rowsOk).value
  {
    ghost var want := DecodeImage(chunks, inflate, dataOk, rowsOk);
    var bits;
    match BitsPerPixel(chunks.colorType, chunks.bitDepth) {
      case None => return Failure(BadColorType);
      case Some(b) => bits := b;
    }
    var scan := ScanlineBytes(chunks.width, bits);
    var expected := (scan + 1) * chunks.height;
    var inf := inflate(chunks.idat, expected);
    if !inf.streamEnd {
      return Failure(InflateFailed);
    }
    assert bits == 0 ==> scan == 0;
    var l := Layout(chunks.width, chunks.height, chunks.colorType, scan, BytesPerPixel(bits), chunks.palette, chunks.trans);
    assert want == BuildPicture(l, Written(inf, expected), dataOk, rowsOk);
    r := BuildImage(l, Written(inf, expected), dataOk, rowsOk);
  }

  /** `read_png_image` of png.c on a file with contents `file`; `inflate`
      stands for zlib and `dataOk`, `rowsOk` for the allocations of
      `image_create`. */
  method ReadPngImage(file: seq<Byte>, inflate: (seq<Byte>, nat) -> Inflated, dataOk: bool, rowsOk: bool)
    returns (r: Result<Image, PngError>)
    ensures r.Failure? <==> DecodePng(file, inflate, dataOk, rowsOk).Failure?
    ensures r.Failure? ==> r.error == DecodePng(file, inflate, dataOk, rowsOk).error
    ensures r.Success? ==> fresh(r.value) && fresh(r.value.data) && fresh(r.value.pixels)
    ensures r.Success? ==> r.value.Valid() && r.value.Value() == DecodePng(file, inflate, dataOk, rowsOk).value
  {
    var st := new Stream.Open(file);
    var sig :- ReadExact(st, 8);
    if sig != Signature {
      return Failure(BadSignature);
    }
    var chunks :- ReadChunks(st);
    r := DecodeChunks(chunks, inflate, dataOk, rowsOk);
  }
}
