/** The Netpbm reader of ppm.c, step by step on a stream: each method
    advances the stream or fills the image as the C function does and is
    proved to compute what module PpmSpec says. */
module Ppm {
  import opened Common
  import opened Stdio
  import opened PpmSpec
  import opened PixelBuffer

  /** The inner loop of `skip_comments`, `while (fgetc(fp) != '\n') {}`:
      consumes bytes through the next newline. `ends` is false when there is
      none; `fgetc` then returns EOF for ever and the C loop never stops. */
  method SkipLine(st: Stream) returns (ends: bool)
    requires st.Valid()
    modifies st
    ensures st.Valid()
    ensures ends <==> FindByte(st.bytes, old(st.pos), Newline).Some?
    ensures ends ==> st.pos == FindByte(st.bytes, old(st.pos), Newline).value + 1
  {
    ghost var start := st.pos;
    var c := st.Getc();
    while c != Newline
      invariant st.Valid() && start <= st.pos
      invariant c == EOF ==> st.pos == |st.bytes|
      invariant c != EOF ==> start < st.pos && st.bytes[st.pos - 1] == c
      invariant FindByte(st.bytes, start, Newline)
                == FindByte(st.bytes, if c == EOF then st.pos else st.pos - 1, Newline)
      decreases |st.bytes| - st.pos, if c == EOF then 0 else 1
    {
      if c == EOF {
        return false;
      }
      c := st.Getc();
    }
    return true;
  }

  /** `skip_comments`: `ends` is false when a comment line runs to the end
      of the file (the C code never returns); otherwise the stream is left
      in front of the first byte that does not start a comment. */
  method SkipComments(st: Stream) returns (ends: bool)
    requires st.Valid()
    modifies st
    ensures st.Valid()
    ensures ends <==> AfterComments(st.bytes, old(st.pos)).Some?
    ensures ends ==> st.pos == AfterComments(st.bytes, old(st.pos)).value
  {
    ghost var start := st.pos;
    var ch := st.Getc();
    while ch == Hash
      invariant st.Valid()
      invariant ch == EOF ==> st.pos == |st.bytes|
      invariant ch != EOF ==> 0 < st.pos && st.bytes[st.pos - 1] == ch
      invariant AfterComments(st.bytes, start)
                == AfterComments(st.bytes, if ch == EOF then st.pos else st.pos - 1)
      decreases |st.bytes| - st.pos
    {
      CommentLine(st.bytes, st.pos - 1);
      var lineEnds := SkipLine(st);
      if !lineEnds {
        return false;
      }
      ch := st.Getc();
    }
    NoComment(st.bytes, if ch == EOF then st.pos else st.pos - 1);
    if ch != EOF {
      st.Ungetc(ch);
    }
    return true;
  }

  /** One header field of `read_ppm_header`: `skip_comments` followed by
      `fscanf(fp, "%d", ...)`. */
  method ReadField(st: Stream) returns (r: Result<int, PpmError>)
    requires st.Valid()
    modifies st
    ensures st.Valid()
    ensures r.Success? <==> Field(st.bytes, old(st.pos)).Success?
    ensures r.Failure? ==> r.error == Field(st.bytes, old(st.pos)).error
    ensures r.Success? ==> r.value == Field(st.bytes, old(st.pos)).value.0
                           && st.pos == Field(st.bytes, old(st.pos)).value.1
  {
    var ends := SkipComments(st);
    if !ends {
      return Failure(Hang);
    }
    var v := st.ScanInt();
    if v.None? {
      return Failure(BadNumber);
    }
    return Success(v.value);
  }

  /** ppm.c:42, `while (fgetc(fp) != '\n' && !feof(fp))`: consumes the
      rest of the maxval line. */
  method ConsumeLine(st: Stream)
    requires st.Valid()
    modifies st
    ensures st.Valid() && st.pos == AfterMaxval(st.bytes, old(st.pos))
  {
    ghost var p := st.pos;
    var c := st.Getc();
    while c != Newline && c != EOF
      invariant st.Valid() && p <= st.pos
      invariant c == EOF ==> st.pos == |st.bytes| && FindByte(st.bytes, p, Newline).None?
      invariant c != EOF ==> p < st.pos && st.bytes[st.pos - 1] == c
                             && FindByte(st.bytes, p, Newline) == FindByte(st.bytes, st.pos - 1, Newline)
      decreases |st.bytes| - st.pos, if c == EOF then 0 else 1
    {
      c := st.Getc();
    }
  }

  /** The magic-number check of `read_ppm_header` on a freshly opened
      file: `fgets` of the first line, then "P3" or "P6". The result says
      whether the file is P6. */
  method ReadMagic(st: Stream) returns (r: Result<bool, PpmError>)
    requires st.Valid() && st.pos == 0
    modifies st
    ensures st.Valid()
    ensures r.Success? <==> MagicOk(st.bytes)
    ensures r.Failure? ==> r.error == BadMagic
    ensures r.Success? ==> (r.value <==> st.bytes[1] == '6' as int)
                           && st.pos == GetsEnd(st.bytes, 0, LineRoom)
  {
    var buf := st.Gets(LineRoom);
    if !(|buf| >= 2 && buf[0] == 'P' as int && (buf[1] == '3' as int || buf[1] == '6' as int)) {
      return Failure(BadMagic);
    }
    return Success(buf[1] == '6' as int);
  }

  /** `read_ppm_header` up to the maxval check: the header and the
      position after the maxval digits. */
  method ReadHeaderTokens(st: Stream) returns (r: Result<Header, PpmError>)
    requires st.Valid() && st.pos == 0
    modifies st
    ensures st.Valid()
    ensures r.Success? <==> HeaderTokens(st.bytes).Success?
    ensures r.Failure? ==> r.error == HeaderTokens(st.bytes).error
    ensures r.Success? ==> r.value == HeaderTokens(st.bytes).value.0
                           && st.pos == HeaderTokens(st.bytes).value.1
  {
    var isP6 :- ReadMagic(st);
    var width :- ReadField(st);
    var height :- ReadField(st);
    var maxval :- ReadField(st);
    if maxval != 255 {
      return Failure(BadMaxval(maxval));
    }
    return Success(Header(isP6, width, height));
  }

  /** `read_ppm_header` on a freshly opened file. */
  method ReadPpmHeader(st: Stream) returns (r: Result<Header, PpmError>)
    requires st.Valid() && st.pos == 0
    modifies st
    ensures st.Valid()
    ensures r.Success? <==> ReadHeader(st.bytes).Success?
    ensures r.Failure? ==> r.error == ReadHeader(st.bytes).error
    ensures r.Success? ==> r.value == ReadHeader(st.bytes).value.0
                           && st.pos == ReadHeader(st.bytes).value.1
  {
    r := ReadHeaderTokens(st);
    if r.Success? {
      ConsumeLine(st);
    }
  }

  /** `read_p6`: fills the image in storage order from byte triples. */
  method ReadP6(st: Stream, img: Image) returns (r: Result<(), PpmError>)
    requires st.Valid() && img.Valid()
    modifies st, img.data
    ensures st.Valid()
    ensures r.Success? <==> P6Pixels(st.bytes, old(st.pos), img.width * img.height).Success?
    ensures r.Failure? ==> r.error == ShortP6
    ensures r.Success? ==> img.data[..] == P6Pixels(st.bytes, old(st.pos), img.width * img.height).value
  {
    ghost var start := st.pos;
    var total := img.width * img.height;
    var i := 0;
    while i < total
      invariant st.Valid() && 0 <= i <= total
      invariant st.pos == start + 3 * i
      invariant P6Pixels(st.bytes, start, i) == Success(img.data[..i])
    {
      var red := st.Getc();
      var green := st.Getc();
      var blue := st.Getc();
      if red == EOF || green == EOF || blue == EOF {
        return Failure(ShortP6);
      }
      img.data[i] := Pixel(red, green, blue, 255);
      assert img.data[..i + 1] == img.data[..i] + [img.data[i]];
      i := i + 1;
    }
    assert img.data[..] == img.data[..total];
    return Success(());
  }

  /** `fscanf(fp, "%d %d %d", &r, &g, &b) == 3`: the three values, or
      None when a conversion fails. */
  method ReadTriple(st: Stream) returns (t: Option<(int, int, int)>)
    requires st.Valid()
    modifies st
    ensures st.Valid()
    ensures t.None? <==> ScanTriple(st.bytes, old(st.pos)).None?
    ensures t.Some? ==> var (red, green, blue, end) := ScanTriple(st.bytes, old(st.pos)).value;
                        t.value == (red, green, blue) && st.pos == end
  {
    var red := st.ScanInt();
    if red.None? {
      return None;
    }
    var green := st.ScanInt();
    if green.None? {
      return None;
    }
    var blue := st.ScanInt();
    if blue.None? {
      return None;
    }
    return Some((red.value, green.value, blue.value));
  }

  /** The body of the inner loop of `read_p3`: one triple read into
      `pixels[y][x]`, the cell `row + x` of the flat array. */
  method ReadP3Pixel(st: Stream, img: Image, y: nat, x: nat, row: nat, ghost start: nat)
    returns (r: Result<(), PpmError>)
    requires st.Valid() && start <= |st.bytes| && x < img.width
    requires row + img.width <= img.data.Length
    requires P3Scan(st.bytes, start, img.width, y, x) == Success((img.data[..row + x], st.pos))
    modifies st, img.data
    ensures st.Valid()
    ensures r.Success? <==> P3Scan(st.bytes, start, img.width, y, x + 1).Success?
    ensures r.Failure? ==> r.error == P3Scan(st.bytes, start, img.width, y, x + 1).error
    ensures r.Success? ==> P3Scan(st.bytes, start, img.width, y, x + 1)
                           == Success((img.data[..row + x + 1], st.pos))
  {
    ghost var before := img.data[..row + x];
    var triple := ReadTriple(st);
    if triple.None? {
      return Failure(P3Parse(y + 1, x + 1));
    }
    var (red, green, blue) := triple.value;
    var p := TextPixel(red, green, blue);
    img.data[row + x] := p;
    assert img.data[..row + x + 1] == before + [p];
    return Success(());
  }

  /** The inner loop of `read_p3` for row `y`, whose first cell is
      `row`. */
  method ReadP3Cells(st: Stream, img: Image, y: nat, row: nat, ghost start: nat) returns (r: Result<(), PpmError>)
    requires st.Valid() && start <= |st.bytes| && 0 <= img.width
    requires row + img.width <= img.data.Length
    requires P3Scan(st.bytes, start, img.width, y, 0) == Success((img.data[..row], st.pos))
    modifies st, img.data
    ensures st.Valid()
    ensures r.Success? <==> P3Scan(st.bytes, start, img.width, y, img.width).Success?
    ensures r.Failure? ==> r.error == P3Scan(st.bytes, start, img.width, y, img.width).error
    ensures r.Success? ==> P3Scan(st.bytes, start, img.width, y, img.width)
                           == Success((img.data[..row + img.width], st.pos))
  {
    var x := 0;
    while x < img.width
      invariant st.Valid() && 0 <= x <= img.width
      invariant P3Scan(st.bytes, start, img.width, y, x) == Success((img.data[..row + x], st.pos))
    {
      r := ReadP3Pixel(st, img, y, x, row, start);
      if r.Failure? {
        P3FailureSticks(st.bytes, start, img.width, y, x + 1, y, img.width);
        return;
      }
      x := x + 1;
    }
    assert x == img.width;
    return Success(());
  }

  /** One pass of the outer loop of `read_p3`: row `y`, from `pixels[y]`
      on. */
  method ReadP3Row(st: Stream, img: Image, y: nat, ghost start: nat) returns (r: Result<(), PpmError>)
    requires st.Valid() && start <= |st.bytes| && img.Valid() && y < img.height
    requires P3Scan(st.bytes, start, img.width, y, 0).Success?
             && P3Scan(st.bytes, start, img.width, y, 0).value.0 == img.data[..RowStart(img, y)]
             && P3Scan(st.bytes, start, img.width, y, 0).value.1 == st.pos
    modifies st, img.data
    ensures st.Valid()
    ensures r.Success? <==> P3Scan(st.bytes, start, img.width, y + 1, 0).Success?
    ensures r.Failure? ==> r.error == P3Scan(st.bytes, start, img.width, y + 1, 0).error
    ensures r.Success? ==> P3Scan(st.bytes, start, img.width, y + 1, 0).Success?
                           && P3Scan(st.bytes, start, img.width, y + 1, 0).value.0 == img.data[..RowStart(img, y + 1)]
                           && P3Scan(st.bytes, start, img.width, y + 1, 0).value.1 == st.pos
  {
    var row := img.pixels[y];
    RowStartNext(img, y);
    P3ScanNextRow(st.bytes, start, img.width, y);
    ghost var bytes, pos0 := st.bytes, st.pos;
    ghost var upto := RowStart(img, y + 1);
    assert P3Scan(bytes, start, img.width, y, 0) == Success((img.data[..row], pos0));
    r := ReadP3Cells(st, img, y, row, start);
    assert upto == row + img.width;
  }

  /** `read_p3`: fills `pixels[y][x]` row by row from decimal triples; a
      triple that does not parse stops with its 1-based row and column. */
  method ReadP3(st: Stream, img: Image) returns (r: Result<(), PpmError>)
    requires st.Valid() && img.Valid()
    modifies st, img.data
    ensures st.Valid()
    ensures r.Success? <==> P3Scan(st.bytes, old(st.pos), img.width, img.height, 0).Success?
    ensures r.Failure? ==> r.error == P3Scan(st.bytes, old(st.pos), img.width, img.height, 0).error
    ensures r.Success? ==> img.data[..] == P3Scan(st.bytes, old(st.pos), img.width, img.height, 0).value.0
  {
    ghost var start, bytes, w, h := st.pos, st.bytes, img.width, img.height;
    var y := 0;
    while y < img.height
      invariant st.Valid() && 0 <= y <= h
      invariant P3Scan(bytes, start, w, y, 0).Success?
      invariant P3Scan(bytes, start, w, y, 0).value.0 == img.data[..RowStart(img, y)]
      invariant P3Scan(bytes, start, w, y, 0).value.1 == st.pos
    {
      r := ReadP3Row(st, img, y, start);
      if r.Failure? {
        P3RowFails(bytes, start, w, y, h);
        return;
      }
      y := y + 1;
    }
    assert RowStart(img, y) == img.data.Length;
    assert img.data[..] == img.data[..RowStart(img, y)];
    return Success(());
  }

  /** `read_ppm_image` on a file with contents `file`; `dataOk` and
      `rowsOk` decide the two allocations of `image_create`. */
  method ReadPpmImage(file: seq<Byte>, dataOk: bool, rowsOk: bool) returns (r: Result<Image, PpmError>)
    ensures r.Failure? <==> DecodePpm(file, dataOk, rowsOk).Failure?
    ensures r.Failure? ==> r.error == DecodePpm(file, dataOk, rowsOk).error
    ensures r.Success? ==> fresh(r.value) && fresh(r.value.data) && fresh(r.value.pixels)
    ensures r.Success? ==> r.value.Valid() && r.value.Value() == DecodePpm(file, dataOk, rowsOk).value
  {
    var st := new Stream.Open(file);
    var header := ReadPpmHeader(st);
    if header.Failure? {
      return Failure(header.error);
    }
    var h := header.value;
    var img := ImageCreate(h.width, h.height, dataOk, rowsOk);
    if img == null {
      return Failure(NoImage);
    }
    var body;
    if h.isP6 {
      body := ReadP6(st, img);
    } else {
      body := ReadP3(st, img);
    }
    if body.Failure? {
      return Failure(body.error);
    }
    return Success(img);
  }
}


