/** The Netpbm reader copied into iv.c (iv.c:15-138). Its `image_create`,
    `read_p6`, `read_p3` and `read_ppm_image` do what the ppm.c and utils.c
    versions do and are modelled by the same members; what differs is
    `skip_comments`, which pushes back EOF too, the end of
    `read_ppm_header`, which looks for a newline after maxval without
    stopping at the end of the file, and the `int` product in the size of
    the pixel array. */
module Iv {
  import opened Common
  import opened Stdio
  import opened PpmSpec
  import opened PixelBuffer
  import Ppm

  /** iv.c:45, `while (fgetc(fp) != '\n');`: just past the first newline
      after maxval. None when no newline is left: `fgetc` then returns EOF
      for ever and the loop never ends. */
  function IvAfterMaxval(s: seq<Byte>, p: nat): (r: Option<nat>)
    requires p <= |s|
    ensures r.None? <==> forall k :: p <= k < |s| ==> s[k] != Newline
    ensures r.Some? ==> p < r.value <= |s| && s[r.value - 1] == Newline
                        && forall k :: p <= k < r.value - 1 ==> s[k] != Newline
  {
    match FindByte(s, p, Newline)
    case None => None
    case Some(e) => Some(e + 1)
  }

  /** `read_ppm_header` of iv.c: the header and where the pixel data
      starts. */
  function IvReadHeader(s: seq<Byte>): (r: Result<(Header, nat), PpmError>)
    ensures HeaderTokens(s).Failure? ==> r == Failure(HeaderTokens(s).error)
    ensures HeaderTokens(s).Success? ==>
              if IvAfterMaxval(s, HeaderTokens(s).value.1).None? then r == Failure(Hang)
              else r == Success((HeaderTokens(s).value.0, IvAfterMaxval(s, HeaderTokens(s).value.1).value))
  {
    var (h, p) :- HeaderTokens(s);
    match IvAfterMaxval(s, p)
    case None => Failure(Hang)
    case Some(q) => Success((h, q))
  }

  /** `read_ppm_image` of iv.c on a file with contents `s`. */
  function IvDecodePpm(s: seq<Byte>, dataOk: bool, rowsOk: bool): (r: Result<Picture, PpmError>)
    ensures r.Success? ==> IvReadHeader(s).Success?
                           && r.value.width == IvReadHeader(s).value.0.width
                           && r.value.height == IvReadHeader(s).value.0.height
                           && |r.value.pixels| == r.value.width * r.value.height
  {
    DecodeBody(s, IvReadHeader(s), dataOk, rowsOk)
  }

  /** The two readers differ only on a file with no newline after maxval:
      ppm.c then starts the pixel data at the end of the file, iv.c never
      returns. On every other file they produce the same image or the same
      error. */
  lemma IvAgreesWithPpm(s: seq<Byte>, dataOk: bool, rowsOk: bool)
    ensures IvDecodePpm(s, dataOk, rowsOk) == DecodePpm(s, dataOk, rowsOk)
            || (IvDecodePpm(s, dataOk, rowsOk) == Failure(Hang)
                && HeaderTokens(s).Success?
                && forall k :: HeaderTokens(s).value.1 <= k < |s| ==> s[k] != Newline)
    ensures HeaderTokens(s).Success? && Newline in s[HeaderTokens(s).value.1..] ==>
              IvDecodePpm(s, dataOk, rowsOk) == DecodePpm(s, dataOk, rowsOk)
  {
    if HeaderTokens(s).Success? {
      var p := HeaderTokens(s).value.1;
      if Newline in s[p..] {
        var k :| 0 <= k < |s[p..]| && s[p..][k] == Newline;
        assert s[p + k] == Newline;
      }
    }
  }

  /** "P6\n0 0 255" has no newline after maxval: ppm.c returns an empty
      image, iv.c never returns. */
  lemma NoNewlineAfterMaxval()
    ensures DecodePpm(NoNewlineFile(), true, true) == Success(Picture(0, 0, []))
    ensures IvDecodePpm(NoNewlineFile(), true, true) == Failure(Hang)
  {
    var s := NoNewlineFile();
    NoNewlineHeader();
    assert FindByte(s, 10, Newline) == None;
  }

  lemma NoNewlineHeader()
    ensures HeaderTokens(NoNewlineFile()) == Success((Header(true, 0, 0), 10))
  {
    var s := NoNewlineFile();
    assert GetsEnd(s, 0, LineRoom) == 3;
    assert MagicOk(s);
    NoNewlineFields();
  }

  lemma NoNewlineFields()
    ensures Field(NoNewlineFile(), 3) == Success((0, 4))
    ensures Field(NoNewlineFile(), 4) == Success((0, 6))
    ensures Field(NoNewlineFile(), 6) == Success((255, 10))
  {
    NoNewlineWidth();
    NoNewlineHeight();
    NoNewlineMaxval();
  }

  lemma NoNewlineWidth()
    ensures Field(NoNewlineFile(), 3) == Success((0, 4))
  {
    var s := NoNewlineFile();
    ScanDecimalRoundTrip(s, 3, 0, 0);
    assert AfterComments(s, 3) == Some(3) by { assert s[3] == '0' as int; }
  }

  lemma NoNewlineHeight()
    ensures Field(NoNewlineFile(), 4) == Success((0, 6))
  {
    var s := NoNewlineFile();
    ScanDecimalRoundTrip(s, 4, 1, 0);
    assert AfterComments(s, 4) == Some(4) by { assert s[4] == ' ' as int; }
  }

  lemma NoNewlineMaxval()
    ensures Field(NoNewlineFile(), 6) == Success((255, 10))
  {
    var s := NoNewlineFile();
    assert Decimal(255) == ['2' as int, '5' as int, '5' as int];
    ScanDecimalRoundTrip(s, 6, 1, 255);
    assert AfterComments(s, 6) == Some(6) by { assert s[6] == ' ' as int; }
  }

  function NoNewlineFile(): seq<Byte>
  {
    ['P' as int, '6' as int, Newline, '0' as int, ' ' as int, '0' as int,
     ' ' as int, '2' as int, '5' as int, '5' as int]
  }

  /** The `int` byte count iv.c:54 asks `malloc` for,
      `width * height * sizeof(Pixel)`: the product is taken in `int`,
      where it wraps (two's complement) once it reaches 2^31, and only then
      converted to `size_t`. */
  function IvDataRequest(width: int, height: int): (n: nat)
    ensures n < TwoTo64
  {
    SizeT(SizeT(Int32(U32(width * height))) * 4)
  }

  /** A 65536 x 65536 image: iv.c asks for no bytes at all, utils.c for the
      16 GiB the pixels need. */
  lemma IvDataRequestWraps()
    ensures IvDataRequest(65536, 65536) == 0
    ensures DataRequest(65536, 65536) == 65536 * 65536 * 4
  {
    DataRequestExact(65536, 65536);
  }

  /** `skip_comments` of iv.c: the same scan as ppm.c, but the byte after
      the comments is pushed back even when it is EOF; `ungetc(EOF)` does
      nothing, so the stream ends where ppm.c's leaves it. */
  method SkipComments(st: Stream) returns (ends: bool)
    requires st.Valid()
    modifies st
    ensures st.Valid()
    ensures ends <==> AfterComments(st.bytes, old(st.pos)).Some?
    ensures ends ==> st.pos == AfterComments(st.bytes, old(st.pos)).value
  {
    ghost var start := st.pos;
    var ch := st.Getc();
    while ch == Hash
      invariant st.Valid()
      invariant ch == EOF ==> st.pos == |st.bytes|
      invariant ch != EOF ==> 0 < st.pos && st.bytes[st.pos - 1] == ch
      invariant AfterComments(st.bytes, start)
                == AfterComments(st.bytes, if ch == EOF then st.pos else st.pos - 1)
      decreases |st.bytes| - st.pos
    {
      CommentLine(st.bytes, st.pos - 1);
      var lineEnds := Ppm.SkipLine(st);
      if !lineEnds {
        return false;
      }
      ch := st.Getc();
    }
    st.Ungetc(ch);
    return true;
  }

  /** One header field of iv.c's `read_ppm_header`. */
  method ReadField(st: Stream) returns (r: Result<int, PpmError>)
    requires st.Valid()
    modifies st
    ensures st.Valid()
    ensures r.Success? <==> Field(st.bytes, old(st.pos)).Success?
    ensures r.Failure? ==> r.error == Field(st.bytes, old(st.pos)).error
    ensures r.Success? ==> r.value == Field(st.bytes, old(st.pos)).value.0
                           && st.pos == Field(st.bytes, old(st.pos)).value.1
  {
    var ends := SkipComments(st);
    if !ends {
      return Failure(Hang);
    }
    var v := st.ScanInt();
    if v.None? {
      return Failure(BadNumber);
    }
    return Success(v.value);
  }

  /** iv.c's `read_ppm_header` up to the maxval check; the magic line is
      checked as in ppm.c. */
  method ReadHeaderTokens(st: Stream) returns (r: Result<Header, PpmError>)
    requires st.Valid() && st.pos == 0
    modifies st
    ensures st.Valid()
    ensures r.Success? <==> HeaderTokens(st.bytes).Success?
    ensures r.Failure? ==> r.error == HeaderTokens(st.bytes).error
    ensures r.Success? ==> r.value == HeaderTokens(st.bytes).value.0
                           && st.pos == HeaderTokens(st.bytes).value.1
  {
    var isP6 :- Ppm.ReadMagic(st);
    var width :- ReadField(st);
    var height :- ReadField(st);
    var maxval :- ReadField(st);
    if maxval != 255 {
      return Failure(BadMaxval(maxval));
    }
    return Success(Header(isP6, width, height));
  }

  /** `read_ppm_header` of iv.c on a freshly opened file. */
  method ReadPpmHeader(st: Stream) returns (r: Result<Header, PpmError>)
    requires st.Valid() && st.pos == 0
    modifies st
    ensures st.Valid()
    ensures r.Success? <==> IvReadHeader(st.bytes).Success?
    ensures r.Failure? ==> r.error == IvReadHeader(st.bytes).error
    ensures r.Success? ==> r.value == IvReadHeader(st.bytes).value.0
                           && st.pos == IvReadHeader(st.bytes).value.1
  {
    r := ReadHeaderTokens(st);
    if r.Failure? {
      return;
    }
    var lineEnds := Ppm.SkipLine(st);
    if !lineEnds {
      return Failure(Hang);
    }
  }

  /** `read_ppm_image` of iv.c on a file with contents `file`. */
  method ReadPpmImage(file: seq<Byte>, dataOk: bool, rowsOk: bool) returns (r: Result<Image, PpmError>)
    ensures r.Failure? <==> IvDecodePpm(file, dataOk, rowsOk).Failure?
    ensures r.Failure? ==> r.error == IvDecodePpm(file, dataOk, rowsOk).error
    ensures r.Success? ==> fresh(r.value) && fresh(r.value.data) && fresh(r.value.pixels)
    ensures r.Success? ==> r.value.Valid() && r.value.Value() == IvDecodePpm(file, dataOk, rowsOk).value
  {
    var st := new Stream.Open(file);
    var header := ReadPpmHeader(st);
    if header.Failure? {
      return Failure(header.error);
    }
    var h := header.value;
    var img := ImageCreate(h.width, h.height, dataOk, rowsOk);
    if img == null {
      return Failure(NoImage);
    }
    var body;
    if h.isP6 {
      body := Ppm.ReadP6(st, img);
    } else {
      body := Ppm.ReadP3(st, img);
    }
    if body.Failure? {
      return Failure(body.error);
    }
    return Success(img);
  }
}
