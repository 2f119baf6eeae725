/** What the Netpbm reader of ppm.c computes, as functions of the file's
    bytes: the header (magic line, comment lines, three decimal fields, the
    rest of the maxval line) and the pixels of the binary (P6) and text (P3)
    variants. */
module PpmSpec {
  import opened Common
  import opened Stdio
  import PixelBuffer

  /** How a decode ends without an image. `BadMagic`, `BadNumber`,
      `BadMaxval`, `ShortP6` and `P3Parse` are the `exit(EXIT_FAILURE)`
      calls; `NoImage` is the NULL return after `image_create` fails;
      `Hang` marks an input on which a loop of the C code never ends. */
  datatype PpmError =
    | BadMagic
    | BadNumber
    | BadMaxval(maxval: int)
    | Hang
    | NoImage
    | ShortP6
    | P3Parse(row: int, col: int)

  /** The header fields the reader keeps. */
  datatype Header = Header(isP6: bool, width: int, height: int)

  const Hash: Byte := '#' as int

  /** `fgets(buf, sizeof(buf), fp)` with a 256-byte buffer stores at most
      255 characters. */
  const LineRoom: nat := 255

  /** Where `skip_comments` leaves the stream: past every line that starts
      with '#', each through its newline, in front of the first other byte.
      None when a comment line has no newline: the inner `fgetc` loop then
      never ends. */
  function AfterComments(s: seq<Byte>, i: nat): (r: Option<nat>)
    requires i <= |s|
    ensures r.Some? ==> i <= r.value <= |s| && (r.value < |s| ==> s[r.value] != Hash)
    ensures r.Some? && i < |s| && s[i] == Hash ==> i < r.value && s[r.value - 1] == Newline
    ensures r.Some? && (i == |s| || s[i] != Hash) ==> r.value == i
    decreases |s| - i
  {
    if i < |s| && s[i] == Hash then
      match FindByte(s, i + 1, Newline)
      case None => None
      case Some(e) => AfterComments(s, e + 1)
    else Some(i)
  }

  /** A comment line: the scan goes on just past its newline, and never
      ends when there is none. */
  lemma CommentLine(s: seq<Byte>, i: nat)
    requires i < |s| && s[i] == Hash
    ensures FindByte(s, i + 1, Newline).None? ==> AfterComments(s, i).None?
    ensures FindByte(s, i + 1, Newline).Some? ==>
              AfterComments(s, i) == AfterComments(s, FindByte(s, i + 1, Newline).value + 1)
  {
  }

  /** A position that does not start a comment line is where the scan
      stops. */
  lemma NoComment(s: seq<Byte>, i: nat)
    requires i <= |s| && (i == |s| || s[i] != Hash)
    ensures AfterComments(s, i) == Some(i)
  {
  }

  /** The first line passes the check when `fgets` stored at least two
      characters and they are "P3" or "P6". */
  predicate MagicOk(s: seq<Byte>)
  {
    var e := GetsEnd(s, 0, LineRoom);
    e >= 2 && s[0] == 'P' as int && (s[1] == '3' as int || s[1] == '6' as int)
  }

  /** One header field: `skip_comments` then `fscanf(fp, "%d", ...)`. */
  function Field(s: seq<Byte>, i: nat): (r: Result<(int, nat), PpmError>)
    requires i <= |s|
    ensures r.Success? ==> i < r.value.1 <= |s|
    ensures r.Failure? ==> r.error == Hang || r.error == BadNumber
  {
    match AfterComments(s, i)
    case None => Failure(Hang)
    case Some(j) =>
      match ScanDecimal(s, j)
      case None => Failure(BadNumber)
      case Some(vp) => Success(vp)
  }

  /** `read_ppm_header` up to the maxval check: the header and the
      position just after the maxval digits. */
  function HeaderTokens(s: seq<Byte>): (r: Result<(Header, nat), PpmError>)
    ensures !MagicOk(s) <==> r == Failure(BadMagic)
    ensures r.Success? ==> |s| >= 2 && s[0] == 'P' as int && (s[1] == '3' as int || s[1] == '6' as int)
    ensures r.Success? ==> (r.value.0.isP6 <==> s[1] == '6' as int) && r.value.1 <= |s|
    ensures r.Failure? && r.error.BadMaxval? ==> r.error.maxval != 255
  {
    if !MagicOk(s) then Failure(BadMagic)
    else
      var isP6 := s[1] == '6' as int;
      var e := GetsEnd(s, 0, LineRoom);
      var (width, p1) :- Field(s, e);
      var (height, p2) :- Field(s, p1);
      var (maxval, p3) :- Field(s, p2);
      if maxval != 255 then Failure(BadMaxval(maxval))
      else Success((Header(isP6, width, height), p3))
  }

  /** ppm.c:42: after maxval, bytes are consumed through the first newline,
      or to the end of the file. */
  function AfterMaxval(s: seq<Byte>, p: nat): (q: nat)
    requires p <= |s|
    ensures p <= q <= |s|
    ensures q < |s| ==> p < q && s[q - 1] == Newline
    ensures forall k :: p <= k < q - 1 ==> s[k] != Newline
    ensures q == |s| && p < q && s[q - 1] != Newline ==> forall k :: p <= k < |s| ==> s[k] != Newline
  {
    match FindByte(s, p, Newline)
    case None => |s|
    case Some(e) => e + 1
  }

  /** `read_ppm_header` of ppm.c: the header and where the pixel data
      starts. */
  function ReadHeader(s: seq<Byte>): (r: Result<(Header, nat), PpmError>)
    ensures r.Success? <==> HeaderTokens(s).Success?
    ensures r.Success? ==> r.value.0 == HeaderTokens(s).value.0
                           && r.value.1 == AfterMaxval(s, HeaderTokens(s).value.1)
    ensures r.Failure? ==> r.error == HeaderTokens(s).error
  {
    var (h, p) :- HeaderTokens(s);
    Success((h, AfterMaxval(s, p)))
  }

  /** `read_p6`: `n` pixels from consecutive byte triples starting at `i`,
      alpha 255; the file must hold all of them. */
  function P6Pixels(s: seq<Byte>, i: nat, n: nat): (r: Result<seq<Pixel>, PpmError>)
    requires i <= |s|
    ensures r.Success? <==> i + 3 * n <= |s|
    ensures r.Failure? ==> r.error == ShortP6
    ensures r.Success? ==> |r.value| == n
    ensures r.Success? ==> forall k :: 0 <= k < n ==>
              r.value[k] == Pixel(s[i + 3 * k], s[i + 3 * k + 1], s[i + 3 * k + 2], 255)
    decreases n
  {
    if n == 0 then Success([])
    else
      var done :- P6Pixels(s, i, n - 1);
      var at := i + 3 * (n - 1);
      if at + 3 <= |s| then Success(done + [Pixel(s[at], s[at + 1], s[at + 2], 255)])
      else Failure(ShortP6)
  }

  /** `fscanf(fp, "%d %d %d", &r, &g, &b) == 3`. The blanks of the format
      skip white space, as each `%d` does anyway. */
  function ScanTriple(s: seq<Byte>, i: nat): (r: Option<(int, int, int, nat)>)
    requires i <= |s|
    ensures r.Some? ==> i < r.value.3 <= |s|
  {
    match ScanDecimal(s, i)
    case None => None
    case Some((red, i1)) =>
      match ScanDecimal(s, i1)
      case None => None
      case Some((green, i2)) =>
        match ScanDecimal(s, i2)
        case None => None
        case Some((blue, i3)) => Some((red, green, blue, i3))
  }

  /** One P3 pixel: each channel is the value read cast to `uint8_t`. */
  function TextPixel(red: int, green: int, blue: int): (p: Pixel)
    ensures (p.r - red) % 256 == 0 && (p.g - green) % 256 == 0 && (p.b - blue) % 256 == 0
    ensures p.a == 255
  {
    Pixel(Truncate8(red), Truncate8(green), Truncate8(blue), 255)
  }

  /** `read_p3` on a grid `w` pixels wide, stopped after the first `y`
      rows and `x` pixels of row `y`: the pixels read and the position
      reached. A triple that does not parse ends the decode with its
      1-based row and column. */
  function P3Scan(s: seq<Byte>, i: nat, w: nat, y: nat, x: nat): (r: Result<(seq<Pixel>, nat), PpmError>)
    requires i <= |s| && x <= w
    ensures r.Success? ==> |r.value.0| == y * w + x && i <= r.value.1 <= |s|
    ensures r.Success? ==> forall k :: 0 <= k < |r.value.0| ==> r.value.0[k].a == 255
    ensures r.Failure? ==> r.error.P3Parse? && 1 <= r.error.row <= y + 1 && 1 <= r.error.col <= w
    decreases y, x
  {
    if x > 0 then
      var (done, j) :- P3Scan(s, i, w, y, x - 1);
      match ScanTriple(s, j)
      case None => Failure(P3Parse(y + 1, x))
      case Some((red, green, blue, j')) => Success((done + [TextPixel(red, green, blue)], j'))
    else if y > 0 then
      assert (y - 1) * w + w == y * w;
      P3Scan(s, i, w, y - 1, w)
    else
      Success(([], i))
  }

  /** A row that does not parse ends the whole scan with its error. */
  lemma P3RowFails(s: seq<Byte>, i: nat, w: nat, y: nat, h: nat)
    requires i <= |s| && y < h
    requires P3Scan(s, i, w, y + 1, 0).Failure?
    ensures P3Scan(s, i, w, h, 0).Failure? && P3Scan(s, i, w, h, 0).error == P3Scan(s, i, w, y + 1, 0).error
  {
    P3FailureSticks(s, i, w, y + 1, 0, h, 0);
  }

  /** Row `y + 1` starts where row `y` ends. */
  lemma P3ScanNextRow(s: seq<Byte>, i: nat, w: nat, y: nat)
    requires i <= |s|
    ensures P3Scan(s, i, w, y + 1, 0) == P3Scan(s, i, w, y, w)
  {
  }

  /** Reading stops at the first triple that does not parse: every later
      stopping point of `P3Scan` reports that same error. */
  lemma {:induction false} P3FailureSticks(s: seq<Byte>, i: nat, w: nat, y: nat, x: nat, y2: nat, x2: nat)
    requires i <= |s| && x <= w && x2 <= w
    requires y < y2 || (y == y2 && x <= x2)
    requires P3Scan(s, i, w, y, x).Failure?
    ensures P3Scan(s, i, w, y2, x2) == P3Scan(s, i, w, y, x)
    decreases y2, x2
  {
    if y == y2 && x == x2 {
    } else if x2 > 0 {
      P3FailureSticks(s, i, w, y, x, y2, x2 - 1);
    } else {
      P3FailureSticks(s, i, w, y, x, y2 - 1, w);
    }
  }

  /** `read_ppm_image` once the header is read: allocate the image, then
      read P6 or P3 pixel data into it. */
  function DecodeBody(s: seq<Byte>, header: Result<(Header, nat), PpmError>, dataOk: bool, rowsOk: bool)
    : (r: Result<Picture, PpmError>)
    requires header.Success? ==> header.value.1 <= |s|
    ensures r.Success? ==> header.Success? && r.value.width == header.value.0.width
                           && r.value.height == header.value.0.height
    ensures r.Success? ==> 0 <= r.value.width && 0 <= r.value.height
                           && |r.value.pixels| == r.value.width * r.value.height
    ensures r.Success? ==> forall k :: 0 <= k < |r.value.pixels| ==> r.value.pixels[k].a == 255
    ensures header.Failure? ==> r == Failure(header.error)
  {
    var (h, p) :- header;
    if !PixelBuffer.CreateSucceeds(h.width, h.height, dataOk, rowsOk) then Failure(NoImage)
    else if h.isP6 then
      var px :- P6Pixels(s, p, h.width * h.height);
      Success(Picture(h.width, h.height, px))
    else
      var (px, _) :- P3Scan(s, p, h.width, h.height, 0);
      Success(Picture(h.width, h.height, px))
  }

  /** `read_ppm_image` of ppm.c on a file with contents `s`; `dataOk` and
      `rowsOk` say whether the allocations of `image_create` succeed. */
  function DecodePpm(s: seq<Byte>, dataOk: bool, rowsOk: bool): (r: Result<Picture, PpmError>)
    ensures r.Success? ==> MagicOk(s) && ReadHeader(s).Success?
    ensures r.Success? ==> r.value.width == ReadHeader(s).value.0.width
                           && r.value.height == ReadHeader(s).value.0.height
                           && |r.value.pixels| == r.value.width * r.value.height
  {
    DecodeBody(s, ReadHeader(s), dataOk, rowsOk)
  }
}
