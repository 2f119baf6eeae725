/** Properties of the Netpbm reader: a binary (P6) or text (P3) file
    written the way a Netpbm writer lays it out decodes back to the picture
    it was written from. */
module PpmProps {
  import opened Common
  import opened Stdio
  import opened PpmSpec

  const Space: Byte := ' ' as int

  /** The pixel data of a P6 file: red, green and blue of each pixel, in
      storage order. */
  function P6Bytes(px: seq<Pixel>): (s: seq<Byte>)
    ensures |s| == 3 * |px|
    ensures forall k :: 0 <= k < |px| ==>
              s[3 * k] == px[k].r && s[3 * k + 1] == px[k].g && s[3 * k + 2] == px[k].b
  {
    if px == [] then []
    else
      var last := px[|px| - 1];
      P6Bytes(px[..|px| - 1]) + [last.r, last.g, last.b]
  }

  /** The digit after 'P' on the magic line. */
  function Magic(isP6: bool): Byte
  {
    if isP6 then '6' as int else '3' as int
  }

  /** "P6" or "P3", the width and the height on one line, maxval 255 on
      the next, each line ended by a newline, then the pixel data. */
  function NetpbmFile(isP6: bool, w: nat, h: nat, data: seq<Byte>): seq<Byte>
  {
    ['P' as int, Magic(isP6), Newline]
    + (Decimal(w) + ([Space] + (Decimal(h) + ([Newline]
    + (Decimal(255) + ([Newline] + data))))))
  }

  /** A binary (P6) file. */
  function P6File(w: nat, h: nat, px: seq<Pixel>): seq<Byte>
  {
    NetpbmFile(true, w, h, P6Bytes(px))
  }

  /** Where the pixel data of `NetpbmFile(_, w, h, _)` starts. */
  function DataStart(w: nat, h: nat): nat
  {
    3 + |Decimal(w)| + 1 + |Decimal(h)| + 1 + 3 + 1
  }

  /** A piece `d` at position `i` of `s`, followed by `rest`. */
  lemma PieceAt<T>(s: seq<T>, i: nat, d: seq<T>, rest: seq<T>, e: nat)
    requires i <= |s| && s[i..] == d + rest && e == i + |d|
    ensures e <= |s| && s[i..e] == d && s[e..] == rest
  {
    assert s[i..e] == s[i..][..|d|];
    assert s[e..] == s[i..][|d|..];
  }

  /** A header field written in decimal, after one white-space byte or
      none and followed by a byte that is not a digit, reads back as its
      value. */
  lemma FieldOver(s: seq<Byte>, i: nat, blank: bool, v: nat)
    requires var j := if blank then i + 1 else i;
             && j + |Decimal(v)| < |s|
             && (blank ==> IsSpace(s[i]))
             && s[j..j + |Decimal(v)|] == Decimal(v)
             && !IsDigit(s[j + |Decimal(v)|])
    ensures Field(s, i) == Success((v, (if blank then i + 1 else i) + |Decimal(v)|))
  {
    var d := Decimal(v);
    var spaces := if blank then 1 else 0;
    if !blank {
      assert s[i] == d[0];
    }
    ScanDecimalRoundTrip(s, i, spaces, v);
  }

  /** Maxval 255 is written as three digits. */
  lemma Decimal255()
    ensures Decimal(255) == ['2' as int, '5' as int, '5' as int]
  {
    assert Decimal(25) == ['2' as int, '5' as int];
  }

  /** A byte `c` at position `i` of `s`, followed by `rest`. */
  lemma ByteAt<T>(s: seq<T>, i: nat, c: T, rest: seq<T>)
    requires i <= |s| && s[i..] == [c] + rest
    ensures i < |s| && s[i] == c && s[i + 1..] == rest
  {
    assert s[i] == s[i..][0];
    assert s[i + 1..] == s[i..][1..];
  }

  /** The magic line and the width of a written file, up to the blank at
      `i2`; `t3` is what follows the blank. */
  lemma HeaderLayoutFront(s: seq<Byte>, m: Byte, w: nat, t1: seq<Byte>, t2: seq<Byte>, t3: seq<Byte>)
    requires s == ['P' as int, m, Newline] + t1
    requires t1 == Decimal(w) + t2 && t2 == [Space] + t3
    ensures var i2 := 3 + |Decimal(w)|;
            && i2 < |s|
            && s[0] == 'P' as int && s[1] == m && s[2] == Newline
            && s[3..i2] == Decimal(w) && s[i2] == Space
            && s[i2 + 1..] == t3
  {
    var i2 := 3 + |Decimal(w)|;
    assert s[0..] == [s[0]] + s[1..];
    ByteAt(s, 0, 'P' as int, [m, Newline] + t1);
    ByteAt(s, 1, m, [Newline] + t1);
    ByteAt(s, 2, Newline, t1);
    PieceAt(s, 3, Decimal(w), t2, i2);
    ByteAt(s, i2, Space, t3);
  }

  /** The height and the maxval line of a written file, from `i`, the
      position after the blank; `i3` is the newline after the height. */
  lemma HeaderLayoutBack(s: seq<Byte>, i: nat, h: nat, t3: seq<Byte>, t4: seq<Byte>,
                     t5: seq<Byte>, t6: seq<Byte>, rest: seq<Byte>)
    requires i <= |s| && s[i..] == t3
    requires t3 == Decimal(h) + t4 && t4 == [Newline] + t5
    requires t5 == Decimal(255) + t6 && t6 == [Newline] + rest
    ensures var i3 := i + |Decimal(h)|;
            && i3 + 5 <= |s|
            && s[i..i3] == Decimal(h) && s[i3] == Newline
            && s[i3 + 1..i3 + 4] == Decimal(255) && s[i3 + 4] == Newline
            && s[i3 + 5..] == rest
  {
    var i3 := i + |Decimal(h)|;
    Decimal255();
    PieceAt(s, i, Decimal(h), t4, i3);
    ByteAt(s, i3, Newline, t5);
    PieceAt(s, i3 + 1, Decimal(255), t6, i3 + 4);
    ByteAt(s, i3 + 4, Newline, rest);
  }

  lemma WidthField(s: seq<Byte>, w: nat, i2: nat)
    requires i2 == 3 + |Decimal(w)| < |s|
    requires s[3..i2] == Decimal(w) && s[i2] == Space
    ensures Field(s, 3) == Success((w, i2))
  {
    FieldOver(s, 3, false, w);
  }

  lemma HeightField(s: seq<Byte>, h: nat, i2: nat, i3: nat)
    requires i3 == i2 + 1 + |Decimal(h)| < |s|
    requires s[i2] == Space && s[i2 + 1..i3] == Decimal(h) && s[i3] == Newline
    ensures Field(s, i2) == Success((h, i3))
  {
    FieldOver(s, i2, true, h);
  }

  lemma MaxvalField(s: seq<Byte>, i3: nat)
    requires i3 + 4 < |s|
    requires s[i3] == Newline && s[i3 + 1..i3 + 4] == Decimal(255) && s[i3 + 4] == Newline
    ensures Field(s, i3) == Success((255, (i3 + 4) as nat))
  {
    Decimal255();
    FieldOver(s, i3, true, 255);
  }

  /** A written header reads as its magic number, its width, its height
      and maxval 255, ending just before the newline at `i3 + 4`. */
  lemma WrittenFields(s: seq<Byte>, isP6: bool, w: nat, h: nat, i2: nat, i3: nat)
    requires i2 == 3 + |Decimal(w)| && i3 == i2 + 1 + |Decimal(h)| && i3 + 5 <= |s|
    requires s[0] == 'P' as int && s[1] == Magic(isP6) && s[2] == Newline
    requires s[3..i2] == Decimal(w) && s[i2] == Space
    requires s[i2 + 1..i3] == Decimal(h) && s[i3] == Newline
    requires s[i3 + 1..i3 + 4] == Decimal(255) && s[i3 + 4] == Newline
    ensures HeaderTokens(s).Success?
    ensures HeaderTokens(s).value.0 == Header(isP6, w, h) && HeaderTokens(s).value.1 == i3 + 4
  {
    assert GetsEnd(s, 0, LineRoom) == 3;
    assert MagicOk(s);
    WidthField(s, w, i2);
    HeightField(s, h, i2, i3);
    MaxvalField(s, i3);
  }

  /** The header ends where the line of its maxval ends. */
  lemma HeaderThen(s: seq<Byte>, hd: Header, p: nat, q: nat)
    requires HeaderTokens(s).Success?
    requires HeaderTokens(s).value.0 == hd && HeaderTokens(s).value.1 == p
    requires p <= |s| && AfterMaxval(s, p) == q
    ensures ReadHeader(s).Success?
    ensures ReadHeader(s).value.0 == hd && ReadHeader(s).value.1 == q
  {
  }

  /** A maxval followed at once by a newline ends the header after that
      newline. */
  lemma MaxvalLineEnd(s: seq<Byte>, p: nat)
    requires p < |s| && s[p] == Newline
    ensures AfterMaxval(s, p) == p + 1
  {
    assert FindByte(s, p, Newline) == Some(p);
  }

  /** The header fields of a file written with data `rest`: the maxval
      ends just before the newline at `DataStart(w, h) - 1`, and `rest`
      follows that newline. */
  lemma WrittenTokens(isP6: bool, w: nat, h: nat, rest: seq<Byte>)
    ensures var s := NetpbmFile(isP6, w, h, rest);
            var p := DataStart(w, h) - 1;
            && p < |s| && s[p] == Newline && s[p + 1..] == rest
            && HeaderTokens(s).Success?
            && HeaderTokens(s).value.0 == Header(isP6, w, h) && HeaderTokens(s).value.1 == p
  {
    var s := NetpbmFile(isP6, w, h, rest);
    var i2 := 3 + |Decimal(w)|;
    var i3 := i2 + 1 + |Decimal(h)|;
    var t6 := [Newline] + rest;
    var t5 := Decimal(255) + t6;
    var t4 := [Newline] + t5;
    var t3 := Decimal(h) + t4;
    var t2 := [Space] + t3;
    var t1 := Decimal(w) + t2;
    HeaderLayoutFront(s, Magic(isP6), w, t1, t2, t3);
    HeaderLayoutBack(s, i2 + 1, h, t3, t4, t5, t6, rest);
    WrittenFields(s, isP6, w, h, i2, i3);
  }

  /** A header whose maxval is followed at once by a newline ends after
      that newline. */
  lemma HeaderLineEnd(s: seq<Byte>, hd: Header, p: nat)
    requires HeaderTokens(s).Success?
    requires HeaderTokens(s).value.0 == hd && HeaderTokens(s).value.1 == p
    requires p < |s| && s[p] == Newline
    ensures ReadHeader(s).Success?
    ensures ReadHeader(s).value.0 == hd && ReadHeader(s).value.1 == p + 1
  {
    MaxvalLineEnd(s, p);
    HeaderThen(s, hd, p, p + 1);
  }

  /** The header of a written file reads back as its magic number and its
      dimensions, and the pixel data starts right after the maxval line. */
  lemma WrittenHeader(isP6: bool, w: nat, h: nat, data: seq<Byte>)
    ensures var s := NetpbmFile(isP6, w, h, data);
            && DataStart(w, h) <= |s|
            && ReadHeader(s).Success?
            && ReadHeader(s).value.0 == Header(isP6, w, h)
            && ReadHeader(s).value.1 == DataStart(w, h)
            && s[DataStart(w, h)..] == data
  {
    WrittenTokens(isP6, w, h, data);
    HeaderLineEnd(NetpbmFile(isP6, w, h, data), Header(isP6, w, h), DataStart(w, h) - 1);
  }

  /** `n` byte triples read from `i` on are the pixels they were written
      from, when every one of them is opaque. */
  lemma P6PixelsOf(s: seq<Byte>, i: nat, px: seq<Pixel>)
    requires i <= |s| && s[i..] == P6Bytes(px)
    requires forall k :: 0 <= k < |px| ==> px[k].a == 255
    ensures P6Pixels(s, i, |px|) == Success(px)
  {
    var b := P6Bytes(px);
    assert P6Pixels(s, i, |px|).Success?;
    var r := P6Pixels(s, i, |px|).value;
    forall k | 0 <= k < |px|
      ensures r[k] == px[k]
    {
      assert s[i + 3 * k] == b[3 * k];
      assert s[i + 3 * k + 1] == b[3 * k + 1];
      assert s[i + 3 * k + 2] == b[3 * k + 2];
    }
    assert r == px;
  }

  /** A P6 file written from a picture whose pixels are all opaque decodes
      to that picture, when `image_create` gets its memory. */
  lemma P6RoundTrip(w: nat, h: nat, px: seq<Pixel>)
    requires |px| == w * h
    requires forall k :: 0 <= k < |px| ==> px[k].a == 255
    ensures DecodePpm(P6File(w, h, px), true, true) == Success(Picture(w, h, px))
  {
    var s := P6File(w, h, px);
    WrittenHeader(true, w, h, P6Bytes(px));
    P6PixelsOf(s, DataStart(w, h), px);
  }

  /** The pixel data of a P3 file: one line per pixel, in storage order,
      holding red, green and blue in decimal, separated by blanks. */
  function P3Text(px: seq<Pixel>): (t: seq<Byte>)
    ensures px != [] ==> |t| > 0 && t[|t| - 1] == Newline
  {
    if px == [] then [] else PixelLine(px[0]) + P3Text(px[1..])
  }

  /** The line of one pixel: red, green and blue in decimal, a blank
      between them and a newline after them. */
  function PixelLine(p: Pixel): (t: seq<Byte>)
    ensures |t| == |Decimal(p.r)| + 1 + |Decimal(p.g)| + 1 + |Decimal(p.b)| + 1
    ensures t[|t| - 1] == Newline
  {
    Decimal(p.r) + ([Space] + (Decimal(p.g) + ([Space] + (Decimal(p.b) + [Newline]))))
  }

  /** A text (P3) file. */
  function P3File(w: nat, h: nat, px: seq<Pixel>): seq<Byte>
  {
    NetpbmFile(false, w, h, P3Text(px))
  }

  /** The text of two runs of pixels is the text of the first followed by
      the text of the second. */
  lemma {:induction false} P3TextAppend(a: seq<Pixel>, b: seq<Pixel>)
    ensures P3Text(a + b) == P3Text(a) + P3Text(b)
    decreases |a|
  {
    if a == [] {
      assert a + b == b;
    } else {
      P3TextAppend(a[1..], b);
      assert (a + b)[0] == a[0] && (a + b)[1..] == a[1..] + b;
      Associative(PixelLine(a[0]), P3Text(a[1..]), P3Text(b));
    }
  }

  lemma Associative<T>(x: seq<T>, y: seq<T>, z: seq<T>)
    ensures x + (y + z) == (x + y) + z
  {
  }


  /** `fscanf("%d")` reads back a number written in decimal after at most
      one white-space byte, when a byte that is not a digit follows it. */
  lemma UnsignedScan(s: seq<Byte>, i: nat, spaces: nat, v: nat, e: nat)
    requires spaces <= 1 && e == i + spaces + |Decimal(v)| && e < |s| && (spaces == 1 ==> IsSpace(s[i]))
    requires s[i + spaces..e] == Decimal(v) && !IsDigit(s[e])
    ensures ScanDecimal(s, i) == Some((v as int, e))
  {
    assert SignedDecimal(v) == Decimal(v);
    assert forall k :: i <= k < i + spaces ==> IsSpace(s[k]);
    ScanDecimalRoundTrip(s, i, spaces, v);
  }

  /** The pieces of a pixel line written at `k`: its three numbers, the
      blanks between them and the newline at `k3` that ends it. */
  lemma PixelLineLayout(s: seq<Byte>, k: nat, p: Pixel, rest: seq<Byte>, k1: nat, k2: nat, k3: nat)
    requires k <= |s|
    requires s[k..] == PixelLine(p) + rest
    requires k1 == k + |Decimal(p.r)| && k2 == k1 + 1 + |Decimal(p.g)| && k3 == k2 + 1 + |Decimal(p.b)|
    ensures k3 < |s| && s[k3] == Newline && s[k3 + 1..] == rest
    ensures s[k..k1] == Decimal(p.r) && s[k1] == Space
    ensures s[k1 + 1..k2] == Decimal(p.g) && s[k2] == Space
    ensures s[k2 + 1..k3] == Decimal(p.b)
  {
    var t5 := [Newline] + rest;
    var t4 := Decimal(p.b) + t5;
    var t3 := [Space] + t4;
    var t2 := Decimal(p.g) + t3;
    var t1 := [Space] + t2;
    assert PixelLine(p) + rest == Decimal(p.r) + t1;
    PieceAt(s, k, Decimal(p.r), t1, k1);
    ByteAt(s, k1, Space, t2);
    PieceAt(s, k1 + 1, Decimal(p.g), t3, k2);
    ByteAt(s, k2, Space, t4);
    PieceAt(s, k2 + 1, Decimal(p.b), t5, k3);
    ByteAt(s, k3, Newline, rest);
  }

  /** `fscanf(fp, "%d %d %d", ...)` reads a pixel line back, from a
      position `spaces` white-space bytes in front of it, and stops at its
      newline. */
  lemma PixelLineScan(s: seq<Byte>, j: nat, spaces: nat, p: Pixel, k1: nat, k2: nat, k3: nat)
    requires spaces <= 1 && k1 == j + spaces + |Decimal(p.r)| && k2 == k1 + 1 + |Decimal(p.g)|
    requires k3 == k2 + 1 + |Decimal(p.b)| && k3 < |s| && (spaces == 1 ==> IsSpace(s[j]))
    requires s[j + spaces..k1] == Decimal(p.r) && s[k1] == Space
    requires s[k1 + 1..k2] == Decimal(p.g) && s[k2] == Space
    requires s[k2 + 1..k3] == Decimal(p.b) && s[k3] == Newline
    ensures ScanTriple(s, j) == Some((p.r as int, p.g as int, p.b as int, k3))
  {
    UnsignedScan(s, j, spaces, p.r, k1);
    UnsignedScan(s, k1, 1, p.g, k2);
    UnsignedScan(s, k2, 1, p.b, k3);
    TripleOf(s, j, p.r, p.g, p.b, k1, k2, k3);
  }

  /** Three numbers read one after another make the triple. */
  lemma TripleOf(s: seq<Byte>, i: nat, red: int, green: int, blue: int, i1: nat, i2: nat, i3: nat)
    requires i <= |s| && i1 <= |s| && i2 <= |s|
    requires ScanDecimal(s, i) == Some((red, i1))
    requires ScanDecimal(s, i1) == Some((green, i2))
    requires ScanDecimal(s, i2) == Some((blue, i3))
    ensures ScanTriple(s, i) == Some((red, green, blue, i3))
  {
  }

  /** Where `read_p3` stands after the first `n` pixels of a written text:
      just before the newline that ends pixel `n - 1`'s line. */
  function P3Resume(i: nat, px: seq<Pixel>, n: nat): nat
    requires n <= |px|
  {
    if n == 0 then i else i + |P3Text(px[..n])| - 1
  }

  /** The line of pixel `m` of a written text, at position `i + a` of
      `s`, and the newline that ends the line before it. */
  lemma P3TextLine(s: seq<Byte>, i: nat, px: seq<Pixel>, m: nat)
    requires i <= |s| && s[i..] == P3Text(px) && m < |px|
    ensures var a := |P3Text(px[..m])|;
            && i + a <= |s|
            && s[i + a..] == PixelLine(px[m]) + P3Text(px[m + 1..])
            && (m > 0 ==> s[i + a - 1] == Newline)
  {
    var a := |P3Text(px[..m])|;
    assert px == px[..m] + px[m..];
    P3TextAppend(px[..m], px[m..]);
    PieceAt(s, i, P3Text(px[..m]), P3Text(px[m..]), i + a);
    assert px[m..][0] == px[m] && px[m..][1..] == px[m + 1..];
    if m > 0 {
      assert s[i + a - 1] == s[i..i + a][a - 1];
    }
  }

  /** Pixel `m` of a written text reads back from where the scan of the
      pixels before it stopped. */
  lemma PixelRead(s: seq<Byte>, i: nat, px: seq<Pixel>, m: nat)
    requires i <= |s| && s[i..] == P3Text(px) && m < |px|
    ensures P3Resume(i, px, m) <= |s|
    ensures ScanTriple(s, P3Resume(i, px, m))
            == Some((px[m].r as int, px[m].g as int, px[m].b as int, P3Resume(i, px, m + 1)))
  {
    var p := px[m];
    var k := i + |P3Text(px[..m])|;
    var k1 := k + |Decimal(p.r)|;
    var k2 := k1 + 1 + |Decimal(p.g)|;
    var k3 := k2 + 1 + |Decimal(p.b)|;
    PixelPieces(s, i, px, m, k, k1, k2, k3);
    ResumeAt(i, px, m, k, k3);
    var spaces := if m > 0 then 1 else 0;
    PixelLineScan(s, k - spaces, spaces, p, k1, k2, k3);
  }

  /** Where the scan stands before and after the line of pixel `m`. */
  lemma ResumeAt(i: nat, px: seq<Pixel>, m: nat, k: nat, k3: nat)
    requires m < |px| && k == i + |P3Text(px[..m])|
    requires k3 == k + |Decimal(px[m].r)| + 1 + |Decimal(px[m].g)| + 1 + |Decimal(px[m].b)|
    ensures P3Resume(i, px, m + 1) == k3
    ensures P3Resume(i, px, m) == if m > 0 then k - 1 else k
  {
    P3TextNext(px, m);
  }

  /** The pieces of the line of pixel `m` in a written text at `i`, and
      the newline in front of it when it is not the first. */
  lemma PixelPieces(s: seq<Byte>, i: nat, px: seq<Pixel>, m: nat, k: nat, k1: nat, k2: nat, k3: nat)
    requires i <= |s| && s[i..] == P3Text(px) && m < |px|
    requires k == i + |P3Text(px[..m])| && k1 == k + |Decimal(px[m].r)|
    requires k2 == k1 + 1 + |Decimal(px[m].g)| && k3 == k2 + 1 + |Decimal(px[m].b)|
    ensures k3 < |s| && (m > 0 ==> 0 < k && s[k - 1] == Newline)
    ensures s[k..k1] == Decimal(px[m].r) && s[k1] == Space
    ensures s[k1 + 1..k2] == Decimal(px[m].g) && s[k2] == Space
    ensures s[k2 + 1..k3] == Decimal(px[m].b) && s[k3] == Newline
  {
    P3TextLine(s, i, px, m);
    PixelLineLayout(s, k, px[m], P3Text(px[m + 1..]), k1, k2, k3);
  }

  /** The text of the first `m + 1` pixels is one line longer than that of
      the first `m`. */
  lemma P3TextNext(px: seq<Pixel>, m: nat)
    requires m < |px|
    ensures |P3Text(px[..m + 1])|
            == |P3Text(px[..m])| + |PixelLine(px[m])|
  {
    var p := px[m];
    assert px[..m + 1] == px[..m] + [p];
    P3TextAppend(px[..m], [p]);
    assert [p][1..] == [];
  }

  /** Every pixel `m` reads back from position `pos[m]`, and its scan
      stops at `pos[m + 1]`. */
  predicate LinesRead(s: seq<Byte>, px: seq<Pixel>, pos: seq<nat>)
  {
    && |pos| == |px| + 1
    && (forall m :: 0 <= m <= |px| ==> pos[m] <= |s|)
    && forall m :: 0 <= m < |px| ==>
         ScanTriple(s, pos[m]) == Some((px[m].r as int, px[m].g as int, px[m].b as int, pos[m + 1]))
  }

  /** The positions where `read_p3` stands between the lines of a text
      written at `i`. */
  function Resumes(i: nat, px: seq<Pixel>): (pos: seq<nat>)
    ensures |pos| == |px| + 1 && forall m :: 0 <= m <= |px| ==> pos[m] == P3Resume(i, px, m)
  {
    seq(|px| + 1, m requires 0 <= m <= |px| => P3Resume(i, px, m))
  }

  /** A written text has all its lines readable. */
  lemma TextLinesRead(s: seq<Byte>, i: nat, px: seq<Pixel>)
    requires i <= |s| && s[i..] == P3Text(px)
    ensures LinesRead(s, px, Resumes(i, px))
  {
    var pos := Resumes(i, px);
    forall m | 0 <= m < |px|
      ensures pos[m] <= |s|
      ensures ScanTriple(s, pos[m]) == Some((px[m].r as int, px[m].g as int, px[m].b as int, pos[m + 1]))
    {
      PixelRead(s, i, px, m);
    }
    assert pos[|px|] <= |s| by {
      if |px| > 0 {
        PixelRead(s, i, px, |px| - 1);
      }
    }
  }

  /** `read_p3` over a text whose lines are readable reads back its
      pixels one by one, when every one of them is opaque. */
  lemma {:induction false} P3ScanText(s: seq<Byte>, w: nat, y: nat, x: nat, n: nat, px: seq<Pixel>, pos: seq<nat>)
    requires LinesRead(s, px, pos) && pos[0] <= |s| && x <= w && n == y * w + x && n <= |px|
    requires forall k :: 0 <= k < |px| ==> px[k].a == 255
    ensures P3Scan(s, pos[0], w, y, x) == Success((FirstPixels(px, n), pos[n]))
    decreases y, x
  {
    if x > 0 {
      P3ScanText(s, w, y, x - 1, n - 1, px, pos);
      PixelScanned(s, pos[0], w, y, x, FirstPixels(px, n - 1), pos[n - 1], px[n - 1], pos[n]);
    } else if y > 0 {
      assert (y - 1) * w + w == y * w;
      P3ScanText(s, w, y - 1, w, n, px, pos);
    }
  }

  /** The first `n` pixels, taken one at a time as `read_p3` stores them. */
  function FirstPixels(px: seq<Pixel>, n: nat): (f: seq<Pixel>)
    requires n <= |px|
    ensures f == px[..n]
  {
    if n == 0 then [] else FirstPixels(px, n - 1) + [px[n - 1]]
  }

  /** A pixel line that reads back as an opaque pixel `p` extends the
      pixels scanned before it by `p`. */
  lemma PixelScanned(s: seq<Byte>, i: nat, w: nat, y: nat, x: nat, done: seq<Pixel>, j: nat, p: Pixel, e: nat)
    requires i <= |s| && 0 < x <= w && j <= |s| && p.a == 255
    requires P3Scan(s, i, w, y, x - 1) == Success((done, j))
    requires ScanTriple(s, j) == Some((p.r as int, p.g as int, p.b as int, e))
    ensures P3Scan(s, i, w, y, x) == Success((done + [p], e))
  {
    assert TextPixel(p.r, p.g, p.b) == p;
  }

  /** A P3 file written from a picture whose pixels are all opaque decodes
      to that picture, when `image_create` gets its memory. */
  lemma P3RoundTrip(w: nat, h: nat, px: seq<Pixel>)
    requires |px| == w * h
    requires forall k :: 0 <= k < |px| ==> px[k].a == 255
    ensures DecodePpm(P3File(w, h, px), true, true) == Success(Picture(w, h, px))
  {
    var s := P3File(w, h, px);
    var i := DataStart(w, h);
    WrittenHeader(false, w, h, P3Text(px));
    TextLinesRead(s, i, px);
    P3DataScan(s, w, h, px, Resumes(i, px));
  }

  /** Pixel text whose lines all read back is read back whole. */
  lemma P3DataScan(s: seq<Byte>, w: nat, h: nat, px: seq<Pixel>, pos: seq<nat>)
    requires LinesRead(s, px, pos) && pos[0] <= |s| && |px| == w * h
    requires forall k :: 0 <= k < |px| ==> px[k].a == 255
    ensures P3Scan(s, pos[0], w, h, 0).Success? && P3Scan(s, pos[0], w, h, 0).value.0 == px
  {
    P3ScanText(s, w, h, 0, h * w, px, pos);
    assert FirstPixels(px, h * w) == px;
  }
}
