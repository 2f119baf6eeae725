/** Properties of the PNG model: the big-endian readers against an
    encoder, the Paeth predictor's choice, the scanline filters against the
    encoder's side of section 6 of RFC 2083, and the chunk walk against a
    chunk stream written out byte by byte. */
module PngProps {
  import opened Common
  import opened PngSpec
  import PixelBuffer

  /** The four bytes of a 32-bit value, most significant first. */
  function U32Bytes(n: nat): (p: seq<Byte>)
    requires n < TwoTo32
    ensures |p| == 4
  {
    [n / 0x100_0000, n / 0x1_0000 % 0x100, n / 0x100 % 0x100, n % 0x100]
  }

  /** The two bytes of a 16-bit value, most significant first. */
  function U16Bytes(n: nat): (p: seq<Byte>)
    requires n < 0x1_0000
    ensures |p| == 2
  {
    [n / 0x100, n % 0x100]
  }

  /** `be32` reads back every 32-bit value written most significant byte
      first ... */
  lemma Be32OfBytes(n: nat)
    requires n < TwoTo32
    ensures Be32(U32Bytes(n)) == n
  {
    var p := U32Bytes(n);
    var q3 := n / 0x100;
    var q2 := q3 / 0x100;
    assert n == q3 * 0x100 + p[3];
    assert q3 == q2 * 0x100 + p[2];
    assert q2 == (p[0] as int) * 0x100 + p[1] by {
      assert q2 == n / 0x1_0000;
      assert n / 0x1_0000 / 0x100 == n / 0x100_0000;
    }
  }

  /** ... and every four bytes are the encoding of the value `be32` gives
      them: the byte order is big-endian. */
  lemma BytesOfBe32(p: seq<Byte>)
    requires |p| == 4
    ensures U32Bytes(Be32(p)) == p
  {
    var n := Be32(p);
    var rest2 := (p[2] as int) * 0x100 + p[3];
    var hi := (p[0] as int) * 0x100 + p[1];
    DivExact(n, 0x100, (p[0] as int) * 0x1_0000 + (p[1] as int) * 0x100 + p[2], p[3]);
    DivExact(n, 0x1_0000, hi, rest2);
    DivExact(hi, 0x100, p[0], p[1]);
    DivExact((p[0] as int) * 0x1_0000 + (p[1] as int) * 0x100 + p[2], 0x100, hi, p[2]);
  }

  /** Euclidean division is determined by its quotient and remainder. */
  lemma DivExact(n: int, d: int, q: int, r: int)
    requires (d == 0x100 || d == 0x1_0000) && 0 <= r < d && n == q * d + r
    ensures n / d == q && n % d == r
  {
    if d == 0x100 {
      assert n == q * 0x100 + r;
    } else {
      assert n == q * 0x1_0000 + r;
    }
  }

  lemma Be16OfBytes(n: nat)
    requires n < 0x1_0000
    ensures Be16(U16Bytes(n)) == n
  {
  }

  lemma BytesOfBe16(p: seq<Byte>)
    requires |p| == 2
    ensures U16Bytes(Be16(p)) == p
  {
  }

  /** The worked example of the predictor: p = 15 is nearest to c. */
  lemma PaethExample()
    ensures Paeth(10, 20, 15) == 15
    ensures Paeth(0, 0, 0) == 0
  {
  }

  /** The Average filter rounds down: 3 and 4 predict 3. */
  lemma AverageFloors()
    ensures Predictor(3, 3, 4, 0) == 3
  {
  }

  /** The encoder's side of a filter: each byte of `row` minus the
      prediction from the original bytes to its left and the row above,
      modulo 256. */
  function Filter(filter: Byte, row: seq<Byte>, prev: seq<Byte>, bpp: nat): (src: seq<Byte>)
    requires filter <= 4 && |row| == |prev|
    ensures |src| == |row|
  {
    seq(|row|, i requires 0 <= i < |row| =>
      (row[i] - Predictor(filter, Left(row, i, bpp), prev[i], Left(prev, i, bpp))) % 256)
  }

  /** The left neighbour only looks back, so a prefix of a row has the
      same left neighbours as the row itself. */
  lemma LeftOfPrefix(row: seq<Byte>, i: nat, bpp: nat)
    requires i < |row| && bpp >= 1
    ensures Left(row[..i], i, bpp) == Left(row, i, bpp)
  {
  }

  /** Defiltering undoes filtering, byte by byte from the left. */
  lemma {:induction false} UnfilterFilterPrefix(filter: Byte, row: seq<Byte>, prev: seq<Byte>, bpp: nat, n: nat)
    requires filter <= 4 && n <= |row| == |prev| && (n == 0 || bpp >= 1)
    ensures Unfilter(filter, Filter(filter, row, prev, bpp), prev, bpp, n) == row[..n]
    decreases n
  {
    if n > 0 {
      var i := n - 1;
      UnfilterFilterPrefix(filter, row, prev, bpp, i);
      LeftOfPrefix(row, i, bpp);
      var a, c := Left(row, i, bpp), Left(prev, i, bpp);
      assert Filter(filter, row, prev, bpp)[i] == ((row[i] as int) - Predictor(filter, a, prev[i], c)) % 256;
      ReconOfFiltered(filter, row[i], a, prev[i], c);
      assert row[..n] == row[..i] + [row[i]];
    }
  }

  /** One byte filtered, then defiltered against the same neighbours. */
  lemma ReconOfFiltered(filter: Byte, x: Byte, a: Byte, b: Byte, c: Byte)
    requires filter <= 4
    ensures Recon(filter, ((x as int) - Predictor(filter, a, b, c)) % 256, a, b, c) == x
  {
    AddBack(x, Predictor(filter, a, b, c));
  }

  /** Adding the prediction back undoes subtracting it, modulo 256. */
  lemma AddBack(x: Byte, p: Byte)
    ensures ((x - p) % 256 + p) % 256 == x
  {
    if x >= p {
      assert (x - p) % 256 == x - p;
    } else {
      assert (x - p) % 256 == x - p + 256;
    }
  }

  /** Subtracting the prediction undoes adding it, modulo 256. */
  lemma TakeBack(x: Byte, p: Byte)
    ensures ((x + p) % 256 - p) % 256 == x
  {
    if x + p < 256 {
      assert (x + p) % 256 == x + p;
    } else {
      assert (x + p) % 256 == x + p - 256;
    }
  }

  /** Any row filtered with any of the five filters comes back unchanged
      from the defilter of png.c:139-151, on the first row and on later
      ones; for the Sub filter, this is re-deriving the filtered bytes by
      subtracting `a`. */
  lemma FilterRoundTrip(filter: Byte, row: seq<Byte>, prev: seq<Byte>, bpp: nat, first: bool)
    requires filter <= 4 && |row| == |prev| && (|row| == 0 || bpp >= 1)
    ensures DefilterRow(filter, Filter(filter, row, prev, bpp), prev, bpp, first) == Success(row)
  {
    UnfilterFilterPrefix(filter, row, prev, bpp, |row|);
    assert row[..|row|] == row;
  }

  /** The first `m` bytes defiltered do not depend on the bytes after
      them. */
  lemma {:induction false} UnfilterPrefixStable(filter: Byte, src: seq<Byte>, prev: seq<Byte>, bpp: nat, m: nat, n: nat)
    requires filter <= 4 && m <= n <= |src| == |prev| && (n == 0 || bpp >= 1)
    ensures Unfilter(filter, src, prev, bpp, n)[..m] == Unfilter(filter, src, prev, bpp, m)
    decreases n
  {
    if m < n {
      UnfilterPrefixStable(filter, src, prev, bpp, m, n - 1);
      var u := Unfilter(filter, src, prev, bpp, n);
      assert u[..n - 1] == Unfilter(filter, src, prev, bpp, n - 1);
      assert u[..m] == u[..n - 1][..m];
    }
  }

  /** Byte `i` of a defiltered row, filtered again, is the filtered byte
      it came from. */
  lemma FilterUnfilterAt(filter: Byte, src: seq<Byte>, prev: seq<Byte>, bpp: nat, i: nat)
    requires filter <= 4 && i < |src| == |prev| && bpp >= 1
    ensures Filter(filter, Unfilter(filter, src, prev, bpp, |src|), prev, bpp)[i] == src[i]
  {
    var row := Unfilter(filter, src, prev, bpp, |src|);
    UnfilterPrefixStable(filter, src, prev, bpp, i + 1, |src|);
    UnfilterPrefixStable(filter, src, prev, bpp, i, |src|);
    var done := Unfilter(filter, src, prev, bpp, i);
    assert row[..i + 1] == Unfilter(filter, src, prev, bpp, i + 1);
    assert row[i] == row[..i + 1][i];
    assert done == row[..i];
    LeftOfPrefix(row, i, bpp);
    var pred := Predictor(filter, Left(row, i, bpp), prev[i], Left(prev, i, bpp));
    assert row[i] == ((src[i] as int) + pred) % 256;
    TakeBack(src[i], pred);
  }

  /** The other direction: filtering a defiltered row gives back the
      filtered bytes, so each filter is a bijection on rows. */
  lemma FilterUnfilter(filter: Byte, src: seq<Byte>, prev: seq<Byte>, bpp: nat)
    requires filter <= 4 && |src| == |prev| && (|src| == 0 || bpp >= 1)
    ensures Filter(filter, Unfilter(filter, src, prev, bpp, |src|), prev, bpp) == src
  {
    var f := Filter(filter, Unfilter(filter, src, prev, bpp, |src|), prev, bpp);
    forall i | 0 <= i < |src|
      ensures f[i] == src[i]
    {
      FilterUnfilterAt(filter, src, prev, bpp, i);
    }
  }

  /** Filter type 0 stores the bytes as they are. */
  lemma {:induction false} UnfilterNone(src: seq<Byte>, prev: seq<Byte>, bpp: nat, n: nat)
    requires n <= |src| == |prev| && (n == 0 || bpp >= 1)
    ensures Unfilter(0, src, prev, bpp, n) == src[..n]
    decreases n
  {
    if n > 0 {
      UnfilterNone(src, prev, bpp, n - 1);
      assert src[..n] == src[..n - 1] + [src[n - 1]];
    }
  }

  /** A chunk as section 3.2 of RFC 2083 stores it, with whatever the four
      CRC bytes hold: the decoder skips them. */
  datatype Chunk = Chunk(typ: nat, payload: seq<Byte>, crc: seq<Byte>)

  predicate WellFormed(c: Chunk)
  {
    c.typ < TwoTo32 && |c.payload| < TwoTo32 && |c.crc| == 4
  }

  /** Length, type, payload and CRC, the length and type big-endian. */
  function EncodeChunk(c: Chunk): (s: seq<Byte>)
    requires WellFormed(c)
    ensures |s| == 12 + |c.payload|
  {
    U32Bytes(|c.payload|) + U32Bytes(c.typ) + c.payload + c.crc
  }

  function EncodeChunks(cs: seq<Chunk>): (s: seq<Byte>)
    requires forall k :: 0 <= k < |cs| ==> WellFormed(cs[k])
  {
    if cs == [] then [] else EncodeChunk(cs[0]) + EncodeChunks(cs[1..])
  }

  /** The effect of a list of chunks, none of them IEND, on the loop's
      variables: each one applied in file order. */
  function ApplyAll(st: ChunkState, cs: seq<Chunk>): (r: Result<ChunkState, PngError>)
    ensures r.Success? && st.width < TwoTo32 && st.height < TwoTo32 ==>
              r.value.width < TwoTo32 && r.value.height < TwoTo32
    decreases |cs|
  {
    if cs == [] then Success(st)
    else
      var st' :- ApplyChunk(st, cs[0].typ, cs[0].payload);
      ApplyAll(st', cs[1..])
  }

  /** The payloads of the IDAT chunks among `cs`, in order. */
  function IdatOf(cs: seq<Chunk>): seq<Byte>
    decreases |cs|
  {
    if cs == [] then []
    else (if cs[0].typ == ChunkIDAT then cs[0].payload else []) + IdatOf(cs[1..])
  }

  /** The chunk loop reads an encoded chunk back: its type, its payload and
      the position just past its CRC. */
  lemma ChunkAtEncoded(s: seq<Byte>, pos: nat, c: Chunk)
    requires WellFormed(c) && pos + 12 + |c.payload| <= |s|
    requires s[pos..pos + 12 + |c.payload|] == EncodeChunk(c)
    ensures ChunkAt(s, pos) == Success((c.typ, c.payload, pos + 12 + |c.payload|))
  {
    var e := EncodeChunk(c);
    var len := |c.payload|;
    var t := s[pos..pos + 12 + len];
    assert s[pos..pos + 4] == t[..4];
    assert s[pos + 4..pos + 8] == t[4..8];
    assert s[pos + 8..pos + 8 + len] == t[8..8 + len];
    assert e[..4] == U32Bytes(len);
    assert e[4..8] == U32Bytes(c.typ);
    assert e[8..8 + len] == c.payload;
    Be32OfBytes(len);
    Be32OfBytes(c.typ);
  }

  /** IEND ends the walk, whatever follows it. */
  lemma WalkEnd(pre: seq<Byte>, end: Chunk, rest: seq<Byte>, st: ChunkState)
    requires WellFormed(end) && end.typ == ChunkIEND
    requires st.width < TwoTo32 && st.height < TwoTo32
    ensures WalkChunks(pre + EncodeChunk(end) + rest, |pre|, st).Success?
    ensures WalkChunks(pre + EncodeChunk(end) + rest, |pre|, st).value == st
  {
    var e := EncodeChunk(end);
    var s := pre + e + rest;
    assert s[|pre|..|pre| + |e|] == e;
    ChunkAtEncoded(s, |pre|, end);
    WalkStops(s, |pre|, st);
  }

  /** The walk stops with the state it has at a chunk whose type is IEND. */
  lemma WalkStops(s: seq<Byte>, pos: nat, st: ChunkState)
    requires pos <= |s| && st.width < TwoTo32 && st.height < TwoTo32
    requires ChunkAt(s, pos).Success? && ChunkAt(s, pos).value.0 == ChunkIEND
    ensures WalkChunks(s, pos, st) == Success(st)
  {
  }

  /** One step of the walk over an encoded chunk that is not IEND: the
      chunk is applied and the walk goes on after its CRC. */
  lemma WalkStep(s: seq<Byte>, pos: nat, c: Chunk, st: ChunkState)
    requires WellFormed(c) && c.typ != ChunkIEND
    requires st.width < TwoTo32 && st.height < TwoTo32
    requires pos + 12 + |c.payload| <= |s| && s[pos..pos + 12 + |c.payload|] == EncodeChunk(c)
    ensures ApplyChunk(st, c.typ, c.payload).Failure? ==>
              WalkChunks(s, pos, st) == Failure(ApplyChunk(st, c.typ, c.payload).error)
    ensures ApplyChunk(st, c.typ, c.payload).Success? ==>
              WalkChunks(s, pos, st) == WalkChunks(s, pos + 12 + |c.payload|, ApplyChunk(st, c.typ, c.payload).value)
  {
    ChunkAtEncoded(s, pos, c);
  }

  /** `WalkStep` with the walk after the chunk over an equal sequence. */
  lemma WalkShift(s: seq<Byte>, s': seq<Byte>, pos: nat, pos': nat, c: Chunk, st: ChunkState)
    requires WellFormed(c) && c.typ != ChunkIEND
    requires st.width < TwoTo32 && st.height < TwoTo32
    requires s == s' && pos' == pos + 12 + |c.payload| <= |s| && s[pos..pos'] == EncodeChunk(c)
    ensures ApplyChunk(st, c.typ, c.payload).Failure? ==>
              WalkChunks(s, pos, st) == Failure(ApplyChunk(st, c.typ, c.payload).error)
    ensures ApplyChunk(st, c.typ, c.payload).Success? ==>
              WalkChunks(s, pos, st) == WalkChunks(s', pos', ApplyChunk(st, c.typ, c.payload).value)
  {
    WalkStep(s, pos, c, st);
  }

  /** The chunk walk of png.c:56-98 over a stream of well-formed chunks
      ending in IEND is `ApplyAll` of the chunks before IEND; whatever
      follows IEND is never read. */
  lemma {:induction false} WalkEncoded(pre: seq<Byte>, cs: seq<Chunk>, end: Chunk, rest: seq<Byte>, st: ChunkState)
    requires forall k :: 0 <= k < |cs| ==> WellFormed(cs[k]) && cs[k].typ != ChunkIEND
    requires WellFormed(end) && end.typ == ChunkIEND
    requires st.width < TwoTo32 && st.height < TwoTo32
    ensures |pre| <= |pre + EncodeChunks(cs) + EncodeChunk(end) + rest|
    ensures WalkChunks(pre + EncodeChunks(cs) + EncodeChunk(end) + rest, |pre|, st) == ApplyAll(st, cs)
    decreases |cs|
  {
    if cs == [] {
      assert pre + EncodeChunks(cs) == pre;
      WalkEnd(pre, end, rest, st);
      assert WalkChunks(pre + EncodeChunk(end) + rest, |pre|, st) == Success(st);
    } else {
      WalkFirst(pre, cs, end, rest, st);
      match ApplyChunk(st, cs[0].typ, cs[0].payload)
      case Failure(e) =>
        assert ApplyAll(st, cs) == Failure(e);
      case Success(st') =>
        WalkEncoded(pre + EncodeChunk(cs[0]), cs[1..], end, rest, st');
        assert ApplyAll(st, cs) == ApplyAll(st', cs[1..]);
    }
  }

  /** The walk over a non-empty list applies its first chunk, then walks
      the rest of the list from just after that chunk. */
  lemma WalkFirst(pre: seq<Byte>, cs: seq<Chunk>, end: Chunk, rest: seq<Byte>, st: ChunkState)
    requires forall k :: 0 <= k < |cs| ==> WellFormed(cs[k])
    requires WellFormed(end) && cs != [] && cs[0].typ != ChunkIEND
    requires st.width < TwoTo32 && st.height < TwoTo32
    ensures ApplyChunk(st, cs[0].typ, cs[0].payload).Failure? ==>
              && WalkChunks(pre + EncodeChunks(cs) + EncodeChunk(end) + rest, |pre|, st)
                 == Failure(ApplyChunk(st, cs[0].typ, cs[0].payload).error)
              && ApplyAll(st, cs) == Failure(ApplyChunk(st, cs[0].typ, cs[0].payload).error)
    ensures ApplyChunk(st, cs[0].typ, cs[0].payload).Success? ==>
              var st' := ApplyChunk(st, cs[0].typ, cs[0].payload).value;
              var pre' := pre + EncodeChunk(cs[0]);
              && WalkChunks(pre + EncodeChunks(cs) + EncodeChunk(end) + rest, |pre|, st)
                 == WalkChunks(pre' + EncodeChunks(cs[1..]) + EncodeChunk(end) + rest, |pre'|, st')
              && ApplyAll(st, cs) == ApplyAll(st', cs[1..])
  {
    var c := cs[0];
    var s := pre + EncodeChunks(cs) + EncodeChunk(end) + rest;
    var pre' := pre + EncodeChunk(c);
    var s' := pre' + EncodeChunks(cs[1..]) + EncodeChunk(end) + rest;
    FirstChunk(pre, cs, end, rest);
    WalkShift(s, s', |pre|, |pre'|, c, st);
  }

  /** The first chunk of an encoded list sits right after `pre`, and the
      remaining chunks right after it. */
  lemma FirstChunk(pre: seq<Byte>, cs: seq<Chunk>, end: Chunk, rest: seq<Byte>)
    requires forall k :: 0 <= k < |cs| ==> WellFormed(cs[k])
    requires WellFormed(end) && cs != []
    ensures pre + EncodeChunks(cs) + EncodeChunk(end) + rest
            == pre + EncodeChunk(cs[0]) + EncodeChunks(cs[1..]) + EncodeChunk(end) + rest
    ensures |pre| + 12 + |cs[0].payload| <= |pre + EncodeChunks(cs) + EncodeChunk(end) + rest|
    ensures (pre + EncodeChunks(cs) + EncodeChunk(end) + rest)[|pre|..|pre| + 12 + |cs[0].payload|]
            == EncodeChunk(cs[0])
  {
    assert EncodeChunks(cs) == EncodeChunk(cs[0]) + EncodeChunks(cs[1..]);
    Regroup(pre, EncodeChunk(cs[0]), EncodeChunks(cs[1..]), EncodeChunk(end), rest);
  }

  lemma Regroup<T>(pre: seq<T>, a: seq<T>, b: seq<T>, c: seq<T>, d: seq<T>)
    ensures pre + (a + b) + c + d == pre + a + b + c + d
    ensures |pre| + |a| <= |pre + (a + b) + c + d|
    ensures (pre + (a + b) + c + d)[|pre|..|pre| + |a|] == a
  {
    var s := pre + (a + b) + c + d;
    assert forall k :: 0 <= k < |a| ==> s[|pre|..|pre| + |a|][k] == a[k];
  }

  /** A whole file: the signature, the chunks, IEND and anything after it
      decodes as the chunks' effect, then the image. */
  function EncodePng(cs: seq<Chunk>, end: Chunk, rest: seq<Byte>): seq<Byte>
    requires forall k :: 0 <= k < |cs| ==> WellFormed(cs[k])
    requires WellFormed(end)
  {
    Signature + EncodeChunks(cs) + EncodeChunk(end) + rest
  }

  /** A file that starts with the signature passes the check of
      png.c:41-45. */
  lemma SignatureFirst(body: seq<Byte>)
    ensures |Signature + body| >= 8 && (Signature + body)[..8] == Signature
  {
  }

  /** The chunk loop over an encoded file starts after the signature and
      ends with the chunks' effect. */
  lemma WalkFile(cs: seq<Chunk>, end: Chunk, rest: seq<Byte>)
    requires forall k :: 0 <= k < |cs| ==> WellFormed(cs[k]) && cs[k].typ != ChunkIEND
    requires WellFormed(end) && end.typ == ChunkIEND
    ensures |EncodePng(cs, end, rest)| >= 8 && EncodePng(cs, end, rest)[..8] == Signature
    ensures WalkChunks(EncodePng(cs, end, rest), 8, Initial) == ApplyAll(Initial, cs)
  {
    var body := EncodeChunks(cs) + EncodeChunk(end) + rest;
    SignatureFirst(body);
    assert EncodePng(cs, end, rest) == Signature + body;
    WalkEncoded(Signature, cs, end, rest, Initial);
  }

  lemma DecodeEncoded(cs: seq<Chunk>, end: Chunk, rest: seq<Byte>,
                      inflate: (seq<Byte>, nat) -> Inflated, dataOk: bool, rowsOk: bool)
    requires forall k :: 0 <= k < |cs| ==> WellFormed(cs[k]) && cs[k].typ != ChunkIEND
    requires WellFormed(end) && end.typ == ChunkIEND
    ensures DecodePng(EncodePng(cs, end, rest), inflate, dataOk, rowsOk)
            == match ApplyAll(Initial, cs)
               case Failure(e) => Failure(e)
               case Success(st) => DecodeImage(st, inflate, dataOk, rowsOk)
  {
    WalkFile(cs, end, rest);
  }

  /** Applying chunks one list after another is applying the two lists in
      turn. */
  lemma {:induction false} ApplyAllAppend(st: ChunkState, xs: seq<Chunk>, ys: seq<Chunk>)
    ensures ApplyAll(st, xs + ys)
            == match ApplyAll(st, xs)
               case Failure(e) => Failure(e)
               case Success(st') => ApplyAll(st', ys)
    decreases |xs|
  {
    if xs == [] {
      assert xs + ys == ys;
    } else {
      assert (xs + ys)[0] == xs[0];
      assert (xs + ys)[1..] == xs[1..] + ys;
      match ApplyChunk(st, xs[0].typ, xs[0].payload)
      case Failure(_) =>
      case Success(st') =>
        ApplyAllAppend(st', xs[1..], ys);
    }
  }

  /** png.c:85-92: after the loop, the IDAT buffer holds the payloads of
      all IDAT chunks in file order, after what it held before. */
  lemma {:induction false} IdatConcatenated(st: ChunkState, cs: seq<Chunk>)
    requires ApplyAll(st, cs).Success?
    ensures ApplyAll(st, cs).value.idat == st.idat + IdatOf(cs)
    decreases |cs|
  {
    if cs != [] {
      var st' := ApplyChunk(st, cs[0].typ, cs[0].payload).value;
      IdatConcatenated(st', cs[1..]);
      if cs[0].typ == ChunkIDAT {
        assert st'.idat == st.idat + cs[0].payload;
      }
    }
  }

  /** One IDAT chunk has the effect of two that hold its bytes in the
      same order. */
  lemma IdatPieces(st: ChunkState, a: seq<Byte>, b: seq<Byte>, k0: seq<Byte>, k1: seq<Byte>, k2: seq<Byte>)
    ensures ApplyAll(st, [Chunk(ChunkIDAT, a + b, k0)])
            == ApplyAll(st, [Chunk(ChunkIDAT, a, k1), Chunk(ChunkIDAT, b, k2)])
  {
    var two := [Chunk(ChunkIDAT, a, k1), Chunk(ChunkIDAT, b, k2)];
    assert two[1..] == [two[1]];
    assert [Chunk(ChunkIDAT, a + b, k0)][1..] == [];
    assert two[1..][1..] == [];
    assert st.idat + a + b == st.idat + (a + b);
  }

  /** The same between any chunks before and after. */
  lemma IdatSplitChunks(before: seq<Chunk>, a: seq<Byte>, b: seq<Byte>, k0: seq<Byte>, k1: seq<Byte>, k2: seq<Byte>,
                        after: seq<Chunk>)
    ensures ApplyAll(Initial, before + [Chunk(ChunkIDAT, a + b, k0)] + after)
            == ApplyAll(Initial, before + [Chunk(ChunkIDAT, a, k1), Chunk(ChunkIDAT, b, k2)] + after)
  {
    var one := [Chunk(ChunkIDAT, a + b, k0)];
    var two := [Chunk(ChunkIDAT, a, k1), Chunk(ChunkIDAT, b, k2)];
    ApplyAllAppend(Initial, before + one, after);
    ApplyAllAppend(Initial, before, one);
    ApplyAllAppend(Initial, before + two, after);
    ApplyAllAppend(Initial, before, two);
    match ApplyAll(Initial, before)
    case Failure(_) =>
    case Success(st) =>
      IdatPieces(st, a, b, k0, k1, k2);
  }

  /** Where the IDAT data is cut into chunks does not matter: one IDAT
      chunk and two holding the same bytes in the same order decode to the
      same image, whatever their CRC bytes. */
  lemma IdatSplit(before: seq<Chunk>, a: seq<Byte>, b: seq<Byte>, crcs: seq<seq<Byte>>, after: seq<Chunk>,
                  end: Chunk, rest: seq<Byte>, inflate: (seq<Byte>, nat) -> Inflated, dataOk: bool, rowsOk: bool)
    requires forall k :: 0 <= k < |before| ==> WellFormed(before[k]) && before[k].typ != ChunkIEND
    requires forall k :: 0 <= k < |after| ==> WellFormed(after[k]) && after[k].typ != ChunkIEND
    requires |a| + |b| < TwoTo32 && |crcs| == 3 && |crcs[0]| == |crcs[1]| == |crcs[2]| == 4
    requires WellFormed(end) && end.typ == ChunkIEND
    ensures var whole := before + [Chunk(ChunkIDAT, a + b, crcs[0])] + after;
            var split := before + [Chunk(ChunkIDAT, a, crcs[1]), Chunk(ChunkIDAT, b, crcs[2])] + after;
            DecodePng(EncodePng(whole, end, rest), inflate, dataOk, rowsOk)
            == DecodePng(EncodePng(split, end, rest), inflate, dataOk, rowsOk)
  {
    var whole := before + [Chunk(ChunkIDAT, a + b, crcs[0])] + after;
    var split := before + [Chunk(ChunkIDAT, a, crcs[1]), Chunk(ChunkIDAT, b, crcs[2])] + after;
    DecodeEncoded(whole, end, rest, inflate, dataOk, rowsOk);
    DecodeEncoded(split, end, rest, inflate, dataOk, rowsOk);
    IdatSplitChunks(before, a, b, crcs[0], crcs[1], crcs[2], after);
  }

  /** An interlaced image is refused as soon as its IHDR chunk is read,
      whatever follows it. */
  lemma InterlacedRefused(ihdr: Chunk, rest: seq<Byte>, inflate: (seq<Byte>, nat) -> Inflated, dataOk: bool, rowsOk: bool)
    requires WellFormed(ihdr) && ihdr.typ == ChunkIHDR
    requires |ihdr.payload| >= 13 && ihdr.payload[12] != 0
    ensures DecodePng(Signature + EncodeChunk(ihdr) + rest, inflate, dataOk, rowsOk) == Failure(Interlaced)
  {
    var s := Signature + EncodeChunk(ihdr) + rest;
    assert s[..8] == Signature;
    assert s[8..8 + 12 + |ihdr.payload|] == EncodeChunk(ihdr);
    ChunkAtEncoded(s, 8, ihdr);
  }

  /** The IHDR payload of an image: width and height big-endian at offsets
      0 and 4, bit depth, colour type, compression, filter method and
      interlace method. */
  function IhdrPayload(width: nat, height: nat, bitDepth: Byte, colorType: Byte): (p: seq<Byte>)
    requires width < TwoTo32 && height < TwoTo32
    ensures |p| == 13 && p[12] == 0
  {
    U32Bytes(width) + U32Bytes(height) + [bitDepth, colorType, 0, 0, 0]
  }

  /** The IHDR fields land in the loop's variables unchanged. */
  lemma IhdrRead(st: ChunkState, width: nat, height: nat, bitDepth: Byte, colorType: Byte)
    requires width < TwoTo32 && height < TwoTo32
    ensures ApplyChunk(st, ChunkIHDR, IhdrPayload(width, height, bitDepth, colorType))
            == Success(st.(width := width, height := height, bitDepth := bitDepth, colorType := colorType))
  {
    var p := IhdrPayload(width, height, bitDepth, colorType);
    assert p[0..4] == U32Bytes(width);
    assert p[4..8] == U32Bytes(height);
    Be32OfBytes(width);
    Be32OfBytes(height);
  }

  /** The chunks of an RGBA image with 8-bit samples, `width` by `height`:
      its IHDR and one IDAT chunk holding `z`. */
  function RgbaChunks(width: nat, height: nat, z: seq<Byte>, crcs: seq<seq<Byte>>): (cs: seq<Chunk>)
    requires width < TwoTo32 && height < TwoTo32 && |crcs| == 3
  {
    [Chunk(ChunkIHDR, IhdrPayload(width, height, 8, 6), crcs[0]), Chunk(ChunkIDAT, z, crcs[1])]
  }

  lemma RgbaWalk(width: nat, height: nat, z: seq<Byte>, crcs: seq<seq<Byte>>)
    requires width < TwoTo32 && height < TwoTo32 && |crcs| == 3
    ensures ApplyAll(Initial, RgbaChunks(width, height, z, crcs))
            == Success(ChunkState(width, height, 8, 6, [], [], z))
  {
    var cs := RgbaChunks(width, height, z, crcs);
    IhdrRead(Initial, width, height, 8, 6);
    var st1 := ChunkState(width, height, 8, 6, [], [], []);
    assert ApplyChunk(Initial, cs[0].typ, cs[0].payload) == Success(st1);
    assert st1.idat + z == z;
    assert ApplyChunk(st1, cs[1].typ, cs[1].payload) == Success(st1.(idat := z));
    assert cs[1..] == [cs[1]];
    assert cs[1..][1..] == [];
    assert ApplyAll(st1.(idat := z), cs[1..][1..]) == Success(st1.(idat := z));
    assert ApplyAll(st1, cs[1..]) == Success(st1.(idat := z));
  }

  /** An RGBA layout with 8-bit samples: four bytes per pixel and per
      scanline four bytes for each pixel of the row. */
  predicate RgbaLayout(l: Layout)
  {
    l.colorType == 6 && l.scan == 4 * l.width && l.bpp == 4 && l.width < 0x4000_0000
  }

  /** Pixel `x` of scanline `y` as the inflated data of an RGBA image `w`
      pixels wide stores it: the four bytes that follow the filter byte and
      the `x` pixels before it. */
  function RawRgba(raw: seq<Byte>, w: nat, y: nat, x: nat): Pixel
    requires x < w && RowOffset(y, 4 * w) + 4 * w < |raw|
  {
    var o := RowOffset(y, 4 * w) + 1 + 4 * x;
    Pixel(raw[o], raw[o + 1], raw[o + 2], raw[o + 3])
  }

  /** Each of the first `h` scanlines is present in `raw` and has filter
      type 0 (None). */
  predicate NoneFiltered(raw: seq<Byte>, scan: nat, h: nat)
  {
    forall y :: 0 <= y < h ==> RowOffset(y, scan) + scan < |raw| && raw[RowOffset(y, scan)] == 0
  }

  /** Pixel `(x, y)` of a row-major grid `w` pixels wide and `h` high. */
  function PixelAt(px: seq<Pixel>, w: nat, h: nat, y: nat, x: nat): Pixel
    requires |px| == w * h && y < h && x < w
  {
    PixelBuffer.CellInBounds(w, h, x, y);
    px[y * w + x]
  }

  /** Appending a row of `w` pixels to a grid `y` rows high adds row `y`
      and keeps every cell above it. */
  lemma PixelAtAppend(px: seq<Pixel>, row: seq<Pixel>, w: nat, y: nat, y': nat, x: nat)
    requires |px| == y * w && |row| == w && y' <= y && x < w
    ensures |px + row| == (y + 1) * w
    ensures PixelAt(px + row, w, y + 1, y', x) == if y' < y then PixelAt(px, w, y, y', x) else row[x]
  {
    if y' < y {
      PixelBuffer.CellInBounds(w, y, x, y');
    }
  }

  /** Every pixel of the `w` by `h` grid `px` is the one the scanlines of
      `raw` spell at its place. */
  predicate RgbaGrid(px: seq<Pixel>, raw: seq<Byte>, w: nat, h: nat)
    requires |px| == h * w && NoneFiltered(raw, 4 * w, h)
  {
    forall y, x :: 0 <= y < h && 0 <= x < w ==> PixelAt(px, w, h, y, x) == RawRgba(raw, w, y, x)
  }

  /** Appending row `y`, read off its scanline, to the first `y` rows of
      the grid gives the first `y + 1`. */
  lemma RgbaGridAppend(px: seq<Pixel>, row: seq<Pixel>, raw: seq<Byte>, w: nat, y: nat)
    requires NoneFiltered(raw, 4 * w, y + 1) && |px| == y * w && |row| == w
    requires RgbaGrid(px, raw, w, y)
    requires forall x :: 0 <= x < w ==> row[x] == RawRgba(raw, w, y, x)
    ensures |px + row| == (y + 1) * w && RgbaGrid(px + row, raw, w, y + 1)
  {
    forall y', x | 0 <= y' < y + 1 && 0 <= x < w
      ensures PixelAt(px + row, w, y + 1, y', x) == RawRgba(raw, w, y', x)
    {
      PixelAtAppend(px, row, w, y, y', x);
    }
  }

  /** An RGBA scanline with filter type 0 decodes to the pixels its bytes
      spell, whatever the row above holds. */
  lemma RgbaRow(raw: seq<Byte>, l: Layout, y: nat, prev: seq<Byte>)
    requires RgbaLayout(l) && |prev| == l.scan
    requires RowOffset(y, l.scan) + l.scan < |raw| && raw[RowOffset(y, l.scan)] == 0
    ensures DecodeRow(raw, l, y, prev).Success?
    ensures forall x :: 0 <= x < l.width ==> DecodeRow(raw, l, y, prev).value.1[x] == RawRgba(raw, l.width, y, x)
  {
    var start := RowOffset(y, l.scan);
    var src := raw[start + 1..start + 1 + l.scan];
    assert RowBytes(raw, l, y, prev) == Success(src) by {
      RowBytesValue(raw, l, y, prev);
      UnfilterNone(src, prev, 4, l.scan);
      assert src[..l.scan] == src;
    }
    forall x | 0 <= x < l.width
      ensures PixelOf(src, l, x) == Success(RawRgba(raw, l.width, y, x))
    {
      RgbaPixelOf(src, l, x);
    }
    RowPixelsSucceed(src, l, l.width);
    DecodeRowValue(raw, l, y, prev);
  }

  /** Pixel `x` of an RGBA row is its four bytes from offset `4 * x`. */
  lemma RgbaPixelOf(curr: seq<Byte>, l: Layout, x: nat)
    requires RgbaLayout(l) && 4 * x + 3 < |curr| && x < l.width
    ensures PixelOf(curr, l, x) == Success(Pixel(curr[4 * x], curr[4 * x + 1], curr[4 * x + 2], curr[4 * x + 3]))
  {
    PixelOfLayout(curr, l, x);
  }

  /** The first `h` scanlines of an RGBA image, all with filter type 0,
      decode to the pixels their bytes spell, row after row. */
  lemma {:induction false} RgbaRows(raw: seq<Byte>, l: Layout, h: nat)
    requires RgbaLayout(l) && NoneFiltered(raw, l.scan, h)
    ensures DecodeRows(raw, l, h).Success?
    ensures RgbaGrid(DecodeRows(raw, l, h).value.pixels, raw, l.width, h)
    decreases h
  {
    if h > 0 {
      var y := h - 1;
      RgbaRows(raw, l, y);
      var st := DecodeRows(raw, l, y).value;
      RgbaRow(raw, l, y, st.prev);
      var row := DecodeRow(raw, l, y, st.prev).value;
      var all := st.pixels + row.1;
      assert DecodeRows(raw, l, h) == Success(RowsState(row.0, all)) by {
        RowsAppend(raw, l, y, st.prev, st.pixels, row.0, row.1);
      }
      RgbaGridAppend(st.pixels, row.1, raw, l.width, y);
    }
  }

  /** An RGBA image with 8-bit samples whose scanlines all use filter type
      0 decodes, once `inflate` produces its scanlines, to the pixels their
      bytes spell: pixel `(x, y)` is the four bytes at offset
      `y * (4 * width + 1) + 1 + 4 * x`. */
  lemma RgbaImage(st: ChunkState, inflate: (seq<Byte>, nat) -> Inflated, raw: seq<Byte>)
    requires st.colorType == 6 && st.bitDepth == 8
    requires 32 * st.width + 7 < TwoTo32 && st.height < TwoTo31
    requires |raw| == (4 * st.width + 1) * st.height
    requires inflate(st.idat, |raw|) == Inflated(true, raw)
    requires NoneFiltered(raw, 4 * st.width, st.height)
    ensures DecodeImage(st, inflate, true, true).Success?
    ensures DecodeImage(st, inflate, true, true).value.width == st.width
    ensures DecodeImage(st, inflate, true, true).value.height == st.height
    ensures forall y, x :: 0 <= y < st.height && 0 <= x < st.width ==>
              PixelAt(DecodeImage(st, inflate, true, true).value.pixels, st.width, st.height, y, x)
              == RawRgba(raw, st.width, y, x)
  {
    var scan := ScanlineBytes(st.width, 32);
    assert scan == 4 * st.width;
    var l := Layout(st.width, st.height, 6, scan, 4, st.palette, st.trans);
    assert Written(Inflated(true, raw), |raw|) == raw;
    assert DecodeImage(st, inflate, true, true) == BuildPicture(l, raw, true, true);
    RgbaRows(raw, l, st.height);
    assert Int32(st.width) == st.width && Int32(st.height) == st.height;
    BuildPictureValue(l, raw, true, true);
  }

  /** The same for a whole file: an IHDR chunk for a `width` by `height`
      RGBA image with 8-bit samples, one IDAT chunk, and IEND. */
  lemma RgbaFile(width: nat, height: nat, z: seq<Byte>, crcs: seq<seq<Byte>>,
                 inflate: (seq<Byte>, nat) -> Inflated, raw: seq<Byte>)
    requires 32 * width + 7 < TwoTo32 && height < TwoTo31
    requires |z| < TwoTo32 && |crcs| == 3 && |crcs[0]| == |crcs[1]| == |crcs[2]| == 4
    requires |raw| == (4 * width + 1) * height
    requires inflate(z, |raw|) == Inflated(true, raw)
    requires NoneFiltered(raw, 4 * width, height)
    ensures var file := EncodePng(RgbaChunks(width, height, z, crcs), Chunk(ChunkIEND, [], crcs[2]), []);
            DecodePng(file, inflate, true, true).Success?
            && DecodePng(file, inflate, true, true).value.width == width
            && DecodePng(file, inflate, true, true).value.height == height
            && forall y, x :: 0 <= y < height && 0 <= x < width ==>
                 PixelAt(DecodePng(file, inflate, true, true).value.pixels, width, height, y, x)
                 == RawRgba(raw, width, y, x)
  {
    var cs := RgbaChunks(width, height, z, crcs);
    var file := EncodePng(cs, Chunk(ChunkIEND, [], crcs[2]), []);
    var st := ChunkState(width, height, 8, 6, [], [], z);
    assert DecodePng(file, inflate, true, true) == DecodeImage(st, inflate, true, true) by {
      DecodeEncoded(cs, Chunk(ChunkIEND, [], crcs[2]), [], inflate, true, true);
      RgbaWalk(width, height, z, crcs);
    }
    RgbaImage(st, inflate, raw);
  }
}
