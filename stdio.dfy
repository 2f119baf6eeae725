/** A `FILE *` opened for reading, as the decoders use it: the file's bytes
    and a read cursor, with the C library calls the PPM readers make
    (`fgetc`, `ungetc`, `fgets`, `fscanf("%d")`). The library's scanning
    rules are given as functions over the bytes and a position. */
module Stdio {
  import opened Common

  /** The value `fgetc` returns at end of file. */
  const EOF: int := -1

  const Newline: Byte := '\n' as int
  const Minus: Byte := '-' as int
  const Plus: Byte := '+' as int

  /** `isspace` in the C locale. */
  predicate IsSpace(c: int)
  {
    c == ' ' as int || c == '\t' as int || c == '\n' as int
    || c == 11 || c == 12 || c == '\r' as int
  }

  predicate IsDigit(c: int)
  {
    '0' as int <= c <= '9' as int
  }

  /** The first position at or after `i` holding byte `c`, if any. */
  function FindByte(s: seq<Byte>, i: nat, c: Byte): (r: Option<nat>)
    requires i <= |s|
    ensures r.Some? ==> i <= r.value < |s| && s[r.value] == c
    ensures r.Some? ==> forall k :: i <= k < r.value ==> s[k] != c
    ensures r.None? ==> forall k :: i <= k < |s| ==> s[k] != c
    decreases |s| - i
  {
    if i == |s| then None
    else if s[i] == c then Some(i)
    else FindByte(s, i + 1, c)
  }

  /** The first position at or after `i` that is not white space. */
  function SkipSpace(s: seq<Byte>, i: nat): (j: nat)
    requires i <= |s|
    ensures i <= j <= |s|
    ensures j < |s| ==> !IsSpace(s[j])
    decreases |s| - i
  {
    if i < |s| && IsSpace(s[i]) then SkipSpace(s, i + 1) else i
  }

  /** Every byte from `i` up to `SkipSpace(s, i)` is white space. */
  lemma {:induction false} SpaceRun(s: seq<Byte>, i: nat)
    requires i <= |s|
    ensures forall k {:trigger IsSpace(s[k])} :: i <= k < SkipSpace(s, i) ==> IsSpace(s[k])
    decreases |s| - i
  {
    if i < |s| && IsSpace(s[i]) {
      SpaceRun(s, i + 1);
    }
  }

  /** The end of the run of decimal digits that starts at `i`. */
  function DigitsEnd(s: seq<Byte>, i: nat): (j: nat)
    requires i <= |s|
    ensures i <= j <= |s|
    ensures j < |s| ==> !IsDigit(s[j])
    decreases |s| - i
  {
    if i < |s| && IsDigit(s[i]) then DigitsEnd(s, i + 1) else i
  }

  /** Every byte from `i` up to `DigitsEnd(s, i)` is a digit. */
  lemma {:induction false} DigitsRun(s: seq<Byte>, i: nat)
    requires i <= |s|
    ensures forall k {:trigger IsDigit(s[k])} :: i <= k < DigitsEnd(s, i) ==> IsDigit(s[k])
    decreases |s| - i
  {
    if i < |s| && IsDigit(s[i]) {
      DigitsRun(s, i + 1);
    }
  }

  predicate AllDigits(d: seq<Byte>)
  {
    forall k :: 0 <= k < |d| ==> IsDigit(d[k])
  }

  /** The number a string of decimal digits denotes, most significant
      digit first. */
  function DecimalValue(d: seq<Byte>): nat
    requires AllDigits(d)
  {
    if d == [] then 0
    else DecimalValue(d[..|d| - 1]) * 10 + (d[|d| - 1] - '0' as int)
  }

  /** `fscanf(fp, "%d", &v)`: skips white space, reads an optional sign and
      at least one decimal digit. The result is the value and the position
      after the last digit, or None when no digit follows (the call then
      returns 0 or EOF instead of 1). */
  function ScanDecimal(s: seq<Byte>, i: nat): (r: Option<(int, nat)>)
    requires i <= |s|
    ensures r.Some? ==> i < r.value.1 <= |s|
    ensures r.Some? ==> IsDigit(s[r.value.1 - 1])
    ensures r.Some? && r.value.1 < |s| ==> !IsDigit(s[r.value.1])
  {
    var j := SkipSpace(s, i);
    var signed := j < |s| && (s[j] == Minus || s[j] == Plus);
    var k := if signed then j + 1 else j;
    var e := DigitsEnd(s, k);
    if e == k then None
    else
      DigitsRun(s, k);
      assert forall t :: 0 <= t < e - k ==> IsDigit(s[k..e][t]);
      var magnitude: int := DecimalValue(s[k..e]);
      Some((if signed && s[j] == Minus then -magnitude else magnitude, e))
  }

  /** Where `fgets` stops when it may store `room` characters: after the
      first newline, after `room` characters, or at end of file. */
  function GetsEnd(s: seq<Byte>, i: nat, room: nat): (j: nat)
    requires i <= |s|
    ensures i <= j <= |s| && j - i <= room
    ensures forall k :: i <= k < j - 1 ==> s[k] != Newline
    ensures j < |s| && j - i < room ==> j > i && s[j - 1] == Newline
    decreases room
  {
    if room == 0 || i == |s| then i
    else if s[i] == Newline then i + 1
    else GetsEnd(s, i + 1, room - 1)
  }

  class Stream {
    const bytes: seq<Byte>
    var pos: nat

    ghost predicate Valid()
      reads this
    {
      pos <= |bytes|
    }

    /** `fopen` of a file with these contents. */
    constructor Open(contents: seq<Byte>)
      ensures Valid() && bytes == contents && pos == 0
    {
      bytes, pos := contents, 0;
    }

    /** `fgetc`: the next byte, or EOF with the cursor left at the end. */
    method Getc() returns (c: int)
      requires Valid()
      modifies this
      ensures Valid()
      ensures old(pos) < |bytes| ==> c == bytes[old(pos)] && pos == old(pos) + 1
      ensures old(pos) == |bytes| ==> c == EOF && pos == old(pos)
    {
      if pos < |bytes| {
        c := bytes[pos];
        pos := pos + 1;
      } else {
        c := EOF;
      }
    }

    /** `ungetc` of the byte just read; `ungetc(EOF)` fails and leaves the
        stream as it was. */
    method Ungetc(c: int)
      requires Valid() && (c != EOF ==> 0 < pos && bytes[pos - 1] == c)
      modifies this
      ensures Valid()
      ensures pos == if c == EOF then old(pos) else old(pos) - 1
    {
      if c != EOF {
        pos := pos - 1;
      }
    }

    /** `fread(buf, 1, n, fp)`: the bytes read, fewer than `n` when the file
        ends first. */
    method Read(n: nat) returns (got: seq<Byte>)
      requires Valid()
      modifies this
      ensures Valid()
      ensures pos == Min(old(pos) + n, |bytes|) && got == bytes[old(pos)..pos]
    {
      var end := Min(pos + n, |bytes|);
      got := bytes[pos..end];
      pos := end;
    }

    /** `fseek(fp, n, SEEK_CUR)`. A cursor moved past the end reads as one at
        the end (every later read returns nothing), so it is kept there. */
    method Skip(n: nat)
      requires Valid()
      modifies this
      ensures Valid() && pos == Min(old(pos) + n, |bytes|)
    {
      pos := Min(pos + n, |bytes|);
    }

    /** `fgets(buf, room + 1, fp)`: the characters stored in the buffer
        (none when the call returns NULL at end of file). */
    method Gets(room: nat) returns (line: seq<Byte>)
      requires Valid()
      modifies this
      ensures Valid()
      ensures pos == GetsEnd(bytes, old(pos), room) && line == bytes[old(pos)..pos]
    {
      var end := GetsEnd(bytes, pos, room);
      line := bytes[pos..end];
      pos := end;
    }

    /** `fscanf(fp, "%d", &v) == 1`: the value read, or None when the call
        converts nothing. */
    method ScanInt() returns (v: Option<int>)
      requires Valid()
      modifies this
      ensures Valid()
      ensures v.None? <==> ScanDecimal(bytes, old(pos)).None?
      ensures v.Some? ==> v.value == ScanDecimal(bytes, old(pos)).value.0
                          && pos == ScanDecimal(bytes, old(pos)).value.1
    {
      match ScanDecimal(bytes, pos)
      case None =>
        v := None;
      case Some((n, e)) =>
        v := Some(n);
        pos := e;
    }
  }

  /** The decimal digits of `n`, most significant first, without leading
      zeros. */
  function Decimal(n: nat): (d: seq<Byte>)
    ensures |d| > 0 && AllDigits(d)
  {
    if n < 10 then ['0' as int + n] else Decimal(n / 10) + ['0' as int + n % 10]
  }

  /** `Decimal` and `DecimalValue` are inverse. */
  lemma {:induction false} DecimalRoundTrip(n: nat)
    ensures DecimalValue(Decimal(n)) == n
  {
    var d := Decimal(n);
    if n >= 10 {
      assert d[..|d| - 1] == Decimal(n / 10);
      DecimalRoundTrip(n / 10);
    }
  }

  /** `v` written in decimal with a leading '-' when negative, as `printf`
      would write it. */
  function SignedDecimal(v: int): (d: seq<Byte>)
    ensures |d| > 0
  {
    if v < 0 then [Minus] + Decimal(-v) else Decimal(v)
  }

  /** `fscanf("%d")` reads back any integer written in decimal after white
      space, provided no digit follows it. */
  lemma ScanDecimalRoundTrip(s: seq<Byte>, i: nat, spaces: nat, v: int)
    requires i + spaces + |SignedDecimal(v)| <= |s|
    requires forall k :: i <= k < i + spaces ==> IsSpace(s[k])
    requires s[i + spaces..i + spaces + |SignedDecimal(v)|] == SignedDecimal(v)
    requires i + spaces + |SignedDecimal(v)| < |s| ==> !IsDigit(s[i + spaces + |SignedDecimal(v)|])
    ensures ScanDecimal(s, i) == Some((v, i + spaces + |SignedDecimal(v)|))
  {
    var d := SignedDecimal(v);
    var j, e := i + spaces, i + spaces + |d|;
    var m: nat := if v < 0 then -v else v;
    var k := if v < 0 then j + 1 else j;
    assert s[j] == d[0];
    SkipSpaceOver(s, i, j);
    if v < 0 {
      assert s[k..e] == s[j..e][1..];
    }
    assert s[k..e] == Decimal(m);
    DigitsOver(s, k, e, m);
    DecimalRoundTrip(m);
  }

  lemma DigitsOver(s: seq<Byte>, k: nat, e: nat, m: nat)
    requires k <= e <= |s| && s[k..e] == Decimal(m)
    requires e < |s| ==> !IsDigit(s[e])
    ensures DigitsEnd(s, k) == e
  {
    forall t | k <= t < e ensures IsDigit(s[t]) {
      assert s[t] == s[k..e][t - k];
    }
    DigitsEndOver(s, k, e);
  }

  lemma {:induction false} SkipSpaceOver(s: seq<Byte>, i: nat, j: nat)
    requires i <= j <= |s|
    requires forall k :: i <= k < j ==> IsSpace(s[k])
    requires j < |s| ==> !IsSpace(s[j])
    ensures SkipSpace(s, i) == j
    decreases j - i
  {
    if i < j {
      SkipSpaceOver(s, i + 1, j);
    }
  }

  lemma {:induction false} DigitsEndOver(s: seq<Byte>, i: nat, j: nat)
    requires i <= j <= |s|
    requires forall k :: i <= k < j ==> IsDigit(s[k])
    requires j < |s| ==> !IsDigit(s[j])
    ensures DigitsEnd(s, i) == j
    decreases j - i
  {
    if i < j {
      DigitsEndOver(s, i + 1, j);
    }
  }
}
