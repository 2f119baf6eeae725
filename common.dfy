/** Shared vocabulary of the decoders: bytes, pixels, decoded pictures,
    the Option/Result wrappers standing in for NULL returns and exits, and
    the fixed-width integer conversions the C code performs implicitly. */
module Common {

  /** An 8-bit unsigned value (C `uint8_t`). */
  type Byte = b: int | 0 <= b < 256

  /** One RGBA pixel, four 8-bit channels (the `Pixel` struct). */
  datatype Pixel = Pixel(r: Byte, g: Byte, b: Byte, a: Byte)

  /** The value of a decoded image: its dimensions and its pixels in
      row-major order. */
  datatype Picture = Picture(width: int, height: int, pixels: seq<Pixel>)

  datatype Option<T> = None | Some(value: T)

  datatype Result<T, E> = Success(value: T) | Failure(error: E) {
    predicate IsFailure() { Failure? }

    function PropagateFailure<U>(): Result<U, E>
      requires Failure?
    {
      Failure(error)
    }

    function Extract(): T
      requires Success?
    {
      value
    }
  }

  const TwoTo32: int := 0x1_0000_0000
  const TwoTo31: int := 0x8000_0000
  const TwoTo64: int := 0x1_0000_0000_0000_0000

  /** Unsigned 32-bit arithmetic (`uint32_t`): the value modulo 2^32. */
  function U32(n: int): (r: nat)
    ensures r < TwoTo32
    ensures (r - n) % TwoTo32 == 0
    ensures 0 <= n < TwoTo32 ==> r == n
  {
    n % TwoTo32
  }

  /** Conversion to `size_t` on a 64-bit target: the value modulo 2^64. */
  function SizeT(n: int): (r: nat)
    ensures r < TwoTo64
    ensures (r - n) % TwoTo64 == 0
    ensures 0 <= n < TwoTo64 ==> r == n
  {
    n % TwoTo64
  }

  /** Conversion of a `uint32_t` to `int` on a two's-complement target:
      values of 2^31 and above become negative. */
  function Int32(n: nat): (r: int)
    requires n < TwoTo32
    ensures -TwoTo31 <= r < TwoTo31
    ensures r >= 0 <==> n < TwoTo31
    ensures n < TwoTo31 ==> r == n
    ensures r % TwoTo32 == n
  {
    if n < TwoTo31 then n else n - TwoTo32
  }

  /** Conversion of an `int` to `uint8_t`: keeps the value modulo 256. */
  function Truncate8(n: int): (r: Byte)
    ensures (r - n) % 256 == 0
    ensures 0 <= n < 256 ==> r == n
  {
    n % 256
  }

  function Min(a: int, b: int): (m: int)
    ensures m <= a && m <= b && (m == a || m == b)
  {
    if a <= b then a else b
  }

  /** A sequence of `n` zero bytes. */
  function Zeros(n: nat): (r: seq<Byte>)
    ensures |r| == n && forall i :: 0 <= i < n ==> r[i] == 0
  {
    seq(n, _ => 0)
  }
}
