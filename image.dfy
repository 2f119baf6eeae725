/** The pixel buffer of utils.c: one flat row-major array of pixels and a
    row view over it. */
module PixelBuffer {
  import opened Common

  class Image {
    const width: int
    const height: int
    /** The backing array of `width * height` pixels. */
    const data: array<Pixel>
    /** The row view: `pixels[y]` is where row `y` starts in `data`
        (in C the address `data + y * width`). */
    const pixels: array<int>

    ghost predicate Valid()
      reads this, pixels
    {
      && 0 <= width && 0 <= height
      && data.Length == width * height
      && pixels.Length == height
      && forall y :: 0 <= y < height ==> pixels[y] == y * width
    }

    /** The image as a value. */
    function Value(): (p: Picture)
      reads this, data
      ensures p.width == width && p.height == height && |p.pixels| == data.Length
    {
      Picture(width, height, data[..])
    }

    /** Allocates the backing array and fills the row view. */
    constructor (width: nat, height: nat)
      ensures Valid() && this.width == width && this.height == height
      ensures fresh(data) && fresh(pixels)
    {
      var cells := new Pixel[width * height];
      var rows := new int[height];
      for y := 0 to height
        invariant forall k :: 0 <= k < y ==> rows[k] == k * width
      {
        rows[y] := y * width;
      }
      this.width, this.height := width, height;
      this.data, this.pixels := cells, rows;
    }
  }

  /** Cell `(x, y)` of a `width * height` grid lies inside the flat array. */
  lemma CellInBounds(width: int, height: int, x: int, y: int)
    requires 0 <= x < width && 0 <= y < height
    ensures 0 <= y * width + x < width * height
  {
    calc {
      y * width + x;
    <  y * width + width;
    == (y + 1) * width;
    <= { MulMonotone(y + 1, height, width); } height * width;
    }
  }

  /** Row `y` of the view ends where row `y + 1` starts, and the last row
      ends at the end of the flat array. */
  lemma RowEnd(img: Image, y: int)
    requires img.Valid() && 0 <= y < img.height
    ensures y + 1 < img.height ==> img.pixels[y + 1] == img.pixels[y] + img.width
    ensures y + 1 == img.height ==> img.pixels[y] + img.width == img.data.Length
    ensures img.pixels[y] + img.width <= img.data.Length
  {
    CellRange(img.width, img.height, y);
  }

  /** Where row `y` starts in the image's flat array; the array's length
      past the last row. */
  ghost function RowStart(img: Image, y: nat): (n: nat)
    reads img, img.pixels
    requires img.Valid() && y <= img.height
    ensures n <= img.data.Length
  {
    if y < img.height then RowEnd(img, y); img.pixels[y] else img.data.Length
  }

  /** Row `y` starts at `pixels[y]` and row `y + 1` one row width later. */
  lemma RowStartNext(img: Image, y: nat)
    requires img.Valid() && y < img.height
    ensures RowStart(img, y) == img.pixels[y]
    ensures RowStart(img, y + 1) == img.pixels[y] + img.width
  {
    RowEnd(img, y);
  }

  /** Row `y` of a `width * height` grid ends inside the flat array, where
      row `y + 1` starts. */
  lemma CellRange(width: int, height: int, y: int)
    requires 0 <= width && 0 <= y < height
    ensures y * width + width == (y + 1) * width <= width * height
  {
    MulMonotone(y + 1, height, width);
  }

  lemma MulMonotone(a: int, b: int, c: int)
    requires 0 <= a <= b && 0 <= c
    ensures a * c <= b * c
  {
  }

  /** Rows of the view never overlap: two in-range coordinates that reach
      the same cell of `data` are the same coordinates. */
  lemma {:induction false} RowViewInjective(img: Image, x1: int, y1: int, x2: int, y2: int)
    requires img.Valid()
    requires 0 <= x1 < img.width && 0 <= y1 < img.height
    requires 0 <= x2 < img.width && 0 <= y2 < img.height
    requires img.pixels[y1] + x1 == img.pixels[y2] + x2
    ensures x1 == x2 && y1 == y2
  {
    var w := img.width;
    if y1 < y2 {
      MulMonotone(y1 + 1, y2, w);
      assert false;
    } else if y2 < y1 {
      MulMonotone(y2 + 1, y1, w);
      assert false;
    }
  }

  /** The byte count utils.c:11 asks `malloc` for,
      `(size_t)width * height * sizeof(Pixel)` on a 64-bit target. */
  function DataRequest(width: int, height: int): (n: nat)
    ensures n < TwoTo64
  {
    SizeT(SizeT(SizeT(width) * SizeT(height)) * 4)
  }

  /** Every factor is converted to `size_t` before the multiplication, so
      for any two non-negative `int` dimensions the request is exactly the
      size of the pixel array. */
  lemma DataRequestExact(width: int, height: int)
    requires 0 <= width < TwoTo31 && 0 <= height < TwoTo31
    ensures DataRequest(width, height) == width * height * 4
  {
    MulMonotone(width, TwoTo31, height);
    MulMonotone(height, TwoTo31, TwoTo31);
  }

  /** A negative width converts to `size_t` as 2^64 + width, so with a
      positive height the request is 2^64 - 4 * |width| * height. It is
      small, and can be granted, only when |width| * height is close to
      2^62: `DataRequest(-2^31, 2^31 - 1)` is 2^33, 8 GiB. */
  lemma NegativeWidthRequest(width: int, height: int)
    requires -TwoTo31 <= width < 0 < height < TwoTo31
    ensures DataRequest(width, height) == TwoTo64 + 4 * width * height
  {
    var cells := -width * height;
    assert 0 < cells < TwoTo31 * TwoTo31 by {
      MulMonotone(-width, TwoTo31, height);
      MulMonotone(height, TwoTo31, TwoTo31);
    }
    assert SizeT(width) == TwoTo64 + width;
    assert SizeT(width) * SizeT(height) == height * TwoTo64 - cells;
    WrappedProduct(height, cells);
  }

  /** The `size_t` steps after the wrapped width, with the cell count
      `cells` as an opaque value so that the arithmetic stays linear. */
  lemma WrappedProduct(height: int, cells: int)
    requires 0 < height && 0 < cells < TwoTo31 * TwoTo31
    ensures SizeT(SizeT(height * TwoTo64 - cells) * 4) == TwoTo64 - 4 * cells
  {
    assert height * TwoTo64 - cells == (height - 1) * TwoTo64 + (TwoTo64 - cells);
    assert SizeT(height * TwoTo64 - cells) == TwoTo64 - cells;
    assert (TwoTo64 - cells) * 4 == 3 * TwoTo64 + (TwoTo64 - 4 * cells);
  }

  /** Whether `image_create` returns an image. A negative height turns the
      `size_t` request for the row array into one larger than any memory.
      Every negative width counts as a failure here, although C does not
      always fail:
      - with height 0 both requests are 0 bytes, and C returns an image of
        negative width;
      - with a positive height the pixel request is 2^64 - 4 * |width| *
        height (`NegativeWidthRequest`). It is large unless |width| * height
        is close to 2^62, and then `y * width` of the row view overflows
        `int`, which is undefined behaviour in C.
      For non-negative dimensions `dataOk` says whether `malloc` granted the
      `DataRequest(width, height)` bytes of the pixel array and `rowsOk`
      whether it granted the row array. */
  predicate CreateSucceeds(width: int, height: int, dataOk: bool, rowsOk: bool)
  {
    0 <= width && 0 <= height && dataOk && rowsOk
  }

  /** `image_create`: NULL when an allocation fails, otherwise a fresh
      image with the requested dimensions and a row view over its data. */
  method ImageCreate(width: int, height: int, dataOk: bool, rowsOk: bool) returns (img: Image?)
    ensures img != null <==> CreateSucceeds(width, height, dataOk, rowsOk)
    ensures img != null ==> fresh(img) && fresh(img.data) && fresh(img.pixels)
    ensures img != null ==> img.Valid() && img.width == width && img.height == height
  {
    if width < 0 || height < 0 || !dataOk || !rowsOk {
      return null;
    }
    img := new Image(width, height);
  }
}
