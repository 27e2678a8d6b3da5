/**
 * Raster values the engine reads: 8-bit pixels, row-major images, rectangular
 * views into them, and floating RGB colours (modelled as reals).
 */
module Imaging {
  import Geometry

  newtype byte = x: int | 0 <= x < 256

  /** An RGBA8 pixel with its alpha dropped: no part of the engine reads alpha. */
  datatype Pixel = Pixel(r: byte, g: byte, b: byte)

  datatype Channel = Red | Green | Blue

  function Component(p: Pixel, ch: Channel): byte {
    match ch
    case Red => p.r
    case Green => p.g
    case Blue => p.b
  }

  /** An image whose pixels are stored row by row, as `GenericImageView::pixels` yields them. */
  datatype Image = Image(width: nat, height: nat, pixels: seq<Pixel>) {
    ghost predicate Valid() {
      |pixels| == width * height
    }
  }

  /** An average colour `[f64; 3]`. */
  datatype Color = Color(r: real, g: real, b: real)

  /** The row-major position of column `col` of row `row` in rows of `width` entries. */
  function Flat(row: nat, col: nat, width: nat): nat {
    row * width + col
  }

  lemma {:induction false} RowMajorIndexBound(row: nat, col: nat, width: nat, height: nat)
    requires row < height && col < width
    ensures Flat(row, col, width) < width * height
  {
    var e := height - row - 1;
    assert e * width >= 0;
    assert (row + 1 + e) * width == row * width + width + e * width;
    assert width * height == height * width;
  }

  /** The pixel at column `col` of row `row`. */
  function PixelAt(img: Image, col: nat, row: nat): Pixel
    requires img.Valid() && col < img.width && row < img.height
  {
    RowMajorIndexBound(row, col, img.width, img.height);
    img.pixels[Flat(row, col, img.width)]
  }

  lemma {:induction false} SquareIndexSplit(k: nat, size: nat)
    requires k < size * size
    ensures size > 0 && k / size < size && k % size < size
    ensures k == Flat(k / size, k % size, size)
  {
  }

  /** Pixel `k` (row-major) of the `size` x `size` view whose origin is (x, y). */
  function RegionPixel(img: Image, x: nat, y: nat, size: nat, k: nat): Pixel
    requires img.Valid() && x + size <= img.width && y + size <= img.height
    requires k < size * size
  {
    SquareIndexSplit(k, size);
    PixelAt(img, x + k % size, y + k / size)
  }

  /**
   * `img.view(x, y, size, size).to_image()` (src-tauri/src/lib.rs:288): a
   * `size` x `size` image whose pixel at column `col` of row `row` is the
   * source pixel at column `x + col` of row `y + row`.
   */
  function Region(img: Image, x: nat, y: nat, size: nat): (r: seq<Pixel>)
    requires img.Valid() && x + size <= img.width && y + size <= img.height
    ensures |r| == size * size
    ensures forall row: nat, col: nat :: row < size && col < size ==>
      Flat(row, col, size) < |r| && r[Flat(row, col, size)] == PixelAt(img, x + col, y + row)
  {
    var r := seq(size * size, k requires 0 <= k < size * size => RegionPixel(img, x, y, size, k));
    ViewPixel(img, x, y, size, r);
    r
  }

  /** Entry `Flat(row, col, size)` of the view's pixel list is the pixel at (x + col, y + row). */
  lemma {:induction false} ViewPixel(img: Image, x: nat, y: nat, size: nat, r: seq<Pixel>)
    requires img.Valid() && x + size <= img.width && y + size <= img.height
    requires |r| == size * size
    requires forall k :: 0 <= k < size * size ==> r[k] == RegionPixel(img, x, y, size, k)
    ensures forall row: nat, col: nat :: row < size && col < size ==>
      Flat(row, col, size) < |r| && r[Flat(row, col, size)] == PixelAt(img, x + col, y + row)
  {
    forall row: nat, col: nat | row < size && col < size
      ensures Flat(row, col, size) < |r| && r[Flat(row, col, size)] == PixelAt(img, x + col, y + row)
    {
      var k := Flat(row, col, size);
      FlatSplit(row, col, size);
      assert r[k] == RegionPixel(img, x, y, size, k);
    }
  }

  /** A position in a `size` x `size` grid determines its row and column. */
  lemma {:induction false} FlatSplit(row: nat, col: nat, size: nat)
    requires row < size && col < size
    ensures Flat(row, col, size) < size * size
    ensures Flat(row, col, size) / size == row && Flat(row, col, size) % size == col
  {
    Geometry.CellIndexSplit(col, row, size, size);
  }

  /** Two images that agree on a square have the same view of it. */
  lemma {:induction false} RegionLocal(a: Image, b: Image, x: nat, y: nat, size: nat)
    requires a.Valid() && x + size <= a.width && y + size <= a.height
    requires b.Valid() && x + size <= b.width && y + size <= b.height
    requires forall col: nat, row: nat :: x <= col < x + size && y <= row < y + size ==>
      PixelAt(a, col, row) == PixelAt(b, col, row)
    ensures Region(a, x, y, size) == Region(b, x, y, size)
  {
    var ra, rb := Region(a, x, y, size), Region(b, x, y, size);
    forall k | 0 <= k < |ra|
      ensures ra[k] == rb[k]
    {
      SquareIndexSplit(k, size);
      var row, col := k / size, k % size;
      assert ra[Flat(row, col, size)] == PixelAt(a, x + col, y + row);
      assert rb[Flat(row, col, size)] == PixelAt(b, x + col, y + row);
    }
  }
}
