/** Pixel grids: the RGB images, masks and label arrays the pipeline works on.
    A grid is a sequence of rows, indexed `g[row][col]`. */
module Grids {

  /** One 8-bit channel value, as stored in an RGB or "L" image. */
  type Byte = x: int | 0 <= x < 256

  datatype Pixel = Pixel(red: Byte, green: Byte, blue: Byte)

  datatype Channel = Red | Green | Blue

  function ChannelOf(p: Pixel, ch: Channel): Byte {
    match ch
    case Red => p.red
    case Green => p.green
    case Blue => p.blue
  }

  /** The fill colour of a new RGB image. */
  const Black := Pixel(0, 0, 0)

  type Grid<T> = seq<seq<T>>

  type Image = Grid<Pixel>

  /** `g` has exactly `h` rows of `w` cells each. */
  predicate IsGrid<T>(g: Grid<T>, h: nat, w: nat) {
    |g| == h && forall r :: 0 <= r < h ==> |g[r]| == w
  }

  /** The width of a grid, read off its first row. */
  function Width<T>(g: Grid<T>): nat {
    if |g| == 0 then 0 else |g[0]|
  }

  predicate Rectangular<T>(g: Grid<T>) {
    IsGrid(g, |g|, Width(g))
  }

  /** Two grids with the same row count and the same row lengths. */
  predicate SameShape<T, U>(a: Grid<T>, b: Grid<U>) {
    |a| == |b| && forall r :: 0 <= r < |a| ==> |a[r]| == |b[r]|
  }

  /** Position (r, c) is a cell of `g`. */
  predicate InGrid<T>(g: Grid<T>, r: int, c: int) {
    0 <= r < |g| && 0 <= c < |g[r]|
  }

  /** `Image.new('RGB', (w, h))`: an h-by-w canvas filled with black. */
  function Blank(h: nat, w: nat): (g: Image)
    ensures IsGrid(g, h, w)
    ensures forall r, c :: InGrid(g, r, c) ==> g[r][c] == Black
  {
    seq(h, _ => seq(w, _ => Black))
  }

  /** The luma transform of ITU-R 601-2 that converting an RGB image to
      mode "L" applies, in Pillow's 16-bit fixed point, rounded:
      L = (19595 * R + 38470 * G + 7471 * B + 0x8000) >> 16. */
  function Luma(p: Pixel): (l: Byte)
    ensures p == Black ==> l == 0
    ensures p.red == p.green == p.blue ==> l == p.red
  {
    (19595 * p.red + 38470 * p.green + 7471 * p.blue + 0x8000) / 0x1_0000
  }

  /** A batch of images all of the first image's dimensions. */
  predicate SameSize(images: seq<Image>) {
    |images| > 0 ==>
      forall k :: 0 <= k < |images| ==> IsGrid(images[k], |images[0]|, Width(images[0]))
  }

  function BatchHeight(images: seq<Image>): nat {
    if |images| == 0 then 0 else |images[0]|
  }

  function BatchWidth(images: seq<Image>): nat {
    if |images| == 0 then 0 else Width(images[0])
  }
}
