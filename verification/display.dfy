/** Geometry and brightness of the 16x8 LED matrix the clock draws on. */
module Display {

  /** Width and height of the matrix, in LEDs. */
  const Width: int := 16
  const Height: int := 8

  /** Fill value of a fully lit LED in the 8-bit greyscale image. */
  const BRIGHTNESS: int := 64

  /** Column of the two colon dots. */
  const ColonColumn: int := 7

  /** Row of the seconds bar. */
  const BarRow: int := 7

  /** (i, j) is a pixel of the image: column i, row j. */
  predicate InBounds(i: int, j: int)
  {
    0 <= i < Width && 0 <= j < Height
  }
}
