/** TerminalGeometry: the pixel canvas a terminal offers. */
module Geometry {

  /** An `unsigned short`, the type of `ws_row` and `ws_col` in `struct winsize`. */
  type U16 = x: int | 0 <= x < 0x1_0000

  /** The character grid reported by the terminal (`getTerminalSize`). */
  datatype TerminalCells = TerminalCells(rows: U16, cols: U16)

  /** The largest image, in pixels, that fits the terminal. */
  datatype Bounds = Bounds(maxWidth: int, maxHeight: int)

  /** `getMaxImageSize`: one pixel column per character column and two pixel
      rows (upper and lower half) per character row. */
  function MaxImageSize(t: TerminalCells): (b: Bounds)
    ensures b.maxWidth == t.cols
    ensures 0 <= b.maxHeight && b.maxHeight % 2 == 0
    ensures b.maxHeight / 2 == t.rows
  {
    Bounds(t.cols, 2 * t.rows)
  }
}
