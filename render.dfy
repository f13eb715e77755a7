/** ImageRenderer: the encode loops of `convertImageToUnicode` and
    `drawImage`, run over the resized image held in a two-dimensional array.
    The resize itself (OpenCV's bilinear `resize`) is outside the model: the
    resized image is an input whose dimensions are those TargetSize chooses. */
module Render {
  import opened Color
  import opened Escapes
  import opened Encoder
  import opened Decoder
  import opened Wrappers
  import opened Geometry
  import opened AspectFit

  /** The pixels of an image as a grid value: row y, column x is m[y, x]. */
  ghost function Pixels(m: array2<Vec3b>): (g: Grid)
    reads m
    ensures |g| == m.Length0 && Rectangular(g, m.Length1)
    ensures forall y, x :: 0 <= y < m.Length0 && 0 <= x < m.Length1 ==> g[y][x] == m[y, x]
  {
    seq(m.Length0, y requires 0 <= y < m.Length0 reads m =>
      seq(m.Length1, x requires 0 <= x < m.Length1 reads m => m[y, x]))
  }

  /** The nested loop: for every pair of rows, every column's background and
      foreground escape, then the reset. */
  method EncodeResized(resized: array2<Vec3b>) returns (out: string)
    requires resized.Length0 % 2 == 0
    ensures Paired(Pixels(resized)) && out == Encode(Pixels(resized))
  {
    ghost var g := Pixels(resized);
    RectangularPaired(g, resized.Length1);
    out := "";
    var y := 0;
    while y < resized.Length0
      invariant 0 <= y <= resized.Length0 && y % 2 == 0
      invariant Paired(g[..y]) && out == Encode(g[..y])
    {
      ghost var before := out;
      EvenStep(y, resized.Length0);
      out := AppendRow(resized, y, out);
      RowStep(g, y, before, out);
      out := out + Reset();
      y := y + 2;
    }
    FullPrefix(g, y);
  }

  lemma FullPrefix<T>(s: seq<T>, n: nat)
    requires n == |s|
    ensures s[..n] == s
  {
  }

  /** The inner loop for rows y and y + 1: every column's background and
      foreground escape, appended to out. */
  method AppendRow(resized: array2<Vec3b>, y: nat, out0: string) returns (out: string)
    requires y + 1 < resized.Length0
    ensures |Pixels(resized)[y]| == |Pixels(resized)[y + 1]|
    ensures out == out0 + Cells(Pixels(resized)[y], Pixels(resized)[y + 1])
  {
    ghost var top, bottom := Pixels(resized)[y], Pixels(resized)[y + 1];
    assert |top| == |bottom| == resized.Length1;
    assert top[..0] == [] && bottom[..0] == [];
    out := out0;
    for x := 0 to resized.Length1
      invariant out == out0 + Cells(top[..x], bottom[..x])
    {
      var bgColor := resized[y, x];
      var fgColor := resized[y + 1, x];
      CellStep(top, bottom, x, out0, out);
      out := out + Background(bgColor);
      out := out + Foreground(fgColor);
    }
    assert top[..resized.Length1] == top && bottom[..resized.Length1] == bottom;
  }

  /** One step of the inner loop: the cell of column x extends the text of the
      pair of rows by one column. */
  lemma CellStep(top: seq<Vec3b>, bottom: seq<Vec3b>, x: nat, before: string, out: string)
    requires |top| == |bottom| && x < |top|
    requires out == before + Cells(top[..x], bottom[..x])
    ensures out + Background(top[x]) + Foreground(bottom[x]) == before + Cells(top[..x + 1], bottom[..x + 1])
  {
    CellsSnoc(top, bottom, x);
    var cells, bg, fg := Cells(top[..x], bottom[..x]), Background(top[x]), Foreground(bottom[x]);
    assert Cell(top[x], bottom[x]) == bg + fg;
    Encoder.Assoc(before, cells, bg);
    Encoder.Assoc(before + cells, bg, fg);
    Encoder.Assoc(cells, bg, fg);
    Encoder.Assoc(before, cells, bg + fg);
  }

  /** One step of the outer loop: the reset ends the line of rows y and y + 1. */
  lemma RowStep(g: Grid, y: nat, before: string, out: string)
    requires Paired(g) && y % 2 == 0 && y + 2 <= |g|
    requires Paired(g[..y]) && before == Encode(g[..y])
    requires |g[y]| == |g[y + 1]| && out == before + Cells(g[y], g[y + 1])
    ensures Paired(g[..y + 2]) && out + Reset() == Encode(g[..y + 2])
  {
    EncodeSnoc(g, y);
    Encoder.Assoc(before, Cells(g[y], g[y + 1]), Reset());
  }

  lemma EvenStep(y: int, n: int)
    requires y % 2 == 0 && n % 2 == 0 && y < n
    ensures y + 2 <= n
  {
  }

  /** `convertImageToUnicode(image, maxWidth, maxHeight)` for an image of
      w columns and h rows, whose resized copy is `resized`. The text holds
      every pixel of the resized image (it decodes back to it), one line per
      pair of rows and one half block per cell. */
  method ConvertImageToUnicode(w: int, h: int, maxWidth: int, maxHeight: int, resized: array2<Vec3b>)
    returns (out: string)
    requires w > 0 && h > 0
    requires resized.Length1 == TargetSize(w, h, maxWidth, maxHeight).width
    requires resized.Length0 == TargetSize(w, h, maxWidth, maxHeight).height
    requires resized.Length0 % 2 == 0
    ensures Paired(Pixels(resized)) && out == Encode(Pixels(resized))
    ensures Decode(out) == Some(Pixels(resized))
    ensures Occurrences(out, '\n') == resized.Length0 / 2
    ensures Occurrences(out, LowerHalfBlock) == resized.Length0 / 2 * resized.Length1
  {
    out := EncodeResized(resized);
    DecodeEncode(Pixels(resized));
    EncodeOccurrences(Pixels(resized), resized.Length1);
  }

  /** `drawImage(image)` on a terminal of the given size: the same text as
      ConvertImageToUnicode against the terminal's bounds, which fits the
      terminal: at most one line per character row and at most one cell per
      character column. */
  method DrawImage(terminal: TerminalCells, w: int, h: int, resized: array2<Vec3b>) returns (out: string)
    requires w > 0 && h > 0
    requires resized.Length1 == TargetSize(w, h, MaxImageSize(terminal).maxWidth, MaxImageSize(terminal).maxHeight).width
    requires resized.Length0 == TargetSize(w, h, MaxImageSize(terminal).maxWidth, MaxImageSize(terminal).maxHeight).height
    ensures Paired(Pixels(resized)) && out == Encode(Pixels(resized))
    ensures Occurrences(out, '\n') == resized.Length0 / 2 <= terminal.rows
    ensures resized.Length1 <= terminal.cols
  {
    var bounds := MaxImageSize(terminal);
    TargetEven(w, h, bounds.maxWidth, bounds.maxHeight);
    TargetFits(w, h, bounds.maxWidth, bounds.maxHeight);
    out := EncodeResized(resized);
    EncodeOccurrences(Pixels(resized), resized.Length1);
  }
}
