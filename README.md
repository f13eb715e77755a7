# tim: terminal image renderer, modelled in Dafny

`tim` draws an image or a video in a terminal. Every character cell holds
two pixels: the upper pixel is the cell's 24-bit background colour and the
lower pixel is the foreground colour of a LOWER HALF BLOCK (U+2584) glyph.
This project models the rendering logic of `tim.cpp` and proves properties
of it. The terminal size, the decoded pixels and the clock are inputs. The
model has four parts:

- **Canvas bounds** (`Geometry`). A terminal of `rows` x `cols` cells is a
  canvas of `cols` x `2 * rows` pixels.
- **Aspect fit** (`AspectFit`, `Rounding`). This is the target size that
  `resizeImageWithAspectRatio` passes to the resize call.
  - It works in exact rational arithmetic, with the corrective factor 1.2
    written as 6/5.
  - `round` is C's round, half away from zero.
  - The parity fix uses C's truncating `%`.
- **Glyph encoder** (`Color`, `Escapes`, `Encoder`, `Render`).
  - `colorToString`, `getBackground`, `getForeground` and `reset` are
    functions.
  - A specification function, `Encode`, gives the text for a grid of pixel
    rows.
  - The nested encode loop of `convertImageToUnicode` and `drawImage` is a
    method over a 2-D array, proved equal to `Encode`.
  - A parser (`Decoder`) is the partner of the encoder: decoding the encoded
    text gives the grid back. Its helpers (`Expect`, `DigitRun`, `ParseByte`,
    `ParseRgb`) match literals and numerals. They serve the proof and have
    no counterpart in `tim.cpp`, so the table lists only the decoder lemmas
    about encoded text.
  - Pixels are in BGR order. The escapes follow ECMA-48 SGR with the
    semicolon form of the ITU-T T.416 direct-colour parameters,
    `48;2;r;g;b` and `38;2;r;g;b`.
- **Frame loop** (`Video`). `drawVideo` is a method over a finite sequence of
  ticks. Each tick holds the terminal size read in that iteration, the frame
  (or none) and the time the iteration took. The method produces what each
  iteration shows: the bounds, the text and the sleep value.

Three consequences of the code worth knowing:

- Fitting is not idempotent. `resizeImageWithAspectRatio` applies the
  corrective factor on every call, so refitting a fitted image widens it
  again (`AspectFit.RefitStretchesAgain`).
- The chosen height is guaranteed even when `maxHeight` is even
  (`AspectFit.TargetEven`). In the full-height branch it is `maxHeight`
  itself, so an odd `maxHeight` can give an odd height
  (`AspectFit.OddBoundHeights`). `MaxImageSize` always gives an even
  `maxHeight`.
- A very tall or very wide image can get a target width or height of 0
  (`AspectFit.DegenerateTargets`).

## Model

| member | source | states |
|---|---|---|
| `Geometry.MaxImageSize` | tim.cpp:37-40 | The maximum width is the column count. The maximum height is even and non-negative, and half of it is the row count. |
| `Rounding.Round` | tim.cpp:56-57 | C `round` of p/q: the result is within one half of p/q, and a tie goes away from zero (the bound is closed on the side away from zero). |
| `Rounding.TruncDiv` | tim.cpp:59 | The truncating quotient of C's `/`, the one C's `%` goes with: for a non-negative dividend it is the floor of a / b, for a non-positive one the ceiling, so it always rounds toward zero. |
| `Rounding.TruncRem` | tim.cpp:59 | C's `%`: the dividend is the divisor times the truncated quotient plus the remainder. The remainder is smaller than the divisor in magnitude and has the sign of the dividend. |
| `AspectFit.NewWidth` | tim.cpp:48-56 | `newWidth` is the integer nearest to maxHeight / h * w * 6/5, and it is non-negative for non-negative bounds. |
| `AspectFit.NewHeight` | tim.cpp:48-57 | `newHeight` before the parity fix is the integer nearest to maxWidth / w * h * 5/6, and it is non-negative for non-negative bounds. |
| `AspectFit.MakeEven` | tim.cpp:58-61 | The parity fix never increments. It yields n or n - 1, makes every non-negative height even, leaves even and negative values unchanged. |
| `AspectFit.TargetSize` | tim.cpp:63-67 | The chosen width never exceeds maxWidth. One of the two bounds is always met exactly. |
| `AspectFit.TargetAspect` | tim.cpp:56-67 | Gives the branch taken. If newWidth <= maxWidth, the size is (newWidth, maxHeight). Otherwise it is (maxWidth, MakeEven(newHeight)). Each branch also gives the rounding bounds that tie the free dimension to the aspect ratio. |
| `AspectFit.TargetFits` | tim.cpp:42-67 | For non-negative bounds, the chosen size fits the window in both branches: width <= maxWidth and height <= maxHeight, both non-negative. |
| `AspectFit.TargetEven` | tim.cpp:58-67 | The chosen height is even whenever maxHeight is even. |
| `AspectFit.RefitStretchesAgain` | tim.cpp:55-67 | A 100x100 image in a 200x100 canvas becomes 120x100. Fitting that result again gives 144x100, so refitting is not idempotent. |
| `AspectFit.DegenerateTargets` | tim.cpp:56-67 | A 1x1000 image in an 80x100 canvas gets width 0. A 1000x1 image gets height 0. |
| `AspectFit.OddBoundHeights` | tim.cpp:58-67 | With the odd bound maxHeight = 101, a 100x100 image in a 200-wide canvas gets the odd height 101 (full-height branch), while a 1000x1 image in an 80-wide canvas gets the even height 0 (full-width branch). |
| `Escapes.Dec` | tim.cpp:79 | `to_string` of a non-negative integer is non-empty and its last digit is the integer modulo 10. |
| `Escapes.DecDigits` | tim.cpp:79 | `to_string` of a non-negative integer: a non-empty digit string with no leading zero whose decimal value is the number. |
| `Escapes.DecByteLength` | tim.cpp:79 | A channel value 0..255 prints as at most three digits. |
| `Escapes.DecCanonical` | tim.cpp:79 | Every digit string without a leading zero is the decimal form of its value, so the decimal form is unique. |
| `Escapes.ColorToString` | tim.cpp:77-80 | The three strings are the canonical decimal numerals (digits only, no leading zero) of channel 0, 1 and 2 of the colour, in that order. |
| `Escapes.Background` | tim.cpp:82-85 | `getBackground` writes exactly `ESC[48;2;` + dec(channel 2) + `;` + dec(channel 1) + `;` + dec(channel 0) + `m`. |
| `Escapes.Foreground` | tim.cpp:87-91 | `getForeground` writes exactly `ESC[38;2;` + dec(channel 2) + `;` + dec(channel 1) + `;` + dec(channel 0) + `m`, then the half block U+2584. |
| `Escapes.Reset` | tim.cpp:93-95 | `reset` writes exactly `ESC[0m` and a line break. |
| `Escapes.ChannelOrderExample` | tim.cpp:82-91 | The escapes print channel 2, then 1, then 0. A pixel stored as (10, 20, 30) has background `ESC[48;2;30;20;10m`. A pixel stored as (40, 50, 60) has foreground `ESC[38;2;60;50;40m` followed by the half block. |
| `Encoder.BackgroundOccurrences` | tim.cpp:82-85 | A background escape contains no half block and no line break. |
| `Encoder.ForegroundOccurrences` | tim.cpp:87-91 | A foreground escape contains exactly one half block and no line break. |
| `Encoder.ResetOccurrences` | tim.cpp:93-95 | The reset contains exactly one line break and no half block. |
| `Encoder.Cell` | tim.cpp:104-109 | One column of a pair of rows is exactly the upper pixel's background escape followed by the lower pixel's foreground escape and half block, spelled out channel by channel. |
| `Encoder.Cells` | tim.cpp:104-110 | The cells of a pair of rows are empty exactly when the rows are, and otherwise end with the half block of the last column. |
| `Encoder.Line` | tim.cpp:103-111 | Every text line ends with the reset and its line break. |
| `Encoder.Encode` | tim.cpp:101-112 | The text of the image is empty exactly when the image has no rows; otherwise it ends with the reset and a line break. |
| `Encoder.CellsAppend` | tim.cpp:104-110 | The cells of two row pairs put side by side are the cells of the left part followed by those of the right part, so columns are written left to right. |
| `Encoder.Lines` | tim.cpp:103-112 | A grid of 2n rows gives n lines. |
| `Encoder.LinesAt` | tim.cpp:103-112 | Line k holds rows 2k and 2k + 1 of equal width, encoded as the cells of those two rows followed by the reset. |
| `Encoder.LineAt` | tim.cpp:103-112 | The whole text is the text of the rows before 2k, then line k, then the text of the rows after 2k + 1. |
| `Encoder.LineOccurrences` | tim.cpp:103-111 | A line of width c holds c half blocks and exactly one line break. |
| `Encoder.CellsOccurrences` | tim.cpp:104-110 | A pair of rows of width c gives c half blocks and no line break before its reset. |
| `Encoder.EncodeOccurrences` | tim.cpp:103-112 | A grid of 2n rows of width c encodes to text with exactly n line breaks and n * c half blocks. |
| `Encoder.RectangularPaired` | tim.cpp:103-106 | A rectangular grid with an even row count can be encoded. The unguarded read of row y + 1 needs the even count. |
| `Encoder.TwoByTwoExample` | tim.cpp:103-112 | A 2x2 image is exactly two cells and one reset. The first cell pairs the first pixels of rows 0 and 1, the second the second pixels. |
| `Decoder.ParseCellOf` | tim.cpp:82-91 | Parsing one cell's text gives back its upper and lower pixels and leaves what follows untouched. |
| `Decoder.CellIsNotReset` | tim.cpp:82-95 | A cell never begins with the reset, so the end of a line is unambiguous. |
| `Decoder.ParseLineOf` | tim.cpp:103-111 | Parsing a line gives back its two pixel rows and leaves what follows untouched. |
| `Decoder.DecodeEncode` | tim.cpp:77-113 | The encoding loses nothing: decoding the text of any grid with paired rows gives back that grid. |
| `Render.Pixels` | tim.cpp:105-106 | The grid read from the array has the array's rows, all of its width, and `resized.at(y, x)` at row y, column x. |
| `Render.EncodeResized` | tim.cpp:101-113 | The nested loop over y += 2 and x++ builds exactly `Encode` of the array's pixels, for an even row count. |
| `Render.AppendRow` | tim.cpp:104-110 | The inner loop over x appends exactly the cells of rows y and y + 1, left to right, to the text built so far. |
| `Render.ConvertImageToUnicode` | tim.cpp:97-114 | For an image resized to the target size with an even height, the text is `Encode` of the resized pixels. It decodes back to those pixels, has one line break per pair of rows, and has one half block per cell. |
| `Render.DrawImage` | tim.cpp:116-135 | The text is the same `Encode` of the resized pixels that `ConvertImageToUnicode` builds. It has at most as many lines as the terminal has rows and no more cells per line than it has columns. |
| `Video.FrameMs` | tim.cpp:153 | round(1000 / fps) is within one half of 1000/fps and is at most 1000 ms. |
| `Video.SleepMs` | tim.cpp:152-153 | The sleep value plus the iteration's duration is the frame interval. It is negative exactly when the iteration took longer than the interval. |
| `Video.SlowFrameSleepsNegative` | tim.cpp:152-153 | At 30 fps the interval is 33 ms, so a 50 ms iteration asks for a sleep of -17 ms. The value is not clamped. |
| `Video.ShowFrame` | tim.cpp:148-153 | One iteration for a non-empty frame shows the bounds of that iteration, the encoding of the resized frame and the sleep value. |
| `Video.Played` | tim.cpp:143-146 | The number of frames rendered is the count before the first empty frame. Every earlier frame is non-empty. |
| `Video.DrawVideo` | tim.cpp:138-154 | One shown entry per frame before the first empty frame. Entry i uses the bounds read from the terminal in iteration i, the text encoding that frame's resized pixels, and the sleep value round(1000/fps) - duration. |

## Left out

- The pixel interpolation of OpenCV's `resize` with `INTER_LINEAR` (tim.cpp:64, 66, 73) is library floating-point code. The resized image is an input array whose dimensions must equal `TargetSize`. `resizeImage` (tim.cpp:71-75) is unused and is not modelled.
- What `resize` does with a target dimension of 0 is library behaviour and is not modelled. `DegenerateTargets` only shows that such targets are chosen.
- `imread`, `VideoCapture` and frame decoding (tim.cpp:138, 143, 175, 182) are foreign decoders. Frames are an input sequence, and the end of that sequence is treated like an empty frame.
- The `ioctl(TIOCGWINSZ)` terminal query (tim.cpp:31-35) is OS I/O. Terminal sizes are parameters, 16-bit as in `struct winsize`.
- Output and timing are side effects:
  - `cout`;
  - `clearTerminal` (tim.cpp:26-29), whose clearing escape is not part of the modelled text;
  - `sleep_for` (tim.cpp:15-17);
  - `steady_clock` (tim.cpp:140, 151-152).
  Durations are inputs, and sleep values are outputs.
- `main` and `printHelp` (tim.cpp:19-24, 159-191) are command-line plumbing. They are not part of this model.
- IEEE doubles:
  - `1.2`, the ratios, `round` and `1e3/fps` are computed with exact rationals, so results may differ from the binary doubles only at exact .5 ties.
  - The conversion of the rounded double to `int` is not modelled. It overflows for extreme image aspect ratios, where w / h in `newWidth` or h / w in `newHeight` makes the rounded value exceed the `int` range.
  - `CAP_PROP_FPS` is truncated to `int` by the source. The model takes that integer as its input, with fps > 0 required.
- Text is modelled as a sequence of characters. U+2584 is one character here, where the source writes three UTF-8 bytes.
- The encode loop appears twice in the source, in `convertImageToUnicode` and in `drawImage`. The model has one copy of it, the method `EncodeResized`, which both call. Its inner loop is the method `AppendRow`, which appends to the same text.
