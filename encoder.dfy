/** GlyphEncoder: the text the encode loop of `convertImageToUnicode` and
    `drawImage` builds. Each pair of pixel rows becomes one text line; each
    column of the pair becomes one character cell coloured with the upper
    pixel as background and the lower pixel as foreground. */
module Encoder {
  import opened Color
  import opened Escapes

  /** One character cell: the upper pixel's background escape, then the lower
      pixel's foreground escape with the half block. */
  function Cell(top: Vec3b, bottom: Vec3b): (s: string)
    ensures s == ([Esc] + "[48;2;" + Dec(top.red) + ";" + Dec(top.green) + ";" + Dec(top.blue) + "m")
               + ([Esc] + "[38;2;" + Dec(bottom.red) + ";" + Dec(bottom.green) + ";" + Dec(bottom.blue) + "m"
                  + [LowerHalfBlock])
  {
    Background(top) + Foreground(bottom)
  }

  /** The cells of one pair of rows, left to right. A pair of non-empty rows
      gives text that ends with the half block of its last column. */
  function Cells(top: seq<Vec3b>, bottom: seq<Vec3b>): (s: string)
    requires |top| == |bottom|
    ensures top == [] <==> s == []
    ensures top != [] ==> s[|s| - 1] == LowerHalfBlock
  {
    if top == [] then "" else Cell(top[0], bottom[0]) + Cells(top[1..], bottom[1..])
  }

  /** s ends with t. */
  predicate EndsWith(s: string, t: string) {
    |t| <= |s| && s[|s| - |t|..] == t
  }

  /** One text line: its cells, then the reset and the line break. */
  function Line(top: seq<Vec3b>, bottom: seq<Vec3b>): (s: string)
    requires |top| == |bottom|
    ensures EndsWith(s, Reset())
  {
    Cells(top, bottom) + Reset()
  }

  /** The grids the encoder can read: pairs of rows of equal width. Row y + 1
      is read without a bounds check, so a grid with an odd row count is
      outside what the loop handles. */
  predicate Paired(g: Grid)
    decreases |g|
  {
    if |g| < 2 then g == [] else |g[0]| == |g[1]| && Paired(g[2..])
  }

  /** The text lines of the image, top line first: line k encodes pixel
      rows 2k and 2k + 1. */
  function Lines(g: Grid): (ls: seq<string>)
    requires Paired(g)
    ensures |ls| == |g| / 2
    decreases |g|
  {
    if g == [] then [] else [Line(g[0], g[1])] + Lines(g[2..])
  }

  /** Strings written one after the other. */
  function Join(ls: seq<string>): string {
    if ls == [] then "" else ls[0] + Join(ls[1..])
  }

  /** The whole encoded image: all its lines, top line first. */
  function Encode(g: Grid): (s: string)
    requires Paired(g)
    ensures g == [] <==> s == []
    ensures g != [] ==> EndsWith(s, Reset())
  {
    var ls := Lines(g);
    if g == [] then Join(ls)
    else
      LinesAt(g, |ls| - 1);
      JoinEndsWith(ls, Reset());
      Join(ls)
  }

  /** Strings written one after the other end as the last of them does, and
      they are empty exactly when there are none. */
  lemma {:induction false} JoinEndsWith(ls: seq<string>, t: string)
    requires ls != [] && t != [] && EndsWith(ls[|ls| - 1], t)
    ensures Join(ls) != [] && EndsWith(Join(ls), t)
    decreases |ls|
  {
    var rest := Join(ls[1..]);
    assert Join(ls) == ls[0] + rest;
    if |ls| == 1 {
      assert rest == [];
      assert Join(ls) == ls[0];
    } else {
      JoinEndsWith(ls[1..], t);
      EndsWithAppend(ls[0], rest, t);
    }
  }

  lemma EndsWithAppend(a: string, b: string, t: string)
    requires EndsWith(b, t)
    ensures EndsWith(a + b, t)
  {
    assert (a + b)[|a + b| - |t|..] == b[|b| - |t|..];
  }

  /** An image with an even number of rows of one width is encodable. */
  lemma {:induction false} RectangularPaired(g: Grid, width: nat)
    requires Rectangular(g, width) && |g| % 2 == 0
    ensures Paired(g)
    decreases |g|
  {
    if g != [] {
      assert Rectangular(g[2..], width);
      RectangularPaired(g[2..], width);
    }
  }

  /** Cutting an encodable grid at an even row leaves two encodable grids. */
  lemma {:induction false} PairedSplit(g: Grid, i: nat)
    requires Paired(g) && i % 2 == 0 && i <= |g|
    ensures Paired(g[..i]) && Paired(g[i..])
    decreases i
  {
    if i == 0 {
      assert g[..i] == [] && g[i..] == g;
    } else {
      PairedSplit(g[2..], i - 2);
      assert g[2..][i - 2..] == g[i..];
      assert g[..i][2..] == g[2..][..i - 2];
    }
  }

  /** Stacking two encodable grids gives an encodable grid. */
  lemma {:induction false} PairedAppend(g1: Grid, g2: Grid)
    requires Paired(g1) && Paired(g2)
    ensures Paired(g1 + g2)
    decreases |g1|
  {
    if g1 == [] {
      assert g1 + g2 == g2;
    } else {
      var g := g1 + g2;
      assert g[2..] == g1[2..] + g2;
      PairedAppend(g1[2..], g2);
      assert g[0] == g1[0] && g[1] == g1[1];
    }
  }

  /** The lines of two stacked grids are the lines of the first, then those of the second. */
  lemma {:induction false} LinesAppend(g1: Grid, g2: Grid)
    requires Paired(g1) && Paired(g2)
    ensures Paired(g1 + g2)
    ensures Lines(g1 + g2) == Lines(g1) + Lines(g2)
    decreases |g1|
  {
    PairedAppend(g1, g2);
    if g1 == [] {
      assert g1 + g2 == g2;
    } else {
      var g := g1 + g2;
      assert g[2..] == g1[2..] + g2;
      assert g[0] == g1[0] && g[1] == g1[1];
      LinesAppend(g1[2..], g2);
      var l := Line(g1[0], g1[1]);
      assert Lines(g) == [l] + Lines(g[2..]);
      assert Lines(g1) == [l] + Lines(g1[2..]);
      Assoc([l], Lines(g1[2..]), Lines(g2));
    }
  }

  lemma {:induction false} JoinAppend(a: seq<string>, b: seq<string>)
    ensures Join(a + b) == Join(a) + Join(b)
    decreases |a|
  {
    if a == [] {
      assert a + b == b;
    } else {
      assert (a + b)[1..] == a[1..] + b;
      JoinAppend(a[1..], b);
    }
  }

  /** Line k of the text encodes pixel rows 2k (as backgrounds) and 2k + 1 (as foregrounds). */
  lemma {:induction false} LinesAt(g: Grid, k: nat)
    requires Paired(g) && k < |g| / 2
    ensures |g[2 * k]| == |g[2 * k + 1]| && Lines(g)[k] == Line(g[2 * k], g[2 * k + 1])
    decreases k
  {
    var first := Line(g[0], g[1]);
    assert Lines(g) == [first] + Lines(g[2..]);
    if k > 0 {
      LinesAt(g[2..], k - 1);
      PairShift(g, k);
      ConsIndex(first, Lines(g[2..]), k);
    }
  }

  lemma PairShift<T>(s: seq<T>, k: nat)
    requires 1 <= k && 2 * k + 1 < |s|
    ensures s[2..][2 * (k - 1)] == s[2 * k] && s[2..][2 * (k - 1) + 1] == s[2 * k + 1]
  {
  }

  lemma ConsIndex<T>(x: T, s: seq<T>, k: nat)
    requires 1 <= k <= |s|
    ensures ([x] + s)[k] == s[k - 1]
  {
  }

  lemma ConsFirst<T>(s: seq<T>)
    requires |s| >= 1
    ensures [s[0]] + s[1..] == s
  {
  }

  lemma ConsPair<T>(s: seq<T>)
    requires |s| >= 2
    ensures [s[0], s[1]] + s[2..] == s
  {
  }

  lemma JoinSnoc(ls: seq<string>, l: string)
    ensures Join(ls + [l]) == Join(ls) + l
  {
    JoinAppend(ls, [l]);
    assert Join([l]) == l + Join([]);
    assert l + "" == l;
  }

  /** Appending a pair of rows appends one line to the lines. */
  lemma LinesSnoc(g: Grid, y: nat)
    requires Paired(g) && y % 2 == 0 && y + 2 <= |g|
    ensures Paired(g[..y]) && Paired(g[..y + 2]) && |g[y]| == |g[y + 1]|
    ensures Lines(g[..y + 2]) == Lines(g[..y]) + [Line(g[y], g[y + 1])]
  {
    PairedSplit(g, y);
    PairedSplit(g[y..], 2);
    assert g[y..][0] == g[y] && g[y..][1] == g[y + 1];
    var pair := [g[y], g[y + 1]];
    OnePair(g[y], g[y + 1]);
    assert g[..y + 2] == g[..y] + pair;
    LinesAppend(g[..y], pair);
  }

  lemma OnePair(top: seq<Vec3b>, bottom: seq<Vec3b>)
    requires |top| == |bottom|
    ensures Paired([top, bottom]) && Lines([top, bottom]) == [Line(top, bottom)]
  {
    assert [top, bottom][2..] == [];
  }

  /** Appending a pair of rows appends its line to the text: the step the outer loop takes. */
  lemma EncodeSnoc(g: Grid, y: nat)
    requires Paired(g) && y % 2 == 0 && y + 2 <= |g|
    ensures Paired(g[..y]) && Paired(g[..y + 2]) && |g[y]| == |g[y + 1]|
    ensures Encode(g[..y + 2]) == Encode(g[..y]) + Line(g[y], g[y + 1])
  {
    LinesSnoc(g, y);
    JoinSnoc(Lines(g[..y]), Line(g[y], g[y + 1]));
  }

  /** The text is line k with the lines before it in front and those after it behind. */
  lemma LineAt(g: Grid, k: nat)
    requires Paired(g) && 2 * k + 2 <= |g|
    ensures Paired(g[..2 * k]) && Paired(g[2 * k + 2..]) && |g[2 * k]| == |g[2 * k + 1]|
    ensures Encode(g) == Encode(g[..2 * k]) + Line(g[2 * k], g[2 * k + 1]) + Encode(g[2 * k + 2..])
  {
    var front, mid, back := g[..2 * k], g[2 * k..], g[2 * k + 2..];
    PairedSplit(g, 2 * k);
    assert g == front + mid;
    assert mid[2..] == back;
    assert mid[0] == g[2 * k] && mid[1] == g[2 * k + 1];
    LinesAppend(front, mid);
    var line := Line(g[2 * k], g[2 * k + 1]);
    assert Lines(mid) == [line] + Lines(back);
    JoinAppend(Lines(front), [line] + Lines(back));
    JoinCons(line, Lines(back));
    Assoc(Encode(front), line, Encode(back));
  }

  lemma JoinCons(l: string, ls: seq<string>)
    ensures Join([l] + ls) == l + Join(ls)
  {
    assert ([l] + ls)[1..] == ls;
  }

  lemma Assoc<T>(a: seq<T>, b: seq<T>, c: seq<T>)
    ensures a + (b + c) == a + b + c
  {
  }

  /** A 2 by 2 image is one line of two cells, then the reset. */
  lemma TwoByTwoExample(p: Vec3b, q: Vec3b, r: Vec3b, s: Vec3b)
    ensures Paired([[p, q], [r, s]])
    ensures Encode([[p, q], [r, s]]) == Cell(p, r) + Cell(q, s) + Reset()
  {
    var top, bottom := [p, q], [r, s];
    OnePair(top, bottom);
    assert top[1..] == [q] && bottom[1..] == [s];
    CellsOne(q, s);
    assert Cells(top, bottom) == Cell(p, r) + Cell(q, s);
    var line := Line(top, bottom);
    JoinCons(line, []);
    assert [line] + [] == [line];
    Assoc(Cell(p, r), Cell(q, s), Reset());
  }

  /** The number of times c occurs in s. */
  function Occurrences(s: string, c: char): nat {
    if s == [] then 0 else (if s[0] == c then 1 else 0) + Occurrences(s[1..], c)
  }

  lemma {:induction false} OccurrencesAppend(a: string, b: string, c: char)
    ensures Occurrences(a + b, c) == Occurrences(a, c) + Occurrences(b, c)
    decreases |a|
  {
    if a == [] {
      assert a + b == b;
    } else {
      assert (a + b)[1..] == a[1..] + b;
      OccurrencesAppend(a[1..], b, c);
    }
  }

  lemma {:induction false} OccurrencesAbsent(s: string, c: char)
    requires c !in s
    ensures Occurrences(s, c) == 0
    decreases |s|
  {
    if s != [] {
      assert s[0] != c;
      OccurrencesAbsent(s[1..], c);
    }
  }

  lemma {:induction false} CellsAppend(t1: seq<Vec3b>, b1: seq<Vec3b>, t2: seq<Vec3b>, b2: seq<Vec3b>)
    requires |t1| == |b1| && |t2| == |b2|
    ensures Cells(t1 + t2, b1 + b2) == Cells(t1, b1) + Cells(t2, b2)
    decreases |t1|
  {
    if t1 != [] {
      var c := Cell(t1[0], b1[0]);
      assert (t1 + t2)[1..] == t1[1..] + t2 && (t1 + t2)[0] == t1[0];
      assert (b1 + b2)[1..] == b1[1..] + b2 && (b1 + b2)[0] == b1[0];
      CellsAppend(t1[1..], b1[1..], t2, b2);
      assert Cells(t1 + t2, b1 + b2) == c + Cells(t1[1..] + t2, b1[1..] + b2);
      assert Cells(t1, b1) == c + Cells(t1[1..], b1[1..]);
      Assoc(c, Cells(t1[1..], b1[1..]), Cells(t2, b2));
    } else {
      assert t1 + t2 == t2 && b1 + b2 == b2;
    }
  }

  /** Appending one column to the pair of rows appends its cell to the text:
      the step the inner loop takes. */
  lemma CellsSnoc(top: seq<Vec3b>, bottom: seq<Vec3b>, x: nat)
    requires |top| == |bottom| && x < |top|
    ensures Cells(top[..x + 1], bottom[..x + 1]) == Cells(top[..x], bottom[..x]) + Cell(top[x], bottom[x])
  {
    var t, b := [top[x]], [bottom[x]];
    assert top[..x + 1] == top[..x] + t;
    assert bottom[..x + 1] == bottom[..x] + b;
    CellsAppend(top[..x], bottom[..x], t, b);
    CellsOne(top[x], bottom[x]);
  }

  lemma CellsOne(p: Vec3b, q: Vec3b)
    ensures Cells([p], [q]) == Cell(p, q)
  {
    var c := Cell(p, q);
    assert [p][1..] == [] && [q][1..] == [];
    assert Cells([p], [q]) == c + Cells([], []);
    assert c + [] == c;
  }

  /** A background escape holds no half block and no line break. */
  lemma BackgroundOccurrences(p: Vec3b)
    ensures Occurrences(Background(p), LowerHalfBlock) == 0 && Occurrences(Background(p), '\n') == 0
  {
    var (b, g, r) := ColorToString(p);
    assert Background(p) == [Esc] + "[48;2;" + r + ";" + g + ";" + b + "m";
    assert LowerHalfBlock !in r && LowerHalfBlock !in g && LowerHalfBlock !in b;
    assert '\n' !in r && '\n' !in g && '\n' !in b;
    OccurrencesAbsent(Background(p), LowerHalfBlock);
    OccurrencesAbsent(Background(p), '\n');
  }

  /** A foreground escape holds exactly one half block, at its end, and no line break. */
  lemma ForegroundOccurrences(p: Vec3b)
    ensures Occurrences(Foreground(p), LowerHalfBlock) == 1 && Occurrences(Foreground(p), '\n') == 0
  {
    var (b, g, r) := ColorToString(p);
    var sgr := [Esc] + "[38;2;" + r + ";" + g + ";" + b + "m";
    assert Foreground(p) == sgr + [LowerHalfBlock];
    assert LowerHalfBlock !in r && LowerHalfBlock !in g && LowerHalfBlock !in b;
    assert '\n' !in r && '\n' !in g && '\n' !in b;
    OccurrencesAbsent(sgr, LowerHalfBlock);
    OccurrencesAbsent(Foreground(p), '\n');
    OccurrencesAppend(sgr, [LowerHalfBlock], LowerHalfBlock);
  }

  /** The reset holds exactly one line break, at its end, and no half block. */
  lemma ResetOccurrences()
    ensures Occurrences(Reset(), LowerHalfBlock) == 0 && Occurrences(Reset(), '\n') == 1
  {
    var sgr := [Esc] + "[0m";
    assert Reset() == sgr + ['\n'];
    OccurrencesAbsent(Reset(), LowerHalfBlock);
    OccurrencesAbsent(sgr, '\n');
    OccurrencesAppend(sgr, ['\n'], '\n');
  }

  /** A pair of rows of width n gives n half blocks and no line break before the reset. */
  lemma {:induction false} CellsOccurrences(top: seq<Vec3b>, bottom: seq<Vec3b>)
    requires |top| == |bottom|
    ensures Occurrences(Cells(top, bottom), LowerHalfBlock) == |top|
    ensures Occurrences(Cells(top, bottom), '\n') == 0
    decreases |top|
  {
    if top != [] {
      var cell, rest := Cell(top[0], bottom[0]), Cells(top[1..], bottom[1..]);
      BackgroundOccurrences(top[0]);
      ForegroundOccurrences(bottom[0]);
      CellsOccurrences(top[1..], bottom[1..]);
      OccurrencesAppend(Background(top[0]), Foreground(bottom[0]), LowerHalfBlock);
      OccurrencesAppend(Background(top[0]), Foreground(bottom[0]), '\n');
      OccurrencesAppend(cell, rest, LowerHalfBlock);
      OccurrencesAppend(cell, rest, '\n');
    }
  }

  /** A line of width n holds n half blocks and exactly one line break, its last character. */
  lemma LineOccurrences(top: seq<Vec3b>, bottom: seq<Vec3b>)
    requires |top| == |bottom|
    ensures Occurrences(Line(top, bottom), LowerHalfBlock) == |top|
    ensures Occurrences(Line(top, bottom), '\n') == 1
  {
    CellsOccurrences(top, bottom);
    ResetOccurrences();
    OccurrencesAppend(Cells(top, bottom), Reset(), LowerHalfBlock);
    OccurrencesAppend(Cells(top, bottom), Reset(), '\n');
  }

  /** A grid of 2n rows of width c is drawn as n lines holding n * c half
      blocks in all. */
  lemma {:induction false} EncodeOccurrences(g: Grid, width: nat)
    requires Paired(g) && Rectangular(g, width)
    ensures Occurrences(Encode(g), '\n') == |g| / 2
    ensures Occurrences(Encode(g), LowerHalfBlock) == |g| / 2 * width
    decreases |g|
  {
    if g != [] {
      EncodeCons(g);
      assert Rectangular(g[2..], width) && |g[0]| == width;
      EncodeOccurrences(g[2..], width);
      LineOccurrences(g[0], g[1]);
      CountLines(Line(g[0], g[1]), Encode(g[2..]), |g| / 2, width);
    }
  }

  /** The counting step: one more line of the given width. */
  lemma CountLines(line: string, rest: string, n: int, width: nat)
    requires n >= 1
    requires Occurrences(line, LowerHalfBlock) == width && Occurrences(line, '\n') == 1
    requires Occurrences(rest, LowerHalfBlock) == (n - 1) * width && Occurrences(rest, '\n') == n - 1
    ensures Occurrences(line + rest, LowerHalfBlock) == n * width
    ensures Occurrences(line + rest, '\n') == n
  {
    OccurrencesAppend(line, rest, LowerHalfBlock);
    OccurrencesAppend(line, rest, '\n');
    MulStep(n, width);
  }

  /** The text is its first line followed by the text of the remaining rows. */
  lemma EncodeCons(g: Grid)
    requires Paired(g) && g != []
    ensures Paired(g[2..]) && |g[0]| == |g[1]|
    ensures Encode(g) == Line(g[0], g[1]) + Encode(g[2..])
  {
    var line := Line(g[0], g[1]);
    assert Lines(g) == [line] + Lines(g[2..]);
    JoinCons(line, Lines(g[2..]));
  }

  lemma MulStep(n: int, width: int)
    ensures n * width == (n - 1) * width + width
  {
  }
}
