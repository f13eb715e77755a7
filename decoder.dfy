/** A reader for the text the encoder writes, following the SGR syntax of
    ECMA-48 with the semicolon form of the direct-colour parameters of
    ITU-T T.416 (`48;2;r;g;b` background, `38;2;r;g;b` foreground). It is
    the partner of the encoder: decoding the encoded image gives back the
    pixel grid, so the text carries every channel of every pixel, in its
    place. */
module Decoder {
  import opened Wrappers
  import opened Color
  import opened Escapes
  import opened Encoder

  /** The length of the run of digits at the front of s. */
  function DigitRun(s: string): (k: nat)
    ensures k <= |s| && AllDigits(s[..k])
    ensures k < |s| ==> !IsDigit(s[k])
    decreases |s|
  {
    if s != [] && IsDigit(s[0]) then
      var k := 1 + DigitRun(s[1..]);
      assert s[..k] == [s[0]] + s[1..][..k - 1];
      k
    else 0
  }

  /** A decimal channel value (0 to 255) at the front of s, and the text after it. */
  function ParseByte(s: string): (r: Option<(Byte, string)>)
    ensures r.Some? ==> |r.value.1| < |s|
  {
    var k := DigitRun(s);
    if k == 0 || Value(s[..k]) > 255 then None else Some((Value(s[..k]), s[k..]))
  }

  /** The text after lit, if s starts with lit. */
  function Expect(lit: string, s: string): (r: Option<string>)
    ensures r.Some? <==> lit <= s
    ensures r.Some? ==> s == lit + r.value
  {
    if lit <= s then Some(s[|lit|..]) else None
  }

  /** The parameters `r;g;b` of a direct colour and the final `m`. */
  function ParseRgb(s: string): (r: Option<(Vec3b, string)>)
    ensures r.Some? ==> |r.value.1| < |s|
  {
    var red :- ParseByte(s);
    var s1 :- Expect(";", red.1);
    var green :- ParseByte(s1);
    var s2 :- Expect(";", green.1);
    var blue :- ParseByte(s2);
    var s3 :- Expect("m", blue.1);
    Some((Vec3b(blue.0, green.0, red.0), s3))
  }

  /** One character cell: a background colour, a foreground colour, the half block. */
  function ParseCell(s: string): (r: Option<(Vec3b, Vec3b, string)>)
    ensures r.Some? ==> |r.value.2| < |s|
  {
    var s1 :- Expect([Esc] + "[48;2;", s);
    var top :- ParseRgb(s1);
    var s2 :- Expect([Esc] + "[38;2;", top.1);
    var bottom :- ParseRgb(s2);
    var s3 :- Expect([LowerHalfBlock], bottom.1);
    Some((top.0, bottom.0, s3))
  }

  /** One text line: cells up to the reset with its line break; gives the
      upper and the lower pixel row. */
  function ParseLine(s: string): (r: Option<(seq<Vec3b>, seq<Vec3b>, string)>)
    ensures r.Some? ==> |r.value.0| == |r.value.1| && |r.value.2| < |s|
    decreases |s|
  {
    if Reset() <= s then Some(([], [], s[|Reset()|..]))
    else
      var cell :- ParseCell(s);
      var rest :- ParseLine(cell.2);
      Some(([cell.0] + rest.0, [cell.1] + rest.1, rest.2))
  }

  /** A whole image: text lines up to the end of the text, two pixel rows each. */
  function Decode(s: string): (r: Option<Grid>)
    decreases |s|
  {
    if s == [] then Some([])
    else
      var line :- ParseLine(s);
      var g :- Decode(line.2);
      Some([line.0, line.1] + g)
  }

  lemma {:induction false} DigitRunOf(d: string, t: string)
    requires AllDigits(d) && (t == [] || !IsDigit(t[0]))
    ensures DigitRun(d + t) == |d|
    decreases |d|
  {
    if d == [] {
      assert d + t == t;
    } else {
      assert (d + t)[1..] == d[1..] + t;
      DigitRunOf(d[1..], t);
    }
  }

  /** A channel's decimal form is read back as the channel. */
  lemma ParseDec(n: Byte, t: string)
    requires t == [] || !IsDigit(t[0])
    ensures ParseByte(Dec(n) + t) == Some((n, t))
  {
    var d := Dec(n);
    DecDigits(n);
    DigitRunOf(d, t);
    assert (d + t)[..|d|] == d && (d + t)[|d|..] == t;
  }

  lemma ExpectPrefix(lit: string, t: string)
    ensures Expect(lit, lit + t) == Some(t)
  {
    assert (lit + t)[..|lit|] == lit && (lit + t)[|lit|..] == t;
  }

  /** The parameters the escapes write, red first, and whatever follows them. */
  function Params(c: Vec3b, t: string): string {
    Dec(c.red) + (";" + (Dec(c.green) + (";" + (Dec(c.blue) + ("m" + t)))))
  }

  lemma ParseParams(c: Vec3b, t: string)
    ensures ParseRgb(Params(c, t)) == Some((c, t))
  {
    var s5 := "m" + t;
    var s4 := Dec(c.blue) + s5;
    var s3 := ";" + s4;
    var s2 := Dec(c.green) + s3;
    var s1 := ";" + s2;
    assert Params(c, t) == Dec(c.red) + s1;
    ParseDec(c.red, s1);
    ExpectPrefix(";", s2);
    ParseDec(c.green, s3);
    ExpectPrefix(";", s4);
    ParseDec(c.blue, s5);
    ExpectPrefix("m", t);
  }

  lemma Assoc8(a: string, b: string, c: string, d: string, e: string, f: string, g: string, t: string)
    ensures a + b + c + d + e + f + g + t == a + (b + (c + (d + (e + (f + (g + t))))))
  {
  }

  /** A background escape followed by t. */
  lemma BackgroundThen(c: Vec3b, t: string)
    ensures Background(c) + t == [Esc] + "[48;2;" + Params(c, t)
  {
    Assoc8([Esc] + "[48;2;", Dec(c.red), ";", Dec(c.green), ";", Dec(c.blue), "m", t);
  }

  /** A foreground escape followed by t. */
  lemma ForegroundThen(c: Vec3b, t: string)
    ensures Foreground(c) + t == [Esc] + "[38;2;" + Params(c, [LowerHalfBlock] + t)
  {
    var u := [LowerHalfBlock] + t;
    Assoc8([Esc] + "[38;2;", Dec(c.red), ";", Dec(c.green), ";", Dec(c.blue), "m", u);
    var sgr := [Esc] + "[38;2;" + Dec(c.red) + ";" + Dec(c.green) + ";" + Dec(c.blue) + "m";
    assert Foreground(c) == sgr + [LowerHalfBlock];
    assert sgr + [LowerHalfBlock] + t == sgr + u;
  }

  /** A cell is read back as its two pixels, whatever follows it. */
  lemma ParseCellOf(top: Vec3b, bottom: Vec3b, t: string)
    ensures ParseCell(Cell(top, bottom) + t) == Some((top, bottom, t))
  {
    var fg := Foreground(bottom) + t;
    assert Cell(top, bottom) + t == Background(top) + fg;
    BackgroundThen(top, fg);
    ExpectPrefix([Esc] + "[48;2;", Params(top, fg));
    ParseParams(top, fg);
    ForegroundThen(bottom, t);
    ExpectPrefix([Esc] + "[38;2;", Params(bottom, [LowerHalfBlock] + t));
    ParseParams(bottom, [LowerHalfBlock] + t);
    ExpectPrefix([LowerHalfBlock], t);
  }

  /** A cell never looks like a reset: its third character is the '4' of
      `48`, where a reset has the '0' of `0m`. */
  lemma CellIsNotReset(top: Vec3b, bottom: Vec3b, t: string)
    ensures !(Reset() <= Cell(top, bottom) + t)
  {
    var fg := Foreground(bottom) + t;
    assert Cell(top, bottom) + t == Background(top) + fg;
    BackgroundThen(top, fg);
    assert (Cell(top, bottom) + t)[2] == '4';
  }

  /** A line is read back as its two pixel rows, whatever follows it. */
  lemma {:induction false} ParseLineOf(top: seq<Vec3b>, bottom: seq<Vec3b>, t: string)
    requires |top| == |bottom|
    ensures ParseLine(Line(top, bottom) + t) == Some((top, bottom, t))
    decreases |top|
  {
    if top == [] {
      assert top == [] && bottom == [];
      LineEmpty();
      ParseReset(t);
    } else {
      ParseLineOf(top[1..], bottom[1..], t);
      ParseLineCons(top, bottom, t);
    }
  }

  lemma ParseLineCons(top: seq<Vec3b>, bottom: seq<Vec3b>, t: string)
    requires |top| == |bottom| && top != []
    requires ParseLine(Line(top[1..], bottom[1..]) + t) == Some((top[1..], bottom[1..], t))
    ensures ParseLine(Line(top, bottom) + t) == Some((top, bottom, t))
  {
    var rest := Line(top[1..], bottom[1..]) + t;
    LineCons(top, bottom, t);
    ParseCellThenLine(top[0], bottom[0], rest, top[1..], bottom[1..], t);
    ConsFirst(top);
    ConsFirst(bottom);
    ParseLineCongruent(Line(top, bottom) + t, Cell(top[0], bottom[0]) + rest, Some((top, bottom, t)));
  }

  lemma ParseLineCongruent(s: string, u: string, r: Option<(seq<Vec3b>, seq<Vec3b>, string)>)
    requires s == u && ParseLine(u) == r
    ensures ParseLine(s) == r
  {
  }

  /** A cell followed by the rest of a line parses as one more column. */
  lemma ParseCellThenLine(top: Vec3b, bottom: Vec3b, rest: string,
                          tops: seq<Vec3b>, bottoms: seq<Vec3b>, t: string)
    requires ParseLine(rest) == Some((tops, bottoms, t))
    ensures ParseLine(Cell(top, bottom) + rest) == Some(([top] + tops, [bottom] + bottoms, t))
  {
    CellIsNotReset(top, bottom, rest);
    ParseCellOf(top, bottom, rest);
    ParseLineStep(Cell(top, bottom) + rest, top, bottom, rest, tops, bottoms, t);
  }

  lemma LineEmpty()
    ensures Line([], []) == Reset()
  {
    assert "" + Reset() == Reset();
  }

  lemma ParseReset(t: string)
    ensures ParseLine(Reset() + t) == Some(([], [], t))
  {
    ExpectPrefix(Reset(), t);
  }

  lemma ParseLineStep(s: string, top: Vec3b, bottom: Vec3b, rest: string,
                      tops: seq<Vec3b>, bottoms: seq<Vec3b>, t: string)
    requires !(Reset() <= s) && ParseCell(s) == Some((top, bottom, rest))
    requires ParseLine(rest) == Some((tops, bottoms, t))
    ensures ParseLine(s) == Some(([top] + tops, [bottom] + bottoms, t))
  {
  }

  lemma LineCons(top: seq<Vec3b>, bottom: seq<Vec3b>, t: string)
    requires |top| == |bottom| && top != []
    ensures Line(top, bottom) + t == Cell(top[0], bottom[0]) + (Line(top[1..], bottom[1..]) + t)
  {
    var c, r := Cell(top[0], bottom[0]), Cells(top[1..], bottom[1..]);
    assert Cells(top, bottom) == c + r;
    Assoc4(c, r, Reset(), t);
  }

  lemma Assoc4(a: string, b: string, c: string, t: string)
    ensures a + b + c + t == a + (b + c + t)
  {
  }

  /** Decoding the encoded image gives back the image: no pixel, channel or
      row is lost, reordered or merged. */
  lemma {:induction false} DecodeEncode(g: Grid)
    requires Paired(g)
    ensures Decode(Encode(g)) == Some(g)
    decreases |g|
  {
    if g != [] {
      var rest := Encode(g[2..]);
      EncodeCons(g);
      ParseLineOf(g[0], g[1], rest);
      DecodeEncode(g[2..]);
      DecodeStep(Encode(g), g[0], g[1], rest, g[2..]);
      ConsPair(g);
    }
  }

  lemma DecodeStep(s: string, top: seq<Vec3b>, bottom: seq<Vec3b>, rest: string, g: Grid)
    requires ParseLine(s) == Some((top, bottom, rest)) && Decode(rest) == Some(g)
    ensures Decode(s) == Some([top, bottom] + g)
  {
  }
}
