/** The SGR escape sequences the renderer writes: `colorToString`,
    `getBackground`, `getForeground` and `reset`. They are the "select graphic
    rendition" control functions of ECMA-48 (ISO/IEC 6429), with the
    semicolon form `38;2;r;g;b` and `48;2;r;g;b` of the direct-colour
    parameters of ITU-T T.416. */
module Escapes {
  import opened Color

  const Esc: char := '\U{1B}'
  /** U+2584 LOWER HALF BLOCK: foreground colour below, background above. */
  const LowerHalfBlock: char := '\U{2584}'

  predicate IsDigit(c: char) { '0' <= c <= '9' }

  predicate AllDigits(s: string) { forall i :: 0 <= i < |s| ==> IsDigit(s[i]) }

  function DigitChar(d: nat): (c: char)
    requires d < 10
    ensures IsDigit(c) && DigitValue(c) == d
  {
    (d + '0' as int) as char
  }

  function DigitValue(c: char): (d: nat)
    requires IsDigit(c)
    ensures d < 10
  {
    c as int - '0' as int
  }

  /** The number a string of decimal digits denotes, most significant first. */
  function Value(s: string): nat
    requires AllDigits(s)
  {
    if s == [] then 0 else 10 * Value(s[..|s| - 1]) + DigitValue(s[|s| - 1])
  }

  /** `std::to_string` of a non-negative number: its decimal digits, most
      significant first, ending with the units digit. `DecDigits` and
      `DecCanonical` characterise it fully. */
  function Dec(n: nat): (s: string)
    ensures 1 <= |s| && s[|s| - 1] == DigitChar(n % 10)
    decreases n
  {
    if n < 10 then [DigitChar(n)] else Dec(n / 10) + [DigitChar(n % 10)]
  }

  /** Dec(n) is a non-empty string of decimal digits, without a leading zero,
      whose value is n. */
  lemma {:induction false} DecDigits(n: nat)
    ensures 1 <= |Dec(n)| && AllDigits(Dec(n))
    ensures Dec(n)[0] == '0' ==> Dec(n) == "0"
    ensures Value(Dec(n)) == n
    decreases n
  {
    if n >= 10 {
      DecDigits(n / 10);
      var init := Dec(n / 10);
      var s := init + [DigitChar(n % 10)];
      assert Dec(n) == s;
      assert s[..|s| - 1] == init;
      assert s[0] == init[0];
    }
  }

  /** A byte never needs more than three digits. */
  lemma {:induction false} DecByteLength(b: Byte)
    ensures |Dec(b)| <= 3
  {
    if b >= 10 {
      assert Dec(b) == Dec(b / 10) + [DigitChar(b % 10)];
      if b / 10 >= 10 {
        assert Dec(b / 10) == Dec(b / 100) + [DigitChar(b / 10 % 10)];
      }
    }
  }

  /** Dec is the only canonical decimal spelling: every digit string without
      leading zeros is Dec of its value. */
  lemma {:induction false} DecCanonical(s: string)
    requires 1 <= |s| && AllDigits(s) && (s[0] == '0' ==> s == "0")
    ensures Dec(Value(s)) == s
    decreases |s|
  {
    var n := Value(s);
    if |s| == 1 {
      assert s[..0] == [] && Value(s[..0]) == 0;
      assert n == DigitValue(s[0]);
      assert s == [DigitChar(n)];
    } else {
      var init := s[..|s| - 1];
      assert init[0] == s[0];
      ValuePositive(init);
      DecCanonical(init);
      assert n == 10 * Value(init) + DigitValue(s[|s| - 1]);
      assert n / 10 == Value(init) && n % 10 == DigitValue(s[|s| - 1]);
      assert s == init + [s[|s| - 1]];
    }
  }

  /** A digit string that starts with a non-zero digit has a positive value. */
  lemma {:induction false} ValuePositive(s: string)
    requires 1 <= |s| && AllDigits(s) && s[0] != '0'
    ensures Value(s) > 0
    decreases |s|
  {
    if |s| > 1 {
      var init := s[..|s| - 1];
      assert init[0] == s[0];
      ValuePositive(init);
    }
  }

  /** s is the canonical decimal numeral of n: digits only, no leading zero. */
  predicate Numeral(s: string, n: nat) {
    1 <= |s| && AllDigits(s) && (s[0] == '0' ==> s == "0") && Value(s) == n
  }

  /** `colorToString`: the decimal numerals of channels 0, 1 and 2, in that order. */
  function ColorToString(c: Vec3b): (r: (string, string, string))
    ensures Numeral(r.0, c.blue) && Numeral(r.1, c.green) && Numeral(r.2, c.red)
  {
    DecDigits(c.blue);
    DecDigits(c.green);
    DecDigits(c.red);
    (Dec(c.blue), Dec(c.green), Dec(c.red))
  }

  /** `getBackground`: set the background to the pixel's colour, red first. */
  function Background(c: Vec3b): (s: string)
    ensures s == [Esc] + "[48;2;" + Dec(c.red) + ";" + Dec(c.green) + ";" + Dec(c.blue) + "m"
  {
    var (b, g, r) := ColorToString(c);
    [Esc] + "[48;2;" + r + ";" + g + ";" + b + "m"
  }

  /** `getForeground`: set the foreground to the pixel's colour, red first,
      then draw the lower half block in it. */
  function Foreground(c: Vec3b): (s: string)
    ensures s == [Esc] + "[38;2;" + Dec(c.red) + ";" + Dec(c.green) + ";" + Dec(c.blue) + "m" + [LowerHalfBlock]
  {
    var (b, g, r) := ColorToString(c);
    [Esc] + "[38;2;" + r + ";" + g + ";" + b + "m" + [LowerHalfBlock]
  }

  /** A pixel stored as blue 10, green 20, red 30 is written red first. */
  lemma ChannelOrderExample()
    ensures Background(Vec3b(10, 20, 30)) == [Esc] + "[48;2;30;20;10m"
    ensures Foreground(Vec3b(40, 50, 60)) == [Esc] + "[38;2;60;50;40m" + [LowerHalfBlock]
  {
    DecTens(1); DecTens(2); DecTens(3); DecTens(4); DecTens(5); DecTens(6);
  }

  lemma DecTens(d: nat)
    requires 1 <= d < 10
    ensures Dec(10 * d) == [DigitChar(d), '0']
  {
    var n := 10 * d;
    assert n / 10 == d && n % 10 == 0;
    assert Dec(n) == Dec(d) + [DigitChar(0)];
  }

  /** `reset`: SGR 0 (all attributes off), then the end of the text line. */
  function Reset(): (s: string)
    ensures s == [Esc, '[', '0', 'm', '\n']
  {
    [Esc] + "[0m\n"
  }
}
