/**
 * Rendering numbers for a 4-digit 7-segment panel: the driver's font table,
 * the decimal text JavaScript's `toString` gives for an integer, the four
 * segment bytes `showInteger` and `showFloat1` store, and what a reader of
 * the panel sees in them.
 */
module Segments {
  import opened JsNumber

  datatype Option<T> = None | Some(value: T)

  /** The `font` table: bits 0..6 are segments a..g. */
  const FontTable: map<char, Byte> :=
    map['0' := 0x3f, '1' := 0x06, '2' := 0x5b, '3' := 0x4f, '4' := 0x66,
        '5' := 0x6d, '6' := 0x7d, '7' := 0x07, '8' := 0x7f, '9' := 0x6f,
        '-' := 0x40, ' ' := 0x00]

  /** Bit 7 of a segment byte: the decimal point after the digit. */
  const DotBit: Byte := 0x80

  /** `font[ch] !== undefined ? font[ch] : 0x00`. */
  function Glyph(c: char): (g: Byte)
    ensures g < DotBit
  {
    if c in FontTable then FontTable[c] else 0x00
  }

  function HasDot(seg: Byte): bool
  {
    seg >= DotBit
  }

  /** The character a reader sees in one cell, ignoring its decimal point; '?' for no font glyph. */
  function CharOf(seg: Byte): char
  {
    var s := seg % 0x80;
    if s == 0x3f then '0' else if s == 0x06 then '1' else if s == 0x5b then '2'
    else if s == 0x4f then '3' else if s == 0x66 then '4' else if s == 0x6d then '5'
    else if s == 0x7d then '6' else if s == 0x07 then '7' else if s == 0x7f then '8'
    else if s == 0x6f then '9' else if s == 0x40 then '-' else if s == 0x00 then ' '
    else '?'
  }

  /** The text a reader sees on the panel: each cell's character, '.' after a lit decimal point. */
  function Shown(segs: seq<Byte>): string
  {
    if segs == [] then ""
    else [CharOf(segs[0])] + (if HasDot(segs[0]) then "." else "") + Shown(segs[1..])
  }

  function Spaces(k: nat): (s: string)
    ensures |s| == k && forall i :: 0 <= i < k ==> s[i] == ' '
  {
    seq(k, _ => ' ')
  }

  /** k blank cells, what `buf.unshift(0x00)` adds. */
  function Blanks(k: nat): (b: seq<Byte>)
    ensures |b| == k && forall i :: 0 <= i < k ==> b[i] == 0x00
  {
    seq(k, _ => 0x00)
  }

  function Glyphs(s: string): (g: seq<Byte>)
    ensures |g| == |s| && forall i :: 0 <= i < |s| ==> g[i] == Glyph(s[i])
  {
    seq(|s|, i requires 0 <= i < |s| => Glyph(s[i]))
  }

  // ---------------------------------------------------------------------
  // Decimal text of an integer

  function IsDigit(c: char): bool
  {
    '0' <= c <= '9'
  }

  function DigitChar(d: int): (c: char)
    requires 0 <= d < 10
    ensures IsDigit(c)
  {
    ('0' as int + d) as char
  }

  function DigitValue(c: char): int
    requires IsDigit(c)
  {
    c as int - '0' as int
  }

  /** The decimal digits of n, most significant first, with no leading zero. */
  function Digits(n: nat): (s: string)
    ensures |s| >= 1
    ensures forall i :: 0 <= i < |s| ==> IsDigit(s[i])
  {
    if n < 10 then [DigitChar(n)] else Digits(n / 10) + [DigitChar(n % 10)]
  }

  /** `Number.prototype.toString` on an integer: an optional '-' and the digits. */
  function DecimalString(n: int): string
  {
    if n < 0 then "-" + Digits(-n) else Digits(n)
  }

  function AllDigits(s: string): bool
  {
    forall i :: 0 <= i < |s| ==> IsDigit(s[i])
  }

  function ParseDigits(s: string): nat
    requires AllDigits(s)
  {
    if s == [] then 0 else 10 * ParseDigits(s[..|s| - 1]) + DigitValue(s[|s| - 1])
  }

  /** Reads a decimal integer back: an optional '-' followed by at least one digit. */
  function ParseDecimal(s: string): Option<int>
  {
    if |s| > 1 && s[0] == '-' && AllDigits(s[1..]) then Some(0 - ParseDigits(s[1..]) as int)
    else if |s| > 0 && AllDigits(s) then Some(ParseDigits(s))
    else None
  }

  function Pow10(k: nat): nat
  {
    if k == 0 then 1 else 10 * Pow10(k - 1)
  }

  /** Drops the leading blanks a reader ignores. */
  function TrimSpaces(s: string): string
  {
    if s != [] && s[0] == ' ' then TrimSpaces(s[1..]) else s
  }

  // ---------------------------------------------------------------------
  // The two renderers

  /** The text `showInteger` draws from: `Math.floor(num).toString()`, cut to its first four characters. */
  function IntegerText(num: real): (s: string)
    ensures |s| <= 4
  {
    var s := DecimalString(num.Floor);
    if |s| > 4 then s[..4] else s
  }

  /** The four bytes `showInteger(num)` stores in gram[0..4]: the text's glyphs, left-padded with blanks. */
  function IntegerSegments(num: real): (segs: seq<Byte>)
    ensures |segs| == 4
  {
    var s := IntegerText(num);
    Blanks(4 - |s|) + Glyphs(s)
  }

  /** `Math.idiv(n10, 10)`. */
  function IntPart(n10: int): int
  {
    IDiv(n10, 10)
  }

  /** `Math.abs(n10 % 10)`. */
  function FracDigit(n10: int): (d: int)
    ensures 0 <= d < 10
  {
    AbsRem(n10, 10)
  }

  /** `buf[buf.length - 1] |= 0x80` when buf is not empty. */
  function WithDot(buf: seq<Byte>): (r: seq<Byte>)
    ensures |r| == |buf|
  {
    if buf == [] then buf else buf[..|buf| - 1] + [OrByte(buf[|buf| - 1], DotBit)]
  }

  /**
   * The cells `showFloat1` builds before padding: the integer part's glyphs
   * with the decimal point on the last one, then the fraction digit.
   */
  function Float1Cells(n10: int): seq<Byte>
  {
    WithDot(Glyphs(DecimalString(IntPart(n10)))) + [Glyph(DigitChar(FracDigit(n10)))]
  }

  /** Left-pad with blanks to four cells, then keep the last four. */
  function LastFour(buf: seq<Byte>): (r: seq<Byte>)
    ensures |r| == 4
  {
    if |buf| >= 4 then buf[|buf| - 4..] else Blanks(4 - |buf|) + buf
  }

  /** The four bytes `showFloat1` stores in gram[0..4] for the rounded tenths n10. */
  function Float1Segments(n10: int): (segs: seq<Byte>)
    ensures |segs| == 4
  {
    LastFour(Float1Cells(n10))
  }

  /** Exactly three integer-part characters: the last three, or blank-padded on the left. */
  function LastThree(s: string): (r: string)
    ensures |r| == 3
  {
    if |s| >= 3 then s[|s| - 3..] else Spaces(3 - |s|) + s
  }

  // ---------------------------------------------------------------------
  // Font

  /** Every character of the font reads back as itself on the panel. */
  lemma GlyphReadsBack(c: char)
    requires c in FontTable
    ensures CharOf(Glyph(c)) == c
    ensures !HasDot(Glyph(c))
  {
  }

  /** Distinct characters of the font light distinct segments. */
  lemma GlyphInjective(c: char, d: char)
    requires c in FontTable && d in FontTable
    requires Glyph(c) == Glyph(d)
    ensures c == d
  {
    GlyphReadsBack(c);
    GlyphReadsBack(d);
  }

  /** Setting the decimal point leaves the digit a reader sees unchanged. */
  lemma DotKeepsChar(g: Byte)
    requires g < DotBit
    ensures HasDot(OrByte(g, DotBit))
    ensures CharOf(OrByte(g, DotBit)) == CharOf(g)
  {
    OrDotAdds(g);
    DivModUnique(g + DotBit, 0x80, 1, g);
    DivModUnique(g, 0x80, 0, g);
  }

  // ---------------------------------------------------------------------
  // Decimal text

  lemma {:induction false} ParseDigitsRoundTrip(n: nat)
    ensures ParseDigits(Digits(n)) == n
  {
    if n >= 10 {
      ParseDigitsRoundTrip(n / 10);
      var s := Digits(n);
      assert s[..|s| - 1] == Digits(n / 10);
    }
  }

  /** Parsing the decimal text of an integer gives the integer back. */
  lemma DecimalRoundTrip(n: int)
    ensures ParseDecimal(DecimalString(n)) == Some(n)
  {
    var s := DecimalString(n);
    if n < 0 {
      assert s[1..] == Digits(-n);
      ParseDigitsRoundTrip(-n);
    } else {
      ParseDigitsRoundTrip(n);
    }
  }

  /** Every character of the decimal text has a glyph, and none is a blank or a point. */
  lemma DecimalChars(n: int)
    ensures |DecimalString(n)| >= 1
    ensures forall i :: 0 <= i < |DecimalString(n)| ==>
              DecimalString(n)[i] in FontTable && DecimalString(n)[i] != ' ' && DecimalString(n)[i] != '.'
  {
    var s := DecimalString(n);
    forall i | 0 <= i < |s|
      ensures s[i] in FontTable && s[i] != ' ' && s[i] != '.'
    {
      if n >= 0 || i > 0 {
        var d := if n < 0 then Digits(-n) else Digits(n);
        var j := if n < 0 then i - 1 else i;
        assert s[i] == d[j] && IsDigit(d[j]);
        DigitInFont(d[j]);
      }
    }
  }

  lemma DigitInFont(c: char)
    requires IsDigit(c)
    ensures c in FontTable
  {
    var v := c as int - '0' as int;
    assert 0 <= v <= 9;
    assert c == DigitChar(v);
  }

  /** The text of a natural number has at most k characters exactly when the number is below 10^k. */
  lemma {:induction false} DigitsLength(n: nat, k: nat)
    requires k >= 1
    ensures |Digits(n)| <= k <==> n < Pow10(k)
  {
    Pow10AtLeastTen(k);
    if n >= 10 {
      if k == 1 {
        assert Pow10(1) == 10;
      } else {
        DigitsLength(n / 10, k - 1);
        assert n < 10 * Pow10(k - 1) <==> n / 10 < Pow10(k - 1);
      }
    }
  }

  lemma {:induction false} Pow10AtLeastTen(k: nat)
    requires k >= 1
    ensures Pow10(k) >= 10
  {
    if k > 1 {
      Pow10AtLeastTen(k - 1);
    }
  }

  /** `showInteger` keeps all of the text exactly for -999..9999; beyond that it cuts. */
  lemma DecimalFitsFour(n: int)
    ensures |DecimalString(n)| <= 4 <==> -999 <= n <= 9999
  {
    assert Pow10(3) == 1000 && Pow10(4) == 10000;
    if n < 0 {
      DigitsLength(-n, 3);
    } else {
      DigitsLength(n, 4);
    }
  }

  // ---------------------------------------------------------------------
  // What the panel shows

  lemma {:induction false} ShownAppend(a: seq<Byte>, b: seq<Byte>)
    ensures Shown(a + b) == Shown(a) + Shown(b)
  {
    if a != [] {
      assert (a + b)[1..] == a[1..] + b;
      ShownAppend(a[1..], b);
    } else {
      assert a + b == b;
    }
  }

  lemma {:induction false} ShownBlanks(k: nat)
    ensures Shown(Blanks(k)) == Spaces(k)
  {
    if k > 0 {
      assert Blanks(k)[1..] == Blanks(k - 1);
      ShownBlanks(k - 1);
      assert Spaces(k) == [' '] + Spaces(k - 1);
    }
  }

  /** Glyphs of font characters read back as the characters, with no decimal points. */
  lemma {:induction false} ShownGlyphs(s: string)
    requires forall i :: 0 <= i < |s| ==> s[i] in FontTable
    ensures Shown(Glyphs(s)) == s
    decreases |s|
  {
    if s != [] {
      GlyphReadsBack(s[0]);
      assert Glyphs(s)[1..] == Glyphs(s[1..]);
      ShownGlyphs(s[1..]);
      assert s == [s[0]] + s[1..];
    }
  }

  /** The same text with a point lit on its last cell reads back with a '.' after it. */
  lemma ShownWithDot(s: string)
    requires |s| >= 1
    requires forall i :: 0 <= i < |s| ==> s[i] in FontTable
    ensures Shown(WithDot(Glyphs(s))) == s + "."
  {
    var n := |s| - 1;
    var g := Glyphs(s);
    assert WithDot(g) == Glyphs(s[..n]) + [OrByte(Glyph(s[n]), DotBit)];
    ShownAppend(Glyphs(s[..n]), [OrByte(Glyph(s[n]), DotBit)]);
    ShownGlyphs(s[..n]);
    GlyphReadsBack(s[n]);
    DotKeepsChar(Glyph(s[n]));
    assert Shown([OrByte(Glyph(s[n]), DotBit)]) == [s[n]] + ".";
    assert s == s[..n] + [s[n]];
  }

  /**
   * `showInteger(num)` shows the first four characters of the decimal text
   * of floor(num), right-aligned behind blank cells, with no decimal point.
   */
  lemma IntegerShown(num: real)
    ensures Shown(IntegerSegments(num)) == Spaces(4 - |IntegerText(num)|) + IntegerText(num)
    ensures IntegerText(num) == DecimalString(num.Floor)[..if |DecimalString(num.Floor)| > 4 then 4 else |DecimalString(num.Floor)|]
  {
    var s := IntegerText(num);
    DecimalChars(num.Floor);
    ShownAppend(Blanks(4 - |s|), Glyphs(s));
    ShownBlanks(4 - |s|);
    ShownGlyphs(s);
  }

  lemma {:induction false} TrimSpacesPrefix(k: nat, s: string)
    requires s != [] && s[0] != ' '
    ensures TrimSpaces(Spaces(k) + s) == s
  {
    if k > 0 {
      assert (Spaces(k) + s)[1..] == Spaces(k - 1) + s;
      TrimSpacesPrefix(k - 1, s);
    } else {
      assert Spaces(0) + s == s;
    }
  }

  /**
   * For floor(num) in -999..9999 a reader of the panel, ignoring the leading
   * blanks, reads exactly floor(num).
   */
  lemma IntegerReadsBack(num: real)
    requires -999 <= num.Floor <= 9999
    ensures ParseDecimal(TrimSpaces(Shown(IntegerSegments(num)))) == Some(num.Floor)
  {
    DecimalFitsFour(num.Floor);
    IntegerShown(num);
    DecimalChars(num.Floor);
    TrimSpacesPrefix(4 - |IntegerText(num)|, IntegerText(num));
    DecimalRoundTrip(num.Floor);
  }

  lemma IntegerExamples()
    ensures IntegerSegments(7.0) == [0x00, 0x00, 0x00, 0x07]
    ensures IntegerSegments(1234.0) == [0x06, 0x5b, 0x4f, 0x66]
    ensures IntegerSegments(12345.0) == [0x06, 0x5b, 0x4f, 0x66]
    ensures IntegerSegments(-3.0) == [0x00, 0x00, 0x40, 0x4f]
  {
    assert (7.0).Floor == 7 && DecimalString(7) == "7";
    assert IntegerText(7.0) == "7";
    assert Glyph('7') == 0x07;
    assert DecimalString(1234) == "1234";
    assert DecimalString(12345) == "12345";
    assert DecimalString(-3) == "-3";
  }

  // ---------------------------------------------------------------------
  // showFloat1

  lemma WithDotSuffix(s: string, a: nat)
    requires a < |s|
    ensures WithDot(Glyphs(s))[a..] == WithDot(Glyphs(s[a..]))
  {
    var n := |s| - 1;
    assert WithDot(Glyphs(s)) == Glyphs(s)[..n] + [OrByte(Glyph(s[n]), DotBit)];
    assert WithDot(Glyphs(s[a..])) == Glyphs(s[a..])[..n - a] + [OrByte(Glyph(s[n]), DotBit)];
  }

  /** The integer part's decimal point is lit on the cell of its last character. */
  lemma Float1CellsShape(n10: int)
    ensures |Float1Cells(n10)| == |DecimalString(IntPart(n10))| + 1
  {
    DecimalChars(IntPart(n10));
  }

  /**
   * `showFloat1` shows exactly three cells of integer part (its last three
   * characters, or the whole text blank-padded on the left), a '.', and the
   * fraction digit: the point and the fraction are never lost, leading
   * integer characters are.
   */
  lemma Float1Shown(n10: int)
    ensures Shown(Float1Segments(n10)) ==
            LastThree(DecimalString(IntPart(n10))) + "." + [DigitChar(FracDigit(n10))]
  {
    var t := DecimalString(IntPart(n10));
    var d := DigitChar(FracDigit(n10));
    DecimalChars(IntPart(n10));
    DigitInFont(d);
    if |t| >= 3 {
      PointCellsShownLong(t, d);
    } else {
      PointCellsShownShort(t, d);
    }
  }

  lemma PointCellsShownLong(t: string, d: char)
    requires |t| >= 3 && d in FontTable
    requires forall i :: 0 <= i < |t| ==> t[i] in FontTable
    ensures Shown(LastFour(WithDot(Glyphs(t)) + [Glyph(d)])) == t[|t| - 3..] + "." + [d]
  {
    var a := |t| - 3;
    var g := [Glyph(d)];
    var cells := WithDot(Glyphs(t)) + g;
    assert LastFour(cells) == WithDot(Glyphs(t))[a..] + g;
    WithDotSuffix(t, a);
    ShownAppend(WithDot(Glyphs(t[a..])), g);
    ShownWithDot(t[a..]);
    GlyphReadsBack(d);
    assert Shown(g) == [d];
  }

  lemma PointCellsShownShort(t: string, d: char)
    requires 1 <= |t| < 3 && d in FontTable
    requires forall i :: 0 <= i < |t| ==> t[i] in FontTable
    ensures Shown(LastFour(WithDot(Glyphs(t)) + [Glyph(d)])) == Spaces(3 - |t|) + t + "." + [d]
  {
    var g := [Glyph(d)];
    var w := WithDot(Glyphs(t));
    var k := 3 - |t|;
    assert LastFour(w + g) == Blanks(k) + (w + g);
    ShownAppend(Blanks(k), w + g);
    ShownAppend(w, g);
    ShownBlanks(k);
    ShownWithDot(t);
    GlyphReadsBack(d);
    assert Shown(g) == [d];
    assert Shown(LastFour(w + g)) == Spaces(k) + ((t + ".") + [d]);
  }

  /**
   * Cell by cell: gram[2] always carries the decimal point, gram[3] is the
   * fraction digit, and no other cell has a point.
   */
  lemma Float1Layout(n10: int)
    ensures HasDot(Float1Segments(n10)[2])
    ensures !HasDot(Float1Segments(n10)[0]) && !HasDot(Float1Segments(n10)[1]) && !HasDot(Float1Segments(n10)[3])
    ensures Float1Segments(n10)[3] == Glyph(DigitChar(FracDigit(n10)))
  {
    DecimalChars(IntPart(n10));
    PointCellsLayout(Glyphs(DecimalString(IntPart(n10))), Glyph(DigitChar(FracDigit(n10))));
  }

  lemma PointCellsLayout(gs: seq<Byte>, g: Byte)
    requires |gs| >= 1 && g < DotBit
    requires forall i :: 0 <= i < |gs| ==> gs[i] < DotBit
    ensures var segs := LastFour(WithDot(gs) + [g]);
            HasDot(segs[2]) && !HasDot(segs[0]) && !HasDot(segs[1]) && segs[3] == g
  {
    var n := |gs| - 1;
    var cells := WithDot(gs) + [g];
    DotKeepsChar(gs[n]);
    assert HasDot(cells[n]) && cells[n + 1] == g;
    assert forall i :: 0 <= i < n ==> cells[i] == gs[i];
    var segs := LastFour(cells);
    if |cells| >= 4 {
      assert segs[2] == cells[n] && segs[3] == cells[n + 1];
      assert segs[0] == cells[n - 2] && segs[1] == cells[n - 1];
    } else {
      var k := 4 - |cells|;
      assert segs == Blanks(k) + cells;
      assert segs[2] == cells[n] && segs[3] == cells[n + 1];
      assert segs[0] == 0x00;
      assert k == 1 ==> segs[1] == cells[0];
    }
  }

  /**
   * For n10 within 32 bits, the integer part and the fraction digit put
   * back together give n10: intPart * 10 plus the digit, with n10's sign.
   */
  lemma Float1Decomposes(n10: int)
    requires -TwoTo31 <= n10 < TwoTo31
    ensures n10 == 10 * IntPart(n10) + (if n10 < 0 then -FracDigit(n10) else FracDigit(n10))
    ensures (IntPart(n10) < 0 ==> n10 < 0) && (n10 <= -10 ==> IntPart(n10) < 0)
  {
  }

  /**
   * The sign of a value strictly between -1 and 0 is lost: `Math.idiv` gives
   * the integer part 0, so -0.5 (n10 = -5) renders exactly as 0.5.
   */
  lemma Float1SignLostNearZero(n10: int)
    requires -9 <= n10 <= -1
    ensures Float1Segments(n10) == Float1Segments(-n10)
    ensures Shown(Float1Segments(n10)) == "  0." + [DigitChar(-n10)]
  {
    assert IntPart(n10) == 0 && IntPart(-n10) == 0;
    assert FracDigit(n10) == -n10 == FracDigit(-n10);
    Float1Shown(n10);
    assert DecimalString(0) == "0";
    assert LastThree("0") == "  0";
  }

  lemma Float1Examples()
    ensures Float1Segments(35) == [0x00, 0x00, 0xcf, 0x6d]
    ensures Float1Segments(1234) == [0x06, 0x5b, 0xcf, 0x66]
    ensures Float1Segments(12345) == [0x5b, 0x4f, 0xe6, 0x6d]
    ensures Float1Segments(-15) == [0x00, 0x40, 0x86, 0x6d]
  {
    Float1OneDigit();
    Float1ThreeDigits();
    Float1FourDigits();
    Float1Negative();
  }

  lemma Float1SegmentsFrom(n10: int, t: string, f: int)
    requires DecimalString(IntPart(n10)) == t && FracDigit(n10) == f
    ensures Float1Segments(n10) == LastFour(WithDot(Glyphs(t)) + [Glyph(DigitChar(f))])
  {
  }

  /** 3.5 shows as "  3.5". */
  lemma Float1OneDigit()
    ensures Float1Segments(35) == [0x00, 0x00, 0xcf, 0x6d]
  {
    assert IntPart(35) == 3 && FracDigit(35) == 5;
    assert DecimalString(3) == "3";
    Float1SegmentsFrom(35, "3", 5);
    OrDotAdds(0x4f);
    assert WithDot(Glyphs("3")) == [0xcf];
    assert Glyph(DigitChar(5)) == Glyph('5');
  }

  /** 123.4 shows as "123.4". */
  lemma Float1ThreeDigits()
    ensures Float1Segments(1234) == [0x06, 0x5b, 0xcf, 0x66]
  {
    assert IntPart(1234) == 123 && FracDigit(1234) == 4;
    assert DecimalString(123) == "123";
    Float1SegmentsFrom(1234, "123", 4);
    OrDotAdds(0x4f);
    assert WithDot(Glyphs("123")) == [0x06, 0x5b, 0xcf];
    assert Glyph(DigitChar(4)) == Glyph('4');
  }

  /** 1234.5 loses its leading '1': "234.5". */
  lemma Float1FourDigits()
    ensures Float1Segments(12345) == [0x5b, 0x4f, 0xe6, 0x6d]
  {
    assert IntPart(12345) == 1234 && FracDigit(12345) == 5;
    assert DecimalString(1234) == "1234";
    Float1SegmentsFrom(12345, "1234", 5);
    OrDotAdds(0x66);
    assert WithDot(Glyphs("1234")) == [0x06, 0x5b, 0x4f, 0xe6];
    assert Glyph(DigitChar(5)) == Glyph('5');
  }

  /** -1.5 shows as " -1.5". */
  lemma Float1Negative()
    ensures Float1Segments(-15) == [0x00, 0x40, 0x86, 0x6d]
  {
    assert IntPart(-15) == -1 && FracDigit(-15) == 5;
    assert DecimalString(-1) == "-1";
    Float1SegmentsFrom(-15, "-1", 5);
    OrDotAdds(0x06);
    assert WithDot(Glyphs("-1")) == [0x40, 0x86];
    assert Glyph(DigitChar(5)) == Glyph('5');
  }
}
