/**
 * Sizes of the rendered text: how often a character occurs in it, and how
 * many bytes its UTF-8 encoding takes (the unit of Rust's `String::len` and
 * `String::with_capacity`).
 */
module Measure {
  import opened Decimal
  import opened Ansi

  /** Occurrences of `c` in `s`. */
  function Count(c: char, s: string): nat {
    if s == [] then 0 else (if s[0] == c then 1 else 0) + Count(c, s[1..])
  }

  /** Bytes UTF-8 uses for one Unicode scalar value. */
  function Utf8Width(c: char): nat {
    if c as int < 0x80 then 1 else if c as int < 0x800 then 2 else if c as int < 0x1_0000 then 3 else 4
  }

  function Utf8Len(s: string): nat {
    if s == [] then 0 else Utf8Width(s[0]) + Utf8Len(s[1..])
  }

  /** The only characters the frame text is made of: ASCII and the glyph. */
  predicate TextChars(s: string) {
    forall ch :: ch in s ==> ch as int < 0x80 || ch == Glyph
  }

  /** Every line of the frame holds the same number of cells. */
  predicate Uniform(ls: seq<seq<Cell>>, width: nat) {
    forall i :: 0 <= i < |ls| ==> |ls[i]| == width
  }

  lemma {:induction false} CountConcat(ch: char, a: string, b: string)
    ensures Count(ch, a + b) == Count(ch, a) + Count(ch, b)
  {
    if a == [] {
      assert a + b == b;
    } else {
      assert (a + b)[0] == a[0];
      assert (a + b)[1..] == a[1..] + b;
      CountConcat(ch, a[1..], b);
    }
  }

  lemma {:induction false} CountAbsent(ch: char, a: string)
    requires ch !in a
    ensures Count(ch, a) == 0
  {
    if a != [] {
      assert a[0] in a;
      assert forall i :: 0 <= i < |a[1..]| ==> a[1..][i] == a[i + 1];
      CountAbsent(ch, a[1..]);
    }
  }

  lemma CountSingleton(ch: char)
    ensures Count(ch, [ch]) == 1
  {
    assert [ch][1..] == [];
  }

  lemma TextCharsConcat(a: string, b: string)
    requires TextChars(a) && TextChars(b)
    ensures TextChars(a + b)
  {
    forall ch | ch in a + b ensures ch as int < 0x80 || ch == Glyph {
      assert ch in a || ch in b;
    }
  }

  lemma TextCharsPrefix(a: string, b: string)
    requires TextChars(a + b)
    ensures TextChars(a)
  {
    forall ch | ch in a ensures ch as int < 0x80 || ch == Glyph {
      assert ch in a + b;
    }
  }

  lemma PrefixMeasure()
    ensures TextChars(Prefix) && Count(Glyph, Prefix) == 0 && Count('\n', Prefix) == 0
  {
    CountAbsent(Glyph, Prefix);
    CountAbsent('\n', Prefix);
  }

  /** ASCII takes one byte, the glyph three. */
  lemma {:induction false} Utf8LenOfText(s: string)
    requires TextChars(s)
    ensures Utf8Len(s) == |s| + 2 * Count(Glyph, s)
  {
    if s != [] {
      assert s == [s[0]] + s[1..];
      assert s[0] in s;
      assert TextChars(s[1..]) by {
        forall ch | ch in s[1..] ensures ch as int < 0x80 || ch == Glyph {
          assert ch in s;
        }
      }
      Utf8LenOfText(s[1..]);
    }
  }

  /** A string of ASCII characters takes one byte per character. */
  lemma {:induction false} Utf8LenAscii(s: string)
    requires forall i :: 0 <= i < |s| ==> s[i] as int < 0x80
    ensures Utf8Len(s) == |s|
  {
    if s != [] {
      Utf8LenAscii(s[1..]);
    }
  }

  lemma DecChars(n: nat)
    ensures forall ch :: ch in Dec(n) ==> IsDigit(ch)
  {
    DecDigits(n);
  }

  /** A colour command is ASCII, holds no glyph and no line break, and has 13 to 19 characters. */
  lemma SgrMeasure(code: string, col: Rgb)
    requires code == Foreground || code == Background
    ensures TextChars(Sgr(code, col)) && Glyph !in Sgr(code, col) && '\n' !in Sgr(code, col)
    ensures 13 <= |Sgr(code, col)| <= 19
  {
    var h, r, g, b := SgrHead(code), Dec(col.r), Dec(col.g), Dec(col.b);
    assert Sgr(code, col) == h + r + ";" + g + ";" + b + "m";
    DecChars(col.r);
    DecChars(col.g);
    DecChars(col.b);
    ByteDecLength(col.r);
    ByteDecLength(col.g);
    ByteDecLength(col.b);
  }

  lemma CellGlyphs(c: Cell)
    ensures Count(Glyph, CellText(c)) == 1
  {
    var f, b := Sgr(Foreground, c.fg), Sgr(Background, c.bg);
    SgrMeasure(Foreground, c.fg);
    SgrMeasure(Background, c.bg);
    CountAbsent(Glyph, f);
    CountAbsent(Glyph, b);
    CountConcat(Glyph, f, b);
    CountSingleton(Glyph);
    CountConcat(Glyph, f + b, [Glyph]);
  }

  lemma CellChars(c: Cell)
    ensures TextChars(CellText(c)) && '\n' !in CellText(c)
  {
    var f, b := Sgr(Foreground, c.fg), Sgr(Background, c.bg);
    SgrMeasure(Foreground, c.fg);
    SgrMeasure(Background, c.bg);
    TextCharsConcat(f, b);
    TextCharsConcat(f + b, [Glyph]);
  }

  lemma CellLength(c: Cell)
    ensures |CellText(c)| <= 39
  {
    SgrMeasure(Foreground, c.fg);
    SgrMeasure(Background, c.bg);
  }

  lemma CellMeasure(c: Cell)
    ensures Count(Glyph, CellText(c)) == 1
    ensures Utf8Len(CellText(c)) <= 41
  {
    CellGlyphs(c);
    CellChars(c);
    CellLength(c);
    Utf8LenOfText(CellText(c));
  }

  lemma {:induction false} CellsGlyphs(cs: seq<Cell>)
    ensures Count(Glyph, CellsText(cs)) == |cs|
  {
    if cs != [] {
      CellGlyphs(cs[0]);
      CellsGlyphs(cs[1..]);
      CountConcat(Glyph, CellText(cs[0]), CellsText(cs[1..]));
    }
  }

  lemma {:induction false} CellsChars(cs: seq<Cell>)
    ensures TextChars(CellsText(cs)) && '\n' !in CellsText(cs)
  {
    if cs != [] {
      CellChars(cs[0]);
      CellsChars(cs[1..]);
      TextCharsConcat(CellText(cs[0]), CellsText(cs[1..]));
    }
  }

  lemma {:induction false} CellsLength(cs: seq<Cell>)
    ensures |CellsText(cs)| <= 39 * |cs|
  {
    if cs != [] {
      CellLength(cs[0]);
      CellsLength(cs[1..]);
    }
  }

  lemma SuffixMeasure()
    ensures TextChars(Suffix) && Count(Glyph, Suffix) == 0 && Count('\n', Suffix) == 1
  {
    CountAbsent(Glyph, Suffix);
    CountAbsent('\n', Reset);
    CountSingleton('\n');
    CountConcat('\n', Reset, ['\n']);
  }

  lemma MulSucc(a: nat, n: nat)
    ensures a * (n + 1) == a + a * n
  {
  }

  lemma UniformTail(ls: seq<seq<Cell>>, width: nat)
    requires Uniform(ls, width) && ls != []
    ensures Uniform(ls[1..], width)
  {
    forall i | 0 <= i < |ls[1..]| ensures |ls[1..][i]| == width {
      assert ls[1..][i] == ls[i + 1];
    }
  }

  /** Each line contributes `width` glyphs. */
  lemma {:induction false} LinesGlyphs(ls: seq<seq<Cell>>, width: nat)
    requires Uniform(ls, width)
    ensures Count(Glyph, LinesText(ls)) == width * |ls|
  {
    if ls != [] {
      var a, b := CellsText(ls[0]), LinesText(ls[1..]);
      CellsGlyphs(ls[0]);
      UniformTail(ls, width);
      LinesGlyphs(ls[1..], width);
      SuffixMeasure();
      CountConcat(Glyph, a, Suffix);
      CountConcat(Glyph, a + Suffix, b);
      MulSucc(width, |ls| - 1);
    }
  }

  /** Each line ends in exactly one line break. */
  lemma {:induction false} LinesBreaks(ls: seq<seq<Cell>>)
    ensures Count('\n', LinesText(ls)) == |ls|
  {
    if ls != [] {
      var a, b := CellsText(ls[0]), LinesText(ls[1..]);
      CellsChars(ls[0]);
      LinesBreaks(ls[1..]);
      SuffixMeasure();
      CountAbsent('\n', a);
      CountConcat('\n', a, Suffix);
      CountConcat('\n', a + Suffix, b);
    }
  }

  lemma {:induction false} LinesChars(ls: seq<seq<Cell>>)
    ensures TextChars(LinesText(ls))
  {
    if ls != [] {
      var a, b := CellsText(ls[0]), LinesText(ls[1..]);
      CellsChars(ls[0]);
      LinesChars(ls[1..]);
      SuffixMeasure();
      TextCharsConcat(a, Suffix);
      TextCharsConcat(a + Suffix, b);
    }
  }

  lemma {:induction false} LinesLength(ls: seq<seq<Cell>>, width: nat)
    requires Uniform(ls, width)
    ensures |LinesText(ls)| <= (39 * width + 5) * |ls|
  {
    if ls != [] {
      CellsLength(ls[0]);
      UniformTail(ls, width);
      LinesLength(ls[1..], width);
      MulSucc(39 * width + 5, |ls| - 1);
    }
  }

  /** The rendered frame holds `width` glyphs per line. */
  lemma RenderGlyphs(ls: seq<seq<Cell>>, width: nat)
    requires Uniform(ls, width)
    requires ls != []
    ensures Count(Glyph, Render(ls)) == width * |ls|
  {
    var j := JoinedLines(ls);
    RenderNonEmpty(ls);
    LinesTextIsJoinedPlusNewline(ls);
    LinesGlyphs(ls, width);
    PrefixMeasure();
    CountAbsent(Glyph, ['\n']);
    CountConcat(Glyph, j, ['\n']);
    CountConcat(Glyph, Prefix, j);
  }

  /** The rendered frame holds one line break fewer than it has lines. */
  lemma RenderBreaks(ls: seq<seq<Cell>>)
    requires ls != []
    ensures Count('\n', Render(ls)) == |ls| - 1
  {
    var j := JoinedLines(ls);
    RenderNonEmpty(ls);
    LinesTextIsJoinedPlusNewline(ls);
    LinesBreaks(ls);
    PrefixMeasure();
    CountSingleton('\n');
    CountConcat('\n', j, ['\n']);
    CountConcat('\n', Prefix, j);
  }

  /**
   * The rendered frame takes at most 41 bytes per cell plus the prefix and
   * the suffixes, less the popped line break.
   */
  lemma RenderBytes(ls: seq<seq<Cell>>, width: nat)
    requires Uniform(ls, width)
    requires ls != []
    ensures Utf8Len(Render(ls)) <= 3 + (41 * width + 5) * |ls| - 1
  {
    var j := JoinedLines(ls);
    RenderNonEmpty(ls);
    LinesTextIsJoinedPlusNewline(ls);
    RenderGlyphs(ls, width);
    LinesChars(ls);
    LinesLength(ls, width);
    PrefixMeasure();
    TextCharsPrefix(j, ['\n']);
    TextCharsConcat(Prefix, j);
    Utf8LenOfText(Render(ls));
    BytesArithmetic(width, |ls|, |LinesText(ls)|, Utf8Len(Render(ls)));
  }

  lemma BytesArithmetic(w: nat, k: nat, n: nat, u: nat)
    requires n <= (39 * w + 5) * k
    requires u == |Prefix| + (n - 1) + 2 * (w * k)
    ensures u <= 3 + (41 * w + 5) * k - 1
  {
    assert (39 * w + 5) * k + 2 * (w * k) == (41 * w + 5) * k;
  }
}
