/**
 * A reader for the frame text: it recovers the cells, line by line, from
 * what the encoder writes. It is the inverse the encoder's output format is
 * checked against.
 */
module AnsiParse {
  import opened Wrappers
  import opened Decimal
  import opened Ansi

  /** The rest of `s` after `lit`, if `s` starts with `lit`. */
  function Expect(lit: string, s: string): (r: Option<string>)
    ensures r.Some? ==> |r.value| == |s| - |lit| && s == lit + r.value
  {
    if lit <= s then Some(s[|lit|..]) else None
  }

  /** The length of the run of digits `s` starts with. */
  function LeadingDigits(s: string): (k: nat)
    ensures k <= |s|
    ensures forall i :: 0 <= i < k ==> IsDigit(s[i])
    ensures k < |s| ==> !IsDigit(s[k])
  {
    if s != [] && IsDigit(s[0]) then 1 + LeadingDigits(s[1..]) else 0
  }

  /** A byte in decimal: the longest run of digits, if it denotes at most 255. */
  function ParseByte(s: string): (r: Option<(byte, string)>)
    ensures r.Some? ==> |r.value.1| < |s|
  {
    var k := LeadingDigits(s);
    if k == 0 then None
    else
      var v := DecValue(s[..k]);
      if v < 256 then Some((v as byte, s[k..])) else None
  }

  function ParseSgr(code: string, s: string): (r: Option<(Rgb, string)>)
    ensures r.Some? ==> |r.value.1| < |s|
  {
    var s1 :- Expect(SgrHead(code), s);
    var (red, s2) :- ParseByte(s1);
    var s3 :- Expect(";", s2);
    var (green, s4) :- ParseByte(s3);
    var s5 :- Expect(";", s4);
    var (blue, s6) :- ParseByte(s5);
    var s7 :- Expect("m", s6);
    Some((Rgb(red, green, blue), s7))
  }

  function ParseCell(s: string): (r: Option<(Cell, string)>)
    ensures r.Some? ==> |r.value.1| < |s|
  {
    var (fg, s1) :- ParseSgr(Foreground, s);
    var (bg, s2) :- ParseSgr(Background, s1);
    var s3 :- Expect([Glyph], s2);
    Some((Cell(fg, bg), s3))
  }

  /** Cells up to the reset that ends the line; the reset is left in place. */
  function ParseCells(s: string): (r: Option<(seq<Cell>, string)>)
    ensures r.Some? ==> |r.value.1| <= |s|
    decreases |s|
  {
    if Reset <= s then Some(([], s))
    else
      var (c, s1) :- ParseCell(s);
      var (cs, s2) :- ParseCells(s1);
      Some(([c] + cs, s2))
  }

  /** Lines, each ended by a reset, separated by line breaks. */
  function ParseLines(s: string): Option<seq<seq<Cell>>>
    decreases |s|
  {
    var (cs, s1) :- ParseCells(s);
    var s2 :- Expect(Reset, s1);
    if s2 == [] then Some([cs])
    else
      var s3 :- Expect(['\n'], s2);
      var ls :- ParseLines(s3);
      Some([cs] + ls)
  }

  /** A whole frame: the cursor-home prefix, then the lines. */
  function ParseFrame(s: string): Option<seq<seq<Cell>>> {
    var s1 :- Expect(Prefix, s);
    ParseLines(s1)
  }

  lemma ExpectPrefix(lit: string, t: string)
    ensures Expect(lit, lit + t) == Some(t)
  {
    assert lit <= lit + t;
    assert (lit + t)[|lit|..] == t;
  }

  lemma {:induction false} LeadingDigitsOf(d: string, t: string)
    requires AllDigits(d)
    requires t == [] || !IsDigit(t[0])
    ensures LeadingDigits(d + t) == |d|
  {
    if d != [] {
      assert (d + t)[1..] == d[1..] + t;
      LeadingDigitsOf(d[1..], t);
    } else {
      assert d + t == t;
    }
  }

  lemma ParseByteRoundTrip(b: byte, t: string)
    requires t == [] || !IsDigit(t[0])
    ensures ParseByte(Dec(b) + t) == Some((b, t))
  {
    var d := Dec(b);
    DecDigits(b);
    LeadingDigitsOf(d, t);
    assert (d + t)[..|d|] == d;
    assert (d + t)[|d|..] == t;
    DecRoundTrip(b);
  }

  lemma ParseSgrRoundTrip(code: string, c: Rgb, t: string)
    ensures ParseSgr(code, Sgr(code, c) + t) == Some((c, t))
  {
    var h, r, g, b := SgrHead(code), Dec(c.r), Dec(c.g), Dec(c.b);
    var s6 := "m" + t;
    var s5 := b + s6;
    var s4 := ";" + s5;
    var s3 := g + s4;
    var s2 := ";" + s3;
    var s1 := r + s2;
    assert Sgr(code, c) + t == h + s1;
    ExpectPrefix(h, s1);
    ParseByteRoundTrip(c.r, s2);
    ExpectPrefix(";", s3);
    ParseByteRoundTrip(c.g, s4);
    ExpectPrefix(";", s5);
    ParseByteRoundTrip(c.b, s6);
    ExpectPrefix("m", t);
  }

  lemma ParseCellRoundTrip(c: Cell, t: string)
    ensures ParseCell(CellText(c) + t) == Some((c, t))
  {
    var f, b := Sgr(Foreground, c.fg), Sgr(Background, c.bg);
    assert CellText(c) + t == f + (b + ([Glyph] + t));
    ParseSgrRoundTrip(Foreground, c.fg, b + ([Glyph] + t));
    ParseSgrRoundTrip(Background, c.bg, [Glyph] + t);
    ExpectPrefix([Glyph], t);
  }

  /** A cell starts `ESC [ 3`, a reset `ESC [ 0`: the reader can tell them apart. */
  lemma CellIsNoReset(c: Cell, t: string)
    ensures !(Reset <= CellText(c) + t)
  {
    var s := CellText(c) + t;
    assert s[2] == SgrHead(Foreground)[2] == '3';
  }

  /** A cell in front of a readable run of cells adds itself to the run. */
  lemma ParseCellsCons(c: Cell, rest: string)
    requires ParseCells(rest).Some?
    ensures ParseCells(CellText(c) + rest) == Some(([c] + ParseCells(rest).value.0, ParseCells(rest).value.1))
  {
    CellIsNoReset(c, rest);
    ParseCellRoundTrip(c, rest);
  }

  lemma {:induction false} ParseCellsRoundTrip(cs: seq<Cell>, t: string)
    ensures ParseCells(CellsText(cs) + Reset + t) == Some((cs, Reset + t))
  {
    if cs == [] {
      ParseCellsNil(t);
    } else {
      ParseCellsRoundTrip(cs[1..], t);
      ParseCellsThen(cs[0], CellsText(cs[1..]), t, cs[1..]);
      assert [cs[0]] + cs[1..] == cs;
    }
  }

  lemma ParseCellsNil(t: string)
    ensures ParseCells(CellsText([]) + Reset + t) == Some(([], Reset + t))
  {
    assert CellsText([]) + Reset + t == Reset + t;
    assert Reset <= Reset + t;
  }

  /** One rendered cell in front of a run that is read up to the reset joins that run. */
  lemma ParseCellsThen(c: Cell, b: string, t: string, cs: seq<Cell>)
    requires ParseCells(b + Reset + t) == Some((cs, Reset + t))
    ensures ParseCells(CellText(c) + b + Reset + t) == Some(([c] + cs, Reset + t))
  {
    Regroup(CellText(c), b, Reset, t);
    ParseCellsCons(c, b + Reset + t);
  }

  lemma {:induction false} ParseLinesRoundTrip(ls: seq<seq<Cell>>)
    requires ls != []
    ensures ParseLines(JoinedLines(ls)) == Some(ls)
  {
    if |ls| == 1 {
      ParseLastLine(ls);
    } else {
      ParseLinesRoundTrip(ls[1..]);
      ParseLineThen(ls[0], JoinedLines(ls[1..]), ls[1..]);
      assert [ls[0]] + ls[1..] == ls;
    }
  }

  /** The last line ends in the reset and nothing follows it. */
  lemma ParseLastLine(ls: seq<seq<Cell>>)
    requires |ls| == 1
    ensures ParseLines(JoinedLines(ls)) == Some(ls)
  {
    assert JoinedLines(ls) == CellsText(ls[0]) + Reset + [];
    ParseCellsRoundTrip(ls[0], []);
    ExpectPrefix(Reset, []);
    assert Reset + [] == Reset;
    assert [ls[0]] == ls;
  }

  /** A line, its reset and a line break in front of more lines are read, then those lines. */
  lemma ParseLineThen(cs: seq<Cell>, j: string, rest: seq<seq<Cell>>)
    requires ParseLines(j) == Some(rest)
    ensures ParseLines(CellsText(cs) + Reset + (['\n'] + j)) == Some([cs] + rest)
  {
    var tail := ['\n'] + j;
    ParseCellsRoundTrip(cs, tail);
    ExpectPrefix(Reset, tail);
    ExpectPrefix(['\n'], j);
  }

  /** Reading a rendered frame gives back its lines of cells. */
  lemma RenderRoundTrip(ls: seq<seq<Cell>>)
    requires ls != []
    ensures ParseFrame(Render(ls)) == Some(ls)
  {
    RenderNonEmpty(ls);
    ExpectPrefix(Prefix, JoinedLines(ls));
    ParseLinesRoundTrip(ls);
  }

  /** Distinct grids render to distinct frames. */
  lemma RenderInjective(ls: seq<seq<Cell>>, ls': seq<seq<Cell>>)
    requires ls != [] && ls' != []
    requires Render(ls) == Render(ls')
    ensures ls == ls'
  {
    RenderRoundTrip(ls);
    RenderRoundTrip(ls');
  }
}
