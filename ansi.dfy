/**
 * The text a frame becomes: truecolor SGR commands around upper-half-block
 * glyphs, one line per pair of pixel rows.
 */
module Ansi {
  import opened Decimal

  const Esc: char := '\U{1B}'
  /** U+2580 UPPER HALF BLOCK: its top half shows the foreground colour. */
  const Glyph: char := '\U{2580}'
  /** Cursor to home, written before the first line. */
  const Prefix: string := [Esc, '[', 'H']
  /** Colour reset, the end of every line. */
  const Reset: string := [Esc, '[', '0', 'm']
  /** Written after every line. */
  const Suffix: string := Reset + ['\n']

  /** Foreground SGR code, for the top pixel of a cell. */
  const Foreground: string := "38"
  /** Background SGR code, for the bottom pixel of a cell. */
  const Background: string := "48"

  datatype Rgb = Rgb(r: byte, g: byte, b: byte)

  /** One terminal cell: the top pixel as foreground, the bottom one as background. */
  datatype Cell = Cell(fg: Rgb, bg: Rgb)

  /** The head of an SGR 38;2 or 48;2 command, up to the first channel. */
  function SgrHead(code: string): string {
    [Esc, '['] + code + ";2;"
  }

  /** `ESC[<code>;2;R;G;Bm`, each channel in unpadded decimal. */
  function Sgr(code: string, c: Rgb): string {
    SgrHead(code) + Dec(c.r) + ";" + Dec(c.g) + ";" + Dec(c.b) + "m"
  }

  function CellText(c: Cell): string {
    Sgr(Foreground, c.fg) + Sgr(Background, c.bg) + [Glyph]
  }

  function CellsText(cs: seq<Cell>): string {
    if cs == [] then [] else CellText(cs[0]) + CellsText(cs[1..])
  }

  /** Every line followed by the suffix, the last one included. */
  function LinesText(ls: seq<seq<Cell>>): string {
    if ls == [] then [] else CellsText(ls[0]) + Suffix + LinesText(ls[1..])
  }

  /** Rust's `String::pop`: drop the last character, if there is one. */
  function Pop(s: string): (r: string)
    ensures s != [] ==> s == r + [s[|s| - 1]]
    ensures s == [] ==> r == []
  {
    if s == [] then [] else s[..|s| - 1]
  }

  /** The whole frame: the prefix, the lines, and the last character popped. */
  function Render(ls: seq<seq<Cell>>): string {
    Pop(Prefix + LinesText(ls))
  }

  /** Lines joined by newlines, with no newline after the last. */
  function JoinedLines(ls: seq<seq<Cell>>): string
    requires ls != []
  {
    CellsText(ls[0]) + Reset + if |ls| == 1 then [] else ['\n'] + JoinedLines(ls[1..])
  }

  lemma Assoc(a: string, b: string, c: string)
    ensures a + (b + c) == a + b + c
  {
  }

  lemma Regroup(a: string, b: string, r: string, t: string)
    ensures a + b + r + t == a + (b + r + t)
  {
  }

  lemma {:induction false} CellsTextSnoc(cs: seq<Cell>, c: Cell)
    ensures CellsText(cs + [c]) == CellsText(cs) + CellText(c)
  {
    if cs != [] {
      assert (cs + [c])[0] == cs[0];
      assert (cs + [c])[1..] == cs[1..] + [c];
      CellsTextSnoc(cs[1..], c);
      Assoc(CellText(cs[0]), CellsText(cs[1..]), CellText(c));
    } else {
      assert [c][1..] == [];
    }
  }

  lemma {:induction false} LinesTextSnoc(ls: seq<seq<Cell>>, l: seq<Cell>)
    ensures LinesText(ls + [l]) == LinesText(ls) + CellsText(l) + Suffix
  {
    if ls != [] {
      var head, rest := CellsText(ls[0]) + Suffix, ls[1..];
      assert (ls + [l])[0] == ls[0];
      assert (ls + [l])[1..] == rest + [l];
      LinesTextSnoc(rest, l);
      Regroup(head, LinesText(rest), CellsText(l), Suffix);
    } else {
      assert [l][1..] == [];
    }
  }

  lemma ForegroundExample()
    ensures Sgr(Foreground, Rgb(255, 128, 0)) == "\U{1B}[38;2;255;128;0m"
  {
    DecOf255();
    DecOf128();
    assert Dec(0) == "0";
  }

  lemma BackgroundExample()
    ensures Sgr(Background, Rgb(3, 2, 1)) == "\U{1B}[48;2;3;2;1m"
  {
    assert Dec(3) == "3";
    assert Dec(2) == "2";
    assert Dec(1) == "1";
  }

  /** The literal text of one cell, channels in unpadded decimal. */
  lemma CellTextExample()
    ensures CellText(Cell(Rgb(255, 128, 0), Rgb(3, 2, 1))) ==
      "\U{1B}[38;2;255;128;0m\U{1B}[48;2;3;2;1m\U{2580}"
  {
    ForegroundExample();
    BackgroundExample();
  }

  /** The suffix of the last line is the only thing the pop removes. */
  lemma {:induction false} LinesTextIsJoinedPlusNewline(ls: seq<seq<Cell>>)
    requires ls != []
    ensures LinesText(ls) == JoinedLines(ls) + ['\n']
  {
    if |ls| > 1 {
      LinesTextIsJoinedPlusNewline(ls[1..]);
    } else {
      assert ls[1..] == [];
    }
  }

  /** With at least one line, the frame is the prefix and the joined lines. */
  lemma RenderNonEmpty(ls: seq<seq<Cell>>)
    requires ls != []
    ensures Render(ls) == Prefix + JoinedLines(ls)
  {
    LinesTextIsJoinedPlusNewline(ls);
    assert Prefix + LinesText(ls) == (Prefix + JoinedLines(ls)) + ['\n'];
  }

  /** A frame of a single cell: the prefix, the cell and the reset. */
  lemma RenderOneCell(c: Cell)
    ensures Render([[c]]) == Prefix + CellText(c) + Reset
  {
    RenderNonEmpty([[c]]);
    assert CellsText([c]) == CellText(c) + CellsText([]);
    assert JoinedLines([[c]]) == CellText(c) + Reset;
  }

  /** The literal text of a frame holding that one cell, piece by piece. */
  lemma RenderExample()
    ensures Render([[Cell(Rgb(255, 128, 0), Rgb(3, 2, 1))]]) ==
      "\U{1B}[H" + "\U{1B}[38;2;255;128;0m" + "\U{1B}[48;2;3;2;1m" + "\U{2580}" + "\U{1B}[0m"
  {
    var c := Cell(Rgb(255, 128, 0), Rgb(3, 2, 1));
    RenderOneCell(c);
    ForegroundExample();
    BackgroundExample();
    Regroup(Prefix, Sgr(Foreground, c.fg), Sgr(Background, c.bg), [Glyph]);
  }

  /** With no line at all the pop removes the `H` of the prefix. */
  lemma RenderEmpty()
    ensures Render([]) == [Esc, '[']
  {
  }
}
