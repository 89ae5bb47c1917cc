/**
 * The copy-completion handler: once the frame has been copied into the
 * CPU-side bitmap, it builds the frame text in a growing string, row pair
 * by row pair and column by column, and hands it to standard output.
 */
module Encoder {
  import opened Wrappers
  import opened Decimal
  import opened Ansi
  import opened Frame

  /** How the asynchronous copy ended. */
  datatype AsyncStatus = Started | Completed | Canceled | Error

  /** The locked bitmap: its bytes and the description of its first plane. */
  datatype MappedFrame = MappedFrame(buffer: seq<byte>, description: PlaneDescription)

  /**
   * What the handler does: nothing (the copy did not complete), fail (the
   * bitmap could not be locked or mapped), or write one frame's text.
   */
  datatype Completion = Ignored | Failed | Written(text: string)

  /** The encoder loops: the string that is written for one frame. */
  method EncodeFrame(buffer: seq<byte>, description: PlaneDescription) returns (output: string)
    requires ReadsInBounds(|buffer|, description)
    ensures output == Encode(buffer, description)
  {
    ghost var grid := Grid(buffer, description);
    ghost var line: nat := 0;
    output := Prefix;
    var y: nat := 0;
    while y < description.height - 1
      invariant y == 2 * line && y <= description.height
      invariant output == Prefix + LinesText(grid[..line])
    {
      PairBelow(line, description.height);
      output := EncodeLine(buffer, description, y, line, output);
      output := output + Suffix;
      AppendLine(Prefix, grid, line);
      y := y + 2;
      line := line + 1;
    }
    PairsDone(line, description.height);
    assert grid[..line] == grid;
    // the pop: the last line's break, or the prefix's `H` when no line was written
    output := output[..|output| - 1];
  }

  /** The column loop for the row pair `y`, `y + 1`: one cell per column, appended to `output`. */
  method EncodeLine(buffer: seq<byte>, description: PlaneDescription, y: nat, ghost line: nat, output: string)
    returns (result: string)
    requires ReadsInBounds(|buffer|, description)
    requires y == 2 * line && y < description.height - 1
    ensures line < description.height / 2
    ensures result == output + CellsText(Grid(buffer, description)[line])
  {
    var stride := description.stride;
    PairBelow(line, description.height);
    ghost var cells := Grid(buffer, description)[line];
    result := output;
    var i0 := y * stride;
    var i1 := (y + 1) * stride;
    var column := 0;
    while column < description.width
      invariant column <= description.width
      invariant i0 == ByteOffset(y, column, 0, stride) && i1 == ByteOffset(y + 1, column, 0, stride)
      invariant result == output + CellsText(cells[..column])
    {
      CellBytes(buffer, description, line, column, i0, i1);
      var r0 := buffer[i0 + 2];
      var g0 := buffer[i0 + 1];
      var b0 := buffer[i0 + 0];
      var r1 := buffer[i1 + 2];
      var g1 := buffer[i1 + 1];
      var b1 := buffer[i1 + 0];
      i0 := i0 + 4;
      i1 := i1 + 4;

      var text := Sgr(Foreground, Rgb(r0, g0, b0)) + Sgr(Background, Rgb(r1, g1, b1)) + [Glyph];
      assert text == CellText(cells[column]);
      AppendCell(output, cells, column);
      result := result + text;
      column := column + 1;
    }
    assert cells[..column] == cells;
  }

  /** The six bytes read for a column are the colours of its cell. */
  lemma CellBytes(buf: seq<byte>, p: PlaneDescription, line: nat, column: nat, i0: nat, i1: nat)
    requires ReadsInBounds(|buf|, p)
    requires line < p.height / 2 && column < p.width
    requires i0 == ByteOffset(2 * line, column, 0, p.stride)
    requires i1 == ByteOffset(2 * line + 1, column, 0, p.stride)
    ensures i0 + 2 < |buf| && i1 + 2 < |buf|
    ensures Grid(buf, p)[line][column] ==
      Cell(Rgb(buf[i0 + 2], buf[i0 + 1], buf[i0 + 0]), Rgb(buf[i1 + 2], buf[i1 + 1], buf[i1 + 0]))
  {
    assert i0 + 2 == ByteOffset(2 * line, column, 2, p.stride);
    assert i0 + 1 == ByteOffset(2 * line, column, 1, p.stride);
    assert i1 + 2 == ByteOffset(2 * line + 1, column, 2, p.stride);
    assert i1 + 1 == ByteOffset(2 * line + 1, column, 1, p.stride);
    GridAt(buf, p, line, column);
  }

  lemma AppendCell(acc: string, cs: seq<Cell>, k: nat)
    requires k < |cs|
    ensures acc + CellsText(cs[..k]) + CellText(cs[k]) == acc + CellsText(cs[..k + 1])
  {
    TakeSnoc(cs, k);
    CellsTextSnoc(cs[..k], cs[k]);
  }

  lemma AppendLine(acc: string, ls: seq<seq<Cell>>, k: nat)
    requires k < |ls|
    ensures acc + LinesText(ls[..k]) + CellsText(ls[k]) + Suffix == acc + LinesText(ls[..k + 1])
  {
    TakeSnoc(ls, k);
    LinesTextSnoc(ls[..k], ls[k]);
  }

  lemma TakeSnoc<T>(s: seq<T>, k: nat)
    requires k < |s|
    ensures s[..k + 1] == s[..k] + [s[k]]
  {
  }

  lemma PairBelow(line: nat, height: nat)
    requires 2 * line < height - 1
    ensures line < height / 2
  {
  }

  lemma PairsDone(line: nat, height: nat)
    requires height - 1 <= 2 * line <= height
    ensures line == height / 2
  {
  }

  /**
   * The completion handler: a copy that did not complete is ignored; a
   * bitmap that cannot be locked or mapped fails the handler; otherwise the
   * frame's text is written.
   */
  method OnCopyCompleted(status: AsyncStatus, mapped: Option<MappedFrame>) returns (r: Completion)
    requires status == Completed && mapped.Some? ==>
      ReadsInBounds(|mapped.value.buffer|, mapped.value.description)
    ensures status != Completed ==> r == Ignored
    ensures status == Completed && mapped.None? ==> r == Failed
    ensures status == Completed && mapped.Some? ==>
      r == Written(Encode(mapped.value.buffer, mapped.value.description))
  {
    if status != Completed {
      return Ignored;
    }
    if mapped.None? {
      return Failed;
    }
    var output := EncodeFrame(mapped.value.buffer, mapped.value.description);
    return Written(output);
  }
}
