/**
 * The half-block encoding of a BGRX frame buffer (4 bytes per pixel: blue,
 * green, red and an ignored fourth byte), described by the width, height
 * and stride of its plane.
 */
module Frame {
  import opened Decimal
  import opened Ansi
  import opened Measure
  import opened Wrappers
  import opened AnsiParse

  /** Width and height in pixels; stride in bytes per pixel row. */
  datatype PlaneDescription = PlaneDescription(width: nat, height: nat, stride: nat)

  /** Byte offset of channel `c` of pixel `x` in pixel row `row`. */
  function ByteOffset(row: nat, x: nat, c: nat, stride: nat): nat {
    row * stride + 4 * x + c
  }

  /** Rows read: the pairs 0/1, 2/3, ...; an odd last row belongs to no pair. */
  function RowsRead(p: PlaneDescription): nat {
    2 * (p.height / 2)
  }

  /** Every byte the encoder reads (channels 0, 1 and 2 of each pixel it visits) lies in the buffer. */
  predicate ReadsInBounds(n: nat, p: PlaneDescription) {
    forall row: nat, x: nat, c: nat {:trigger ByteOffset(row, x, c, p.stride)} ::
      row < RowsRead(p) && x < p.width && c < 3 ==> ByteOffset(row, x, c, p.stride) < n
  }

  /** The same condition in closed form: the last byte read is red of the last pixel of the last row read. */
  predicate Fits(n: nat, p: PlaneDescription) {
    p.width == 0 || p.height < 2 || (RowsRead(p) - 1) * p.stride + 4 * p.width - 1 <= n
  }

  lemma MulMonotone(a: nat, b: nat, s: nat)
    requires a <= b
    ensures a * s <= b * s
  {
  }

  /** The closed form is exactly the condition that no read is out of bounds. */
  lemma FitsIff(n: nat, p: PlaneDescription)
    ensures Fits(n, p) <==> ReadsInBounds(n, p)
  {
    if Fits(n, p) {
      forall row: nat, x: nat, c: nat | row < RowsRead(p) && x < p.width && c < 3
        ensures ByteOffset(row, x, c, p.stride) < n
      {
        MulMonotone(row, RowsRead(p) - 1, p.stride);
      }
    }
    if ReadsInBounds(n, p) && p.width != 0 && p.height >= 2 {
      assert ByteOffset(RowsRead(p) - 1, p.width - 1, 2, p.stride) < n;
    }
  }

  /** The colour of a pixel: red, green and blue are the bytes at +2, +1 and +0. */
  function Pixel(buf: seq<byte>, row: nat, x: nat, stride: nat): Rgb
    requires ByteOffset(row, x, 2, stride) < |buf|
  {
    Rgb(buf[ByteOffset(row, x, 2, stride)], buf[ByteOffset(row, x, 1, stride)], buf[ByteOffset(row, x, 0, stride)])
  }

  /** Line `l`, column `x`: the top pixel from row 2l, the bottom one from row 2l+1. */
  function CellAt(buf: seq<byte>, p: PlaneDescription, l: nat, x: nat): Cell
    requires ReadsInBounds(|buf|, p)
    requires l < p.height / 2 && x < p.width
  {
    Cell(Pixel(buf, 2 * l, x, p.stride), Pixel(buf, 2 * l + 1, x, p.stride))
  }

  /** The cells of the frame, line by line. */
  function Grid(buf: seq<byte>, p: PlaneDescription): (g: seq<seq<Cell>>)
    requires ReadsInBounds(|buf|, p)
    ensures |g| == p.height / 2 && Uniform(g, p.width)
  {
    seq(p.height / 2, (l: int) requires 0 <= l < p.height / 2 =>
      seq(p.width, (x: int) requires 0 <= x < p.width => CellAt(buf, p, l, x)))
  }

  lemma GridAt(buf: seq<byte>, p: PlaneDescription, l: nat, x: nat)
    requires ReadsInBounds(|buf|, p)
    requires l < p.height / 2 && x < p.width
    ensures Grid(buf, p)[l][x] == CellAt(buf, p, l, x)
  {
  }

  /** The text of one frame. */
  function Encode(buf: seq<byte>, p: PlaneDescription): string
    requires ReadsInBounds(|buf|, p)
  {
    Render(Grid(buf, p))
  }

  /**
   * With at least two rows the frame starts with the cursor-home prefix and
   * ends with a colour reset, not with a line break.
   */
  lemma EncodeFramed(buf: seq<byte>, p: PlaneDescription)
    requires ReadsInBounds(|buf|, p)
    requires p.height >= 2
    ensures |Encode(buf, p)| >= |Prefix| + |Reset|
    ensures Encode(buf, p)[..|Prefix|] == Prefix
    ensures Encode(buf, p)[|Encode(buf, p)| - |Reset|..] == Reset
  {
    var g := Grid(buf, p);
    RenderNonEmpty(g);
    JoinedLinesEndsWithReset(g);
    FramedBy(Prefix, JoinedLines(g), Reset);
  }

  /** With fewer than two rows no line is written, and the pop takes the `H` off the prefix. */
  lemma EncodeWithoutLines(buf: seq<byte>, p: PlaneDescription)
    requires ReadsInBounds(|buf|, p)
    requires p.height < 2
    ensures Encode(buf, p) == [Esc, '[']
  {
    assert Grid(buf, p) == [];
    RenderEmpty();
  }

  lemma FramedBy(a: string, j: string, r: string)
    requires |j| >= |r| && j[|j| - |r|..] == r
    ensures |a + j| >= |a| + |r|
    ensures (a + j)[..|a|] == a
    ensures (a + j)[|a + j| - |r|..] == r
  {
    assert (a + j)[|a + j| - |r|..] == j[|j| - |r|..];
  }

  lemma {:induction false} JoinedLinesEndsWithReset(ls: seq<seq<Cell>>)
    requires ls != []
    ensures |JoinedLines(ls)| >= |Reset|
    ensures JoinedLines(ls)[|JoinedLines(ls)| - |Reset|..] == Reset
  {
    if |ls| > 1 {
      JoinedLinesEndsWithReset(ls[1..]);
      var t := JoinedLines(ls[1..]);
      assert JoinedLines(ls) == (CellsText(ls[0]) + Reset + ['\n']) + t;
    }
  }

  /**
   * One glyph per cell: `width` per line, `height / 2` lines; the lines are
   * separated by `height / 2 - 1` line breaks.
   */
  lemma EncodeCounts(buf: seq<byte>, p: PlaneDescription)
    requires ReadsInBounds(|buf|, p)
    ensures Count(Glyph, Encode(buf, p)) == p.width * (p.height / 2)
    ensures p.height >= 2 ==> Count('\n', Encode(buf, p)) == p.height / 2 - 1
  {
    var g := Grid(buf, p);
    if p.height >= 2 {
      RenderGlyphs(g, p.width);
      RenderBreaks(g);
    } else {
      EncodeWithoutLines(buf, p);
      CountAbsent(Glyph, [Esc, '[']);
    }
  }

  /** What the handler reserves with `String::with_capacity`: the prefix, one suffix and 41 bytes per pixel. */
  function Capacity(p: PlaneDescription): nat {
    |Prefix| + |Suffix| + 41 * (p.width * p.height)
  }

  /**
   * The reserved capacity holds the frame whenever there is a column, or
   * fewer than four rows.
   */
  lemma EncodeWithinCapacity(buf: seq<byte>, p: PlaneDescription)
    requires ReadsInBounds(|buf|, p)
    requires p.width >= 1 || p.height < 4
    ensures Utf8Len(Encode(buf, p)) <= Capacity(p)
  {
    var g := Grid(buf, p);
    if p.height >= 2 {
      RenderBytes(g, p.width);
      CapacityArithmetic(p.width, p.height, Utf8Len(Encode(buf, p)));
    } else {
      EncodeWithoutLines(buf, p);
      Utf8LenAscii([Esc, '[']);
    }
  }

  lemma CapacityArithmetic(w: nat, h: nat, u: nat)
    requires h >= 2 && (w >= 1 || h < 4)
    requires u <= 3 + (41 * w + 5) * (h / 2) - 1
    ensures u <= |Prefix| + |Suffix| + 41 * (w * h)
  {
    var k := h / 2;
    var m := w * k;
    assert (41 * w + 5) * k == 41 * m + 5 * k;
    MulMonotone(2 * k, h, w);
    assert 2 * k * w == 2 * m;
    assert w * h == h * w;
    if w >= 1 {
      MulMonotone(1, w, k);
      assert k <= m;
    }
  }

  /**
   * Without columns the lines are bare suffixes, and from four rows on they
   * outgrow what is reserved (the reservation is only a hint to the allocator).
   */
  lemma CapacityExceededWithoutColumns(buf: seq<byte>)
    ensures ReadsInBounds(|buf|, PlaneDescription(0, 4, 0))
    ensures Capacity(PlaneDescription(0, 4, 0)) == 8
    ensures Utf8Len(Encode(buf, PlaneDescription(0, 4, 0))) == 12
    ensures Utf8Len(Encode(buf, PlaneDescription(0, 4, 0))) > Capacity(PlaneDescription(0, 4, 0))
  {
    var p := PlaneDescription(0, 4, 0);
    var e := Encode(buf, p);
    assert e == Prefix + Reset + ['\n'] + Reset by {
      var g := Grid(buf, p);
      assert g == [[], []];
      RenderNonEmpty(g);
      assert g[1..] == [[]];
    }
    Utf8LenAscii(e);
  }

  /**
   * One column and two rows, written out in full: the prefix, the two
   * colour commands with the channels in unpadded decimal, the glyph, and
   * the reset whose line break the pop removed. The fourth byte of each
   * pixel (buf[3], buf[7]) is arbitrary.
   */
  lemma EncodeExample(buf: seq<byte>, p: PlaneDescription)
    requires |buf| == 8 && p == PlaneDescription(1, 2, 4)
    requires buf[0] == 0 && buf[1] == 128 && buf[2] == 255 && buf[4] == 1 && buf[5] == 2 && buf[6] == 3
    ensures ReadsInBounds(|buf|, p)
    ensures Encode(buf, p) ==
      "\U{1B}[H" + "\U{1B}[38;2;255;128;0m" + "\U{1B}[48;2;3;2;1m" + "\U{2580}" + "\U{1B}[0m"
  {
    ExampleGrid(buf, p);
    RenderExample();
  }

  /** The grid of that buffer: red 255, green 128, blue 0 on top; red 3, green 2, blue 1 below. */
  lemma ExampleGrid(buf: seq<byte>, p: PlaneDescription)
    requires |buf| == 8 && p == PlaneDescription(1, 2, 4)
    requires buf[0] == 0 && buf[1] == 128 && buf[2] == 255 && buf[4] == 1 && buf[5] == 2 && buf[6] == 3
    ensures ReadsInBounds(|buf|, p)
    ensures Grid(buf, p) == [[Cell(Rgb(255, 128, 0), Rgb(3, 2, 1))]]
  {
    FitsIff(|buf|, p);
    SingleCellGrid(buf, p);
  }

  /** A plane of one column and one row pair gives a grid of a single cell. */
  lemma SingleCellGrid(buf: seq<byte>, p: PlaneDescription)
    requires ReadsInBounds(|buf|, p) && p.width == 1 && p.height / 2 == 1
    ensures Grid(buf, p) == [[CellAt(buf, p, 0, 0)]]
  {
    GridAt(buf, p, 0, 0);
    assert Grid(buf, p)[0] == [CellAt(buf, p, 0, 0)];
  }

  /**
   * The frame depends on no byte but the blue, green and red bytes of the
   * pixels in the rows read: buffers that agree on those encode alike.
   */
  lemma EncodeReadsOnlyColourBytes(buf: seq<byte>, buf': seq<byte>, p: PlaneDescription)
    requires ReadsInBounds(|buf|, p) && ReadsInBounds(|buf'|, p)
    requires forall row: nat, x: nat, c: nat {:trigger ByteOffset(row, x, c, p.stride)} ::
      row < RowsRead(p) && x < p.width && c < 3 ==>
        buf[ByteOffset(row, x, c, p.stride)] == buf'[ByteOffset(row, x, c, p.stride)]
    ensures Encode(buf, p) == Encode(buf', p)
  {
    var g, g' := Grid(buf, p), Grid(buf', p);
    forall l | 0 <= l < |g| ensures g[l] == g'[l] {
      forall x | 0 <= x < p.width ensures g[l][x] == g'[l][x] {
        GridAt(buf, p, l, x);
        GridAt(buf', p, l, x);
        PixelAgrees(buf, buf', p, 2 * l, x);
        PixelAgrees(buf, buf', p, 2 * l + 1, x);
      }
    }
    assert g == g';
  }

  lemma PixelAgrees(buf: seq<byte>, buf': seq<byte>, p: PlaneDescription, row: nat, x: nat)
    requires ReadsInBounds(|buf|, p) && ReadsInBounds(|buf'|, p)
    requires row < RowsRead(p) && x < p.width
    requires forall c: nat {:trigger ByteOffset(row, x, c, p.stride)} :: c < 3 ==>
      buf[ByteOffset(row, x, c, p.stride)] == buf'[ByteOffset(row, x, c, p.stride)]
    ensures Pixel(buf, row, x, p.stride) == Pixel(buf', row, x, p.stride)
  {
    assert ByteOffset(row, x, 0, p.stride) < |buf|;
    assert ByteOffset(row, x, 1, p.stride) < |buf|;
    assert ByteOffset(row, x, 2, p.stride) < |buf|;
  }

  /** A byte that is no colour byte of any pixel read may hold anything. */
  lemma EncodeIgnoresUnreadByte(buf: seq<byte>, p: PlaneDescription, i: nat, v: byte)
    requires ReadsInBounds(|buf|, p)
    requires i < |buf|
    requires forall row: nat, x: nat, c: nat {:trigger ByteOffset(row, x, c, p.stride)} ::
      row < RowsRead(p) && x < p.width && c < 3 ==> ByteOffset(row, x, c, p.stride) != i
    ensures ReadsInBounds(|buf[i := v]|, p)
    ensures Encode(buf[i := v], p) == Encode(buf, p)
  {
    EncodeReadsOnlyColourBytes(buf[i := v], buf, p);
  }

  /** Rows that do not overlap: a row's pixels fit within its stride. */
  lemma SameRowOrApart(row: nat, x: nat, c: nat, row': nat, x': nat, c': nat, p: PlaneDescription)
    requires p.stride >= 4 * p.width && x < p.width && x' < p.width && c < 4 && c' < 4
    requires ByteOffset(row, x, c, p.stride) == ByteOffset(row', x', c', p.stride)
    ensures row == row' && x == x' && c == c'
  {
    var s := p.stride;
    if row < row' {
      RowEndsBeforeNext(row, x, c, row', s, p.width);
      assert false;
    } else if row' < row {
      RowEndsBeforeNext(row', x', c', row, s, p.width);
      assert false;
    }
  }

  /** A byte of row `row` lies before every byte of a later row. */
  lemma RowEndsBeforeNext(row: nat, x: nat, c: nat, row': nat, s: nat, w: nat)
    requires row < row' && s >= 4 * w && x < w && c < 4
    ensures ByteOffset(row, x, c, s) < row' * s
  {
    MulMonotone(row + 1, row', s);
    assert (row + 1) * s == row * s + s;
  }

  /** With rows apart, the fourth (X, "alpha") byte of a pixel is never read. */
  lemma EncodeIgnoresAlpha(buf: seq<byte>, p: PlaneDescription, row: nat, x: nat, v: byte)
    requires ReadsInBounds(|buf|, p)
    requires p.stride >= 4 * p.width && x < p.width
    requires ByteOffset(row, x, 3, p.stride) < |buf|
    ensures ReadsInBounds(|buf[ByteOffset(row, x, 3, p.stride) := v]|, p)
    ensures Encode(buf[ByteOffset(row, x, 3, p.stride) := v], p) == Encode(buf, p)
  {
    var i := ByteOffset(row, x, 3, p.stride);
    forall row': nat, x': nat, c': nat | row' < RowsRead(p) && x' < p.width && c' < 3
      ensures ByteOffset(row', x', c', p.stride) != i
    {
      if ByteOffset(row', x', c', p.stride) == i {
        SameRowOrApart(row', x', c', row, x, 3, p);
      }
    }
    EncodeIgnoresUnreadByte(buf, p, i, v);
  }

  /** With rows apart and an odd height, no byte of the last row is read. */
  lemma EncodeIgnoresOddLastRow(buf: seq<byte>, p: PlaneDescription, x: nat, c: nat, v: byte)
    requires ReadsInBounds(|buf|, p)
    requires p.stride >= 4 * p.width && p.height % 2 == 1 && x < p.width && c < 4
    requires ByteOffset(p.height - 1, x, c, p.stride) < |buf|
    ensures ReadsInBounds(|buf[ByteOffset(p.height - 1, x, c, p.stride) := v]|, p)
    ensures Encode(buf[ByteOffset(p.height - 1, x, c, p.stride) := v], p) == Encode(buf, p)
  {
    var i := ByteOffset(p.height - 1, x, c, p.stride);
    forall row': nat, x': nat, c': nat | row' < RowsRead(p) && x' < p.width && c' < 3
      ensures ByteOffset(row', x', c', p.stride) != i
    {
      if ByteOffset(row', x', c', p.stride) == i {
        SameRowOrApart(row', x', c', p.height - 1, x, c, p);
      }
    }
    EncodeIgnoresUnreadByte(buf, p, i, v);
  }

  /**
   * Reading the frame back gives `height / 2` lines of `width` cells each;
   * the cell at line `l`, column `x` has the foreground red, green and blue
   * of the bytes at +2, +1, +0 from `2l * stride + 4x`, and the background
   * ones of the bytes at +2, +1, +0 from `(2l + 1) * stride + 4x`.
   */
  lemma EncodeDecodes(buf: seq<byte>, p: PlaneDescription)
    requires ReadsInBounds(|buf|, p)
    requires p.height >= 2
    ensures ParseFrame(Encode(buf, p)).Some?
    ensures var g := ParseFrame(Encode(buf, p)).value;
      && |g| == p.height / 2
      && (forall l :: 0 <= l < |g| ==> |g[l]| == p.width)
      && forall l: nat, x: nat :: l < |g| && x < p.width ==>
        && g[l][x].fg == Rgb(buf[ByteOffset(2 * l, x, 2, p.stride)],
                             buf[ByteOffset(2 * l, x, 1, p.stride)],
                             buf[ByteOffset(2 * l, x, 0, p.stride)])
        && g[l][x].bg == Rgb(buf[ByteOffset(2 * l + 1, x, 2, p.stride)],
                             buf[ByteOffset(2 * l + 1, x, 1, p.stride)],
                             buf[ByteOffset(2 * l + 1, x, 0, p.stride)])
  {
    var g := Grid(buf, p);
    RenderRoundTrip(g);
    forall l: nat, x: nat | l < |g| && x < p.width
      ensures g[l][x] == CellAt(buf, p, l, x)
    {
      GridAt(buf, p, l, x);
    }
  }
}
