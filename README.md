# Half-block truecolor frame encoder

webcam-tui plays a video in a terminal. Each decoded frame is copied into a
CPU-side BGRX bitmap (four bytes per pixel: blue, green, red and an unused
fourth byte). When the asynchronous copy completes, a handler turns the bitmap
into one string of ANSI escape sequences.

The string is built as follows:
- It starts with a cursor-home prefix, `ESC[H`.
- Each pair of pixel rows becomes one terminal line.
- Each column of a line becomes one terminal cell:
  - a foreground truecolor command `ESC[38;2;R;G;Bm` with the top pixel's colour;
  - a background command `ESC[48;2;R;G;Bm` with the bottom pixel's colour;
  - the glyph U+2580 UPPER HALF BLOCK.
- Every line is followed by `ESC[0m` and a line break.
- Finally the last character is popped off the string.

This project models that handler and its encoder and proves properties of them.

The modules are:
- `Decimal`: unpadded decimal formatting of a byte, and its inverse.
- `Ansi`: the text of a cell, a line and a frame, and `String::pop`.
- `AnsiParse`: a reader for that text. It is the inverse of the encoder: the round trip shows that the text is unambiguous and carries every channel of every pixel read. Because the reader is written with the same constants, the literal characters are pinned down separately, by `Ansi.CellTextExample`, `Ansi.RenderExample` and `Frame.EncodeExample`.
- `Measure`: glyph counts, line-break counts and UTF-8 byte lengths of the text.
- `Frame`: the frame geometry and the pure specification `Encode(buffer, plane)`, with the properties proved about it:
  - the prefix and the ending;
  - the counts;
  - the byte offsets read, and the bytes that are never read;
  - bounds;
  - the reserved capacity.
- `Encoder`: the handler as imperative code.
  - `EncodeFrame` and `EncodeLine` are the nested `for` loops. They keep a growing `output` string and the row cursors `i0`/`i1`, which advance by 4 per column, and they end with the pop.
  - Both are proved to produce exactly `Encode`.
  - `OnCopyCompleted` adds the early return for a copy that did not complete.

Width, height and stride are those of the bitmap's plane description. They
are arbitrary natural numbers here, not the program's fixed 128 x 72. The
only precondition is the one under which the Rust code does not panic: every
byte the loops index lies inside the buffer (`Frame.ReadsInBounds`).
`Frame.FitsIff` proves this equivalent to the closed form
`(2*(Height/2) - 1) * Stride + 4*Width - 1 <= |buffer|`, whenever there is at
least one column and one row pair. No further condition is imposed. In
particular, `Stride >= 4 * Width` is needed only for the lemmas about bytes
that are never read.

The code accepts any height:
- It never reads an odd last row (`Frame.EncodeIgnoresOddLastRow`).
- With a height below 2 it writes no line, and its unconditional `pop` removes the `H` of the prefix. The frame is then `ESC[` (`Frame.EncodeWithoutLines`).
- The program itself always uses a height of 72, `9 * FACTOR` with `FACTOR` 8 (src/main.rs:83-85), so it never reaches this case.

## Model

| member | source | states |
|---|---|---|
| Encoder.EncodeFrame | src/main.rs:132-164 | For every buffer whose reads are in bounds, the row-pair loop over `y = 0, 2, ...` while `y < Height - 1`, followed by the pop, produces exactly `Encode(buffer, plane)`. |
| Encoder.EncodeLine | src/main.rs:140-157 | The column loop for rows `y`, `y + 1` (with `y = 2l`) appends exactly the text of line `l` of the grid: `result == output + CellsText(Grid[l])`. Line `l` exists. |
| Encoder.CellBytes | src/main.rs:140-151 | In column `x`, the cursors `i0 = y*Stride + 4x` and `i1 = (y+1)*Stride + 4x` satisfy `i0+2` and `i1+2` inside the buffer. The bytes at +2, +1, +0 are the red, green and blue of the cell's foreground and background. |
| Encoder.OnCopyCompleted | src/main.rs:120-164 | A status other than `Completed` does nothing. A bitmap that cannot be locked or mapped (a `?` error) fails the handler. Otherwise exactly `Encode` of the mapped buffer is written. |
| Frame.EncodeFramed | src/main.rs:132-164 | With `Height >= 2` the frame starts with `ESC[H` and ends with `ESC[0m`: the pop took the last line's break, and no line break trails. |
| Frame.EncodeWithoutLines | src/main.rs:137-164 | With `Height < 2` the loop is empty and the frame is exactly `ESC[`. |
| Frame.EncodeCounts | src/main.rs:139-160 | The frame holds exactly `Width * (Height/2)` glyphs U+2580. With `Height >= 2` it holds exactly `Height/2 - 1` line breaks, so it has `Height/2` lines. |
| Frame.EncodeDecodes | src/main.rs:139-157 | Reading the frame back gives `Height/2` lines of `Width` cells each. The foreground of cell (l, x) is the bytes at +2, +1, +0 from `2l*Stride + 4x`; its background is the bytes at the same offsets from `(2l+1)*Stride + 4x`. |
| Frame.FitsIff | src/main.rs:139-149 | The closed-form length condition holds if and only if every index the loops use lies inside the buffer. |
| Frame.EncodeReadsOnlyColourBytes | src/main.rs:144-149 | Two buffers that agree on the channel 0-2 bytes of every pixel in the rows read encode to the same frame. |
| Frame.EncodeIgnoresUnreadByte | src/main.rs:144-149 | Changing a byte that is no colour byte of a pixel read leaves the frame unchanged. |
| Frame.EncodeIgnoresAlpha | src/main.rs:144-151 | When rows do not overlap (`Stride >= 4*Width`), the fourth byte (X/alpha) of a pixel is never read: changing it leaves the frame unchanged. |
| Frame.EncodeIgnoresOddLastRow | src/main.rs:139 | With an odd height and rows that do not overlap, no byte of the last pixel row is read. |
| Frame.EncodeWithinCapacity | src/main.rs:134-136 | The UTF-8 length of the frame is at most the capacity reserved, `PREFIX.len() + SUFFIX.len() + 41 * Width * Height`, whenever there is a column or fewer than four rows. |
| Frame.CapacityExceededWithoutColumns | src/main.rs:134-136 | With no columns and four rows the frame is `ESC[H ESC[0m \n ESC[0m`, 12 bytes long, which is longer than the 8 bytes reserved. The reservation is only an allocation hint. |
| Frame.EncodeExample | src/main.rs:132-164 | A one-column, two-row buffer whose pixels are B=0 G=128 R=255 and B=1 G=2 R=3 (fourth bytes arbitrary) encodes to exactly `ESC[H`, `ESC[38;2;255;128;0m`, `ESC[48;2;3;2;1m`, U+2580, `ESC[0m`. |
| Ansi.RenderExample | src/main.rs:132-164 | The frame of that one cell is, character for character, the prefix, the two colour commands, the glyph and the reset. |
| Ansi.CellTextExample | src/main.rs:153-157 | The cell with foreground (255, 128, 0) and background (3, 2, 1) is the literal text `ESC[38;2;255;128;0m ESC[48;2;3;2;1m U+2580`. |
| Ansi.ForegroundExample | src/main.rs:153-157 | The foreground command for (255, 128, 0) is the literal `ESC[38;2;255;128;0m`. |
| Ansi.BackgroundExample | src/main.rs:153-157 | The background command for (3, 2, 1) is the literal `ESC[48;2;3;2;1m`. |
| Ansi.RenderOneCell | src/main.rs:132-164 | A frame of a single cell is the prefix, that cell's text and the reset. |
| Decimal.DecOf255 | src/main.rs:153-157 | `{}` writes 255 as `255`. |
| Decimal.DecOf128 | src/main.rs:153-157 | `{}` writes 128 as `128`. |
| Measure.CellMeasure | src/main.rs:153-157 | One cell holds exactly one glyph and takes at most 41 bytes of UTF-8 (19 + 19 + 3). |
| Measure.SgrMeasure | src/main.rs:153-157 | A colour command is ASCII, contains no glyph and no line break, and has 13 to 19 characters. |
| Measure.CellGlyphs | src/main.rs:153-157 | A cell's text holds exactly one glyph. |
| Measure.CellsGlyphs | src/main.rs:143-157 | A line of `k` cells holds exactly `k` glyphs. |
| Measure.LinesGlyphs | src/main.rs:139-160 | Lines of `Width` cells each hold `Width` glyphs per line. |
| Measure.LinesBreaks | src/main.rs:133-160 | Before the pop, there is exactly one line break per line. |
| Measure.RenderGlyphs | src/main.rs:137-164 | The popped frame holds `Width` glyphs per line. |
| Measure.RenderBreaks | src/main.rs:160-164 | The popped frame holds one line break fewer than it has lines. |
| Measure.RenderBytes | src/main.rs:132-164 | The popped frame takes at most `3 + (41*Width + 5) * lines - 1` bytes of UTF-8. |
| Measure.Utf8LenOfText | src/main.rs:134-136 | In text made of ASCII and the glyph, the UTF-8 length is the character count plus two bytes per glyph. |
| Decimal.Dec | src/main.rs:153-157 | `{}` writes a number as at least one digit, with no leading zero. |
| Decimal.DecRoundTrip | src/main.rs:153-157 | The digits written for `n` are all digits, and their value is `n`. No conversion takes place. |
| Decimal.ByteDecLength | src/main.rs:153-157 | A byte takes one, two or three digits, by magnitude. |
| Decimal.DecInjective | src/main.rs:153-157 | Distinct channel values are written differently. |
| AnsiParse.ParseByteRoundTrip | src/main.rs:153-157 | The decimal text of a byte, followed by a non-digit, reads back as that byte. |
| AnsiParse.ParseSgrRoundTrip | src/main.rs:153-157 | A `38;2` or `48;2` command reads back as its colour. |
| AnsiParse.ParseCellRoundTrip | src/main.rs:153-157 | The exact cell text `ESC[38;2;R;G;Bm ESC[48;2;R;G;Bm U+2580` reads back as its two colours. |
| AnsiParse.ParseCellsRoundTrip | src/main.rs:143-160 | A line's cells followed by the reset read back as those cells. |
| AnsiParse.ParseLinesRoundTrip | src/main.rs:139-164 | Lines ended by resets and joined by line breaks read back as those lines. |
| AnsiParse.RenderRoundTrip | src/main.rs:132-164 | A frame with at least one line reads back as exactly its grid of cells. |
| AnsiParse.RenderInjective | src/main.rs:132-164 | Distinct grids of at least one line give distinct frames. |
| Ansi.Pop | src/main.rs:163-164 | `String::pop` removes exactly the last character of a non-empty string and leaves an empty one empty. |
| Ansi.RenderNonEmpty | src/main.rs:160-164 | With at least one line, the pop removes exactly the break after the last line's reset. |
| Ansi.RenderEmpty | src/main.rs:137-164 | With no line, the pop removes the `H` of the prefix. |
| Ansi.CellsTextSnoc | src/main.rs:153-157 | Writing one more cell appends exactly that cell's text. |
| Ansi.LinesTextSnoc | src/main.rs:139-160 | Finishing one more line appends its cells and the suffix `ESC[0m\n`. |

## Left out

- The WinRT/COM interop (src/main.rs:23-71) is not modelled. This covers `IMemoryBufferByteAccess` and the raw-pointer `GetBuffer`, which are unsafe foreign calls. The mapped buffer is a parameter of the handler.
- Media setup and playback (src/main.rs:79-119, 179) are not modelled. These are URI, media source, player and video-frame creation, the frame copy and its asynchronous completion. They are external engine calls, and the completion runs on another thread.
- `LockBuffer`, `GetPlaneDescription`, `CreateReference` and `GetBuffer` (src/main.rs:125-130) are not modelled. Their failures become the `None` case of the `mapped` parameter of `Encoder.OnCopyCompleted`. Which of the four calls failed, and the error value, are not modelled.
- Locking, writing and flushing standard output (src/main.rs:166-169) are I/O and are left out. So are the `ESC[2J` clear (src/main.rs:178) and the blocking read of standard input (src/main.rs:181). The handler's result is the string it writes.
- Argument handling and its panic on an empty path (src/main.rs:74-77) are plumbing with no logic to model.
- build.rs only generates bindings.
- `BitmapPlaneDescription.StartIndex` is not modelled, because the code never reads it: rows are indexed from the start of the buffer.
- Width, height and stride are not `i32` in the model. The plane description's `i32` fields and the `as usize` casts of `y * Stride` are natural numbers here. A negative or overflowing stride is not modelled; the bitmap's plane description never has one.
- The capacity passed to `String::with_capacity` is not modelled as memory. It only decides when the string reallocates, which the model does not represent. Only the byte count it promises is compared against the output.
- Encoder.EncodeFrame: a buffer too short for its plane makes the Rust code panic on an out-of-bounds index (src/main.rs:144-149). The model does not represent the panic; its requires `ReadsInBounds` excludes such buffers (see `Frame.FitsIff`).
- Frame.EncodeIgnoresAlpha: stated only for `Stride >= 4 * Width`. With rows that overlap, the fourth byte of one pixel can be a colour byte of a pixel in the next row.
- Frame.EncodeWithinCapacity: stated only for `Width >= 1 || Height < 4`, because outside that range the reservation is exceeded (Frame.CapacityExceededWithoutColumns).
- Determinism needs no lemma: `Encode` is a function, and `EncodeFrame` is proved equal to it.
