# rust-raycaster core in Dafny

This project models three parts of a small software raycaster and proves
properties about them:

- **The pixel canvas** (`canvas.dfy`, module `Canvas`). A frame is stored as a
  flat, row-major RGB byte buffer of `width * height` pixels, three bytes per
  pixel. The class `Canvas` keeps the source's fields `width`, `height` and
  `pixels`; the buffer is an `array<u8>`. `SetPixel` writes one pixel.
  `DrawVerticalLine` writes one column over a row range clamped to the canvas.
  Each method is proved against a specification function on the buffer's
  contents (`WithPixel`, `Line`). Lemmas then state which bytes change and to
  what.
- **Texture indexing** (`texture.dfy`, module `Texture`). This is the body of
  `Texture::load` once the image is decoded: a scan over the RGB bytes that
  gives each distinct colour an index in first-seen order. The scan cuts the
  per-pixel indices into rows at every multiple of the row stride. It then
  fills the palette from the colour table. `Scan` and `FillPalette` are loops
  and `Load` composes them.
  - The specification functions are `Palette`, `Indices`, `Cut`/`Rows` and
    `TableOf`. `ScanUpTo` gives the scan's state after each step, and lemmas
    tie that state to them.
  - The lemmas prove the round trip `colors[grid[k / width][k % width]] ==
    pixel k`, the row shape, and that same index holds exactly when the
    colour is the same.
- **The map parser** (`utils.dfy`, module `Utils`). This is `read_map` from
  the `split("\n")` on, applied to the file's text:
  - split at newlines;
  - drop empty lines;
  - turn each character into its code minus that of `'0'`.

  The functions are pure. The lemmas tie `Split` to `Join` in both
  directions, count the rows against an independent count of character runs,
  and prove the round trip back to the text.

`numeric.dfy` holds a byte type and facts about Euclidean division that the
pixel and row arithmetic needs.

The source field `Texture.map` is called `grid` here, because `map` is a
reserved word in Dafny.

## Model

| member | source | states |
|---|---|---|
| Canvas.Canvas.constructor | src/canvas.rs:10-16 | the canvas has the given size and a fresh buffer of `width * height * 3` bytes, all zero |
| Canvas.Canvas.SetPixel | src/canvas.rs:19-23 | the buffer becomes `WithPixel` of the old buffer at pixel `width * y + x`; it requires exactly that this pixel lies in the buffer, since x is not checked on its own |
| Canvas.PixelIndex | src/canvas.rs:20-22 | defines the pixel number `width * y + x` whose bytes start at three times it, as the source's offset arithmetic computes |
| Canvas.Channel | src/canvas.rs:20-22 | defines the byte written at offset `k`: red, green or blue by `k % 3` |
| Canvas.WithPixel | src/canvas.rs:19-23 | setting a pixel keeps the buffer length |
| Canvas.WithPixelAt | src/canvas.rs:19-23 | byte `k` becomes channel `k % 3` of the colour when it belongs to the pixel; otherwise it keeps its old value |
| Canvas.WithPixelBytes | src/canvas.rs:19-23 | the same for every byte: exactly the pixel's three bytes change, to red, green and blue |
| Canvas.Canvas.DrawVerticalLine | src/canvas.rs:25-32 | the buffer becomes `Line` of the old buffer over rows `[max(y1, 0), min(y2, height))`; when that range is empty the buffer is unchanged; every drawn row must name a pixel of the buffer |
| Canvas.Line | src/canvas.rs:29-31 | drawing a line keeps the buffer length |
| Canvas.LineStep | src/canvas.rs:29-31 | proof step for the loop: one unfolding of `Line`, drawing one more row adds that row's pixel |
| Canvas.RowFits | src/canvas.rs:26-30 | if the first and the last clamped row fit the buffer, every row between them does, and so do the rows drawn so far |
| Canvas.OnLineStep | src/canvas.rs:29-31 | a pixel is on the rows `[lo, hi)` exactly when it is on `[lo, hi - 1)` or is row `hi - 1`'s pixel |
| Canvas.LineAt | src/canvas.rs:25-32 | after the line, byte `k` holds its channel of the colour when its pixel is on the line; otherwise it keeps its old value |
| Canvas.OnLineInColumn | src/canvas.rs:25-32 | for a column `0 <= x < width`, a pixel is on the line exactly when its column is `x` and its row is in the clamped range |
| Canvas.LineBytes | src/canvas.rs:25-32 | `LineAt` for every byte, in both the pixel-number form and the column-and-row form |
| Texture.Decode | src/texture.rs:33 | pixel `k` is the colour made of bytes `3k`, `3k+1` and `3k+2`, and there are a third as many pixels as bytes |
| Texture.Palette | src/texture.rs:48-52 | defines the colours in first-seen order, which is the order the palette fill gives `indexed_colors` |
| Texture.PaletteContents | src/texture.rs:33-42 | the palette holds exactly the image's colours, each once, and is no longer than the image |
| Texture.IndexOf | src/texture.rs:33-42 | the position found holds the colour and is its first occurrence |
| Texture.Indices | src/texture.rs:33-42 | there is one index per pixel |
| Texture.PalettePrefix | src/texture.rs:33-42 | the palette of the first `n` pixels is a prefix of the whole palette, so earlier colours keep their indices |
| Texture.IndexOfDistinct | src/texture.rs:33-42 | in a palette without repeats, a colour's position is the same in the palette and in any extension of it |
| Texture.IndicesAt | src/texture.rs:33-42 | each pixel's index is the position of its colour in the final palette |
| Texture.IndexRoundTrip | src/texture.rs:33-42 | each index is a valid palette offset, and the palette at that offset is the pixel's colour |
| Texture.SameIndexIffSameColor | src/texture.rs:33-42 | two pixels share an index if and only if they have the same colour |
| Texture.NewColorGetsNextIndex | src/texture.rs:34-38 | a colour not seen before gets the current counter, the number of distinct colours so far, as its index; so the indices follow first-seen order |
| Texture.Cut | src/texture.rs:29-43 | defines the finished rows and the row in progress: a row is pushed and a new one begun before each pixel whose number is a non-zero multiple of the width |
| Texture.Rows | src/texture.rs:28-46 | the row structure always has at least one row |
| Texture.RowsSnoc | src/texture.rs:29-32 | proof step: one unfolding of `Cut`/`Rows`, a further index either starts a new row, when the pixel number is a non-zero multiple of the width, or extends the last row |
| Texture.FlattenRows | src/texture.rs:28-45 | reading the rows one after another gives back the index sequence |
| Texture.RowsShape | src/texture.rs:28-45 | there are `(n - 1) / width + 1` rows; every row but the last has `width` entries; the last has `(n - 1) % width + 1`, or none when there are no pixels |
| Texture.RowsAt | src/texture.rs:28-45 | pixel `k`'s index sits in row `k / width`, column `k % width` |
| Texture.RowCount | src/texture.rs:28-45 | a `width * height` image with pixels has exactly `height` rows |
| Texture.RowsCell | src/texture.rs:28-46 | every cell of the rows is the index of pixel `width * r + c`, which exists |
| Texture.GridCell | src/texture.rs:28-46 | every cell of the rows is a valid offset into the palette |
| Texture.GridInPalette | src/texture.rs:28-52 | every index stored in the rows, in any row and column, is a valid offset into the palette |
| Texture.CutStep | src/texture.rs:29-43 | proof step for the scan: one unfolding of `Cut`, one scan step either closes the row in progress and begins a new one, or appends to the row in progress |
| Texture.TableOf | src/texture.rs:22-38 | defines the colour table: each colour entered under the count of colours entered before it |
| Texture.TableKeys | src/texture.rs:33-42 | the colour table's keys are the colours entered |
| Texture.TableValues | src/texture.rs:33-42 | distinct colours are entered under their positions |
| Texture.TableSize | src/texture.rs:33-42 | the table has one entry per distinct colour |
| Texture.TableContents | src/texture.rs:33-42 | the table holds exactly the palette's colours, each under its palette index |
| Texture.TableBijective | src/texture.rs:33-42 | the table maps its colours one-to-one onto `[0, len)` |
| Texture.IndicesStep | src/texture.rs:33-42 | proof step: one unfolding of `Indices`, each pixel appends its palette index to the index sequence |
| Texture.NewColorStep | src/texture.rs:34-38 | a new colour goes at the end of the palette and of the table, under the index equal to the counter |
| Texture.OldColorStep | src/texture.rs:39-41 | a known colour leaves the palette unchanged and reads its palette index from the table |
| Texture.TableKnows | src/texture.rs:34 | the table knows exactly the colours seen so far |
| Texture.ScanStep | src/texture.rs:32-41 | one pixel step keeps the palette, the table, the counter and the index sequence in step |
| Texture.StrideStart | src/texture.rs:29 | the byte-offset test `i % (width * 3) == 0` agrees with a test that the pixel number is a multiple of the width |
| Texture.ScanUpTo | src/texture.rs:28-44 | defines the loop's state (rows, row in progress, table, counter) after each pixel step |
| Texture.ScanTable | src/texture.rs:32-39 | after any number of scan steps, the colour table is `TableOf` of the palette of the pixels read so far, and the counter is that palette's size |
| Texture.ScanEntry | src/texture.rs:28-41 | one scan step appends the pixel's first-seen index: to a fresh row when the pixel starts a row, to the row in progress otherwise |
| Texture.ScanRows | src/texture.rs:28-41 | after any number of scan steps, the finished rows and the row in progress are the indices read so far, cut at every row start |
| Texture.Scan | src/texture.rs:20-45 | the rows built are `Rows` of the pixels' first-seen indices, and the colour table is `TableOf` of the palette |
| Texture.FillPalette | src/texture.rs:47-51 | with the keys taken in any order, every slot holds a colour whose index it is, or black if no colour has that index; when indices are distinct, each colour lands in its own slot |
| Texture.PaletteFromTable | src/texture.rs:47-51 | a slot array that has each table colour at its index is the palette in first-seen order |
| Texture.Load | src/texture.rs:16-59 | the texture keeps width and height; its colours are the palette and its grid is the rows of indices; `colors[grid[k / width][k % width]]` is pixel `k`; there are `height` rows; no pixels give `[[]]` and `[]`; every cell of the grid is a valid offset into the colours |
| Texture.PixelRoundTrip | src/texture.rs:20-52 | pixel `k` reads back through its row, column and palette slot |
| Texture.LoadRoundTrip | src/texture.rs:20-59 | the round trip for every pixel, the row count and the empty case together |
| Utils.Split | src/utils.rs:6 | there is one piece more than there are newlines; no piece holds a newline; the first piece is empty exactly when the text is empty or starts with a newline |
| Utils.JoinSplit | src/utils.rs:6 | joining the pieces with newlines gives the text back |
| Utils.SplitCons | src/utils.rs:6 | a leading non-newline character goes in front of the first piece |
| Utils.SplitPrefix | src/utils.rs:6 | a leading newline-free prefix is glued onto the first piece |
| Utils.SplitJoin | src/utils.rs:6 | splitting newline-free lines joined with newlines gives the lines back |
| Utils.ConcatSplit | src/utils.rs:6 | the pieces, read one after another, are the text without its newlines |
| Utils.NonEmpty | src/utils.rs:7 | the kept lines are all non-empty, and a line is kept exactly when it is non-empty |
| Utils.NonEmptyNoNewline | src/utils.rs:6-7 | no kept line holds a newline |
| Utils.ConcatNonEmpty | src/utils.rs:7 | the kept lines spell out the same text as all the lines |
| Utils.NonEmptyAppend | src/utils.rs:7 | the kept lines of two parts are those of the first part followed by those of the second, so the filter keeps the lines' order |
| Utils.NonEmptySplitCount | src/utils.rs:6-7 | the number of non-empty pieces equals the number of runs of non-newline characters in the text |
| Utils.RowOf | src/utils.rs:9-11 | a row has one entry per character of its line |
| Utils.RowRoundTrip | src/utils.rs:10 | each entry is its character's code minus that of `'0'`; digits give 0 to 9; `'0' + v` for each entry gives the line back |
| Utils.LineOf | src/utils.rs:10 | mapping back gives one character per entry |
| Utils.Text | src/utils.rs:8-12 | mapping back gives one line per row |
| Utils.ReadMap | src/utils.rs:6-13 | there is one row per run of non-newline characters |
| Utils.ReadMapShape | src/utils.rs:6-13 | the row count is the number of non-empty pieces and of runs; each row is non-empty and as long as its line; no entry comes from a newline |
| Utils.ReadMapRoundTrip | src/utils.rs:6-13 | the rows mapped back through `'0' + v` are the non-empty lines in order; read one after another they spell the text without its newlines |

## Left out

- src/math.rs, src/raycaster.rs, src/system_loop.rs, src/main.rs and src/config.rs are not part of this model. They hold floating-point ray marching, random colours, the SDL window and event loop, and constants.
- Image decoding in `Texture::load` (src/texture.rs:19) and its error result are left out. `Load` takes the pixel bytes, width and height as parameters.
- `Load` assumes the bytes are tightly packed, with no row padding: `width * height * 3` bytes. Surface pitch is not modelled.
- The file read and its `expect` panic in `read_map` (src/utils.rs:4-5) are I/O. `ReadMap` takes the file's text as a parameter.
- The key order of the HashMap walk in the palette fill (src/texture.rs:49) is not fixed. `FillPalette` picks keys in an arbitrary order, and its contract holds for every order.
- Canvas.Canvas.constructor: does not model the `u32` overflow of `width * height * 3`; the sizes are unbounded naturals.
- Canvas.Canvas.SetPixel: the source checks no coordinate and panics when `(width * y + x) * 3` is outside the buffer (src/canvas.rs:20-22); the method requires the pixel number to lie in the buffer. `OnLineInColumn` and `LineBytes` give the column-and-row reading when `0 <= x < width`.
- Canvas.Canvas.SetPixel: does not model the `i32` overflow of `width as i32 * y + x` or of its product with 3, nor the `u32` to `i32` cast of the width.
- Canvas.Canvas.DrawVerticalLine: the source panics at the first drawn row outside the buffer, after the earlier rows have been written; the method requires the first and last clamped rows to lie in the buffer.
- Canvas.Canvas.DrawVerticalLine: does not model the `u32` to `i32` cast of `self.height` (src/canvas.rs:27); the height is an unbounded natural.
- Texture.Scan: does not model the `i32` range of the counter and the indices, nor the `u32` product `width * 3`.
- Texture.Load: does not model the `i32` casts of width and height.
- Texture.Scan: for width 0, the source's `%` by the zero stride would panic from the second pixel on. The precondition admits at most one pixel, and `Load` with width 0 has no pixels.
- The `Color` and `Texture` derive traits, `Debug` output and `Clone`, are not modelled; Dafny datatypes are values.
