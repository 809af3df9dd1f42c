# tif_editor in Dafny

A model of the terminal pixel editor `tif_editor`. The editor paints a grid
of eight palette colours and saves it in a small `.TIF` format: a six-byte
header (`.TIF ` plus the width), then a run-length stream of
`(token, count)` byte pairs. The repository holds two editor designs, and
both are modelled.

**The grid design** is the one `main.rs` compiles:

- `Palette` (`src/pixel.rs`) holds the closed `Color` enum. Its display
  index is `as_u8`. Its wire token is `to_tif_color`, a fixed table onto
  0x5A..0x61. `FromTifToken` is the inverse of that table. It is used only to
  state what the encoder writes.
- `Pixels` (`src/pixel.rs`) is one cell: colour, painted flag and its own
  coordinates.
- `Grids` (`src/grid.rs`) is the editor state: a `height x width` matrix,
  the cursor, the Selection/Editing mode and the selected colour. It covers
  construction, the four bounded cursor moves, painting one cell, and the
  file header.
- `TifRuns` gives the meaning of a run stream. `Expand` turns the pairs into
  the colour sequence they stand for. `SumCounts` adds the counts. `Rows`
  cuts a row-major sequence into rows. These are specifications only.
- `GridEncoder` (`src/grid.rs`) is `append_pixels`, the run-length encoder,
  plus the buffer `save_to_file` writes. The encoder is a loop with this
  invariant: the pairs emitted so far, followed by the pending run, expand to
  the cells scanned so far. From it the model proves four things about the
  output:
  - it is well formed: known tokens, counts 1..255;
  - it is maximal: a token repeats in the next pair only after a full
    run of 255;
  - it expands to the grid's row-major colours, so regrouping by the
    width gives back the grid;
  - its counts sum to `height * width`.
- `Dispatch` (`src/main.rs`) is the main loop's handling of one input
  event, the loop over a sequence of events, and the save on quit.

**The editor design** (`src/editor.rs` with its helpers):

- `ColorTable` (`src/color/mod.rs`) is the index wrapper and its
  index-to-token table, which reads index `n` as colour `n - 1`. It is proved to agree with the grid design's table.
- `Areas` (`src/area.rs`) is the selection corners. `Cursors`
  (`src/cursor.rs`) is the cursor with its hidden flag and the
  `i32 -> usize` cast. `Ints` holds the fixed-width integer types and
  that cast.
- `Editors` (`src/editor.rs`) is the Selection/Insertion/Area state
  machine. It covers:
  - bounds-checked pixel reads and writes;
  - the rejecting cursor setter;
  - entering and leaving Area mode;
  - normalising the two corners into an inclusive rectangle;
  - moving the final corner;
  - filling the rectangle, clipped to the image.

  Drawing is not modelled. A redraw only reports whether the cell it would
  draw exists, because that result decides whether some operations fail.

Every operation is a pure function or a method over immutable datatypes.
A `&mut self` method becomes a function that returns the new state. A
method that returns `Result` returns `Ok(new state)` or `Err(error)`. On an
error the caller keeps the state it had, which is what the source's early
`return Err` / `?` does.

Some behaviours of the code are easy to misread:

- The encoder flushes a run when its count reaches 255, so counts of 255
  occur in the file.
- Leaving Area mode (`set_mode`) keeps the stored selection.
  `AreaModeThenLeave` states this.
- The colour keys are 1..8. Keys 0 and 9 are ignored.
- `set_area_pos` tests `final.x >= pos.1 || final.y >= pos.0` before moving
  the final corner. The test holds unless the corner moves strictly down
  and strictly right, so a move along one axis, or no move at all, also
  meets it. When it holds, the old selection is redrawn first. That redraw
  fails when any cell of the old selection lies outside the image, and then
  the corner does not move.
- In `main.rs` the character `D` is caught by the left-move branch
  (`'a' || 'D'`). The `'D'` test of the right-move branch is never reached,
  so `D` moves left.

## Model

| member | source | states |
|---|---|---|
| Palette.AsU8 | src/pixel.rs:18-20 | the declaration index is below 8 and names the colour back (Black=0 ... White=7) |
| Palette.AsU8Bijective | src/pixel.rs:6-20 | `as_u8` is a bijection between the eight colours and 0..7, so it is injective |
| Palette.TifToken | src/pixel.rs:21-32 | every wire token lies in 0x5A..0x61 |
| Palette.FromTifToken | src/pixel.rs:21-32 | a byte has a colour exactly when it is in 0x5A..0x61, and that colour's token is the byte: the token table has a total inverse on that range and nowhere else |
| Palette.TokenRoundTrip | src/pixel.rs:22-31 | reading back a colour's token yields the colour |
| Palette.TokenInjective | src/pixel.rs:22-31 | distinct colours have distinct tokens |
| Palette.TokenTable | src/pixel.rs:22-31 | the exact table: Black 5B, Red 5C, Green 5D, Yellow 60, Blue 5A, Magenta 5E, Cyan 61, White 5F |
| Pixels.NewPixel | src/pixel.rs:44-51 | a new pixel is black, not painted, and records `height = pos.0`, `width = pos.1` |
| Pixels.SetColor | src/pixel.rs:52-55 | painting sets the colour and the painted flag and keeps the coordinates |
| Pixels.UnsetColor | src/pixel.rs:56-58 | unsetting clears the painted flag and keeps colour and coordinates |
| Pixels.PaintThenUnset | src/pixel.rs:52-58 | unsetting after painting keeps the painted colour; painting twice with one colour is painting once |
| Grids.Initial | src/grid.rs:23-40 | the fresh grid has `h` rows of `w` black unpainted pixels, each at its own `(i, j)`, the cursor at the origin in Selection mode with black selected, and is a valid state when `h, w >= 1` |
| Grids.NewGrid | src/grid.rs:23-40 | the nested loops build exactly the fresh grid: `h` rows of `w` black unpainted pixels, each recording its own `(i, j)`; cursor (0,0), Selection mode, black selected; a valid state when `h, w >= 1` |
| Grids.SetCursorPos | src/grid.rs:77-79 | the grid design stores the new cursor unchecked; nothing else changes |
| Grids.IncSelectWidth | src/grid.rs:56-60 | the column grows by exactly 1 iff it is below `width - 1`, otherwise nothing changes; only the cursor changes and it stays in the grid |
| Grids.DecSelectWidth | src/grid.rs:61-65 | the column shrinks by exactly 1 iff it is above 0, otherwise nothing changes; the cursor stays in the grid |
| Grids.IncSelectHeight | src/grid.rs:66-70 | the row grows by exactly 1 iff it is below `height - 1`, otherwise nothing changes; the cursor stays in the grid |
| Grids.DecSelectHeight | src/grid.rs:71-75 | the row shrinks by exactly 1 iff it is above 0, otherwise nothing changes; the cursor stays in the grid |
| Grids.ChangeColor | src/grid.rs:80-86 | only the target pixel changes, and it is painted with the colour; every other pixel, the shape and the other fields are unchanged |
| Grids.SetSelectedColorInPixel | src/grid.rs:116-118 | the cursor's pixel gets the selected colour and is marked painted; every other pixel is unchanged; validity is kept |
| Grids.GetPixelAt | src/grid.rs:127-131 | in a grid whose pixels record their coordinates, the pixel found at `pos` reports `pos` |
| Grids.GetHeader | src/grid.rs:133-135 | exactly six bytes: ".TIF " in ASCII, then the width as `u8` (equal to the width when it is below 256) |
| TifRuns.ExpandLength | src/grid.rs:146-162 | a run stream stands for exactly as many cells as its counts add up to |
| GridEncoder.ScanRows | src/grid.rs:140-142 | the row-major order in which the encoder visits the cells, regrouped by the width, gives back the grid row by row |
| GridEncoder.Flush | src/grid.rs:145-162 | appending the pending run's pair keeps the stream well formed and maximal and adds that run to the expansion |
| GridEncoder.ExtendRun | src/grid.rs:143-144 | a cell of the pending colour that leaves the count below 255 keeps the encoder invariant with the count one higher |
| GridEncoder.FillRun | src/grid.rs:143-149 | a cell that brings the count to 255 flushes a pair with count 255 and restarts at zero, keeping the invariant |
| GridEncoder.ExpandAfterFlush | src/grid.rs:150-156 | flushing the pending run and starting a run of one new cell stands for the scanned cells followed by that cell |
| GridEncoder.EndRun | src/grid.rs:150-156 | a cell of another colour after a pending run flushes that run and starts a run of one cell, keeping the invariant |
| GridEncoder.RestartRun | src/grid.rs:150-156 | a cell of another colour with nothing pending starts a run of one cell without emitting, keeping the invariant |
| GridEncoder.PushCell | src/grid.rs:142-157 | one cell's worth of the loop body keeps the invariant with the cell appended to the scanned colours |
| GridEncoder.AppendRow | src/grid.rs:141-158 | the loop over one row keeps the invariant with that row's colours appended |
| GridEncoder.EncodeRows | src/grid.rs:137-159 | from no pairs and an empty black run, the two loops leave pairs and a pending run that together stand for the whole grid in row-major order |
| GridEncoder.PendingAfterFlush | src/grid.rs:150-156 | once a run's pair is flushed, the new run of another colour can never repeat the last pair's token |
| GridEncoder.FlushPending | src/grid.rs:160-163 | after the last row the pending run, if any, gets its pair; the emitted pairs are kept as a prefix and the whole stream expands to exactly the cells scanned, with counts summing to their number |
| GridEncoder.AppendPixels | src/grid.rs:136-164 | the prior buffer is a preserved prefix and the appended part has even length; it is well formed (tokens of colours, counts 1..255) and maximal; it expands to the row-major scan of the grid; the counts sum to `height * width` |
| GridEncoder.SaveBuffer | src/grid.rs:173-174 | the saved bytes start with the header and carry the width; the rest encodes the grid: well-formed, maximal runs covering `height * width` cells which, expanded and regrouped by the width into `height` rows, give back the grid's colours exactly |
| Dispatch.DigitValue | src/main.rs:94 | only the characters 0..9 parse, to their decimal value |
| Dispatch.PaintIfEditing | src/main.rs:75-77 | paints the cursor's cell only in Editing mode and never moves the cursor |
| Dispatch.CharCommand | src/main.rs:65-93 | the character branches keep the state valid, the dimensions and the selected colour |
| Dispatch.SelectDigit | src/main.rs:94-109 | in Selection mode, key `n` in 1..8 selects the colour with index `n - 1`; otherwise nothing changes; nothing but the selected colour ever changes |
| Dispatch.Dispatch | src/main.rs:58-112 | every event keeps the state valid and the dimensions fixed; the loop ends exactly on `q`/`Q`, with the grid unchanged |
| Dispatch.ModeKeys | src/main.rs:67-70 | `i` sets Editing, escape sets Selection, nothing else changes |
| Dispatch.SpaceKey | src/main.rs:71-72 | space paints the cursor's cell with the selected colour in Editing mode and does nothing in Selection mode |
| Dispatch.VerticalMoveKeys | src/main.rs:73-82 | `w`/`W` move up and `s`/`S` move down, then paint at the resulting cursor when editing |
| Dispatch.HorizontalMoveKeys | src/main.rs:83-92 | `a` and `D` move left, `d` moves right, then paint at the resulting cursor when editing |
| Dispatch.BlockedMovePaints | src/main.rs:73-77 | a move blocked at the top edge while editing still paints the cell under the unmoved cursor |
| Dispatch.ArrowKeys | src/main.rs:60-63 | arrow keys make the bounded move and change nothing but the cursor, in either mode |
| Dispatch.DigitKeys | src/main.rs:94-109 | digits 1..8 select Black, Red, Green, Yellow, Blue, Magenta, Cyan, White in Selection mode; 0, 9 and digits while editing change nothing |
| Dispatch.OtherKeys | src/main.rs:64-111 | any other character or event leaves the grid unchanged |
| Dispatch.Run | src/main.rs:57-119 | the loop keeps the state valid and stops exactly when some event is a quit key |
| Dispatch.RunStopsAtQuit | src/main.rs:65-66 | the loop breaks at the first quit key: events after it change neither the outcome nor the grid that is saved |
| Dispatch.Edit | src/main.rs:56-120 | a file is produced exactly when a quit key is read; it carries the width in its header, and its runs are the encoding (well formed, maximal, covering `height * width` cells, regrouping into the colours) of the grid the events leave behind at the quit, starting from a fresh grid |
| ColorTable.Deref | src/color/mod.rs:18-22 | dereferencing gives back the wrapped index |
| ColorTable.IntoToken | src/color/mod.rs:31-61 | for index `n` in 1..8 the token is the grid design's token of the colour at `n - 1`; above 8 it falls back to 0x5A; always a token byte |
| ColorTable.IntoTokenTable | src/color/mod.rs:33-55 | indices 1..8 give 5B, 5C, 5D, 60, 5A, 5E, 61, 5F |
| ColorTable.TablesAgree | src/color/mod.rs:33-55 | the two designs' token tables agree on every colour |
| Areas.NewPoint | src/area.rs:8-10 | the first argument is stored as `y`, the second as `x` |
| Areas.NewArea | src/area.rs:20-25 | both corners are stored as given |
| Areas.SetFinalPointPos | src/area.rs:26-29 | the final corner becomes `(pos.0, pos.1)` as `(y, x)` and the starting corner is unchanged |
| Areas.SetFinalPointPosLast | src/area.rs:26-29 | moving the final corner twice equals moving it once to the last target |
| Cursors.NewCursor | src/cursor.rs:9-14 | a new cursor is at (0,0) and visible |
| Cursors.ToggleHidden | src/cursor.rs:16-18 | the hidden flag flips and the position is kept |
| Cursors.ToggleTwice | src/cursor.rs:16-18 | toggling twice is the identity |
| Cursors.SetPos | src/cursor.rs:30-32 | the position becomes the target and the hidden flag is kept |
| Cursors.CoordAsUsize | src/cursor.rs:20-22 | each non-negative coordinate is kept as it is; each negative one becomes an index of at least 2^63 |
| Ints.AsUsize | src/cursor.rs:20-22 | the `i32 -> usize` cast keeps non-negative values and agrees with the value modulo 2^64 |
| Editors.NewEditor | src/editor.rs:28-38 | Selection mode, black, cursor at (0,0) and visible, no selection; consistent for a non-empty image |
| Editors.GetPix | src/editor.rs:83-86 | a colour exactly for positions inside the stored rows, and it is that cell's colour |
| Editors.RedrawPix | src/editor.rs:93-101 | fails exactly when there is no pixel at the position |
| Editors.SetPixColor | src/editor.rs:122-128 | out of range it fails; in range exactly that one cell changes, to the colour, and the shape and other fields are kept |
| Editors.GetAfterSet | src/editor.rs:83-128 | after a successful write the cell reads back the colour and every other position reads as before |
| Editors.ShapedPixels | src/editor.rs:83-86 | for a shaped image, a pixel exists exactly inside the declared dimensions |
| Editors.SetCursorPos | src/editor.rs:102-113 | a target outside the image is rejected with an error; for a consistent editor it succeeds iff the target is inside; on success only the cursor position changes, to the target |
| Editors.SetPixAtCursor | src/editor.rs:115-120 | in a consistent editor it succeeds and the cursor's cell reads back the colour; all other cells are unchanged |
| Editors.AreaMode | src/editor.rs:73-82 | Area mode, with start = final = cursor; the cursor's hidden flag flips; image and colour are kept |
| Editors.SetMode | src/editor.rs:51-60 | the mode becomes `m`; the hidden flag flips exactly when leaving Area mode; the stored selection is not reset |
| Editors.AreaModeThenLeave | src/editor.rs:51-82 | entering then leaving Area mode restores the cursor exactly but keeps the selection |
| Editors.Span | src/editor.rs:179-188 | the two coordinates of one axis, smaller first |
| Editors.SpanSymmetric | src/editor.rs:179-188 | the span does not depend on which coordinate is the starting one |
| Editors.Bounds | src/editor.rs:178-189 | row and column pairs with low <= high, each end one of the corners, both corners inside |
| Editors.BoundsTight | src/editor.rs:178-189 | a cell is in the rectangle iff it lies between the corners on both axes |
| Editors.GetAreaPositions | src/editor.rs:174-190 | fails exactly outside Area mode; otherwise gives the normalised rectangle of the selection |
| Editors.AreaPositionsSymmetric | src/editor.rs:174-190 | exchanging the two corners gives the same positions |
| Editors.RectReadableInside | src/editor.rs:192-200 | for a shaped image, every cell of a rectangle exists iff its two extreme corners are inside the image |
| Editors.DrawAreaPixels | src/editor.rs:192-200 | fails outside Area mode; in Area mode it succeeds iff every cell of the selection exists |
| Editors.SetAreaPos | src/editor.rs:235-248 | fails outside Area mode; in Area mode it fails iff the corner does not move strictly down and strictly right while part of the old selection lies outside the image; on success only the final corner changes, to `pos`, and consistency is kept |
| Editors.SetAreaToCursor | src/editor.rs:250-252 | the final corner follows the cursor; in Area mode it fails exactly when the move to the cursor redraws the old selection first and part of it lies outside the image; consistency is kept |
| Editors.SetAreaColor | src/editor.rs:220-233 | fails exactly outside Area mode; otherwise exactly the rectangle's cells inside the image get the colour and all other cells, the shape and the other fields are unchanged |

## Left out

- Terminal output and input: every `draw*` function, the output part of
  `redraw_pix`, `refresh`, the curses colour-pair setup (`init`,
  `set_editor_up`, `set_up_colors`), `Pixel::draw_on_screen`, `Cursor::draw`
  and the `napms` pacing. These are I/O. The main loop's events are a finite
  sequence given as a parameter.
- `parse_args`, `is_terminal_size_enough` and `get_window_size`. They depend
  on the command line and the terminal.
- The file writing in `save_to_file`. Only the byte buffer it writes is
  modelled.
- The image library's `TifImage`, `PixelColor` and `From<&PixelColor>`. This
  code is not part of this model. The editor's image is rows of palette
  colours with its declared height and width, and `set_selected_color`
  (which only stores a `PixelColor`) is not modelled.
- A decoder for the file format. The library's reader is not part of this
  model. `Expand` and `Rows` serve only as the encoder's specification, and
  the height has to be supplied from outside because the header does not
  store it.
- `src/pallete.rs`, a constant list of the library's colours with no
  behaviour.
- Grids.NewGrid: requires non-negative dimensions. A negative `i16` size
  would give an empty matrix with a negative declared size.
- Dispatch.Edit: requires `1 <= height` and `1 <= width < 256`. Narrower
  grids and the `width as u8` truncation of wider ones are not modelled.
  `GetHeader` itself does model the truncation.
- Editors.SetCursorPos: compares with the image height as a mathematical
  integer. The source casts the `u64` height to `i32`, which differs only
  for images taller than 2^31 rows. `SetAreaColor` clips the same way.
- Editors.SetAreaColor: requires a shaped image, so no write inside the
  image's declared dimensions can fail. For an image whose rows disagree
  with its declared dimensions, the source can stop with an error after
  painting part of the rectangle; that partial state is not modelled.
- Editors.SetAreaPos: the `draw_area()?` after the corner moves only draws
  and always succeeds in Area mode, so it is left out of the model.
- ColorTable.IntoToken: requires index 1 or more. For index 0 the `u32`
  subtraction underflows: it panics in a debug build and falls back to 0x5A
  in a release build.
- `i16` and `i32` overflow of cursor arithmetic is not modelled. Coordinates
  are unbounded integers in the grid design; they stay inside the grid.
- Equality of colours is structural datatype equality, although the grid
  design's `Color` derives no `PartialEq`.
