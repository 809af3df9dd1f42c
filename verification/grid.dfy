/**
  The grid editor's state: a `height x width` matrix of pixels, a cursor,
  a two-valued mode and the colour that painting uses.
 */
module Grids {
  import opened Palette
  import opened Pixels

  datatype Mode = Selection | Editing

  datatype Grid = Grid(
    pixels: seq<seq<Pixel>>,
    height: int,
    width: int,
    cursor: (int, int),
    mode: Mode,
    selectedColor: Color)

  /** The pixel matrix has `height` rows of `width` cells. */
  predicate Shaped(g: Grid) {
    && 0 <= g.height && 0 <= g.width
    && |g.pixels| == g.height
    && forall i :: 0 <= i < |g.pixels| ==> |g.pixels[i]| == g.width
  }

  /** Every pixel records its own row and column. */
  predicate Located(g: Grid) {
    forall i, j :: 0 <= i < |g.pixels| && 0 <= j < |g.pixels[i]| ==>
      g.pixels[i][j].height == i && g.pixels[i][j].width == j
  }

  /** `pos` names a cell of the grid. */
  predicate InGrid(g: Grid, pos: (int, int)) {
    0 <= pos.0 < g.height && 0 <= pos.1 < g.width
  }

  /** The state invariant the key dispatch keeps: a well-formed matrix and a
      cursor on one of its cells. */
  predicate Valid(g: Grid) {
    Shaped(g) && Located(g) && InGrid(g, g.cursor)
  }

  /** The state `Grid::new` builds, written as one comprehension: every cell
      a fresh pixel at its own coordinates, the cursor at the origin. */
  function Initial(size: (int, int)): (g: Grid)
    requires 0 <= size.0 && 0 <= size.1
    ensures Shaped(g) && Located(g)
    ensures g.height == size.0 && g.width == size.1
    ensures forall i, j :: 0 <= i < g.height && 0 <= j < g.width ==>
      g.pixels[i][j].color == Black && !g.pixels[i][j].isDraw
    ensures g.cursor == (0, 0) && g.mode == Selection && g.selectedColor == Black
    ensures size.0 >= 1 && size.1 >= 1 ==> Valid(g)
  {
    Grid(seq(size.0, i => seq(size.1, j => NewPixel((i, j)))), size.0, size.1, (0, 0), Selection, Black)
  }

  /** `Grid::new`: builds the matrix row by row, as the source's nested loops do. */
  method NewGrid(size: (int, int)) returns (g: Grid)
    requires 0 <= size.0 && 0 <= size.1
    ensures g == Initial(size)
    ensures Shaped(g) && Located(g)
    ensures g.height == size.0 && g.width == size.1
    ensures forall i, j :: 0 <= i < g.height && 0 <= j < g.width ==>
      g.pixels[i][j].color == Black && !g.pixels[i][j].isDraw
    ensures g.cursor == (0, 0) && g.mode == Selection && g.selectedColor == Black
    ensures size.0 >= 1 && size.1 >= 1 ==> Valid(g)
  {
    var rows: seq<seq<Pixel>> := [];
    var i := 0;
    while i < size.0
      invariant 0 <= i <= size.0 && |rows| == i
      invariant forall r :: 0 <= r < i ==> |rows[r]| == size.1
      invariant forall r, c :: 0 <= r < i && 0 <= c < size.1 ==> rows[r][c] == NewPixel((r, c))
    {
      var row: seq<Pixel> := [];
      var j := 0;
      while j < size.1
        invariant 0 <= j <= size.1 && |row| == j
        invariant forall c :: 0 <= c < j ==> row[c] == NewPixel((i, c))
      {
        row := row + [NewPixel((i, j))];
        j := j + 1;
      }
      rows := rows + [row];
      i := i + 1;
    }
    forall r | 0 <= r < size.0
      ensures rows[r] == Initial(size).pixels[r]
    {
    }
    g := Grid(rows, size.0, size.1, (0, 0), Selection, Black);
  }

  /** `Grid::set_cursor_pos`: stores the new position without any check. */
  function SetCursorPos(g: Grid, pos: (int, int)): (r: Grid)
    ensures r.cursor == pos
    ensures r.pixels == g.pixels && r.mode == g.mode && r.selectedColor == g.selectedColor
    ensures r.height == g.height && r.width == g.width
  {
    g.(cursor := pos)
  }

  /** `inc_select_width`: one column right, unless already in the last column. */
  function IncSelectWidth(g: Grid): (r: Grid)
    ensures r == g.(cursor := r.cursor)
    ensures r.cursor.0 == g.cursor.0
    ensures r.cursor.1 == g.cursor.1 + 1 <==> g.cursor.1 < g.width - 1
    ensures r.cursor.1 != g.cursor.1 + 1 ==> r == g
    ensures InGrid(g, g.cursor) ==> InGrid(r, r.cursor)
  {
    if g.cursor.1 < g.width - 1 then SetCursorPos(g, (g.cursor.0, g.cursor.1 + 1)) else g
  }

  /** `dec_select_width`: one column left, unless already in column 0. */
  function DecSelectWidth(g: Grid): (r: Grid)
    ensures r == g.(cursor := r.cursor)
    ensures r.cursor.0 == g.cursor.0
    ensures r.cursor.1 == g.cursor.1 - 1 <==> g.cursor.1 > 0
    ensures r.cursor.1 != g.cursor.1 - 1 ==> r == g
    ensures InGrid(g, g.cursor) ==> InGrid(r, r.cursor)
  {
    if g.cursor.1 > 0 then SetCursorPos(g, (g.cursor.0, g.cursor.1 - 1)) else g
  }

  /** `inc_select_height`: one row down, unless already in the last row. */
  function IncSelectHeight(g: Grid): (r: Grid)
    ensures r == g.(cursor := r.cursor)
    ensures r.cursor.1 == g.cursor.1
    ensures r.cursor.0 == g.cursor.0 + 1 <==> g.cursor.0 < g.height - 1
    ensures r.cursor.0 != g.cursor.0 + 1 ==> r == g
    ensures InGrid(g, g.cursor) ==> InGrid(r, r.cursor)
  {
    if g.cursor.0 < g.height - 1 then SetCursorPos(g, (g.cursor.0 + 1, g.cursor.1)) else g
  }

  /** `dec_select_height`: one row up, unless already in row 0. */
  function DecSelectHeight(g: Grid): (r: Grid)
    ensures r == g.(cursor := r.cursor)
    ensures r.cursor.1 == g.cursor.1
    ensures r.cursor.0 == g.cursor.0 - 1 <==> g.cursor.0 > 0
    ensures r.cursor.0 != g.cursor.0 - 1 ==> r == g
    ensures InGrid(g, g.cursor) ==> InGrid(r, r.cursor)
  {
    if g.cursor.0 > 0 then SetCursorPos(g, (g.cursor.0 - 1, g.cursor.1)) else g
  }

  /** `pos` indexes an existing pixel; the source unwraps both lookups, so
      any other position is a panic and is excluded by the callers. */
  predicate HasPixel(g: Grid, pos: (int, int)) {
    0 <= pos.0 < |g.pixels| && 0 <= pos.1 < |g.pixels[pos.0]|
  }

  /** `Grid::change_color`: paint exactly one pixel. */
  function ChangeColor(g: Grid, pos: (int, int), color: Color): (r: Grid)
    requires HasPixel(g, pos)
    ensures r == g.(pixels := r.pixels)
    ensures |r.pixels| == |g.pixels|
    ensures forall i :: 0 <= i < |g.pixels| ==> |r.pixels[i]| == |g.pixels[i]|
    ensures r.pixels[pos.0][pos.1] == SetColor(g.pixels[pos.0][pos.1], color)
    ensures forall i, j :: 0 <= i < |g.pixels| && 0 <= j < |g.pixels[i]| && (i, j) != pos ==>
      r.pixels[i][j] == g.pixels[i][j]
    ensures Shaped(g) ==> Shaped(r)
    ensures Located(g) ==> Located(r)
  {
    var row := g.pixels[pos.0];
    g.(pixels := g.pixels[pos.0 := row[pos.1 := SetColor(row[pos.1], color)]])
  }

  /** `set_selected_color_in_pixel`: paint the cursor's pixel with the
      selected colour. */
  function SetSelectedColorInPixel(g: Grid): (r: Grid)
    requires Valid(g)
    ensures Valid(r)
    ensures r == g.(pixels := r.pixels)
    ensures r.pixels[g.cursor.0][g.cursor.1].color == g.selectedColor
    ensures r.pixels[g.cursor.0][g.cursor.1].isDraw
    ensures forall i, j :: InGrid(g, (i, j)) && (i, j) != g.cursor ==>
      r.pixels[i][j] == g.pixels[i][j]
  {
    ChangeColor(g, g.cursor, g.selectedColor)
  }

  /** `Grid::get_pixel_at`; in a located grid the pixel found at `pos`
      reports `pos` as its own coordinates. */
  function GetPixelAt(g: Grid, pos: (int, int)): (p: Pixel)
    requires HasPixel(g, pos)
    ensures Located(g) ==> (p.height, p.width) == pos
    ensures p in g.pixels[pos.0]
  {
    g.pixels[pos.0][pos.1]
  }

  /** The five magic bytes ".TIF " as ASCII text. */
  const MagicText: string := ".TIF "

  /** `Grid::get_header`: the magic followed by the width cast to `u8`
      (two's-complement truncation, so a negative or wide value wraps). */
  function GetHeader(g: Grid): (h: seq<byte>)
    ensures |h| == 6
    ensures forall k :: 0 <= k < 5 ==> h[k] == MagicText[k] as int
    ensures h[5] == g.width % 256
    ensures 0 <= g.width < 256 ==> h[5] == g.width
  {
    [0x2E, 0x54, 0x49, 0x46, 0x20, g.width % 256]
  }
}
