/**
  The editor design: an image of palette colours, a cursor, a three-valued
  mode and, in Area mode, a selection rectangle that can be filled.
  Terminal output is not modelled; a redraw only reports whether the cell
  it would draw exists.
 */
module Editors {
  import opened Wrappers
  import opened Ints
  import opened Palette
  import opened Cursors
  import Areas

  datatype Mode = Selection | Insertion | Area

  /** The part of the image library's `TifImage` the editor uses: rows of
      colours and the declared dimensions. */
  datatype Image = Image(pixels: seq<seq<Color>>, height: u64, width: byte)

  datatype EditorError = OutOfBounds | OutOfImageBounds | NotInAreaMode

  datatype Editor = Editor(
    image: Image,
    mode: Mode,
    selectedColor: Color,
    cursor: Cursor,
    area: Option<Areas.Area>)

  /** The image holds `height` rows of `width` colours. */
  predicate Shaped(img: Image) {
    && |img.pixels| == img.height
    && forall i :: 0 <= i < |img.pixels| ==> |img.pixels[i]| == img.width
  }

  /** `(row, col)` lies inside the image's declared dimensions. */
  predicate InImage(img: Image, row: int, col: int) {
    0 <= row <= img.height - 1 && 0 <= col <= img.width - 1
  }

  /** In Area mode a selection exists (the source unwraps it). */
  predicate AreaPresent(e: Editor) {
    e.mode == Area ==> e.area.Some?
  }

  /** The state every editor operation keeps. */
  predicate Consistent(e: Editor) {
    Shaped(e.image) && InImage(e.image, e.cursor.pos.0, e.cursor.pos.1) && AreaPresent(e)
  }

  /** `Editor::new`: Selection mode, black, a fresh cursor, no selection. */
  function NewEditor(img: Image): (e: Editor)
    ensures e.image == img
    ensures e.mode == Selection && e.selectedColor == Black && e.area == None
    ensures e.cursor.pos == (0, 0) && !e.cursor.hidden
    ensures Shaped(img) && img.height >= 1 && img.width >= 1 ==> Consistent(e)
  {
    Editor(img, Selection, Black, NewCursor(), None)
  }

  /** `Editor::get_pix`: the colour at `pos`, or none outside the rows. */
  function GetPix(e: Editor, pos: (u64, u64)): (r: Option<Color>)
    ensures r.Some? <==> pos.0 < |e.image.pixels| && pos.1 < |e.image.pixels[pos.0]|
    ensures r.Some? ==> r.value == e.image.pixels[pos.0][pos.1]
  {
    if pos.0 < |e.image.pixels| && pos.1 < |e.image.pixels[pos.0]|
    then Some(e.image.pixels[pos.0][pos.1])
    else None
  }

  /** `Editor::redraw_pix` without its output: it fails exactly when there
      is no pixel at `pos`. */
  function RedrawPix(e: Editor, pos: (u64, u64)): (r: Result<(), EditorError>)
    ensures r.Ok? <==> GetPix(e, pos).Some?
    ensures r.Err? ==> r.error == OutOfBounds
  {
    if GetPix(e, pos).None? then Err(OutOfBounds) else Ok(())
  }

  /** `Editor::set_pix_color` (through `get_mut_pix`): writes one cell, or
      fails when there is none at `pos`. */
  function SetPixColor(e: Editor, pos: (u64, u64), color: Color): (r: Result<Editor, EditorError>)
    ensures r.Err? <==> GetPix(e, pos).None?
    ensures r.Err? ==> r.error == OutOfBounds
    ensures r.Ok? ==> r.value == e.(image := e.image.(pixels := r.value.image.pixels))
    ensures r.Ok? ==> |r.value.image.pixels| == |e.image.pixels|
    ensures r.Ok? ==> forall i :: 0 <= i < |e.image.pixels| ==>
      |r.value.image.pixels[i]| == |e.image.pixels[i]|
    ensures r.Ok? ==> r.value.image.pixels[pos.0][pos.1] == color
    ensures r.Ok? ==> forall i, j ::
      (0 <= i < |e.image.pixels| && 0 <= j < |e.image.pixels[i]| && (i != pos.0 || j != pos.1)) ==>
        r.value.image.pixels[i][j] == e.image.pixels[i][j]
  {
    if GetPix(e, pos).None? then Err(OutOfBounds)
    else
      var row := e.image.pixels[pos.0];
      Ok(e.(image := e.image.(pixels := e.image.pixels[pos.0 := row[pos.1 := color]])))
  }

  /** Reading a cell after writing it: the written cell reads back the
      colour, every other position reads as before. */
  lemma GetAfterSet(e: Editor, pos: (u64, u64), color: Color, q: (u64, u64))
    requires SetPixColor(e, pos, color).Ok?
    ensures q == pos ==> GetPix(SetPixColor(e, pos, color).value, q) == Some(color)
    ensures q != pos ==> GetPix(SetPixColor(e, pos, color).value, q) == GetPix(e, q)
  {
  }

  /** A shaped image has a pixel exactly at the positions inside its
      dimensions. */
  lemma ShapedPixels(e: Editor, pos: (u64, u64))
    requires Shaped(e.image)
    ensures GetPix(e, pos).Some? <==> InImage(e.image, pos.0, pos.1)
  {
  }

  /** `Editor::set_cursor_pos`: rejects a target outside the image; then
      redraws the cell under the old cursor (which fails if that cell does
      not exist) and moves the cursor. */
  function SetCursorPos(e: Editor, pos: (i32, i32)): (r: Result<Editor, EditorError>)
    ensures !InImage(e.image, pos.0, pos.1) ==> r == Err(OutOfImageBounds)
    ensures Consistent(e) ==> (r.Ok? <==> InImage(e.image, pos.0, pos.1))
    ensures r.Ok? ==> r.value == e.(cursor := r.value.cursor)
    ensures r.Ok? ==> r.value.cursor.pos == pos && r.value.cursor.hidden == e.cursor.hidden
    ensures r.Ok? && Consistent(e) ==> Consistent(r.value)
  {
    if !(pos.0 >= 0 && pos.0 <= e.image.height - 1 && pos.1 >= 0 && pos.1 <= e.image.width - 1) then
      Err(OutOfImageBounds)
    else
      var redraw := RedrawPix(e, CoordAsUsize(e.cursor));
      if redraw.Err? then Err(redraw.error)
      else Ok(e.(cursor := SetPos(e.cursor, pos)))
  }

  /** `Editor::set_pix_at_cursor`: paints the cell under the cursor. */
  function SetPixAtCursor(e: Editor, color: Color): (r: Result<Editor, EditorError>)
    ensures Consistent(e) ==> r.Ok?
    ensures r.Ok? ==> GetPix(r.value, CoordAsUsize(e.cursor)) == Some(color)
    ensures r.Ok? ==> r.value == e.(image := r.value.image)
    ensures r.Ok? && Consistent(e) ==> Consistent(r.value)
    ensures r.Ok? ==> forall q :: q != CoordAsUsize(e.cursor) ==> GetPix(r.value, q) == GetPix(e, q)
  {
    SetPixColor(e, CoordAsUsize(e.cursor), color)
  }

  /** `Editor::area_mode`: a zero-size selection at the cursor, and the
      cursor glyph's hidden flag flipped. */
  function AreaMode(e: Editor): (r: Editor)
    ensures r.mode == Area
    ensures r.area.Some?
    ensures r.area.value.start == r.area.value.final
    ensures (r.area.value.start.y, r.area.value.start.x) == e.cursor.pos
    ensures r.cursor.pos == e.cursor.pos && r.cursor.hidden == !e.cursor.hidden
    ensures r.image == e.image && r.selectedColor == e.selectedColor
    ensures Consistent(e) ==> Consistent(r)
  {
    var p := Areas.NewPoint(e.cursor.pos.0, e.cursor.pos.1);
    e.(mode := Area,
       area := Some(Areas.NewArea(p, p)),
       cursor := ToggleHidden(e.cursor))
  }

  /** `Editor::set_mode`: leaving Area mode flips the cursor's hidden flag
      back; the selection itself is not cleared. */
  function SetMode(e: Editor, m: Mode): (r: Editor)
    ensures r.mode == m
    ensures r.area == e.area && r.image == e.image && r.selectedColor == e.selectedColor
    ensures r.cursor.pos == e.cursor.pos
    ensures r.cursor.hidden != e.cursor.hidden <==> e.mode == Area && m != Area
    ensures Consistent(e) && (m == Area ==> e.area.Some?) ==> Consistent(r)
  {
    var cursor := if e.mode == Area && m != Area then ToggleHidden(e.cursor) else e.cursor;
    e.(mode := m, cursor := cursor)
  }

  /** Entering Area mode and leaving it again restores the cursor exactly,
      and the selection made on entry is still stored. */
  lemma AreaModeThenLeave(e: Editor, m: Mode)
    requires m != Area
    ensures SetMode(AreaMode(e), m).cursor == e.cursor
    ensures SetMode(AreaMode(e), m).area == AreaMode(e).area
    ensures SetMode(AreaMode(e), m).image == e.image
  {
  }

  /** One axis of `get_area_positions`: the two coordinates, smaller first. */
  function Span(s: i32, f: i32): (r: (i32, i32))
    ensures r.0 <= r.1
    ensures r == (s, f) || r == (f, s)
  {
    if s >= f then (f, s) else (s, f)
  }

  /** Swapping the two coordinates does not change the span. */
  lemma SpanSymmetric(s: i32, f: i32)
    ensures Span(s, f) == Span(f, s)
  {
  }

  /** The row span and the column span of a selection. */
  function Bounds(a: Areas.Area): (r: ((i32, i32), (i32, i32)))
    ensures r.0.0 <= a.start.y <= r.0.1 && r.0.0 <= a.final.y <= r.0.1
    ensures r.1.0 <= a.start.x <= r.1.1 && r.1.0 <= a.final.x <= r.1.1
    ensures r.0.0 == a.start.y || r.0.0 == a.final.y
    ensures r.0.1 == a.start.y || r.0.1 == a.final.y
    ensures r.1.0 == a.start.x || r.1.0 == a.final.x
    ensures r.1.1 == a.start.x || r.1.1 == a.final.x
  {
    (Span(a.start.y, a.final.y), Span(a.start.x, a.final.x))
  }

  /** `(row, col)` lies in the inclusive rectangle. */
  predicate InRect(rect: ((int, int), (int, int)), row: int, col: int) {
    rect.0.0 <= row <= rect.0.1 && rect.1.0 <= col <= rect.1.1
  }

  /** The rectangle is the smallest one holding both corners. */
  lemma BoundsTight(a: Areas.Area, row: int, col: int)
    ensures InRect(Bounds(a), row, col) <==>
      (a.start.y <= row <= a.final.y || a.final.y <= row <= a.start.y) &&
      (a.start.x <= col <= a.final.x || a.final.x <= col <= a.start.x)
  {
  }

  /** `Editor::get_area_positions`: the normalised selection, only in Area
      mode. */
  function GetAreaPositions(e: Editor): (r: Result<((i32, i32), (i32, i32)), EditorError>)
    requires AreaPresent(e)
    ensures r.Err? <==> e.mode != Area
    ensures r.Err? ==> r.error == NotInAreaMode
    ensures r.Ok? ==> r.value == Bounds(e.area.value)
  {
    if e.mode != Area then Err(NotInAreaMode)
    else Ok(Bounds(e.area.value))
  }

  /** Exchanging the selection's corners gives the same positions. */
  lemma AreaPositionsSymmetric(e: Editor)
    requires e.mode == Area && e.area.Some?
    ensures GetAreaPositions(e.(area := Some(Areas.Area(e.area.value.final, e.area.value.start))))
         == GetAreaPositions(e)
  {
  }

  /** The cell that `redraw_pix((i as usize, j as usize))` would draw exists. */
  predicate Readable(e: Editor, row: i32, col: i32) {
    GetPix(e, (AsUsize(row), AsUsize(col))).Some?
  }

  /** Every cell of the rectangle exists. */
  ghost predicate RectReadable(e: Editor, rect: ((i32, i32), (i32, i32))) {
    forall i: i32, j: i32 :: InRect(rect, i, j) ==> Readable(e, i, j)
  }

  /** For a shaped image, every cell of a rectangle exists exactly when the
      rectangle lies inside the image. */
  lemma RectReadableInside(e: Editor, rect: ((i32, i32), (i32, i32)))
    requires Shaped(e.image) && e.image.height < 0x8000_0000_0000_0000
    requires rect.0.0 <= rect.0.1 && rect.1.0 <= rect.1.1
    ensures RectReadable(e, rect) <==>
      InImage(e.image, rect.0.0, rect.1.0) && InImage(e.image, rect.0.1, rect.1.1)
  {
    if RectReadable(e, rect) {
      assert Readable(e, rect.0.0, rect.1.0);
      assert Readable(e, rect.0.1, rect.1.1);
    }
  }

  /** `Editor::draw_area_pixels` without its output: the selection's cells
      are redrawn row by row, and the first one that does not exist ends it
      with an error. */
  method DrawAreaPixels(e: Editor) returns (r: Result<(), EditorError>)
    requires AreaPresent(e)
    ensures e.mode != Area ==> r == Err(NotInAreaMode)
    ensures e.mode == Area ==> (r.Ok? <==> RectReadable(e, Bounds(e.area.value)))
  {
    var rect :- GetAreaPositions(e);
    var i: int := rect.0.0;
    while i <= rect.0.1
      invariant rect.0.0 <= i <= rect.0.1 as int + 1
      invariant forall a: i32, b: i32 :: rect.0.0 <= a < i && rect.1.0 <= b <= rect.1.1 ==> Readable(e, a, b)
    {
      var j: int := rect.1.0;
      while j <= rect.1.1
        invariant rect.1.0 <= j <= rect.1.1 as int + 1
        invariant forall a: i32, b: i32 :: rect.0.0 <= a < i && rect.1.0 <= b <= rect.1.1 ==> Readable(e, a, b)
        invariant forall b: i32 :: rect.1.0 <= b < j ==> Readable(e, i, b)
      {
        assert RedrawPix(e, (AsUsize(i), AsUsize(j))).Err? <==> !Readable(e, i, j);
        var drawn :- RedrawPix(e, (AsUsize(i), AsUsize(j)));
        j := j + 1;
      }
      i := i + 1;
    }
    return Ok(());
  }

  /** The test `set_area_pos` makes before moving the final corner to
      `pos`: it holds unless the corner moves strictly down and strictly
      right (a move along one axis, or no move at all, also meets it). */
  predicate RedrawsBeforeMove(final: Areas.Point, pos: (i32, i32)) {
    final.x >= pos.1 || final.y >= pos.0
  }

  /** `Editor::set_area_pos`: only in Area mode. Unless the final corner
      moves strictly down and strictly right, the old selection's cells are
      redrawn first, and a cell of it outside the image aborts the move;
      otherwise only the final corner changes, to `pos`. */
  method SetAreaPos(e: Editor, pos: (i32, i32)) returns (r: Result<Editor, EditorError>)
    requires AreaPresent(e)
    ensures e.mode != Area ==> r == Err(NotInAreaMode)
    ensures e.mode == Area ==>
      (r.Err? <==> RedrawsBeforeMove(e.area.value.final, pos) && !RectReadable(e, Bounds(e.area.value)))
    ensures r.Ok? ==> r.value == e.(area := r.value.area)
    ensures r.Ok? ==> r.value.area == Some(Areas.SetFinalPointPos(e.area.value, pos))
    ensures r.Ok? ==> r.value.area.value.start == e.area.value.start
    ensures r.Ok? && Consistent(e) ==> Consistent(r.value)
  {
    if e.mode != Area {
      return Err(NotInAreaMode);
    }
    var point := e.area.value.final;
    if point.x >= pos.1 || point.y >= pos.0 {
      var restored :- DrawAreaPixels(e);
    }
    r := Ok(e.(area := Some(Areas.SetFinalPointPos(e.area.value, pos))));
  }

  /** `set_area_based_on_current_cursor_position`: the final corner follows
      the cursor. */
  method SetAreaToCursor(e: Editor) returns (r: Result<Editor, EditorError>)
    requires AreaPresent(e)
    ensures e.mode != Area ==> r == Err(NotInAreaMode)
    ensures e.mode == Area ==>
      (r.Err? <==> RedrawsBeforeMove(e.area.value.final, e.cursor.pos) && !RectReadable(e, Bounds(e.area.value)))
    ensures r.Ok? ==> r.value == e.(area := Some(Areas.SetFinalPointPos(e.area.value, e.cursor.pos)))
    ensures r.Ok? && Consistent(e) ==> Consistent(r.value)
  {
    r := SetAreaPos(e, e.cursor.pos);
  }

  /** After a fill of `rect` clipped to the image: the cells of the
      rectangle inside the image hold `color`, all others are as in `img`. */
  ghost predicate Filled(img: Image, img': Image, rect: ((i32, i32), (i32, i32)), color: Color)
    requires Shaped(img) && Shaped(img')
    requires img'.height == img.height && img'.width == img.width
  {
    forall i, j :: 0 <= i < img.height && 0 <= j < img.width ==>
      img'.pixels[i][j] == if InRect(rect, i, j) then color else img.pixels[i][j]
  }

  /** `Editor::set_area_color`: every cell of the selection that lies inside
      the image is painted; only in Area mode. */
  method SetAreaColor(e: Editor, color: Color) returns (r: Result<Editor, EditorError>)
    requires AreaPresent(e) && Shaped(e.image)
    ensures r.Err? <==> e.mode != Area
    ensures r.Err? ==> r.error == NotInAreaMode
    ensures r.Ok? ==> r.value == e.(image := r.value.image)
    ensures r.Ok? ==> Shaped(r.value.image) && r.value.image.height == e.image.height
                      && r.value.image.width == e.image.width
    ensures r.Ok? ==> Filled(e.image, r.value.image, Bounds(e.area.value), color)
  {
    var rect :- GetAreaPositions(e);
    var cur := e;
    var i: int := rect.0.0;
    while i <= rect.0.1
      invariant rect.0.0 <= i <= rect.0.1 as int + 1
      invariant cur == e.(image := cur.image)
      invariant Shaped(cur.image) && cur.image.height == e.image.height && cur.image.width == e.image.width
      invariant forall a, b :: 0 <= a < e.image.height && 0 <= b < e.image.width ==>
        cur.image.pixels[a][b] ==
          if rect.0.0 <= a < i && rect.1.0 <= b <= rect.1.1 then color else e.image.pixels[a][b]
    {
      var j: int := rect.1.0;
      while j <= rect.1.1
        invariant rect.1.0 <= j <= rect.1.1 as int + 1
        invariant cur == e.(image := cur.image)
        invariant Shaped(cur.image) && cur.image.height == e.image.height && cur.image.width == e.image.width
        invariant forall a, b :: 0 <= a < e.image.height && 0 <= b < e.image.width ==>
          cur.image.pixels[a][b] ==
            if (rect.0.0 <= a < i && rect.1.0 <= b <= rect.1.1) || (a == i && rect.1.0 <= b < j)
            then color else e.image.pixels[a][b]
      {
        if i >= 0 && i <= e.image.height - 1 && j >= 0 && j <= e.image.width - 1 {
          cur := SetPixColor(cur, (i, j), color).value;
        }
        j := j + 1;
      }
      i := i + 1;
    }
    r := Ok(cur);
  }
}
