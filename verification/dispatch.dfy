/**
  The grid editor's main loop: one input event at a time is applied to the
  grid, until `q`/`Q` ends the loop and the grid is saved.
 */
module Dispatch {
  import opened Wrappers
  import opened Palette
  import opened Grids
  import opened TifRuns
  import opened GridEncoder

  /** An input event as the terminal library reports it: the four arrow
      keys, a character, or anything else (mouse, function keys, ...). */
  datatype Key = KeyLeft | KeyRight | KeyUp | KeyDown | Character(c: char) | OtherInput

  /** The grid after one event, and whether the loop goes on. */
  datatype Next = Continue(grid: Grid) | Quit(grid: Grid)

  /** The escape character. */
  const Escape: char := 27 as char

  predicate IsQuit(k: Key) {
    k == Character('q') || k == Character('Q')
  }

  /** `c.to_string().parse::<u8>()` on a one-character string: only an
      ASCII decimal digit parses. */
  function DigitValue(c: char): (r: Option<nat>)
    ensures r.Some? <==> '0' <= c <= '9'
    ensures r.Some? ==> r.value < 10 && r.value + '0' as int == c as int
  {
    if '0' <= c <= '9' then Some(c as int - '0' as int) else None
  }

  /** After a `wasd` move, paint the cursor's cell when editing. */
  function PaintIfEditing(g: Grid): (r: Grid)
    requires Valid(g)
    ensures Valid(r) && r.cursor == g.cursor && r.mode == g.mode
    ensures g.mode == Selection ==> r == g
    ensures g.mode == Editing ==> r == SetSelectedColorInPixel(g)
  {
    if g.mode == Editing then SetSelectedColorInPixel(g) else g
  }

  /** The `if`/`else if` chain over the character keys other than quit. */
  function CharCommand(g: Grid, c: char): (r: Grid)
    requires Valid(g)
    ensures Valid(r)
    ensures r.height == g.height && r.width == g.width && r.selectedColor == g.selectedColor
  {
    if c == 'i' then g.(mode := Editing)
    else if c == Escape then g.(mode := Selection)
    else if c == ' ' && g.mode == Editing then SetSelectedColorInPixel(g)
    else if c == 'w' || c == 'W' then PaintIfEditing(DecSelectHeight(g))
    else if c == 's' || c == 'S' then PaintIfEditing(IncSelectHeight(g))
    else if c == 'a' || c == 'D' then PaintIfEditing(DecSelectWidth(g))
    else if c == 'd' || c == 'D' then PaintIfEditing(IncSelectWidth(g))
    else g
  }

  /** The digit block that follows the chain: in Selection mode the keys
      1..8 pick the colours in declaration order; 0, 9 and any digit while
      editing keep the selected colour. */
  function SelectDigit(g: Grid, c: char): (r: Grid)
    ensures r == g.(selectedColor := r.selectedColor)
    ensures g.mode == Selection && '1' <= c <= '8' ==>
      AsU8(r.selectedColor) == c as int - '1' as int
    ensures !(g.mode == Selection && '1' <= c <= '8') ==> r == g
  {
    match DigitValue(c)
    case Some(n) =>
      if g.mode == Selection then
        g.(selectedColor := if 1 <= n <= 8 then ColorAt(n - 1) else g.selectedColor)
      else g
    case None => g
  }

  /** One pass of the main loop's `match` on the event read. */
  function Dispatch(g: Grid, key: Key): (r: Next)
    requires Valid(g)
    ensures Valid(r.grid)
    ensures r.grid.height == g.height && r.grid.width == g.width
    ensures r.Quit? <==> IsQuit(key)
    ensures r.Quit? ==> r.grid == g
  {
    match key
    case KeyLeft => Continue(DecSelectWidth(g))
    case KeyRight => Continue(IncSelectWidth(g))
    case KeyUp => Continue(DecSelectHeight(g))
    case KeyDown => Continue(IncSelectHeight(g))
    case Character(c) =>
      if c == 'q' || c == 'Q' then Quit(g)
      else Continue(SelectDigit(CharCommand(g, c), c))
    case OtherInput => Continue(g)
  }

  /** `i` enters Editing and escape returns to Selection; nothing else changes. */
  lemma ModeKeys(g: Grid)
    requires Valid(g)
    ensures Dispatch(g, Character('i')) == Continue(g.(mode := Editing))
    ensures Dispatch(g, Character(Escape)) == Continue(g.(mode := Selection))
  {
  }

  /** Space paints the cursor's cell with the selected colour, and only while
      editing. */
  lemma SpaceKey(g: Grid)
    requires Valid(g)
    ensures g.mode == Editing ==> Dispatch(g, Character(' ')) == Continue(SetSelectedColorInPixel(g))
    ensures g.mode == Selection ==> Dispatch(g, Character(' ')) == Continue(g)
  {
  }

  /** A character that is neither a quit key nor a digit is handled by the
      command chain alone. */
  lemma CommandKey(g: Grid, c: char)
    requires Valid(g) && c != 'q' && c != 'Q' && !('0' <= c <= '9')
    ensures Dispatch(g, Character(c)) == Continue(CharCommand(g, c))
  {
    assert DigitValue(c).None?;
  }

  /** `w`/`W` and `s`/`S` make the bounded vertical move and then, while
      editing, paint at the resulting cursor, also when the move was blocked
      at an edge. */
  lemma VerticalMoveKeys(g: Grid, c: char)
    requires Valid(g)
    ensures c == 'w' || c == 'W' ==>
      Dispatch(g, Character(c)) == Continue(PaintIfEditing(DecSelectHeight(g)))
    ensures c == 's' || c == 'S' ==>
      Dispatch(g, Character(c)) == Continue(PaintIfEditing(IncSelectHeight(g)))
  {
    if c in "wWsS" {
      CommandKey(g, c);
    }
  }

  /** `a` and `D` move left (`D` is caught by the left branch before the
      right one is tried) and `d` moves right; while editing the resulting
      cursor cell is painted. */
  lemma HorizontalMoveKeys(g: Grid, c: char)
    requires Valid(g)
    ensures c == 'a' || c == 'D' ==>
      Dispatch(g, Character(c)) == Continue(PaintIfEditing(DecSelectWidth(g)))
    ensures c == 'd' ==>
      Dispatch(g, Character(c)) == Continue(PaintIfEditing(IncSelectWidth(g)))
  {
    if c in "aDd" {
      CommandKey(g, c);
    }
  }

  /** A blocked `wasd` move while editing still paints the cell under the
      cursor. */
  lemma BlockedMovePaints(g: Grid)
    requires Valid(g) && g.mode == Editing && g.cursor.0 == 0
    ensures Dispatch(g, Character('w')).grid.cursor == g.cursor
    ensures Dispatch(g, Character('w')).grid.pixels[0][g.cursor.1].color == g.selectedColor
  {
  }

  /** The arrow keys make the bounded move and never paint, in either mode. */
  lemma ArrowKeys(g: Grid, key: Key)
    requires Valid(g)
    requires key.KeyLeft? || key.KeyRight? || key.KeyUp? || key.KeyDown?
    ensures Dispatch(g, key).Continue?
    ensures Dispatch(g, key).grid == g.(cursor := Dispatch(g, key).grid.cursor)
    ensures key.KeyLeft? ==> Dispatch(g, key).grid == DecSelectWidth(g)
    ensures key.KeyRight? ==> Dispatch(g, key).grid == IncSelectWidth(g)
    ensures key.KeyUp? ==> Dispatch(g, key).grid == DecSelectHeight(g)
    ensures key.KeyDown? ==> Dispatch(g, key).grid == IncSelectHeight(g)
  {
  }

  /** In Selection mode the digits 1..8 select Black, Red, Green, Yellow,
      Blue, Magenta, Cyan, White; 0 and 9, and every digit while editing,
      change nothing. */
  lemma DigitKeys(g: Grid, c: char)
    requires Valid(g) && '0' <= c <= '9'
    ensures g.mode == Selection && '1' <= c <= '8' ==>
      Dispatch(g, Character(c)) == Continue(g.(selectedColor := ColorAt(c as int - '1' as int)))
    ensures !(g.mode == Selection && '1' <= c <= '8') ==> Dispatch(g, Character(c)) == Continue(g)
  {
    var n := c as int - '0' as int;
    assert DigitValue(c) == Some(n);
  }

  /** The characters the loop reacts to. */
  predicate Handled(c: char) {
    c in "qQi WsSaDdw" || c == Escape || '0' <= c <= '9'
  }

  /** Any other input leaves the grid unchanged. */
  lemma OtherKeys(g: Grid, key: Key)
    requires Valid(g)
    requires key.OtherInput? || (key.Character? && !Handled(key.c))
    ensures Dispatch(g, key) == Continue(g)
  {
    if key.Character? {
      var c := key.c;
      assert c != 'q' && c != 'Q' && c != 'i' && c != ' ' && c != 'w' && c != 'W';
      assert c != 's' && c != 'S' && c != 'a' && c != 'D' && c != 'd';
    }
  }

  /** Some event of the sequence is a quit key. */
  predicate HasQuit(keys: seq<Key>) {
    exists k :: 0 <= k < |keys| && IsQuit(keys[k])
  }

  /** The main loop over a finite sequence of events: it stops at the first
      quit key; when the events run out first, the loop is still running. */
  function Run(g: Grid, keys: seq<Key>): (r: Next)
    requires Valid(g)
    ensures Valid(r.grid)
    ensures r.grid.height == g.height && r.grid.width == g.width
    ensures r.Quit? <==> HasQuit(keys)
    decreases |keys|
  {
    if |keys| == 0 then Continue(g)
    else
      match Dispatch(g, keys[0])
      case Quit(h) => Quit(h)
      case Continue(h) =>
        var r := Run(h, keys[1..]);
        assert HasQuit(keys[1..]) ==> HasQuit(keys) by {
          if HasQuit(keys[1..]) {
            var k :| 0 <= k < |keys| - 1 && IsQuit(keys[1..][k]);
            assert IsQuit(keys[k + 1]);
          }
        }
        assert HasQuit(keys) ==> HasQuit(keys[1..]) by {
          if HasQuit(keys) {
            var k :| 0 <= k < |keys| && IsQuit(keys[k]);
            assert k != 0;
            assert IsQuit(keys[1..][k - 1]);
          }
        }
        r
  }

  /** The loop breaks at the first quit key: events after it are never
      read, so they change neither the outcome nor the grid that is saved. */
  lemma {:induction false} RunStopsAtQuit(g: Grid, keys: seq<Key>, rest: seq<Key>)
    requires Valid(g) && HasQuit(keys)
    ensures Run(g, keys + rest) == Run(g, keys)
    decreases |keys|
  {
    var k :| 0 <= k < |keys| && IsQuit(keys[k]);
    assert (keys + rest)[0] == keys[0];
    match Dispatch(g, keys[0])
    case Quit(h) =>
    case Continue(h) =>
      assert k != 0;
      assert IsQuit(keys[1..][k - 1]);
      assert (keys + rest)[1..] == keys[1..] + rest;
      RunStopsAtQuit(h, keys[1..], rest);
  }

  /** `main` from the grid's creation to the save: the file exists exactly
      when a quit key was read, and it is the header of the grid's width
      followed by the encoding of the grid as the events left it. */
  method Edit(size: (int, int), keys: seq<Key>) returns (file: Option<seq<byte>>)
    requires 1 <= size.0 && 1 <= size.1 < 256
    ensures file.Some? <==> HasQuit(keys)
    ensures file.Some? ==> |file.value| >= 6 && file.value[5] == size.1
    ensures file.Some? ==> WellFormed(file.value[6..]) && Maximal(file.value[6..])
    ensures file.Some? ==> SumCounts(file.value[6..]) == size.0 * size.1
    ensures file.Some? ==> EncodesGrid(file.value[6..], Run(Initial(size), keys).grid)
  {
    var g := NewGrid(size);
    match Run(g, keys)
    case Quit(h) =>
      var bytes := SaveBuffer(h);
      file := Some(bytes);
    case Continue(_) =>
      file := None;
  }
}
