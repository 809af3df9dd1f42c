/** The editor design's cursor: a position and a hidden flag. */
module Cursors {
  import opened Ints

  datatype Cursor = Cursor(pos: (i32, i32), hidden: bool)

  /** `Cursor::new`: visible, at the origin. */
  function NewCursor(): (c: Cursor)
    ensures c.pos == (0, 0) && !c.hidden
  {
    Cursor((0, 0), false)
  }

  /** `Cursor::toogle_hidden`: flips the flag, keeps the position. */
  function ToggleHidden(c: Cursor): (r: Cursor)
    ensures r.pos == c.pos
    ensures r.hidden != c.hidden
  {
    c.(hidden := !c.hidden)
  }

  /** Toggling twice changes nothing. */
  lemma ToggleTwice(c: Cursor)
    ensures ToggleHidden(ToggleHidden(c)) == c
  {
  }

  /** `Cursor::set_pos`: moves without touching the hidden flag. */
  function SetPos(c: Cursor, pos: (i32, i32)): (r: Cursor)
    ensures r.pos == pos && r.hidden == c.hidden
  {
    c.(pos := pos)
  }

  /** `Cursor::coord_as_usize`: both coordinates cast to `usize`; a
      negative coordinate becomes a huge index. */
  function CoordAsUsize(c: Cursor): (r: (u64, u64))
    ensures c.pos.0 >= 0 ==> r.0 == c.pos.0
    ensures c.pos.1 >= 0 ==> r.1 == c.pos.1
    ensures c.pos.0 < 0 ==> r.0 >= 0x8000_0000_0000_0000
    ensures c.pos.1 < 0 ==> r.1 >= 0x8000_0000_0000_0000
  {
    (AsUsize(c.pos.0), AsUsize(c.pos.1))
  }
}
