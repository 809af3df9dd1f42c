/**
  The editor design's colour wrapper: a `u32` palette index and its
  conversion to the image library's wire token, which reads index `n` as
  the colour at position `n - 1`.
 */
module ColorTable {
  import opened Ints
  import opened Palette

  /** `color::Color(pub u32)`. */
  datatype IndexColor = IndexColor(n: u32)

  /** `Deref for Color`: the wrapped index. */
  function Deref(c: IndexColor): (r: u32)
    ensures IndexColor(r) == c
  {
    c.n
  }

  /** `Into<PixelColor> for Color`: a table on `n - 1`, with every index past
      8 falling back to 0x5A. The subtraction is on `u32`, so index 0 would
      underflow; callers never pass it. */
  function IntoToken(c: IndexColor): (r: byte)
    requires c.n >= 1
    ensures 1 <= c.n <= 8 ==> r == TifToken(ColorAt(c.n - 1))
    ensures c.n > 8 ==> r == 0x5A
    ensures FirstToken <= r <= LastToken
  {
    match c.n - 1
    case 0 => 0x5B
    case 1 => 0x5C
    case 2 => 0x5D
    case 3 => 0x60
    case 4 => 0x5A
    case 5 => 0x5E
    case 6 => 0x61
    case 7 => 0x5F
    case _ => 0x5A
  }

  /** The table written out for the indices 1..8. */
  lemma IntoTokenTable()
    ensures IntoToken(IndexColor(1)) == 0x5B && IntoToken(IndexColor(2)) == 0x5C
    ensures IntoToken(IndexColor(3)) == 0x5D && IntoToken(IndexColor(4)) == 0x60
    ensures IntoToken(IndexColor(5)) == 0x5A && IntoToken(IndexColor(6)) == 0x5E
    ensures IntoToken(IndexColor(7)) == 0x61 && IntoToken(IndexColor(8)) == 0x5F
  {
  }

  /** The two designs' token tables agree: the index of a colour plus one,
      converted by this table, is that colour's token in the grid design. */
  lemma TablesAgree(c: Color)
    ensures IntoToken(IndexColor(AsU8(c) + 1)) == TifToken(c)
  {
  }
}
