/** One cell of the grid editor: a colour, a "painted" flag and the cell's
    own coordinates. */
module Pixels {
  import opened Palette

  datatype Pixel = Pixel(isDraw: bool, color: Color, height: int, width: int)

  /** `Pixel::new`: an unpainted black cell that remembers where it lives. */
  function NewPixel(pos: (int, int)): (p: Pixel)
    ensures p.color == Black && !p.isDraw
    ensures (p.height, p.width) == pos
  {
    Pixel(false, Black, pos.0, pos.1)
  }

  /** `Pixel::set_color`: paint the cell. */
  function SetColor(p: Pixel, color: Color): (r: Pixel)
    ensures r.color == color && r.isDraw
    ensures r.height == p.height && r.width == p.width
  {
    p.(isDraw := true, color := color)
  }

  /** `Pixel::unset_color`: clear the painted flag, keep the colour. */
  function UnsetColor(p: Pixel): (r: Pixel)
    ensures !r.isDraw
    ensures r.color == p.color && r.height == p.height && r.width == p.width
  {
    p.(isDraw := false)
  }

  /** Unsetting after painting keeps the painted colour; painting is idempotent. */
  lemma PaintThenUnset(p: Pixel, c: Color)
    ensures UnsetColor(SetColor(p, c)) == p.(color := c, isDraw := false)
    ensures SetColor(SetColor(p, c), c) == SetColor(p, c)
    ensures SetColor(UnsetColor(p), c) == SetColor(p, c)
  {
  }
}
