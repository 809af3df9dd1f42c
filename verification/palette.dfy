/**
  The closed eight-colour palette of the grid editor, with its two byte
  mappings: the declaration index used for display, and the table-driven
  token written into `.TIF` files.
 */
module Palette {
  import opened Wrappers

  /** An unsigned 8-bit value (Rust `u8`). */
  type byte = b: int | 0 <= b < 256

  datatype Color = Black | Red | Green | Yellow | Blue | Magenta | Cyan | White

  /** First and last byte of the token range. */
  const FirstToken: byte := 0x5A
  const LastToken: byte := 0x61

  /** The colour declared at position `i` of the enum (also the order of the
      colour keys 1..8 and of the editor's palette). */
  function ColorAt(i: nat): Color
    requires i < 8
  {
    if i == 0 then Black
    else if i == 1 then Red
    else if i == 2 then Green
    else if i == 3 then Yellow
    else if i == 4 then Blue
    else if i == 5 then Magenta
    else if i == 6 then Cyan
    else White
  }

  /** `Color::as_u8`: the declaration index of a colour. */
  function AsU8(c: Color): (r: byte)
    ensures r < 8
    ensures ColorAt(r) == c
  {
    match c
    case Black => 0
    case Red => 1
    case Green => 2
    case Yellow => 3
    case Blue => 4
    case Magenta => 5
    case Cyan => 6
    case White => 7
  }

  /** `as_u8` and `ColorAt` are inverse bijections between the palette and 0..7. */
  lemma AsU8Bijective()
    ensures forall c: Color :: ColorAt(AsU8(c)) == c
    ensures forall i: nat {:trigger ColorAt(i)} :: i < 8 ==> AsU8(ColorAt(i)) == i
    ensures forall c, d: Color :: AsU8(c) == AsU8(d) ==> c == d
  {
    forall i: nat | i < 8
      ensures AsU8(ColorAt(i)) == i
    {
    }
  }

  /** `Color::to_tif_color`: the wire token of a colour, a fixed table that is
      not derived from the declaration order. */
  function TifToken(c: Color): (r: byte)
    ensures FirstToken <= r <= LastToken
  {
    match c
    case Black => 0x5B
    case Blue => 0x5A
    case Cyan => 0x61
    case Green => 0x5D
    case Magenta => 0x5E
    case Red => 0x5C
    case White => 0x5F
    case Yellow => 0x60
  }

  /** The inverse of `TifToken`, defined on every byte: it is the reading of
      a token that the encoder's contract is stated against. */
  function FromTifToken(b: byte): (r: Option<Color>)
    ensures r.Some? <==> FirstToken <= b <= LastToken
    ensures r.Some? ==> TifToken(r.value) == b
  {
    if b == 0x5A then Some(Blue)
    else if b == 0x5B then Some(Black)
    else if b == 0x5C then Some(Red)
    else if b == 0x5D then Some(Green)
    else if b == 0x5E then Some(Magenta)
    else if b == 0x5F then Some(White)
    else if b == 0x60 then Some(Yellow)
    else if b == 0x61 then Some(Cyan)
    else None
  }

  /** Reading back a colour's token yields the colour. */
  lemma TokenRoundTrip(c: Color)
    ensures FromTifToken(TifToken(c)) == Some(c)
  {
  }

  /** The token table is injective, so it is a bijection onto 0x5A..0x61. */
  lemma TokenInjective(c: Color, d: Color)
    requires TifToken(c) == TifToken(d)
    ensures c == d
  {
    TokenRoundTrip(c);
    TokenRoundTrip(d);
  }

  /** The token table written out entry by entry, in declaration order. */
  lemma TokenTable()
    ensures TifToken(Black) == 0x5B && TifToken(Red) == 0x5C
    ensures TifToken(Green) == 0x5D && TifToken(Yellow) == 0x60
    ensures TifToken(Blue) == 0x5A && TifToken(Magenta) == 0x5E
    ensures TifToken(Cyan) == 0x61 && TifToken(White) == 0x5F
  {
  }
}
