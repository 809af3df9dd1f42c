/** The editor design's selection rectangle: two corner points. */
module Areas {
  import opened Ints

  datatype Point = Point(y: i32, x: i32)

  /** `Point::new(y, x)`: the first argument is the row. */
  function NewPoint(y: i32, x: i32): (p: Point)
    ensures p.y == y && p.x == x
  {
    Point(y, x)
  }

  /** The starting point is fixed when the selection begins; the final
      point follows the cursor. */
  datatype Area = Area(start: Point, final: Point)

  /** `Area::new`: stores both corners as given. */
  function NewArea(sp: Point, fp: Point): (a: Area)
    ensures a.start == sp && a.final == fp
  {
    Area(sp, fp)
  }

  /** `Area::set_final_point_pos`: moves the final corner to `(row, col)`
      and leaves the starting corner alone. */
  function SetFinalPointPos(a: Area, pos: (i32, i32)): (r: Area)
    ensures r.start == a.start
    ensures (r.final.y, r.final.x) == pos
  {
    a.(final := a.final.(y := pos.0, x := pos.1))
  }

  /** Moving the final corner twice is moving it once, to the last target. */
  lemma SetFinalPointPosLast(a: Area, p: (i32, i32), q: (i32, i32))
    ensures SetFinalPointPos(SetFinalPointPos(a, p), q) == SetFinalPointPos(a, q)
  {
  }
}
