/** One link of the snake's chain and the single-cell move `update_segment`. */
module Segments {
  import opened Primitives

  /** A body part: where it is and where it is heading. The `next` pointer of
      the chained representation is replaced by the position in a sequence. */
  datatype Segment = Segment(pos: Location, dir: Direction)

  /** `update_segment`: move the segment one cell in its own direction.
      The coordinates are `u16`, so stepping Up from row 0, Left from
      column 0, or Down/Right from 65535 overflows; that is `None`. Nothing
      is clamped to the playing field. */
  function UpdateSegment(seg: Segment): (r: Option<Segment>)
    ensures r.Some? <==> CanMove(seg.pos, seg.dir)
    ensures r.Some? ==> r.value == Segment(Moved(seg.pos, seg.dir), seg.dir)
  {
    var p := seg.pos;
    match seg.dir
    case Up => if p.y == 0 then None else Some(seg.(pos := p.(y := p.y - 1)))
    case Down => if p.y == U16_MAX then None else Some(seg.(pos := p.(y := p.y + 1)))
    case Left => if p.x == 0 then None else Some(seg.(pos := p.(x := p.x - 1)))
    case Right => if p.x == U16_MAX then None else Some(seg.(pos := p.(x := p.x + 1)))
  }

  /** A successful step is undone by a step in the opposite direction, so
      `update_segment` loses no information about where the segment was. */
  lemma UpdateSegmentReversible(seg: Segment, moved: Segment)
    requires UpdateSegment(seg) == Some(moved)
    ensures UpdateSegment(moved.(dir := Opposite(seg.dir))) == Some(seg.(dir := Opposite(seg.dir)))
  {
  }

  /** A successful step moves exactly one cell: the Manhattan distance
      between the old and the new position is one, and one coordinate stays. */
  lemma UpdateSegmentUnitDistance(seg: Segment, moved: Segment)
    requires UpdateSegment(seg) == Some(moved)
    ensures Abs(moved.pos.x - seg.pos.x) + Abs(moved.pos.y - seg.pos.y) == 1
    ensures moved.pos.x == seg.pos.x || moved.pos.y == seg.pos.y
  {
    UnitStep(seg.dir);
  }
}
