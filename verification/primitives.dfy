/** Value types shared by the whole game: the optional result used for
    failing steps, the 16-bit coordinates of a cell, and the four headings. */
module Primitives {

  /** A step that can fail. `None` stands for the arithmetic-overflow panic
      of a debug build of the game. */
  datatype Option<+T> = None | Some(value: T)

  const U16_MAX: int := 0xFFFF

  /** The range of Rust's `u16`. */
  predicate InU16(v: int) {
    0 <= v <= U16_MAX
  }

  type U16 = x: int | InU16(x)

  /** A cell of the terminal, column `x` and row `y`. */
  datatype Location = Location(x: U16, y: U16)

  datatype Direction = Up | Down | Left | Right

  /** Column displacement of one unit step in direction `d`. */
  function Dx(d: Direction): int {
    match d
    case Left => -1
    case Right => 1
    case _ => 0
  }

  /** Row displacement of one unit step in direction `d` (rows grow downwards). */
  function Dy(d: Direction): int {
    match d
    case Up => -1
    case Down => 1
    case _ => 0
  }

  function Opposite(d: Direction): Direction {
    match d
    case Up => Down
    case Down => Up
    case Left => Right
    case Right => Left
  }

  /** One step from `p` towards `d` lands inside the `u16` square. */
  predicate CanMove(p: Location, d: Direction) {
    InU16(p.x + Dx(d)) && InU16(p.y + Dy(d))
  }

  /** The cell one unit step from `p` towards `d`. */
  function Moved(p: Location, d: Direction): Location
    requires CanMove(p, d)
  {
    Location(p.x + Dx(d), p.y + Dy(d))
  }

  function Abs(v: int): nat {
    if v < 0 then -v else v
  }

  /** Every heading is a unit vector along exactly one axis, and the
      opposite heading is its negation. */
  lemma UnitStep(d: Direction)
    ensures Abs(Dx(d)) + Abs(Dy(d)) == 1
    ensures Dx(Opposite(d)) == -Dx(d) && Dy(Opposite(d)) == -Dy(d)
    ensures Opposite(Opposite(d)) == d && Opposite(d) != d
  {
  }
}
