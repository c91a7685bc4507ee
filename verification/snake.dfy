/** The snake: a head-first chain of segments, with `update_snake` and
    `add_segment`. The chain of boxed `next` pointers is a sequence whose
    element 0 is the head; the head always exists, so the sequence is never
    empty. */
module Snakes {
  import opened Primitives
  import opened Segments

  type Snake = s: seq<Segment> | |s| >= 1 witness [Segment(Location(0, 0), Right)]

  /** `Snake::new`: a single head at column 1, row 0, heading Right. */
  function NewSnake(): (s: Snake)
    ensures |s| == 1 && s[0].pos == Location(1, 0) && s[0].dir == Right
  {
    [Segment(Location(1, 0), Right)]
  }

  function Tail(s: Snake): Segment {
    s[|s| - 1]
  }

  /** Every segment of `s` can take one step in its own direction. */
  predicate AllCanMove(s: seq<Segment>) {
    forall i :: 0 <= i < |s| ==> CanMove(s[i].pos, s[i].dir)
  }

  /** The loop of `update_snake` after the head: each following segment is
      moved by its own direction and then takes the direction of the segment
      before it, which has already been overwritten. `cur` is that
      predecessor's direction. */
  function UpdateRest(cur: Direction, rest: seq<Segment>): (r: Option<seq<Segment>>)
    ensures r.Some? <==> AllCanMove(rest)
    ensures r.Some? ==> |r.value| == |rest|
    ensures r.Some? ==> forall i :: 0 <= i < |rest| ==>
      r.value[i] == Segment(Moved(rest[i].pos, rest[i].dir), cur)
    decreases |rest|
  {
    if rest == [] then Some([])
    else
      match UpdateSegment(rest[0])
      case None => None
      case Some(next) =>
        var next' := if cur != next.dir then next.(dir := cur) else next;
        match UpdateRest(next'.dir, rest[1..])
        case None => None
        case Some(t) => Some([next'] + t)
  }

  /** `update_snake`: every segment moves one cell by the direction it held
      before the call, and afterwards every segment carries the head's
      direction. The step fails exactly when some segment would leave the
      `u16` range. */
  function UpdateSnake(s: Snake): (r: Option<Snake>)
    ensures r.Some? <==> AllCanMove(s)
    ensures r.Some? ==> |r.value| == |s|
    ensures r.Some? ==> forall i :: 0 <= i < |s| ==>
      r.value[i] == Segment(Moved(s[i].pos, s[i].dir), s[0].dir)
  {
    match UpdateSegment(s[0])
    case None => None
    case Some(head) =>
      match UpdateRest(head.dir, s[1..])
      case None => None
      case Some(t) => Some([head] + t)
  }

  /** `add_segment`: walk to the tail and append a clone of it, with the
      same position and direction. */
  function AddSegment(s: Snake): (r: Snake)
    ensures |r| == |s| + 1
    ensures r[..|s|] == s
    ensures Tail(r) == Tail(s)
  {
    s + [Tail(s)]
  }

  /** `n` consecutive calls of `update_snake`; `None` if any of them fails. */
  function UpdateN(s: Snake, n: nat): (r: Option<Snake>)
    ensures r.Some? ==> |r.value| == |s|
    ensures r.Some? && n > 0 ==> Uniform(r.value) && r.value[0].dir == s[0].dir
    decreases n
  {
    if n == 0 then Some(s)
    else
      match UpdateSnake(s)
      case None => None
      case Some(t) => UpdateN(t, n - 1)
  }

  /** The cells the snake occupies on the screen. */
  function Cells(s: seq<Segment>): set<Location> {
    set i | 0 <= i < |s| :: s[i].pos
  }

  /** All segments carry the same direction, so the snake moves rigidly. */
  predicate Uniform(s: Snake) {
    forall i :: 0 <= i < |s| ==> s[i].dir == s[0].dir
  }

  /** Segment `j` is an exact copy of its predecessor. */
  predicate StuckTo(s: Snake, j: int) {
    1 <= j < |s| && s[j] == s[j - 1]
  }

  /** `update_snake` keeps the length and the head's direction, and leaves
      every segment with the head's direction. */
  lemma UpdateSnakePropagatesHeadDirection(s: Snake, t: Snake)
    requires UpdateSnake(s) == Some(t)
    ensures |t| == |s|
    ensures t[0].dir == s[0].dir
    ensures Uniform(t)
  {
  }

  /** Once the directions are uniform, `update_snake` translates the whole
      snake by one unit vector: the offsets between segments are kept. */
  lemma UniformMovesRigidly(s: Snake, t: Snake, i: int, j: int)
    requires Uniform(s) && UpdateSnake(s) == Some(t)
    requires 0 <= i < |s| && 0 <= j < |s|
    ensures t[i].pos.x - t[j].pos.x == s[i].pos.x - s[j].pos.x
    ensures t[i].pos.y - t[j].pos.y == s[i].pos.y - s[j].pos.y
    ensures Uniform(t)
  {
  }

  /** The segment `add_segment` appends starts as a copy of its predecessor,
      and the set of occupied cells does not change: growth is invisible. */
  lemma AddSegmentStuck(s: Snake)
    ensures StuckTo(AddSegment(s), |s|)
    ensures Cells(AddSegment(s)) == Cells(s)
  {
  }

  /** Growing and moving commute: appending a copy of the tail before
      `update_snake` gives the same snake as appending it after. */
  lemma GrowthCommutesWithUpdate(s: Snake)
    requires AllCanMove(s)
    ensures UpdateSnake(AddSegment(s)).Some?
    ensures UpdateSnake(AddSegment(s)) == Some(AddSegment(UpdateSnake(s).value))
  {
    var r := AddSegment(s);
    assert AllCanMove(r) by {
      assert forall i :: 0 <= i < |s| ==> r[i] == s[i];
    }
    var u := UpdateSnake(s).value;
    var a, b := UpdateSnake(r).value, AddSegment(u);
    assert |a| == |b|;
    forall i | 0 <= i < |a| ensures a[i] == b[i] {
      if i < |s| {
        assert r[i] == s[i] && b[i] == b[..|u|][i] == u[i];
      } else {
        assert r[i] == s[|s| - 1] && b[i] == Tail(u) == u[|s| - 1];
      }
    }
    assert a == b;
  }

  /** A segment that is a copy of its predecessor stays one through a
      call of `update_snake`. */
  lemma UpdateSnakeKeepsStuck(s: Snake, t: Snake, j: int)
    requires StuckTo(s, j) && UpdateSnake(s) == Some(t)
    ensures StuckTo(t, j)
  {
  }

  /** The appended segment stays glued to its predecessor, same cell and
      same direction, through any number of `update_snake` calls. */
  lemma {:induction false} AppendedSegmentStaysPut(s: Snake, n: nat, t: Snake)
    requires UpdateN(AddSegment(s), n) == Some(t)
    ensures |t| == |s| + 1
    ensures t[|s|] == t[|s| - 1]
  {
    AddSegmentStuck(s);
    UpdateNKeepsStuck(AddSegment(s), n, t, |s|);
  }

  lemma {:induction false} UpdateNKeepsStuck(s: Snake, n: nat, t: Snake, j: int)
    requires StuckTo(s, j) && UpdateN(s, n) == Some(t)
    ensures StuckTo(t, j)
    decreases n
  {
    if n > 0 {
      var u := UpdateSnake(s).value;
      UpdateSnakeKeepsStuck(s, u, j);
      UpdateNKeepsStuck(u, n - 1, t, j);
    }
  }
}
