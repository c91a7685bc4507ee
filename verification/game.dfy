/** The game loop of `main`, one iteration at a time: read a key, grow on
    every fifth tick, move, count the tick. Drawing and sleeping are side
    effects only and are not part of the state. */
module Game {
  import opened Primitives
  import opened Segments
  import opened Snakes
  import opened Input

  const U64_MAX: int := 0xFFFF_FFFF_FFFF_FFFF

  /** The range of Rust's `u64`, the type of the tick counter. */
  type U64 = x: int | 0 <= x <= U64_MAX

  /** The snake grows on every tick that is a multiple of this. */
  const GROWTH_INTERVAL: nat := 5

  datatype State = State(snake: Snake, tick: U64)

  predicate GrowthDue(tick: int) {
    tick % GROWTH_INTERVAL == 0
  }

  /** The state `main` enters its loop with: `Snake::new` followed by a second
      segment at (0, 0), both heading Right, and the tick counter at 0. */
  function InitialState(): (g: State)
    ensures |g.snake| == 2 && g.tick == 0
    ensures g.snake[0] == Segment(Location(1, 0), Right)
    ensures g.snake[1] == Segment(Location(0, 0), Right)
  {
    State(NewSnake() + [Segment(Location(0, 0), Right)], 0)
  }

  /** One iteration of the loop of `main`. The key is read before the
      growth, the growth happens before the move, and the counter is
      incremented last; `None` when a segment's coordinate or the counter
      would overflow. */
  function Tick(g: State, p: Poll): (r: Option<State>)
    ensures r.Some? <==> g.tick < U64_MAX && AllCanMove(ReadKey(g.snake, p))
    ensures r.Some? ==> r.value.tick == g.tick + 1
    ensures r.Some? ==> |r.value.snake| == |g.snake| + (if GrowthDue(g.tick) then 1 else 0)
    ensures r.Some? ==> r.value.snake[0].dir == ReadKey(g.snake, p)[0].dir
    ensures r.Some? ==> r.value.snake[0].pos == Moved(g.snake[0].pos, ReadKey(g.snake, p)[0].dir)
    ensures r.Some? ==> forall i :: 1 <= i < |g.snake| ==>
      r.value.snake[i] == Segment(Moved(g.snake[i].pos, g.snake[i].dir), ReadKey(g.snake, p)[0].dir)
    ensures r.Some? && GrowthDue(g.tick) ==> r.value.snake[|g.snake|] == r.value.snake[|g.snake| - 1]
  {
    var keyed := ReadKey(g.snake, p);
    var grown := if GrowthDue(g.tick) then AddSegment(keyed) else keyed;
    assert AllCanMove(grown) <==> AllCanMove(keyed) by {
      if GrowthDue(g.tick) {
        assert forall i :: 0 <= i < |keyed| ==> grown[i] == keyed[i];
        assert grown[|keyed|] == keyed[|keyed| - 1];
      }
    }
    match UpdateSnake(grown)
    case None => None
    case Some(moved) =>
      if g.tick == U64_MAX then None else Some(State(moved, g.tick + 1))
  }

  /** The loop of `main` run for one tick per element of `polls`. */
  function Run(g: State, polls: seq<Poll>): (r: Option<State>)
    ensures r.Some? ==> r.value.tick == g.tick + |polls|
    decreases |polls|
  {
    if polls == [] then Some(g)
    else
      match Tick(g, polls[0])
      case None => None
      case Some(h) => Run(h, polls[1..])
  }

  /** Number of growth ticks among `t`, `t + 1`, ..., `t + k - 1`. */
  function CountDue(t: nat, k: nat): nat
    decreases k
  {
    if k == 0 then 0 else CountDue(t, k - 1) + (if GrowthDue(t + k - 1) then 1 else 0)
  }

  /** Counting from tick 0, a growth tick occurs once every five ticks
      starting with the first: `(k + 4) / 5` of the first `k`. */
  lemma {:induction false} CountDueFromZero(k: nat)
    ensures CountDue(0, k) == (k + 4) / 5
  {
    if k > 0 {
      CountDueFromZero(k - 1);
      var q, m := (k - 1) / 5, (k - 1) % 5;
      assert k - 1 == 5 * q + m;
      if m == 0 {
        assert (k + 3) / 5 == q;
        assert (k + 4) / 5 == q + 1;
      } else {
        assert (k + 3) / 5 == q + 1;
        assert (k + 4) / 5 == q + 1;
      }
    }
  }

  /** Over a run of ticks, the counter advances by one per tick and the
      snake gains exactly one segment per growth tick. */
  lemma {:induction false} RunGrowth(g: State, polls: seq<Poll>, h: State)
    requires Run(g, polls) == Some(h)
    ensures h.tick == g.tick + |polls|
    ensures |h.snake| == |g.snake| + CountDue(g.tick, |polls|)
    decreases |polls|
  {
    if polls != [] {
      var g' := Tick(g, polls[0]).value;
      RunGrowth(g', polls[1..], h);
      CountDueShift(g.tick, |polls|);
    }
  }

  /** Peeling the first tick off a count. */
  lemma {:induction false} CountDueShift(t: nat, k: nat)
    requires k > 0
    ensures CountDue(t, k) == (if GrowthDue(t) then 1 else 0) + CountDue(t + 1, k - 1)
    decreases k
  {
    if k > 1 {
      CountDueShift(t, k - 1);
    }
  }

  /** From the initial state, after `k` ticks the counter reads `k` and the
      snake has `2 + (k + 4) / 5` segments. */
  lemma {:induction false} InitialGrowth(polls: seq<Poll>, h: State)
    requires Run(InitialState(), polls) == Some(h)
    ensures h.tick == |polls|
    ensures |h.snake| == 2 + (|polls| + 4) / 5
  {
    RunGrowth(InitialState(), polls, h);
    CountDueFromZero(|polls|);
  }

  /** Corollary of `Tick`: on a growth tick the new last segment is a copy
      of the one before it, having moved together with it. */
  lemma TickGrowthAppendsStuck(g: State, p: Poll, h: State)
    requires GrowthDue(g.tick) && Tick(g, p) == Some(h)
    ensures |h.snake| == |g.snake| + 1
    ensures StuckTo(h.snake, |g.snake|)
  {
  }

  /** Every segment behind the first body segment is a copy of it. */
  predicate BodyCollapsed(s: Snake) {
    |s| >= 2 && forall j :: 2 <= j < |s| ==> s[j] == s[1]
  }

  /** A tick keeps the body collapsed: the key touches only the head, the
      appended copy equals the old tail, and copies move alike. */
  lemma TickKeepsBodyCollapsed(g: State, p: Poll, h: State)
    requires BodyCollapsed(g.snake) && Tick(g, p) == Some(h)
    ensures BodyCollapsed(h.snake)
  {
  }

  /** However long the game runs, every segment from the third on sits
      on the same cell with the same direction as the second: the snake
      never covers more than two cells of the screen. */
  lemma {:induction false} ReachableBodyCollapsed(g: State, polls: seq<Poll>, h: State)
    requires BodyCollapsed(g.snake) && Run(g, polls) == Some(h)
    ensures BodyCollapsed(h.snake)
    ensures Cells(h.snake) <= {h.snake[0].pos, h.snake[1].pos}
    decreases |polls|
  {
    if polls != [] {
      var g' := Tick(g, polls[0]).value;
      TickKeepsBodyCollapsed(g, polls[0], g');
      ReachableBodyCollapsed(g', polls[1..], h);
    }
  }

  /** The initial state already has a collapsed body (it has no segment
      beyond the second), so every reachable state has one. */
  lemma {:induction false} InitialBodyCollapsed(polls: seq<Poll>, h: State)
    requires Run(InitialState(), polls) == Some(h)
    ensures BodyCollapsed(h.snake)
    ensures Cells(h.snake) <= {h.snake[0].pos, h.snake[1].pos}
  {
    ReachableBodyCollapsed(InitialState(), polls, h);
  }
}
