# Terminal Snake: movement model

A Dafny model of the movement logic of a small terminal Snake game written in
Rust (`src/main.rs`). The game keeps the snake as a chain of boxed segments,
head first; every segment carries its own cell (`Location`, a pair of `u16`)
and its own heading (`Direction`). Each turn of the main loop reads at most
one key, grows the snake on every fifth tick by appending a copy of the tail,
moves every segment one cell in its own direction, copies the head's
direction down the chain, and counts the tick.

The chain is modelled as a non-empty `seq<Segment>` whose element 0 is the
head. All operations are pure functions; a step that would overflow a `u16`
coordinate or the `u64` tick counter (a panic in a debug build) yields `None`.

Modules, in dependency order:

- `Primitives` (`primitives.dfy`): `Option`, `U16`, `Location`, `Direction`, the unit displacement of each heading.
- `Segments` (`segment.dfy`): `Segment` and `update_segment`.
- `Snakes` (`snake.dfy`): the snake, `Snake::new`, `update_snake`, `add_segment`, repeated updates.
- `Input` (`input.dfy`): the key-to-direction step of `read_key`.
- `Game` (`game.dfy`): the initial state and one iteration of the loop in `main`, and runs of many iterations.

The game has no walls, food, score, self-collision or game over. The
constants `COLS` and `ROWS` are declared but never used, so the model follows
the code and has none of these either. Growth is driven only by the tick counter.

Three consequences of the code are proved:

- Directions propagate in one call. Each segment copies its predecessor's direction after that predecessor has already been overwritten, so after one `update_snake` every segment heads where the head heads. From then on, until an arrow key turns the head, the snake moves as a rigid body. On a turn the head steps the new way while the rest step once more the old way.
- Growth is invisible. The appended segment has the tail's cell and direction. It moves in step with the tail forever, so the set of occupied cells never changes by growing.
- From the initial state, every segment from the third on equals the second. The snake therefore never covers more than two cells, although its length after `k` ticks is `2 + (k + 4) / 5`.

`add_segment` as written mutates through a shared reference and does not
compile. The model takes its evident intent: walk to the tail and append a
clone of it.

## Model

| member | source | states |
|---|---|---|
| Primitives.UnitStep | src/main.rs:157-164 | each heading moves one unit along exactly one axis; the opposite heading is its negation |
| Segments.UpdateSegment | src/main.rs:157-164 | the step succeeds exactly when the target cell is inside the `u16` square; the result is one unit in the segment's own direction (Up y-1, Down y+1, Left x-1, Right x+1); the direction is unchanged |
| Segments.UpdateSegmentReversible | src/main.rs:157-164 | a step followed by a step in the opposite direction returns to the starting cell |
| Segments.UpdateSegmentUnitDistance | src/main.rs:157-164 | a successful step moves a Manhattan distance of exactly one, keeping one coordinate |
| Snakes.NewSnake | src/main.rs:37-45 | `Snake::new` is one head at (1, 0) heading Right |
| Snakes.UpdateRest | src/main.rs:148-154 | the loop after the head fails exactly when some segment cannot step; it keeps the length, moves each segment by its own old direction and leaves each with the direction passed down from the head |
| Snakes.UpdateSnake | src/main.rs:145-155 | fails exactly when some segment would overflow; otherwise keeps the length, moves every segment one cell by its pre-call direction, and gives every segment the head's direction |
| Snakes.AddSegment | src/main.rs:76-87 | length grows by exactly one, every earlier segment is unchanged, and the new last segment equals the old tail |
| Snakes.UpdateN | src/main.rs:145-155 | repeated `update_snake` keeps the length; after at least one call all directions equal the head's original direction |
| Snakes.UpdateSnakePropagatesHeadDirection | src/main.rs:148-153 | after `update_snake` the length and the head's direction are kept and every segment has the head's direction |
| Snakes.UniformMovesRigidly | src/main.rs:145-164 | with uniform directions, `update_snake` keeps every offset between two segments |
| Snakes.AddSegmentStuck | src/main.rs:76-87 | the appended segment is a copy of its predecessor and the set of occupied cells is unchanged |
| Snakes.GrowthCommutesWithUpdate | src/main.rs:67-70 | when every segment can step, appending a tail copy before `update_snake` gives the same snake as appending it after, so the grow-then-move order cannot be observed |
| Snakes.UpdateSnakeKeepsStuck | src/main.rs:148-153 | a segment equal to its predecessor still equals it after `update_snake` |
| Snakes.UpdateNKeepsStuck | src/main.rs:145-155 | the same holds through any number of `update_snake` calls |
| Snakes.AppendedSegmentStaysPut | src/main.rs:81-86 | after `add_segment` and any number of `update_snake` calls, the appended segment still shares its predecessor's cell and direction |
| Input.ArrowDirection | src/main.rs:96-109 | exactly the four arrow keys select a heading, and the selected heading is the one whose arrow key was pressed |
| Input.ArrowKeyRoundTrip | src/main.rs:96-109 | exactly the four arrow keys select a heading, each its own, and each heading has its arrow key |
| Input.ReadKey | src/main.rs:89-116 | only the press of an arrow key changes the snake, and then only the head's direction, to that arrow's heading; every other input leaves the snake unchanged |
| Input.ReversalAccepted | src/main.rs:95-104 | heading Right, a Left press turns the head Left; there is no reversal check |
| Game.InitialState | src/main.rs:57-63 | the loop starts with two segments, (1, 0) and (0, 0), both heading Right, and tick 0 |
| Game.Tick | src/main.rs:64-73 | a tick succeeds exactly when the counter is below `u64::MAX` and every segment after the key can step; it grows by one exactly when `tick % 5 == 0` and increments the counter; the head moves one cell in its post-key direction; every other segment moves one cell by its own pre-tick direction and takes the head's post-key direction; on a growth tick the new last segment equals its predecessor |
| Game.Run | src/main.rs:64-73 | a run of ticks advances the counter by one per tick; its length change is stated by `Game.RunGrowth` |
| Game.CountDueShift | src/main.rs:67-72 | the growth ticks of a run are the first tick's growth plus those of the remaining ticks |
| Game.CountDueFromZero | src/main.rs:63-72 | of the ticks 0 to k-1, exactly `(k + 4) / 5` are growth ticks |
| Game.RunGrowth | src/main.rs:63-72 | over a run the counter advances by one per tick and the length by one per growth tick |
| Game.InitialGrowth | src/main.rs:57-72 | after k ticks from the start, the counter is k and the snake has `2 + (k + 4) / 5` segments |
| Game.TickGrowthAppendsStuck | src/main.rs:67-70 | corollary of `Game.Tick`'s contract: on a growth tick the length grows by one and the new last segment equals its predecessor after the move |
| Game.TickKeepsBodyCollapsed | src/main.rs:66-70 | if every segment from the third on equals the second, this still holds after a tick |
| Game.ReachableBodyCollapsed | src/main.rs:64-73 | the collapsed body is kept over any run, so the snake covers at most two cells |
| Game.InitialBodyCollapsed | src/main.rs:57-73 | from the initial state the snake never covers more than two cells |

## Left out

- `print_snake` (src/main.rs:118-143): terminal rendering only, no effect on the state.
- Terminal I/O in `read_key` and `main`: raw mode, `poll` with its 100 ms timeout, `read`, and the debug `println!` calls. What one call observes is the parameter `Poll`.
- `std::thread::sleep` and the endless `loop`: the model runs one tick, or a finite sequence of ticks (`Game.Run`).
- Release-build wrap-around: an over- or underflowing `u16` coordinate, or the `u64` counter at its maximum, is a failure (`None`), as in a debug build, and is never wrapped.
- Crossterm's key codes beyond the four arrows are collapsed into `CharKey` and `OtherKey`, and non-key events into `NonKeyEvent`; only their difference from the arrows matters.
- `COLS` and `ROWS`: declared but unused, so no bounds exist beyond the `u16` range.
