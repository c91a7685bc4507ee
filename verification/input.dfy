/** The pure part of `read_key`: which terminal events turn the head. The
    polling, the 100 ms timeout and the debug output are not modelled; what
    the terminal delivered in one call is the parameter `Poll`. */
module Input {
  import opened Primitives
  import opened Segments
  import opened Snakes

  datatype KeyCode = LeftArrow | RightArrow | UpArrow | DownArrow | CharKey(c: char) | OtherKey

  datatype KeyEventKind = Press | Repeat | Release

  datatype KeyEvent = KeyEvent(kind: KeyEventKind, code: KeyCode)

  /** A terminal event: a key, or anything else (mouse, resize, focus, paste). */
  datatype Event = Key(key: KeyEvent) | NonKeyEvent

  /** What one call of `read_key` sees: nothing pending within the timeout
      (a failing poll counts as nothing), a failing read, or an event. */
  datatype Poll = Idle | ReadFailed | Received(event: Event)

  /** The heading an arrow key selects; `None` for every other key. */
  function ArrowDirection(code: KeyCode): (r: Option<Direction>)
    ensures r.Some? <==> code in {LeftArrow, DownArrow, RightArrow, UpArrow}
    ensures r.Some? ==> code == ArrowKey(r.value)
  {
    match code
    case LeftArrow => Some(Left)
    case DownArrow => Some(Down)
    case RightArrow => Some(Right)
    case UpArrow => Some(Up)
    case _ => None
  }

  /** The arrow key for each heading. */
  function ArrowKey(d: Direction): KeyCode {
    match d
    case Up => UpArrow
    case Down => DownArrow
    case Left => LeftArrow
    case Right => RightArrow
  }

  /** The press of the arrow key for `d`, the only input that turns the head. */
  function ArrowPress(d: Direction): Poll {
    Received(Key(KeyEvent(Press, ArrowKey(d))))
  }

  /** Exactly the four arrow keys select a heading, each its own. */
  lemma ArrowKeyRoundTrip(code: KeyCode, d: Direction)
    ensures ArrowDirection(ArrowKey(d)) == Some(d)
    ensures ArrowDirection(code) == Some(d) <==> code == ArrowKey(d)
  {
  }

  /** `read_key` on the snake: a pressed arrow key sets the head's direction
      to that arrow's heading; any other key, a repeat or release, a non-key
      event, a read failure or no event leaves the snake as it is. No turn is
      refused, not even a reversal. */
  function ReadKey(s: Snake, p: Poll): (r: Snake)
    ensures |r| == |s| && r[0].pos == s[0].pos && r[1..] == s[1..]
    ensures forall d :: p == ArrowPress(d) ==> r[0].dir == d
    ensures (forall d :: p != ArrowPress(d)) ==> r == s
  {
    match p
    case Received(Key(KeyEvent(Press, code))) =>
      (match ArrowDirection(code)
       case Some(d) =>
         ArrowKeyRoundTrip(code, d);
         assert p == ArrowPress(d);
         s[0 := s[0].(dir := d)]
       case None => s)
    case _ => s
  }

  /** Turning back on oneself is accepted: heading Right, a Left press
      makes the head face Left, and the body is untouched. */
  lemma ReversalAccepted(s: Snake)
    requires s[0].dir == Right
    ensures ReadKey(s, ArrowPress(Left))[0].dir == Left
    ensures ReadKey(s, ArrowPress(Left))[1..] == s[1..]
  {
  }
}
