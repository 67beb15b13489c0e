/** The grid: points, the four headings, one-cell moves and the arrow-key steering rule. */
module Grid {
  import opened Optional

  /** The heading of the snake (the `Directions` enum). */
  datatype Direction = Left | Right | Up | Down

  /** A grid cell; X grows to the right, Y grows downwards (screen lines). */
  datatype Point = Point(x: int, y: int)

  /** A key read from the keyboard: the four arrow keys, or anything else
      (including the "no key pending" value of a non-blocking read). */
  datatype Key = KeyUp | KeyDown | KeyLeft | KeyRight | OtherKey

  /** The heading that points the other way along the same axis. */
  function Opposite(d: Direction): (r: Direction)
    ensures r != d
    ensures (r.Left? || r.Right?) == (d.Left? || d.Right?)
  {
    match d
    case Left => Right
    case Right => Left
    case Up => Down
    case Down => Up
  }

  /** The heading an arrow key asks for; None for every other key. */
  function ArrowDirection(k: Key): (r: Option<Direction>)
    ensures r.None? <==> k.OtherKey?
  {
    match k
    case KeyUp => Some(Up)
    case KeyDown => Some(Down)
    case KeyLeft => Some(Left)
    case KeyRight => Some(Right)
    case OtherKey => None
  }

  /** The cell one step from `p` in direction `d`. */
  function Translate(p: Point, d: Direction): (r: Point)
    // exactly one coordinate moves, by exactly one
    ensures (r.x - p.x) * (r.x - p.x) + (r.y - p.y) * (r.y - p.y) == 1
    // and the sign of the move is the heading
    ensures r.x < p.x <==> d == Left
    ensures r.x > p.x <==> d == Right
    ensures r.y < p.y <==> d == Up
    ensures r.y > p.y <==> d == Down
  {
    match d
    case Left => Point(p.x - 1, p.y)
    case Right => Point(p.x + 1, p.y)
    case Up => Point(p.x, p.y - 1)
    case Down => Point(p.x, p.y + 1)
  }

  /** The heading after a key press: an arrow key turns the snake unless it
      asks for the exact reverse of the current heading; other keys do nothing. */
  function NextDirection(current: Direction, k: Key): (r: Direction)
    ensures ArrowDirection(k).None? ==> r == current
    ensures ArrowDirection(k) == Some(Opposite(current)) ==> r == current
    ensures ArrowDirection(k).Some? && ArrowDirection(k).value != Opposite(current) ==>
              r == ArrowDirection(k).value
    // the snake never reverses onto itself in one step
    ensures r != Opposite(current)
  {
    match k
    case KeyUp => if current == Down then current else Up
    case KeyDown => if current == Up then current else Down
    case KeyLeft => if current == Right then current else Left
    case KeyRight => if current == Left then current else Right
    case OtherKey => current
  }
}
