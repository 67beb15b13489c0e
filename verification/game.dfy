/** The game: the snake, the food and the running flag, and the per-tick
    update that the main loop performs (steer, move, wall and self check,
    then the food check). The board bounds and the replacement food point
    come from the host: the bounds from the terminal size, the food from the
    random number generator. */
module GameLoop {
  import opened Optional
  import opened Grid
  import opened Body
  import opened SnakeEngine

  /** The whole state of a game as a value. */
  datatype GameState = GameState(body: Slots, direction: Direction, food: Point, running: bool)

  /** The fresh game of init_game, with the food the host drew. */
  function InitialState(food: Point): (r: GameState)
    ensures WellFormed(r.body) && r.running && r.direction == Right && r.food == food
    ensures Segments(r.body) == [Point(5, 5), Point(4, 5)]
  {
    GameState(InitialBody(), Right, food, true)
  }

  /** A point inside [0, maxX) x [0, maxY), where the food is drawn. */
  predicate OnBoard(p: Point, maxX: int, maxY: int) {
    0 <= p.x < maxX && 0 <= p.y < maxY
  }

  /** The wall test of the main loop: the border lines and columns are
      lethal, and so is anything beyond them. maxX is the number of screen
      columns and maxY the number of screen lines. */
  predicate HitsWall(p: Point, maxX: int, maxY: int)
    // safe exactly inside the open rectangle (0, maxX) x (0, maxY)
    ensures !HitsWall(p, maxX, maxY) <==> 0 < p.x < maxX && 0 < p.y < maxY
  {
    p.x <= 0 || p.y <= 0 || p.x >= maxX || p.y >= maxY
  }

  /** One pass of the main loop after drawing: steer by `key`, move, stop the
      game on a wall or self collision, and then, whether or not the game
      was just stopped, eat the food under the head: grow and take
      `newFood` as the next food. */
  function TickSpec(st: GameState, key: Key, newFood: Point, maxX: int, maxY: int): (r: GameState)
    requires Linked(st.body)
    ensures Linked(r.body) && |r.body| == |st.body|
    ensures r.direction == NextDirection(st.direction, key)
    // the head moved one step along the new heading
    ensures r.body[0] == Some(Translate(st.body[0].value, r.direction))
    // the food is replaced exactly when the head reached it
    ensures r.food == if r.body[0] == Some(st.food) then newFood else st.food
    // a stopped game never runs again
    ensures !st.running ==> !r.running
  {
    var dir := NextDirection(st.direction, key);
    var moved := Moved(st.body, dir);
    var head := moved[0].value;
    var lost := HitsWall(head, maxX, maxY) || HitsItself(moved);
    var running := if lost then false else st.running;
    if head == st.food then
      GameState(Grown(moved, dir), dir, newFood, running)
    else
      GameState(moved, dir, st.food, running)
  }

  /** The running flag after a tick: it stays set exactly when it was set,
      the new head is off the walls, and the new head does not land on one of
      the old segments other than the old tail (which has moved on). */
  lemma TickRunning(st: GameState, key: Key, newFood: Point, maxX: int, maxY: int, n: nat)
    requires ContiguousPrefix(st.body, n) && 1 <= n
    ensures Linked(st.body)
    ensures TickSpec(st, key, newFood, maxX, maxY).running <==>
              var head := Translate(Segments(st.body)[0], NextDirection(st.direction, key));
              st.running && !HitsWall(head, maxX, maxY) && head !in Segments(st.body)[..n - 1]
  {
    PrefixIsLinked(st.body, n);
    var dir := NextDirection(st.direction, key);
    var moved := Moved(st.body, dir);
    MoveShiftsChain(st.body, dir, n);
    HitsItselfOnChain(moved, n);
    assert Segments(moved)[1..] == Segments(st.body)[..n - 1];
  }

  /** What a tick does to the chain of segments: the move of the chain, then,
      when the new head is on the food, one more segment behind the tail
      unless every slot is full. */
  lemma TickChain(st: GameState, key: Key, newFood: Point, maxX: int, maxY: int, n: nat)
    requires ContiguousPrefix(st.body, n) && 1 <= n
    ensures Linked(st.body)
    ensures
      var r := TickSpec(st, key, newFood, maxX, maxY);
      var head := Translate(Segments(st.body)[0], r.direction);
      var moved := [head] + Segments(st.body)[..n - 1];
      if head == st.food && n < |st.body| then
        ContiguousPrefix(r.body, n + 1) && r.food == newFood &&
        Segments(r.body) == moved + [GrowthCell(moved[n - 1], r.direction)]
      else
        ContiguousPrefix(r.body, n) && Segments(r.body) == moved &&
        r.food == (if head == st.food then newFood else st.food)
  {
    PrefixIsLinked(st.body, n);
    var dir := NextDirection(st.direction, key);
    MoveShiftsChain(st.body, dir, n);
    GrowAppends(Moved(st.body, dir), dir, n);
  }

  /** A tick keeps the body invariant: 2 to Capacity segments in a prefix. */
  lemma TickKeepsWellFormed(st: GameState, key: Key, newFood: Point, maxX: int, maxY: int)
    requires WellFormed(st.body)
    ensures Linked(st.body)
    ensures WellFormed(TickSpec(st, key, newFood, maxX, maxY).body)
  {
    var n := |Segments(st.body)|;
    TickChain(st, key, newFood, maxX, maxY, n);
    var r := TickSpec(st, key, newFood, maxX, maxY);
    if ContiguousPrefix(r.body, n + 1) {
      SegmentsOfPrefix(r.body, n + 1);
    } else {
      SegmentsOfPrefix(r.body, n);
    }
  }

  /** The first tick of a game with the food just right of the head and no
      key pressed: the head reaches the food, the snake grows to three
      segments (the new one placed right of the old tail, on the head's cell)
      and the game goes on. */
  lemma FirstTickEatsFood(newFood: Point, maxX: int, maxY: int)
    requires maxX > 6 && maxY > 5
    ensures
      var r := TickSpec(InitialState(Point(6, 5)), OtherKey, newFood, maxX, maxY);
      r.running && r.food == newFood && r.direction == Right &&
      Segments(r.body) == [Point(6, 5), Point(5, 5), Point(6, 5)]
  {
    var st := InitialState(Point(6, 5));
    TickChain(st, OtherKey, newFood, maxX, maxY, 2);
    TickRunning(st, OtherKey, newFood, maxX, maxY, 2);
  }

  /** A two-segment body from the head `h` with `b` behind it. */
  function Pair(h: Point, b: Point): (r: Slots)
    ensures ContiguousPrefix(r, 2) && |r| == Capacity
  {
    [Some(h), Some(b)] + seq(Capacity - 2, _ => None)
  }

  /** A snake with its head on the left border, heading Left, on a 20 x 20
      board: whatever the key (Right is refused as a reversal), the tick
      stops the game. */
  lemma LeftWallStopsGame(key: Key, newFood: Point, food: Point)
    ensures !TickSpec(GameState(Pair(Point(0, 5), Point(1, 5)), Left, food, true), key, newFood, 20, 20).running
  {
    var st := GameState(Pair(Point(0, 5), Point(1, 5)), Left, food, true);
    TickRunning(st, key, newFood, 20, 20, 2);
    if key == KeyUp || key == KeyDown {
      SegmentsOfPrefix(st.body, 2);
    }
  }

  /** The food check runs on a losing tick too: moving Left onto food lying
      on the left border stops the game and still grows the snake. */
  lemma LosingTickStillEats(newFood: Point)
    ensures
      var r := TickSpec(GameState(Pair(Point(1, 5), Point(2, 5)), Left, Point(0, 5), true),
                        OtherKey, newFood, 20, 20);
      !r.running && r.food == newFood && |Segments(r.body)| == 3
  {
    var st := GameState(Pair(Point(1, 5), Point(2, 5)), Left, Point(0, 5), true);
    TickChain(st, OtherKey, newFood, 20, 20, 2);
    TickRunning(st, OtherKey, newFood, 20, 20, 2);
  }

  class Game {
    const snake: Snake
    var food: Point
    /** The running flag (1 while the game goes on, 0 once lost). */
    var running: bool

    ghost predicate Valid()
      reads this, snake, snake.body
    {
      snake.Valid()
    }

    /** The state of the game as a value. */
    ghost function State(): GameState
      reads this, snake, snake.body
    {
      GameState(snake.body[..], snake.direction, food, running)
    }

    /** init_game: the initial snake, the food the host drew on the board,
        and the game running. */
    constructor (maxX: int, maxY: int, firstFood: Point)
      requires OnBoard(firstFood, maxX, maxY)
      ensures Valid() && fresh(snake) && fresh(snake.body)
      ensures State() == InitialState(firstFood)
    {
      snake := new Snake();
      food := firstFood;
      running := true;
    }

    /** One pass of the main loop (without drawing and pacing): the key read
        by the host, the board bounds, and the food the host draws in case
        this tick eats the current one. */
    method Tick(key: Key, newFood: Point, maxX: int, maxY: int)
      requires Valid()
      requires OnBoard(newFood, maxX, maxY)
      modifies this, snake, snake.body
      ensures Valid()
      ensures State() == TickSpec(old(State()), key, newFood, maxX, maxY)
    {
      ghost var st := State();
      PrefixIsLinked(st.body, |Segments(st.body)|);
      snake.SetNextDirection(key);
      snake.Move();
      var head := snake.body[0].value;
      var selfHit := snake.HitItself();
      if HitsWall(head, maxX, maxY) || selfHit {
        running := false;
      }
      if head == food {
        snake.Grow();
        food := newFood;
      }
      TickKeepsWellFormed(st, key, newFood, maxX, maxY);
    }
  }
}
