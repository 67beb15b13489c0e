# Snake engine, modelled in Dafny

This project models the game engine of `snek`, a terminal Snake game written in C (`snake.c`). The snake is a fixed array of 10 body slots (`INITIAL_SNAKE_SIZE`). The head is in slot 0 and the occupied slots form a prefix. Every pass of the main loop does four things in order:

1. It reads a key and may turn the snake. A turn that would reverse the heading is refused.
2. It moves the snake one cell. Each segment takes its predecessor's point, working from the tail toward the head, and then the head steps.
3. It stops the game when the head is on or past a border, or on another segment.
4. If the head is on the food, the snake grows and the food moves. This check runs even on a tick that has just stopped the game.

Modules:

- `Optional` (`option.dfy`) holds the `Option` type. An empty body slot (a NULL pointer) is `None`.
- `Grid` (`grid.dfy`) holds points, the four headings, the one-cell step (`translate_point`) and the steering rule (`set_next_direction`). Keys are a `Key` datatype: the four arrow keys, and `OtherKey` for everything else, including the `ERR` that a non-blocking `getch` returns.
- `Body` (`body.dfy`) describes the 10 slots as a sequence of values. Each operation of the class on the array has a specification function here. The two that change the array are `Moved` and `Grown`. The two that only scan it are `TailPosition` and `HitsItself`. The lemmas state what these functions do to the chain of segments, `Segments(s)`, head first.
- `SnakeEngine` (`snake.dfy`) holds the class `Snake`. It has the `body` array and the `direction` field. `Move` and `Grow` update the array in place. `GetTailPosition` and `HitItself` only scan it. `SetNextDirection` only assigns `direction`. Each method is proved against its specification function. The invariant `Valid()` says that 2 to 10 segments form a prefix and every later slot is empty.
- `GameLoop` (`game.dfy`) holds the class `Game`, with the snake, the food and the running flag. `Game.Tick` is the body of the main loop at `snake.c:256-271`. It is proved equal to the value function `TickSpec`, and lemmas state how a tick changes the running flag, the chain and the food.

Modelling decisions:

- The board bounds are parameters called `maxX` and `maxY`. `main` gets them through `getmaxyx(stdscr, cols, rows)`. That call stores the number of screen lines in `cols` and the number of columns in `rows`. The wall test at `snake.c:259-262` compares X with `rows` and Y with `cols`. So `maxX` is the column count, and X is lethal at `<= 0` or `>= maxX`. Y is treated the same way against `maxY`.
- Slots 2..9 are never initialised after `malloc`. The code's NULL checks show that they are meant to start empty, so the model starts them as `None`.
- Growth follows the code. The new segment is not always placed against the heading. The code puts it at tail.X−1 for Left and tail.X+1 for Right, which is along the heading. It puts it at tail.Y+1 for Up and tail.Y−1 for Down, which is against the heading. `GrowthCell` states this. `FirstTickEatsFood` shows a result: after the first meal, the new segment lies on the head's cell.
- `running` is a `bool`. The C code uses 1 and 0.
- `get_tail_position` reads past the array when all 10 slots are occupied (see Findings). The model uses the corrected scan, which treats the slot past the end as empty. Its answer for a full snake is therefore 9, and `grow_snake` then does nothing, as its guard at `snake.c:199` intends.

## Model

| member | source | states |
|---|---|---|
| Grid.Translate | snake.c:34-49 | exactly one coordinate changes, by exactly one; X decreases iff Left, X increases iff Right, Y decreases iff Up, Y increases iff Down |
| Grid.NextDirection | snake.c:51-78 | a non-arrow key keeps the heading; an arrow key for the exact reverse keeps the heading; any other arrow key sets its direction; the new heading is never the reverse of the old one |
| SnakeEngine.Snake.SetNextDirection | snake.c:51-78 | the heading becomes `NextDirection(old heading, key)`, so it is never the reverse of the old heading |
| Body.Segments | snake.c:186-192 | the leading run of occupied slots, head first, the walk that `draw_game` does: each listed segment is the point in its slot, and the slot after the last one is empty |
| Body.Moved | snake.c:155-164 | the move keeps the length of the body and exactly the same set of occupied slots; the head becomes `Translate(old head, heading)`; no occupied slot follows an empty one |
| Body.MoveShiftsChain | snake.c:155-164 | on a prefix of n segments the move keeps n segments, and the new chain is the translated head followed by all old segments except the old tail (chain-follow) |
| Body.InitialMoveRight | snake.c:155-164 | `[(5,5),(4,5)]` moved Right becomes `[(6,5),(5,5)]` |
| SnakeEngine.Snake.Move | snake.c:155-164 | the down-counting copy loop, then the head step, leave the array equal to `Moved(old array, heading)`; the chain becomes the new head plus the old chain without its tail; the body invariant holds again |
| Body.TailFrom | snake.c:173-182 | the scan from index i on, with no slot past the end: its result is at least i and within the array, every slot after i up to the result is occupied, and the slot after the result is empty |
| Body.TailPosition | snake.c:173-182 | the result is an occupied slot and the slot after it is empty (or the result is the last slot) |
| Body.TailOfPrefix | snake.c:173-182 | with a prefix of L occupied slots the tail position is L−1, including 9 for a full snake |
| SnakeEngine.Snake.GetTailPosition | snake.c:173-182 | the scanning loop returns `TailPosition` of the array, which is the number of segments minus one |
| Body.GrowthCell | snake.c:203-220 | the new cell is one step from the tail along the heading for Left and Right, and one step against the heading for Up and Down |
| Body.GrowAt | snake.c:199-221 | growth with the tail index already found writes the growth cell of the tail into the slot after the tail; it changes no other slot, and it changes nothing when the tail is the last slot |
| Body.GrowBelowCapacity | snake.c:202-221 | below capacity, the prefix gets one segment longer and the chain is the old chain plus the growth cell behind the old tail |
| Body.Grown | snake.c:197-222 | growth keeps every occupied slot (the head included) and the array's length, and leaves no occupied slot after an empty one |
| Body.GrowAppends | snake.c:197-222 | on a full snake growth is a no-op; otherwise the prefix gets one segment longer and the chain is the old chain plus the growth cell behind the old tail, so the length never exceeds 10 |
| SnakeEngine.Snake.Grow | snake.c:197-222 | the array becomes `Grown(old array, heading)`; the number of segments goes up by one, or stays at 10 when full; the body invariant holds again |
| Body.HitsItself | snake.c:224-235 | no hit exactly when every non-empty slot after the head differs from the head in X or in Y |
| Body.HitsItselfOnChain | snake.c:224-235 | a self hit (some occupied slot other than the head holds the head's point) happens exactly when the head's point occurs again among the other segments |
| SnakeEngine.Snake.HitItself | snake.c:224-235 | the loop returns true exactly when an occupied slot other than slot 0 equals the head, which means the head's point appears again in the chain |
| Body.WellFormed | snake.c:129-150 | the body invariant: 10 slots, a prefix of 2 to 10 segments, every later slot empty; it implies that the head is occupied and that no segment follows an empty slot |
| Body.WellFormedIffLinked | snake.c:155-162 | the invariant holds exactly when there are 10 slots, at least 2 segments, an occupied head, and no occupied slot after an empty one, so the NULL checks never skip a segment |
| SnakeEngine.Snake.Valid | snake.c:22-26 | the snake's invariant: its array has 10 slots and holds a well-formed body, with a head and no segment after an empty slot |
| Body.InitialBody | snake.c:139-150 | the initial body is well formed with segments `[(5,5),(4,5)]` and 8 empty slots |
| Body.InitialDoesNotHitItself | snake.c:139-150 | the initial body does not hit itself |
| SnakeEngine.Snake.constructor | snake.c:129-151 | a fresh 10-slot array holding the initial body, heading Right, body invariant established |
| GameLoop.InitialState | snake.c:135-151 | the initial game is well formed, running, heading Right, with the host's food and segments `[(5,5),(4,5)]` |
| GameLoop.Game.constructor | snake.c:117-151 | a fresh game equal to `InitialState` of a food point on the board |
| GameLoop.TickSpec | snake.c:256-271 | after a tick the heading is `NextDirection(old heading, key)`; the head is one step from the old head along it; the food is replaced exactly when the new head is on it; a stopped game stays stopped |
| GameLoop.HitsWall | snake.c:259-262 | the head is safe exactly when it is inside the open rectangle `(0,maxX) × (0,maxY)`; `maxX` is the column count the code calls `rows`, and `maxY` is the line count it calls `cols` |
| GameLoop.TickRunning | snake.c:259-266 | after a tick the game runs iff it ran before, the new head is strictly inside `(0,maxX) × (0,maxY)`, and the new head is not on an old segment other than the old tail |
| GameLoop.TickChain | snake.c:257-271 | the chain after a tick is the moved chain; when the new head is on the food and a slot is free, the growth cell is added and the food is replaced; otherwise the length is unchanged |
| GameLoop.TickKeepsWellFormed | snake.c:256-271 | a tick keeps the body invariant: a prefix of 2 to 10 segments |
| GameLoop.FirstTickEatsFood | snake.c:253-271 | from the initial game with food at (6,5) and no key, the snake grows to `[(6,5),(5,5),(6,5)]`, keeps running and takes the new food |
| GameLoop.LeftWallStopsGame | snake.c:259-266 | a head at (0,5) heading Left on a 20 × 20 board stops the game, whatever the key |
| GameLoop.LosingTickStillEats | snake.c:263-271 | a tick that moves onto food on the border stops the game and still grows the snake and replaces the food |
| GameLoop.Game.Tick | snake.c:256-271 | steering, moving, the wall and self check and the food check, done in place, leave the game in `TickSpec(old state, key, new food, maxX, maxY)` and keep the body invariant |
| Body.TailScanPastFullBody | snake.c:173-182 | as written, with a non-NULL word past a full 10-slot array, the scan returns 0, and growth then overwrites the neck: (9,5) becomes (11,5). The corrected growth leaves the same full body unchanged |
| Body.TailFromRunsOff | snake.c:175-181 | when every slot is occupied and the word past the array is not NULL, the scan never breaks and falls back to 0 |

## Findings

| source | as written | input that shows it | evidently intended | confidence | as-written member | corrected member |
|---|---|---|---|---|---|---|
| snake.c:173-182 | With all 10 slots occupied, the loop reaches i = 9 and reads `body[10]`, one slot past the allocation. If that word is not NULL, the loop ends without a break and returns 0, and `grow_snake` then writes a new point into slot 1. | A snake grown to 10 segments, lying on row 5 from (10,5) to (1,5) and heading Right, that eats again: its neck (9,5) becomes (11,5). | Treat the end of the array as empty and return 9, so the guard at snake.c:199 makes growth a no-op. | high; not executed | Body.TailScanPastFullBody | Body.TailOfPrefix |

## Left out

- Terminal handling and drawing are screen I/O. This covers `initscr`, `cbreak`, `noecho`, `curs_set`, `keypad`, `nodelay`, `getmaxyx`, `draw_game`, `mvprintw`, `refresh`, `clear` and `endwin`. The key read by `getch` becomes the `Key` parameter of `Tick`. The bounds from `getmaxyx` become its `maxX` and `maxY` parameters. The walk in `draw_game` is modelled only as `Segments`.
- Frame pacing (`slow_down`, `nanosleep`) is a delay and does not affect the state.
- Randomness (`srand`, `rand`, `get_random_point`) is not modelled. The food point is a parameter: `firstFood` for the constructor and `newFood` for `Tick`. Each must lie in `[0,maxX) × [0,maxY)`, which is where `rand() % max` puts it. That requirement also makes both bounds positive. The C code never checks the bounds, and `rand() % 0` would be undefined.
- Allocation failure paths in `init_game`, `free_game`, and the separate heap cell of each point are left out. Points are values, and a move copies a slot's value, as the C code copies X and Y into the existing cell. No two slots share a cell, so the behaviour is the same.
- `direction_to_str` and the final `printf` are display strings.
- The outer `while (game->running)` loop is not modelled. The model covers one pass of it, `Tick`, and the fact that a stopped game never runs again.
- Grid.Translate: does not model 32-bit `int` overflow of X or Y. A head stops at the wall long before the coordinates get near the limits.
- SnakeEngine.Snake.GetTailPosition: models the corrected scan, which reads the slot past the array as empty, not the out-of-bounds read (see Findings).
