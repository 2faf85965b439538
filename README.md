# Snake game engine in Dafny

This project models the game-state engine of an SDL snake game written in C++ (`main.cpp`), and proves properties of that model. The snake lives on a 32×20 board. It is a fixed buffer of segments, head first, with a length and a direction code. Each movement tick, the body shifts one place and the head moves one cell. When the head reaches the edge it is heading for, it turns along the border instead of dying. Eating the blue dot places a new dot off the body and then duplicates the tail. The game ends when the head meets a segment of index 2 or more. Arrow keys change the direction at most once per movement tick.

The model has four modules:

- `Grid` (`Grid.dfy`): the screen and board constants, the `Cell` type, the four direction codes (`Right` 0, `Left` 1, `Up` 2, `Down` 3, kept as integers as in the source), the one-cell `Step`, and the two border tests the code uses. `AtEdge` is the `==` test of the movement code. `HasRoom` is the `<`/`>` test of the turn and input code.
- `Rules` (`Rules.dfy`): the rules as functions on values. `Update` is one tick on a `Pose` (body sequence and direction): `Shifted` then `HeadMove`. The module also holds `TurnAllowed`, `Grown` and `SelfCollides`, the dot placement `FirstFree` over a stream of random draws, and `SpeedAfter`. Each property is a lemma about these functions.
- `SnakeModel` (`SnakeModel.dfy`): class `Snake`, the C++ `Snake` struct with its functions. It holds an `array<Cell>` of capacity `ROW_CELLS*COL_CELLS` plus `length`, `direction` and `speed`. The methods work in place, like the source, and each is proved against the `Rules` function it implements. The invariant `Valid()` says four things: the body fits the buffer, it is connected, the direction is one of the four codes, and the speed is 0.2·0.8ⁿ after n speed-ups.
- `GameSession` (`GameSession.dfy`): class `Game`, the state that `main` keeps in local variables. That is the snake, the dot, the three timers, `canMove`, `gameOver` and `quit`. Its methods are the start of the program, the placement loop `InitDot`, one frame of the main loop (`Frame`, split into `Advance`, `Eat` and `EndOnCollision`), the new-game reset and one input event (`HandleEvent`, which passes arrow keys to `Steer`). The invariant `Valid()` says the dot is a board cell off the body. The constructor and `Reset` establish it, and `Frame`, `HandleEvent` and `Steer` preserve it. Inside a frame, `Advance` leaves the weaker `DotOffTail()`, because the head may now be on the dot, and `Eat` turns that back into `Valid()`. `InitDot` needs only a valid snake.

The random numbers `InitDot` draws are a parameter `draws: seq<nat>`. Consecutive pairs of raw `rand()` values form the candidate cells. `InitDot` requires that some candidate is free, which is exactly the condition under which the C++ loop returns. `Rules.FreeCellExists` shows that a free cell exists whenever the body is shorter than the buffer. The frame clock is a parameter too: `elapsedMs` stands for the difference of two `SDL_GetTicks` readings. The timers are exact Dafny `real`s.

Behaviour of the code worth knowing:

- The board is 32×20 cells. The info strip is 440/11 = 40 pixels high, which leaves 400/20 = 20 rows below it. A new snake therefore starts at (16, 10).
- `canTurn` returns true when the neighbouring cell is free, and false when a segment is on it or the code is not a direction.
- Growth has no capacity check. Writing past the buffer is excluded by a precondition on `Snake.Grow` and on `Game.Frame`.
- The new dot avoids the body as it is before the growth. After the first meal the dot may therefore be the cell the head has just left (`Rules.FirstMeal`).
- The self-collision test at main.cpp:507 runs every frame, also when the game is already over.
- The head can leave the board. This happens at a corner on the edge it is heading for, when `canTurn` refuses the clockwise turn because a segment other than the old tail is there. The head then moves counter-clockwise off the board. `Rules.HeadInGridIff` states exactly when this happens, and `Rules.HeadLeavesBoard` gives an example.

## Model

| member | source | states |
|---|---|---|
| Grid.BoardSize | main.cpp:24-32 | the board is 32 cells wide and 20 high, so the buffer has 640 slots |
| Grid.Step | main.cpp:174-205 | the neighbour in a direction is a different cell at Manhattan distance 1; a non-direction code does not move |
| Grid.Clockwise | main.cpp:226-285 | the preferred border turn is a quarter turn, neither the heading nor its reverse |
| Grid.RoomIsNotEdge | main.cpp:227-283 | on the board, the strict room test used for turning equals "not on the edge" and "the step stays on the board" |
| Rules.InitialBodyIsCentre | main.cpp:161-167 | a new snake is the single segment (16, 10), on the board |
| SnakeModel.Snake.constructor | main.cpp:161-170 | InitSnake allocates a 640-slot buffer, fills the initial body in a loop, heads right at speed 0.2 |
| Rules.TurnAllowed | main.cpp:173-207 | the turn query holds iff the code is a direction and the head's neighbour that way is not among segments 1 onwards |
| Rules.Shifted | main.cpp:222-225 | the shift keeps the length and the head; every other segment takes its predecessor's cell |
| SnakeModel.Snake.ShiftBody | main.cpp:222-225 | the descending in-place loop leaves exactly the shifted body in the buffer |
| SnakeModel.Snake.CanTurn | main.cpp:173-207 | canTurn is true iff the code is a direction and no segment of index 1 or more is on the head's neighbour that way |
| Rules.ShiftedTurnAllowed | main.cpp:222-228 | asked after the shift, the turn is blocked only by an old segment other than the head and the tail |
| Rules.HeadMove | main.cpp:226-285 | the head step keeps every segment but the head; for a direction the new direction is one of the four and the head moves one Step in it; otherwise nothing changes |
| Rules.Update | main.cpp:221-286 | a tick keeps the length; for a direction the new head is one Step from the old head in the new direction, a direction again |
| Rules.UpdateShiftsBody | main.cpp:221-225 | a tick keeps the length and puts every old segment i-1 at index i |
| Rules.UpdateOffEdge | main.cpp:226-285 | away from the edge it is heading for, the head moves one cell straight on and the direction stays |
| Rules.UpdateAtEdge | main.cpp:226-285 | on that edge, the head turns clockwise when it has room and canTurn agrees, otherwise counter-clockwise, and steps one cell that way |
| Rules.UpdateNoDirection | main.cpp:226-286 | with a code that is not a direction only the shift happens |
| Rules.UpdateKeepsDirection | main.cpp:226-285 | a tick leaves the direction one of the four codes |
| Rules.HeadInGridIff | main.cpp:226-285 | a head on the board stays on it iff it is not at a corner whose clockwise turn canTurn refuses |
| Rules.HeadLeavesBoard | main.cpp:227-235 | moving right at (31, 0) with a segment below the head, the head goes to (31, -1) |
| Rules.UpdateKeepsConnected | main.cpp:221-286 | a tick keeps consecutive segments on equal or neighbouring cells |
| SnakeModel.Snake.MoveHead | main.cpp:226-285 | the head-and-direction branch on the shifted buffer is the border-turn table Rules.HeadMove |
| SnakeModel.Snake.Update | main.cpp:221-286 | UpdateSnake turns the snake into Rules.Update of its old state, keeping length, speed and the invariant |
| Rules.Grown | main.cpp:210-213 | growth adds one segment, a copy of the last, and leaves the others unchanged |
| Rules.GrownKeepsConnected | main.cpp:210-213 | growth keeps the body connected |
| Rules.GrowThenUpdate | main.cpp:210-225 | on the tick after a growth the copied tail stays on the old tail's cell: below the head the body is the un-grown tick plus that cell |
| SnakeModel.Snake.Grow | main.cpp:210-213 | growSnake, given a free slot, makes the body Grown of the old body and keeps the invariant |
| Rules.SpeedUpShrinks | main.cpp:216-218 | each speed-up multiplies the tick interval by 0.8; it stays positive and strictly decreases |
| SnakeModel.Snake.SpeedUp | main.cpp:216-218 | SpeedUp multiplies speed by 0.8 and counts one more speed-up |
| SnakeModel.Snake.CheckCollision | main.cpp:305-312 | checkCollision is true iff the head equals a segment of index 2 or more, so only if length is at least 3 |
| Rules.SelfCollides | main.cpp:305-312 | the snake collides iff it has at least three segments and the head is among segments 2 onwards |
| Rules.ShortSnakeNeverCollides | main.cpp:305-312 | a snake of one or two segments never collides with itself |
| Rules.StackedSegments | main.cpp:305-312 | four segments on one cell collide; two do not |
| Rules.UpdateCollidesIff | main.cpp:305-312 | after a tick the snake collides iff the new head is on an old segment other than the head and the tail |
| SnakeModel.Snake.HeadOn | main.cpp:335-340 | checkDotCollision is true iff the head is on the dot, so never when the dot is off the body |
| Rules.DrawCell | main.cpp:323-324 | a candidate from two raw random numbers, each reduced modulo the board size, is a board cell |
| Rules.FirstFree | main.cpp:319-332 | the cell placement settles on is a board cell off the body |
| Rules.FirstFreeIsFirst | main.cpp:319-332 | placement settles iff some candidate is free, and then on the first free candidate |
| Rules.FreeCellExists | main.cpp:162 | a body shorter than the buffer leaves some board cell free |
| Rules.FirstMeal | main.cpp:474-493 | the first tick takes the new snake to (17, 10); eating there gives two segments, and the next dot may be (16, 10) |
| GameSession.Game.InitDot | main.cpp:319-332 | the retry loop sets the dot to the first free candidate, a board cell off the body |
| GameSession.Game.constructor | main.cpp:447-466 | program start: timers zero, flags clear, a new snake and a dot off it |
| GameSession.Game.Reset | main.cpp:525-537 | new game: a fresh snake, a new dot, timers zero, gameOver and canMove cleared |
| GameSession.Seconds | main.cpp:470-472 | a frame's millisecond difference becomes a non-negative number of seconds |
| GameSession.Game.Advance | main.cpp:474-488 | the timers advance; a due tick moves the snake, re-arms canMove and restarts its timer; a due speed-up speeds up and restarts its timer |
| GameSession.Game.Eat | main.cpp:489-493 | when the head is on the dot, the dot moves to the first free candidate and then the snake grows; the dot ends off the body |
| GameSession.Game.Frame | main.cpp:474-510 | one frame: the state after the tick, the growth and the new dot; the timers, canMove and speed-up count; gameOver becomes set on self-collision; the dot stays off the body |
| GameSession.Game.EndOnCollision | main.cpp:506-510 | gameOver becomes set exactly when it was set or the snake collides with itself |
| GameSession.KeyDirection | main.cpp:539-561 | exactly the four arrow keys ask for a direction |
| GameSession.Game.Accepts | main.cpp:538-562 | an accepted key is an arrow key pressed while the game runs and canMove is set; it never reverses a snake longer than one, and never points a head on the board off it |
| GameSession.Game.HandleEvent | main.cpp:518-568 | Escape and closing quit and change nothing else; 'n' resets; an arrow key while the game runs and canMove is set, not reversing a snake longer than one and with room ahead, sets the direction and clears canMove; otherwise nothing changes |
| GameSession.Game.Steer | main.cpp:538-562 | an accepted arrow key sets the direction it asks for and clears canMove; any other key leaves both unchanged; the dot stays off the body |
| GameSession.TwoKeysBetweenTicks | main.cpp:538-562 | once an arrow key is accepted the following one is ignored until a tick re-arms canMove |

## Left out

- Drawing: the text, sprite, pixel, line, rectangle, dot, grid and snake drawing and the game-over and info texts are calls into SDL that only read the state.
- SDL set-up and teardown: initialisation, window and texture creation, bitmap loading with its error exits, frame presentation and event polling are I/O. Events arrive as `Event` values, one per `HandleEvent` call.
- Memory management: `new`/`delete` and `FreeMemory` are not modelled. A reset allocates a fresh `Snake` object.
- Random numbers: `srand`/`rand` are not modelled. The stream of raw `rand()` results is the `draws` parameter.
- Game.InitDot: the C++ loop does not return when the random stream never yields a free cell. The model instead requires a free candidate among the finite `draws`.
- Game.Frame: requires a free buffer slot whenever the head reaches the dot. The C++ code would write past the 640-slot buffer there, which is undefined behaviour.
- Floating point: the speed and the timers are exact reals, so the model makes no claim about IEEE `double` rounding. For example, 0.2·0.8ⁿ is exact, and a tick due exactly at the threshold is decided exactly.
- Integer width: coordinates are unbounded integers, and the 32-bit wrap-around of `SDL_GetTicks` differences is not modelled. A head that has left the board keeps moving, and its coordinate could overflow only after billions of ticks.
- The main loop itself, `while (!quit)`, is not a method. It runs `Frame` once and then `HandleEvent` for each pending event.
