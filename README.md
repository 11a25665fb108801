# snake.c — a verified model of the game's per-tick update

snake.c is a small raylib Snake game. The snake moves on a 30 × 21 grid of 32-pixel cells. It eats randomly placed apples, grows by one cell per apple, and the main loop ends when the head fails the wall check: x < 0, x > 960, y < 0 or y > 672. That check lets the head go one cell past the right or bottom edge. This project models the part of `src/main.c` that carries logic. That part has four pieces:

- **Body shift (`moveSnake`).** The body is a fixed array of 630 cells, shifted in place from the tail down. After the shift the head moves by the speed.
- **Direction latching.** Each frame runs four guarded assignments to the speed, for the key pairs D/→, A/←, W/↑ and S/↓.
- **Tick.** A tick moves the snake unless it is at rest. If the head is on the apple, the snake grows by a copy of its last cell, the score goes up by one and a new apple is placed. Finally the tick checks the walls.
- **Apple placement (`randomizeApple`).** Random grid indices are mapped to pixel positions.

The files:

- `grid.dfy` (module `Grid`): the constants, positions as integer vectors, apple placement and the wall check.
- `body.dfy` (module `Body`): the body as a sequence of cells, head first. It defines what one move and one growth do to that sequence, and what repeated moves do.
- `input.dfy` (module `Input`): the input block as the function `Steer`. Its contract gives the outcome for every key combination, by the direction of travel.
- `game.dfy` (module `Game`): the program's own state as classes. `Apple` is written through `Randomize`. `Snake` has the `body` array, `length` and `speed`, and its `Move` shifts the array in place with a loop. `Game` holds the snake, the apple and the score, and has `ApplyInput` and `Tick`. Each method is specified by the functions in the other modules.

Some behaviours of the code as written are made explicit by the proofs:

- **The speed guard matters.** A snake at rest is not moved. Shifting it with a zero speed would copy the head into cell 1 and fold the body onto the head (`Body.MovedAtRestFolds`). The apple check still runs on a tick at rest.
- **The wall check is permissive.** It uses `x > 960` and `y > 672`. So a head in the column just right of the field, or in the row just below it, does not end the game. Every other off-field position does (`Grid.HitsWall`).
- **Guards see updates from the same frame.** Each key guard reads the speed as already changed by the earlier guards in that frame. A horizontally moving snake can never be turned around within one frame. Two frames without a tick between them can turn it around: moving right, W then A gives left (`Input.SteerReversesAcrossFrames`). A vertically moving snake can be: moving up, pressing D and S together gives down, because D is taken first and then S passes its guard (`Input.SteerReversesVertical`).
- **Growth has no bound check.** Eating writes `body[length]` without checking the bound. So `Game.Game.Tick` requires a free slot whenever the head after the movement step is on the apple. At rest, that is the head where it already stands.

The code has no self-collision check, no restart and no play-time counter. The wall bound is `>`, the loop simply breaks on a wall hit, and the snake starts at rest at (32, 32).

## Model

| member | source | states |
|---|---|---|
| `Grid.ApplePosition` | src/main.c:49-55 | the apple lies on an aligned cell of the field, x in [0, 928] and y in [0, 640], and the column and row indices are recovered from it |
| `Grid.ApplePositionOnto` | src/main.c:49-54 | every aligned cell of the field is the apple position of some pair of indices in range |
| `Grid.HitsWall` | src/main.c:146-147 | the game continues exactly when the head is on the field, in the column x == 960 (0 <= y <= 672) or in the row y == 672 (0 <= x <= 960) |
| `Grid.WallCheckPermissive` | src/main.c:146-147 | a head in the column x == 960 (0 <= y <= 672) or the row y == 672 (0 <= x <= 960) is off the field and still does not end the game |
| `Grid.AddAligned` | src/main.c:62-63 | an aligned head moved by a one-cell speed stays aligned |
| `Body.Moved` | src/main.c:57-64 | a move keeps the length; cell i (i >= 1) takes the old cell i-1; the head becomes the old head plus the speed |
| `Body.MovedAtRestFolds` | src/main.c:135-137 | without the speed guard, a zero-speed shift would change a body whose first two cells differ, copying the head into cell 1; the guarded move leaves it unchanged |
| `Body.Grown` | src/main.c:140-141 | growth adds exactly one cell, leaves the old cells in place and copies the last cell into the new slot (no gap) |
| `Body.MovedAligned` | src/main.c:57-64 | a move by a one-cell speed keeps every cell aligned |
| `Body.GrownAligned` | src/main.c:140 | growth keeps every cell aligned |
| `Body.Run` | src/main.c:57-64 | any number of moves keeps the length of the body |
| `Body.RunTrail` | src/main.c:57-64 | after n moves, cell i is where the head was i moves earlier; cells not yet replaced are the old cells shifted back by n |
| `Body.RunHead` | src/main.c:62-63 | after n moves the head is the old head plus n times the speed |
| `Input.Steer` | src/main.c:117-128 | at rest a vertical key beats a horizontal one (up over down, right over left); moving horizontally, horizontal keys are ignored; moving vertically, vertical keys are ignored unless a horizontal key was also pressed, and then a vertical key wins; with no key the speed is unchanged |
| `Input.SteerIsStep` | src/main.c:117-128 | the speed stays one of (0,0), (±32,0), (0,±32) |
| `Input.SteerKeepsHorizontalHeading` | src/main.c:117-128 | a horizontally moving snake keeps its heading or turns up or down, and is never reversed in one frame |
| `Input.SteerReversesVertical` | src/main.c:117-128 | moving up with D and S pressed gives down; moving down with A and W pressed gives up |
| `Input.SteerReversesAcrossFrames` | src/main.c:117-128 | moving right, W in one frame then A in the next gives left; moving left, S then D gives right |
| `Input.SteerLastAcceptedWins` | src/main.c:117-128 | from rest, D then W gives up (the later accepted key wins); D with A gives right (A is refused once D has set a horizontal speed) |
| `Game.Apple.constructor` | src/main.c:109-110 | the first apple is placed at the first random draw |
| `Game.Apple.Randomize` | src/main.c:49-55 | the apple moves to the cell of the given indices, aligned and on the field |
| `Game.Snake.constructor` | src/main.c:99-104 | the snake starts as one cell at (32, 32), at rest; all other array cells are zero |
| `Game.Snake.Move` | src/main.c:57-64 | the in-place shift leaves the length unchanged and turns the occupied cells into their move; cells at index >= length are untouched |
| `Game.Snake.Grow` | src/main.c:140-141 | with a free slot, the length grows by one, the occupied cells become their growth and the rest of the array is untouched |
| `Game.Game.constructor` | src/main.c:99-112 | the initial state has score 0, a one-cell snake at rest and an apple at the first draw, all on the grid |
| `Game.Game.ApplyInput` | src/main.c:117-128 | the new speed is `Steer` of the old speed and the keys; body and length are untouched; the grid invariant is kept |
| `Game.Game.Tick` | src/main.c:135-148 | the body advances (not at zero speed); if the head is then on the apple, the body grows, the score goes up by exactly one and the apple moves to the given draw, otherwise score and apple are unchanged; the speed is unchanged; the result is the wall check of the new head; the grid invariant is kept |

## Left out

- Rendering and assets are not modelled: `DrawField`, `DrawScore`, `DrawSnake`, `LoadTextures`, the draw block and the `color` field. They are raylib calls with no game logic.
- Audio (`InitAudioDevice`, `LoadSound`, `PlaySound`) is left out. It is a side effect only.
- Window handling and key polling are left out. The keys of a frame are the boolean parameters of `ApplyInput`, and a wall hit is the result of `Tick`, which ends the loop.
- The float frame timer (`moveTimer`, `moveInterval`, `GetFrameTime`) is left out because it is floating-point timing. `Tick` models the body of the timer branch. A frame is `ApplyInput`, followed by `Tick` when the timer fires.
- `GetRandomValue` and `SetRandomSeed` are left out. The random indices are parameters, assumed in the ranges `GetRandomValue` is asked for.
- raylib's float `Vector2` is modelled as integers. Every value the code stores is a whole multiple of 32.
- Game.Game.Tick: requires a free array slot when the snake eats. At length 630 the source writes past the end of `body`, which is undefined behaviour in C, and the model does not describe it.
- Game.Snake.Grow: requires a free array slot. At length 630 the source writes past the end of `body` (src/main.c:140), which is undefined behaviour in C, and the model does not describe it.
