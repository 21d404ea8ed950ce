# Snake game state, in Dafny

This project models the game-state logic of a small Rust Snake game. The
snake's body is a list of grid cells with the head first. It moves by one cell
per key press or per tick. The game ends when a tick would take the head off
the grid or onto the body. Eating food appends the food cell at the tail, and
new food is drawn at random from the cells inside the border ring.

- `direction.dfy`, module `Directions`: the four headings, `Opposite`, cells,
  and `Step`, the one-cell move that both `move_forward` and
  `check_if_snake_alive` compute.
- `snake.dfy`, module `Snakes`: class `Snake` with fields `body: seq<Cell>` and
  `direction`. `MoveForward` prepends a cell in place. `HeadDirection` and
  `OverlapTail` are read-only queries, and `Occurs` is the `any` scan behind
  `OverlapTail`.
- `game.dfy`, module `Games`: class `Game` with the snake, the food cell, the
  grid size and the game-over flag. Its methods are `HandleKeyEvent`,
  `UpdateSnake`, `CheckEating`, `AddFood` and `Restart`, and
  `CheckIfSnakeAlive` is the collision test. Four client methods
  (`FourTicksRight`, `TwoTicksDownToFood`, `RunIntoLeftWall`,
  `KeysMoveOntoFood`) run the method contracts through concrete games.

The model follows the code. In several places that differs from how a
conventional Snake game, or a prose description of this one, would behave:

- Nothing ever trims the tail. Every successful move grows the body by one
  cell, and eating adds one more. After four ticks to the right from the
  start, the body has five cells, not one (`FourTicksRight`).
- `snake.direction` is assigned only at construction and in `restart`, so it
  is always `Right`. As a result the Left arrow is always refused
  (`OnlyLeftRefusedWhileRight`), and a non-arrow key always moves Right.
- A key press moves the snake at once, with no wall check, no self-collision
  check and no eating check. So the head can leave the grid, and it can land
  on the food without eating it, which leaves the food on the body
  (`KeysMoveOntoFood`). Food is therefore not always off the body.
- `update_snake` is never called from the event loop in `main`
  (src/main.rs:171-202). It is modelled as written, with the heading passed
  in by its caller.
- The `match` in `check_if_snake_alive` (src/main.rs:102-107) lacks its
  closing `};`. It is modelled as if the match were closed before the `if` at
  line 109.

Food placement reads from a sequence of random draws supplied by the caller
(`draws: seq<Cell>`). `FoodSupply` states what the generator is assumed to
give: every draw lies in `[1, width-1) x [1, height-1)`, and at least one draw
is off the body. Under that assumption the resampling loop in `AddFood`
stops at `FirstFree(draws, body)`, the first draw not on the body.

## Model

| member | source | states |
|---|---|---|
| `Directions.Opposite` | src/main.rs:33-41 | the reverse heading is never the heading itself |
| `Directions.OppositeInvolution` | src/main.rs:33-41 | reversing twice gives back the original heading |
| `Directions.Step` | src/main.rs:47-53 | with a heading, the new cell is at Manhattan distance 1, on the side that heading points to (Up: y-1, Down: y+1, Left: x-1, Right: x+1); with `None`, it is the cell itself |
| `Directions.StepThenOppositeReturns` | src/main.rs:33-53 | a step followed by a step in the opposite heading returns to the start cell |
| `Snakes.Occurs` | src/main.rs:61-63 | the scan is true exactly when some index of the body holds the cell |
| `Snakes.Snake.constructor` | src/main.rs:159-163 | a snake with the given non-empty body and heading |
| `Snakes.Snake.MoveForward` | src/main.rs:45-55 | the body grows by exactly one; the new head is `Step` of the old head; the old body is the new `body[1..]`; the heading is unchanged |
| `Snakes.Snake.HeadDirection` | src/main.rs:57-59 | returns the stored heading |
| `Snakes.Snake.OverlapTail` | src/main.rs:61-63 | true if and only if `(x, y)` is in the body; a function, so it changes nothing |
| `Games.KeyDirection` | src/main.rs:69-75 | a non-arrow key asks for the current heading |
| `Games.ArrowIgnoresHeading` | src/main.rs:69-73 | an arrow key asks for the same heading whatever the current one is |
| `Games.OtherKeyNeverReverses` | src/main.rs:74-80 | a non-arrow key is never refused as a reversal |
| `Games.OnlyLeftRefusedWhileRight` | src/main.rs:70-80 | with heading Right, a key is refused if and only if it is the Left arrow |
| `Games.Game.constructor` | src/main.rs:159-169 | body `[(2, 2)]`, heading Right, food (6, 4), running, with the given grid |
| `Games.Game.HandleKeyEvent` | src/main.rs:67-86 | when the game is over, or the key's heading reverses the stored one, the body is unchanged; otherwise exactly one `MoveForward` in the key's heading (the stored one for a non-arrow key); heading, food, grid and flag are always unchanged |
| `Games.Game.CheckIfSnakeAlive` | src/main.rs:100-114 | true if and only if the target cell is inside `[0, width) x [0, height)` and not on the body; always false for `None` |
| `Games.FirstFree` | src/main.rs:127-132 | the result is off the body and is the first draw that is: every earlier draw is on the body |
| `Games.FirstFreePlacement` | src/main.rs:124-136 | under `FoodSupply`, the first free draw is an interior cell off the body, and the grid is at least 3 x 3 |
| `Games.FirstFreeUnique` | src/main.rs:129-132 | a draw that is off the body, with every earlier draw on it, is the one the resampling stops at |
| `Games.Game.AddFood` | src/main.rs:124-136 | the food becomes the first free draw; it lies in `[1, width-1) x [1, height-1)` and `OverlapTail` is false for it; snake, grid and flag are unchanged |
| `Games.Game.CheckEating` | src/main.rs:116-122 | if the head is on the food, the old food cell is appended to the body and new food is placed off the body in the interior; otherwise nothing changes |
| `Games.Game.UpdateSnake` | src/main.rs:88-97 | no-op once the game is over; a blocked target (a wall or the body) sets game over and leaves body and food unchanged, so `None` always ends the game; a safe tick keeps the game running, puts a new head inside the grid that was not on the old body, keeps the old body as `body[1..]`, and grows the body by 1, or by 2 when the food was eaten, with the old food cell appended at the tail and the new food interior and off the body |
| `Games.Game.Restart` | src/main.rs:138-146 | body `[(2, 2)]`, heading Right, food (6, 4), game over cleared, grid unchanged |
| `Games.FourTicksRight` | src/main.rs:88-122 | from the start on a 30 x 20 grid, four ticks Right give a running game with head (6, 2), five body cells and food still at (6, 4) |

## Left out

- The window, the event loop, key polling and drawing in `main`
  (src/main.rs:149-202), together with the colours and the `f64` pixel
  coordinates (src/main.rs:8-9). These are I/O and calls into a graphics
  library. Keys are reduced to the four arrows and "any other key".
- The random generator. Each draw is a cell taken from a sequence that the
  caller supplies.
- Games.Game.AddFood: the unbounded resampling loop is modelled only when the
  draws contain a cell off the body. If every draw hits the body, the source
  would loop forever, and no termination bound is claimed for it.
- The panic that `gen_range` raises on an empty range when the grid is
  narrower than 3 cells. `FoodSupply` cannot hold on such a grid, so that
  path is excluded rather than modelled.
- The panic that `body[0]` raises on an empty body. The class invariant
  `Valid()` keeps the body non-empty, and every operation preserves it.
- `i32` overflow. Coordinates are unbounded integers, and on the game's small
  grid they never come near the 32-bit limits.
- Ownership. The game holds its snake through a reference, and `Restart`
  allocates a fresh one where the source assigns a new struct value. No other
  object shares the snake.
