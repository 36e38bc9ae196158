# Snake game state machine in Dafny

This project models the game logic of a browser Snake game (`script.js`). The board is 800/20 = 40 cells wide and 600/20 = 30 cells tall. The game state holds:

- the snake body, head first;
- one food cell;
- the current direction and the pending direction;
- the score and the high score;
- the running and paused flags.

The state changes through these operations:

- arrow keys set the pending direction;
- a timer tick moves the snake, eats food and checks for collisions;
- the start, pause/resume, reset and play-again buttons drive the lifecycle.

The source keeps this state in module-level variables. Here each operation is a pure function from one `GameState` to the next.

Modules:

- `Grid` holds the canvas constants, `Cell`, the four `Direction`s and single steps.
- `Food` models `generateFood`. Each call of `Math.random` is a `Unit` real in [0, 1). A loop iteration uses one `Draw` of two such values and proposes the cell `(floor(rx * 39), floor(ry * 29))`. `GenerateFood` returns the first proposed cell that is off the snake. Such a cell is a `FoodSpot`: off the body and inside the food range.
- The operations that place food (`MoveSnake`, `Tick`, `ResetGameState`, `Reset`, `Init`) take the new food cell from the caller. Their precondition is that the cell is a `FoodSpot`, which is exactly what `GenerateFood` delivers when its loop ends.
- `Collision` holds the game-over test, both as a predicate and as the source's scanning loop.
- `Game` holds `GameState` and the operations `OnKey`, `MoveSnake`, `Tick`, `Start`, `TogglePause`, `EndGame`, `InitSnake`, `ResetGameState`, `Reset` and `Init`.
- `Invariants` defines the state invariant `Valid` and proves that every operation preserves it. It also proves the facts about a single move and the lifecycle laws, and carries the invariant over whole event sequences.
- `Events` models the event wiring: `Event`, the handler `Dispatch` bound to each key, timer or button event, and `Run`, which replays a whole sequence of them.
- `Scenarios` holds concrete runs on the real board.

In three places the code behaves differently from what a reader might expect; the model follows the code:

- The start button is accepted straight after game over, without a reset. `startGame` checks only `running`, and `endGame` re-enables the button. The flags then return to running on the ended board, with the score kept (`StartAfterGameOver`).
- Distinct snake segments are not an invariant. A self-collision ends the game with the head on a body cell. After the start button the flags return to running on that board (`RestartKeepsOverlap`). What does hold is that a move that does not end the game keeps a duplicate-free body duplicate-free (`TickKeepsDistinct`).
- Food is not uniform over the whole board. `generateFood` multiplies by `cells - 1`, so food never appears in the last column (x = 39) or the last row (y = 29). The food range is exactly [0, 39) x [0, 29) (`Candidate`, `CandidateCoversFoodRange`).

## Model

| member | source | states |
|---|---|---|
| Grid.MoveIsAdjacentStep | script.js:142-144 | The new head computed from the old head and a direction shares an edge with the old head. Stepping back in the opposite direction returns to the old head. |
| Food.ScaledFloor | script.js:128-129 | `floor(random * m)` with random in [0, 1) lies in [0, m). |
| Food.Candidate | script.js:123-130 | Every proposed food cell lies in [0, 39) x [0, 29). So it is on the board but never in the last column or row. |
| Food.CandidateCoversFoodRange | script.js:123-130 | Every cell of [0, 39) x [0, 29) is proposed by some pair of random values. So the food range is exactly that rectangle. |
| Food.GenerateFood | script.js:122-132 | The loop ends exactly when some draw lands off the snake. The cell it keeps is a free spot: off the snake and in the food range. It is the first such draw, and every earlier draw hit the snake. |
| Collision.CheckCollisions | script.js:163-180 | The scan reports a collision iff the head is outside [0, 40) x [0, 30) or equals some segment at index 1 or later. |
| Game.OnKey | script.js:81-100 | Keys are ignored unless the game runs unpaused. Non-arrow keys are ignored. An arrow is accepted iff it is perpendicular to the current direction, and then becomes the pending direction. Only the pending direction ever changes. |
| Game.MoveSnake | script.js:137-158 | The pending direction is committed and the head moves one step along it. Eating adds 10 points, keeps the whole old body (length + 1) and places new food off the grown body. Otherwise the last cell is dropped, and length, score and food stay the same. |
| Game.EndGame | script.js:279-289 | The run stops and is unpaused. The high score becomes the larger of the old high score and the score. The score and the board are untouched. |
| Game.Tick | script.js:226-236 | A tick is a no-op unless the game runs unpaused. Otherwise the game ends exactly when the moved snake collides, and then the result is game over applied to the moved state: unpaused, with the high score raised to the score if that is larger. The score moves by 0 or 10, and the length grows by one exactly on eating. The high score never drops. |
| Game.Start | script.js:245-249 | Start is a no-op while running. Otherwise the game runs unpaused on an unchanged board. |
| Game.TogglePause | script.js:263-266 | Pause/resume is a no-op unless running. Otherwise it flips only the paused flag. |
| Game.InitSnake | script.js:108-117 | The initial body is three distinct on-board cells in a row at the board centre (20, 15), with the head rightmost. |
| Game.ResetGameState | script.js:329-333 | Rebuilds the initial body, places the supplied free food spot, and sets both directions to right. Flags and scores are left alone. |
| Game.Reset | script.js:305-316 | The game is stopped and unpaused with score 0, and the high score is unchanged. The board is the initial body with food off it, and both directions are right. |
| Game.Init | script.js:17-27 | On page load the game is stopped with score 0. The stored high score is kept and the board is the initial one. |
| Invariants.InitValid | script.js:329-333 | The page-load state satisfies the state invariant. |
| Invariants.ResetValid | script.js:305-316 | A reset produces a state satisfying the invariant, whatever state came before. |
| Invariants.OnKeyValid | script.js:81-100 | Key presses preserve the invariant. In particular the pending direction never becomes the reverse of the current direction. |
| Invariants.StartValid | script.js:245-249 | Start preserves the invariant. |
| Invariants.TogglePauseValid | script.js:263-266 | Pause/resume preserves the invariant. |
| Invariants.EndGameValid | script.js:279-289 | Game over preserves the invariant. |
| Invariants.MoveSnakeValid | script.js:137-158 | A move keeps the body connected and keeps the head one step from the neck along the direction. It also keeps the food off the body and the score at 10 points per grown segment. |
| Invariants.TickValid | script.js:226-236 | A tick preserves the invariant. |
| Invariants.NeckNeverEntered | script.js:86-100 | In a valid state the next head is never the current neck cell. |
| Invariants.VacatedTailIsFree | script.js:154-156 | The tail is popped before the collision check. So on a non-eating move into the cell the tail just left, a duplicate-free snake does not hit its body. If that cell is on the board, the game goes on. |
| Invariants.EatingNeverCollides | script.js:150-153 | Food is on the board and off the body, so a move that eats never ends the game, and it scores exactly 10. |
| Invariants.TickKeepsDistinct | script.js:230-236 | A tick after which the game still runs keeps a duplicate-free body duplicate-free. |
| Invariants.TogglePauseInvolution | script.js:263-266 | Pausing twice restores the state. |
| Invariants.EndGameIdempotent | script.js:279-289 | Ending an ended game changes nothing. |
| Invariants.ResetForgetsRun | script.js:305-316 | Two states with the same high score reset to the same state. |
| Invariants.StartAfterGameOver | script.js:245-249 | Start works straight after game over. The flags return to running and unpaused on the ended board, with the score kept. |
| Events.Dispatch | script.js:67-76 | Handling any key, timer or button event never lowers the high score. |
| Invariants.DispatchValid | script.js:67-76 | Handling any event preserves the invariant. |
| Invariants.RunPreservesValid | script.js:67-76 | After any sequence of events from a valid state, the state is valid, so the food is never on the body. |
| Invariants.HighScoreNeverDecreases | script.js:286-289 | After any sequence of events the high score is at least what it was. |
| Invariants.ReachableValid | script.js:37-76 | Every state reachable from page load through any feasible event sequence satisfies the invariant. So the food is never on the body. |
| Invariants.ScoreNeverDecreasesWithoutReset | script.js:151 | Along any event sequence without a reset, the score never decreases and changes only by multiples of 10. |
| Scenarios.StepWithoutFood | script.js:137-157 | From the initial board, one tick that misses the food gives [(21,15), (20,15), (19,15)] with score 0, and the game runs on. |
| Scenarios.StepOntoFood | script.js:150-153 | With food at (21,15), one tick gives [(21,15), (20,15), (19,15), (18,15)], score 10 and fresh food. |
| Scenarios.FoodRedrawnOffSnake | script.js:126-131 | A draw that lands on the head is discarded and the next draw is used. |
| Scenarios.HighScoreAtGameOver | script.js:286-289 | Score 150 over a best of 100 records 150. Score 50 leaves 100. |
| Scenarios.RestartKeepsOverlap | script.js:245-249 | A valid running snake with distinct segments bites itself and the game ends. After Start the flags return to running on a valid board whose body repeats a cell. |

## Left out

- Canvas drawing (`draw`, script.js:185-221) and DOM updates (`updateUI`, `initGame`'s element lookups, button `disabled` flags and labels): presentation only, with no rules.
- localStorage: the high score is an `int` field and `Init` takes the stored value as a parameter. The source reads the value back as a string and compares it by JavaScript coercion; that is not modelled.
- The `setInterval`/`clearInterval` timer: a tick is a function the caller invokes, and the model assumes a working timer that is re-armed on every start and every resume.
- The script as written fails to parse: `let gameLoop` (script.js:28) and `function gameLoop` (script.js:226) declare one name twice in the same top-level scope, which is an early SyntaxError, so the page never runs any of this logic.
- Even with that clash resolved (say with `var`), script.js:255 overwrites the function with the interval id. Every later `setInterval(gameLoop, …)` then receives a number: a start after game over or reset (script.js:255) and every resume (script.js:270). In the code, nothing moves after the first pause or the first game over; only the flags say running again. The model's `Tick` keeps stepping in those states.
- `Math.random`: `GenerateFood` takes the random values as a `draws` sequence supplied by the caller. The source's loop never ends when every candidate cell is on the snake; the model returns `None` when the supplied draws run out. The game operations take the resulting food cell as an argument and require it to meet the loop's exit condition (`FoodSpot`).
- Game.Tick: requires a non-empty snake. The source reads `snake[0]` without a check, and every reachable state has at least three segments (`Valid`).
- Game.Init: the food value before `resetGameState` runs (an empty object in the source) is a placeholder cell that is overwritten immediately.
- `event.preventDefault`, `console.log`, the frame rate and the colours: no effect on the state.
