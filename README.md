# A verified model of the snake game

This project models the logic of a small grid-based snake game, which lives in one file,
`the_snake.py`. The board is 640 x 480 pixels. It is cut into 20-pixel cells, giving 32 x 24
cells, and it wraps around at both edges. The snake is a list of cells with the head first.
It has a committed heading, a pending heading queued by the arrow keys, a target length, and
the last tail cell it dropped; it advances one cell per tick. The apple is one cell. When the
head reaches the apple, the apple is moved by drawing random cells until one is clear of the
snake.

Modules and files:

- `options.dfy` (`Options`): the optional value used for the pending heading and the erased tail cell.
- `grid.dfy` (`Grid`): the screen constants, cells, headings, the wrapping step, and the
  torus laps.
- `snakes.dfy` (`Snakes`): `Advance`, a function that specifies the list update of one move;
  `Glide`, which models several moves in a row; and the `Snake` class, whose methods change
  its fields in place (`Reset`, `UpdateDirection`, `Move`).
- `apples.dfy` (`Apples`): the random draws, `FirstFree`, which specifies where rejection
  sampling stops, and the `Apple` class with its sampling loop.
- `input.dfy` (`Input`): key presses and events, `Filter` for the no-reversal rule, and the
  event loop `HandleKeys`.
- `game.dfy` (`Game`): start-up (`NewGame`) and one tick of the frame loop (`Tick`), in the
  source's order: poll the keys, then (`Update`) eat, reset after self-harm, commit the
  heading, move.

Randomness is supplied by the caller:

- The stream of `randint` results is a sequence of `Draw` values. Each draw has a column in
  [0, 31] and a row in [0, 23].
- The result of `choice` is a `Direction` parameter.
- The sampling loop has a precondition: some draw in the stream lands on a free cell. This is
  exactly the condition under which the loop in the source ends. `FullBoardHasNoFreeDraw`
  shows that no stream meets it when the board is full.

Python's `%` with a positive divisor gives the same non-negative result as Dafny's `%`, so
the wrap-around arithmetic is written out directly.

Two points of the game's behaviour are worth stating outright:

- **Tick order.** A tick checks the apple and self-harm first, and only then commits the
  heading and moves (the_snake.py:172-184). `Update` follows this order. When the snake eats
  and harms itself in the same tick, the reset wins and the length goes back to 1.
- **Reversals.** Every key press is judged against the committed heading, and the committed
  heading is not assigned while the events are read (the_snake.py:147-159). So after a poll
  the pending heading is either the one it was before the poll or one that does not reverse the
  committed heading (`PendingNeverReverses`), however many keys are pressed. A tick starts with
  nothing pending, because `NewGame` and every tick that is not ended by a quit request leave
  nothing pending. So the committed heading can only flip to its opposite in a tick with
  self-harm: the reset picks a new random heading, and the key queued before the reset is then
  committed against it. `Tick`'s last postcondition states the tick without self-harm.

## Model

| member | source | states |
|---|---|---|
| `Grid.Opposite` | the_snake.py:152-159 | the reversal of a heading is the heading with the negated unit vector, never the heading itself |
| `Grid.CenterOnGrid` | the_snake.py:46-49 | the default position (SCREEN_WIDTH // 2, SCREEN_HEIGHT // 2) is the grid cell (320, 240) |
| `Grid.Step` | the_snake.py:108-113 | the wrapped new head always lies in [0,640) x [0,480), and it stays a multiple of 20 when the old head was one |
| `Grid.StepThenOpposite` | the_snake.py:108-113 | a step followed by a step the opposite way returns to the starting cell, on every in-bounds cell |
| `Grid.StepNFormula` | the_snake.py:108-113 | n steps in one heading land on ((x + n*dx*20) mod 640, (y + n*dy*20) mod 480) |
| `Grid.Lap` | the_snake.py:110-113 | going straight for 32 cells (horizontally) or 24 cells (vertically) returns the head to its cell, and no shorter positive run does |
| `Snakes.Advance` | the_snake.py:115-118 | the new head is first and the rest is a prefix of the old list; if the old size + 1 exceeds length, the size is kept and the old final cell is dropped, otherwise the list grows by one and nothing is dropped; size <= length and grid alignment are preserved |
| `Snakes.Glide` | the_snake.py:106-118 | after n moves in a fixed heading the head is the cell n steps from the old head |
| `Snakes.GlideLength` | the_snake.py:115-118 | over n moves without eating, the size becomes min(length, old size + n) |
| `Snakes.GlideKeepsFullLength` | the_snake.py:117-118 | a snake at its target length keeps exactly that size over any number of moves |
| `Snakes.FirstMoveDown` | the_snake.py:93-118 | a fresh snake moving down is, after one move, the single cell (320, 260), and the centre is recorded as erased |
| `Snakes.Snake.constructor` | the_snake.py:86-91 | a new snake is the single centre cell with the chosen heading, length 1, nothing pending and nothing erased |
| `Snakes.Snake.Reset` | the_snake.py:93-98 | positions == [(320, 240)], length == 1, last == None, heading the chosen one, pending heading untouched |
| `Snakes.Snake.UpdateDirection` | the_snake.py:100-104 | a pending heading becomes the heading and is cleared; with none pending nothing changes |
| `Snakes.Snake.Move` | the_snake.py:106-118 | the new list and last cell are those of Advance for the wrapped head from the current heading; `last` changes only when a cell is dropped; the invariant (non-empty, size <= length, all on grid) is kept |
| `Snakes.Snake.HeadPosition` | the_snake.py:136-138 | the head is the first cell of the snake, and a grid cell when the snake is valid |
| `Snakes.Snake.CheckSelfHarm` | the_snake.py:140-142 | true exactly when the head occurs at some index >= 1 |
| `Snakes.SelfHarmIsRepeatedHead` | the_snake.py:140-142 | self-harm holds exactly when the head cell occurs at least twice in the list |
| `Apples.DrawCell` | the_snake.py:75-78 | a draw in range gives a grid cell of the screen |
| `Apples.DrawCellCoversGrid` | the_snake.py:75-78 | every grid cell is the cell of exactly one draw in range |
| `Apples.Occupied` | the_snake.py:72-73 | a missing list of snake cells is the empty list; otherwise the cells are exactly those of the given list |
| `Apples.FirstFree` | the_snake.py:74-80 | the stopping index of the sampling: its draw is free and every earlier draw hit the snake |
| `Apples.FullBoardHasNoFreeDraw` | the_snake.py:74-80 | on a board full of snake no draw is free, so the sampling loop would not stop |
| `Apples.Apple.constructor` | the_snake.py:59-62 | a new apple sits on the first free drawn cell, clear of the given snake cells |
| `Apples.Apple.RandomizePosition` | the_snake.py:70-80 | the apple ends on the first drawn cell not in the snake, a grid cell; with no snake list given, the first draw is taken |
| `Input.Filter` | the_snake.py:152-159 | an arrow key queues its own heading exactly when that heading is not the reversal of the current heading; other keys queue nothing |
| `Input.Pending` | the_snake.py:147-159 | the pending heading after a poll is the one before the poll or the heading that one of the key presses queued |
| `Input.PendingStopsAtQuit` | the_snake.py:147-150 | the events after the first quit request have no effect on the pending heading |
| `Input.PendingNeverReverses` | the_snake.py:147-159 | after a poll the pending heading is either unchanged or one that does not reverse the committed heading |
| `Input.LastAcceptedKeyWins` | the_snake.py:147-159 | whatever events (none of them a quit request) come before it in a poll, an accepted last key press decides the pending heading |
| `Input.HandleKeys` | the_snake.py:145-159 | processes events in order up to the first quit request, which it reports; only the pending heading changes |
| `Game.NewGame` | the_snake.py:164-166 | the start state: a valid snake at the centre and an apple on the first free drawn cell, away from the centre |
| `Game.Heading` | the_snake.py:178-184 | without self-harm, a pending heading that does not reverse the current heading (or none) can never make the committed heading the reversal of the current one |
| `Game.Update` | the_snake.py:172-184 | eating adds exactly 1 to length and moves the apple to the first free drawn cell, off the snake; self-harm resets the snake before the heading is committed and the snake moves; otherwise the list moves as Advance says; the snake and apple invariants are kept (the predicate `Updated` spells this out) |
| `Game.Tick` | the_snake.py:168-184 | a quit request ends the tick with the snake and apple as they were, apart from the heading queued by key presses before the quit request; otherwise the tick is Update applied with the heading the poll left pending; without self-harm and with nothing pending at the start, the heading never reverses |

## Left out

- Rendering: window creation, caption and clock set-up (the_snake.py:33-39), every `draw`
  method, rectangle painting and screen fills, and `pygame.display.update`. These are calls
  into the graphics library, which is not part of this model. `last` is kept because the
  model tracks it, but nothing is painted with it.
- Event polling (`pygame.event.get`) becomes a sequence of events passed to `HandleKeys`.
  The window-close event becomes a `quit` result that stops the poll, in place of
  `pygame.quit()` and `SystemExit`, which are process control.
- `clock.tick(SPEED)`, `pygame.init()` and the endless `while True` loop. `Tick` is one pass of
  the loop body, and `Glide` covers runs of plain moves.
- `randint` and `choice` become values passed in by the caller. The uniform distribution
  is not modelled. `DrawCellCoversGrid` only shows that every grid cell can be drawn.
- Colour constants and `body_color` play no logical role. The `GameObject` base class is
  left out, apart from its default centre position (`Center`). The snake's inherited
  `position` field is never read, so it is not modelled either.
