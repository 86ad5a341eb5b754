# Snake game core in Dafny

This project models the game logic of `the_snake.py`, a single-file pygame
Snake game. The playing field is a 640 x 480 pixel screen. It is divided
into 20-pixel cells (32 columns by 24 rows). A snake moves one cell per tick
and wraps around at the screen edges. The player's arrow keys go into a
one-slot direction buffer, and a key that would reverse the snake is
refused. Eating the apple raises the snake's target length by one; the body
grows on the following move. The apple is then re-drawn at random until it
lands off the body. When the head runs into the rest of the body, the snake
starts over as a single cell at the centre of the screen.

Modules:

- `Wrappers`: `Option`. It stands for Python's `None` in the direction
  buffer.
- `Grid`: the screen constants, cells, directions, the one-cell step with
  wrap-around, and the cell picked by a pair of random draws.
- `Keys`: key events, the key-to-direction rule, and what one frame of
  events leaves in the buffer.
- `Snakes`: the `Snake` class (fields updated in place), the `Apple` class
  and the key handler.
- `Game`: apple re-drawing, the start of a game, and one tick of the main
  loop.

The random draws are parameters. Placement takes a list of (column, row)
pairs, which the model uses in order. A restart takes the chosen direction
as an argument.

Two behaviours of the source are kept as written:

- The `Snake` initialiser passes its start cell into the colour slot of the
  shared base initialiser. The recorded `position` is therefore always the
  screen centre, and a reset always restarts there (`Snake.constructor`,
  `Snake.Reset`).
- The first apple is placed without looking at the snake (`NewGame`).

The step corrects only a one-cell overshoot, testing x before y.
`Grid.Advance` proves that this equals wrapping modulo 640 and 480 on every
grid cell.

Shrink items, obstacles, scoring and speed-up do not occur in
`the_snake.py`.

## Model

| member | source | states |
|---|---|---|
| `Grid.Opposite` | the_snake.py:17-20 | the opposite direction has the negated unit vector and differs from the direction |
| `Grid.DirectionIndex` | the_snake.py:101 | each direction occurs exactly once in the order (RIGHT, LEFT, UP, DOWN) in which the move step tries them |
| `Grid.Advance` | the_snake.py:103-113 | from a grid cell, the step gives a grid cell. That cell is the old one shifted by direction × 20, wrapped modulo 640 in x and 480 in y, and it differs from the old cell |
| `Grid.WrapsAtEdges` | the_snake.py:106-113 | at each of the four edges, stepping off the screen re-enters on the opposite edge (e.g. x = 620 moving right gives 0, and x = 0 moving left gives 620) |
| `Grid.RandomCell` | the_snake.py:66-69 | two draws within the column and row ranges give a grid cell whose column and row are those draws |
| `Grid.RandomCellCovers` | the_snake.py:66-69 | every grid cell is the result of exactly one pair of in-range draws |
| `Keys.Request` | the_snake.py:143-150 | a key buffers a direction exactly when it is an arrow whose direction is not the reversal of the current one; the buffered direction is then the arrow's |
| `Keys.Buffer` | the_snake.py:138-150 | a frame of events reports quit exactly when it contains a Quit. The buffer either keeps its old content or holds a direction that does not reverse the current one |
| `Keys.BufferAppend` | the_snake.py:138-150 | handling two runs of events one after the other (the first without a Quit) is handling the second run starting from the buffer the first run left, so every accepted arrow overwrites the buffer |
| `Keys.LastAcceptedWins` | the_snake.py:138-150 | when the last accepted arrow key of a frame is followed only by ignored events, that arrow's direction is buffered, whatever came before |
| `Keys.LastArrowWins` | the_snake.py:138-150 | when the last event of a frame is an accepted arrow key and the frame has no Quit, that arrow's direction is buffered, whatever came before |
| `Keys.IgnoredKeepBuffer` | the_snake.py:142-150 | a frame of non-key events and refused arrow keys leaves the buffer unchanged and does not quit |
| `Keys.Steer` | the_snake.py:162-163 | handling the keys then committing the buffer never turns the snake to the reversal of its current direction. The result is either the current direction or the buffered one |
| `Snakes.Moved` | the_snake.py:114-116 | after a move, the body is the new head followed by the old body in order. It is one cell longer exactly when the old body was shorter than `length`, otherwise the old last cell is dropped. It stays within `length` and on the grid |
| `Snakes.MovedDistinct` | the_snake.py:179-180 | a duplicate-free body stays duplicate-free after a move unless the new head lies on the rest of the body |
| `Snakes.Snake.constructor` | the_snake.py:81-88 | a new snake is one cell at the given cell, heading right, with an empty buffer and length 1; the recorded position is the centre whatever the argument |
| `Snakes.Snake.Head` | the_snake.py:118-120 | the head is a cell of the body and, in a valid snake, a grid cell |
| `Snakes.Snake.Move` | the_snake.py:98-116 | the direction loop applies the one matching step; the new body is `Moved` of the old body, and the snake invariant (non-empty body within `length`, grid cells, buffer never a reversal) is kept |
| `Snakes.Snake.UpdateDirection` | the_snake.py:122-126 | a buffered direction becomes the direction and the buffer is emptied; with an empty buffer nothing changes; the new direction never reverses the old |
| `Snakes.Snake.Reset` | the_snake.py:128-133 | the body becomes the single centre cell, length 1, the buffer empty and the direction the drawn one |
| `Snakes.HandleKeys` | the_snake.py:136-150 | the buffer and the quit flag after a frame's events are exactly those `Keys.Buffer` gives, and the snake invariant is kept |
| `Snakes.Apple.constructor` | the_snake.py:62-64 | a new apple sits at the drawn cell |
| `Game.FirstFree` | the_snake.py:170-177 | the apple re-draw chooses the first draw whose cell is off the body, with every earlier draw on the body; None means every draw is on the body |
| `Game.Relocate` | the_snake.py:170-177 | the re-draw loop stops exactly at the first free draw and leaves the apple there, off the body; when no draw is free it leaves the apple at the last draw |
| `Game.NewGame` | the_snake.py:155-156 | a game starts with the apple at the drawn cell (unchecked) and a valid one-cell snake at the centre heading right |
| `Game.Tick` | the_snake.py:162-180 | one tick: handle keys, commit, move. On the apple, length + 1 and the apple goes to the first free draw, off the body. If the head is on the rest of the body, reset. The snake invariant is kept, and a duplicate-free body stays duplicate-free |

## Left out

- Drawing, window set-up, colours, `LINE_SIZE`, `BORDER_COLOR` and `pygame.display.update`: these are rendering only.
- `clock.tick(10)` and `SPEED`: they only pace frames.
- Event polling: the events of a frame are given to `HandleKeys` as a list. On a Quit event the model stops handling events and reports it; `pygame.quit()` and the process exit are not modelled.
- The endless `while True` loop of `main`: one pass of it is `Game.Tick`.
- The randomness of `randint` and `choice`: draws and the restart direction are parameters.
- Game.Relocate: the source re-draws forever until it finds a free cell, and never stops once the body fills the grid. The model uses a finite list of draws. When every draw in the list falls on the body, it reports `Stalled` and does not say what the source would do with further draws.
- Game.Tick: after `Stalled` the tick stops before the self-collision test, because the source is still re-drawing at that point.
- The `last` field and `body_color`: neither is read by the game logic.
