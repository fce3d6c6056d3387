# Conway's Game of Life: the engine

The program is a Swing window that shows Conway's Game of Life on a 40 x 40
grid whose edges wrap around: a torus. Its engine is one object with these
fields:

- a boolean array `gameState[40][40][2]` that holds two buffers of the grid;
- the index `buffer` of the current one;
- a `playing` flag;
- the cell `prevX`, `prevY` of the last mouse event.

The constructor starts an animation thread that loops forever. Every 200 ms it
repaints the window, and when the game is playing it first computes the next
generation of the current buffer into the other buffer and flips `buffer`.
The user can do four things:

- toggle cells by clicking or dragging the mouse;
- fill the current buffer at random with a 25 % density;
- start the animation;
- save the current buffer to `save.txt` and load it back.

The file holds 1600 characters, `'1'` for alive and `'0'` for dead. The
character at index `x*40+y` is cell (x, y), so the x coordinate is the outer
loop.

The model has five modules:

- `Wrappers`: an `Option` type. It stands for the Java reference that is
  `null` when reading the file fails.
- `Rules`: the automaton on values. It defines:
  - a `Grid` as a sequence of 40 columns of 40 cells;
  - Java's `%` (`JavaRem`) next to the toroidal wrap that the engine's
    fix-up of -1 to 39 achieves;
  - the neighbour count, in the order the engine's offset loops visit the
    cells;
  - the B3/S23 rule for one cell, and `Step` for a whole generation;
  - the value-level toggle, and the density test of the Random button.
- `Persistence`: the save string (`Encode`) and what the load loop leaves in
  a buffer (`DecodeOver`, and `Decode` for a complete line). It proves the
  round trips in both directions.
- `Engine`: the class `GameOfLife`, with fields over an `array3<bool>`. Each
  mutating operation is a method with a loop where the Java code has one. It
  is proved against the `Rules` and `Persistence` functions on the buffer
  snapshot `Buffer(b)`.
- `Patterns`: known patterns under `Step`. A grid whose live cells are a set
  of columns crossed with a set of rows has a neighbour count that factors
  into one count per axis. From that, the 2x2 block is still and the blinker
  has period 2, at every position of the torus.

## Model

| member | source | states |
|---|---|---|
| Rules.JavaRem | src/GameOfLife.java:148 | Java's remainder by 40: it is in [0, 40) for a non-negative dividend and in (-40, 0] for a negative one, and it is congruent to the dividend modulo 40 |
| Rules.JavaRemAgainstEuclidean | src/GameOfLife.java:148-150 | for every dividend, Java's remainder equals the Euclidean one, except on a negative dividend that 40 does not divide, where it is 40 less; at -1 that is -1 against 39, the case the fix-up `if (i == -1) i = 39` repairs |
| Rules.Wrap | src/GameOfLife.java:148-150 | a coordinate at most one cell off the grid is brought back into [0, 40); it is unchanged exactly when it was already on the grid |
| Rules.FixedUpRemainderIsToroidal | src/GameOfLife.java:148-150 | for a cell coordinate and an offset in {-1, 0, 1}, the engine's remainder plus fix-up equals the wrapped coordinate, and that equals the Euclidean (c + d) mod 40 |
| Rules.Alive | src/GameOfLife.java:151-153 | the amount a neighbour adds to the count is at most 1, and it is 1 exactly when the wrapped cell is alive in the current buffer |
| Rules.Neighbours | src/GameOfLife.java:142-156 | the neighbour count of a cell, the reference the step is proved against, is at most 8 |
| Rules.CountedNext | src/GameOfLife.java:145-153 | visiting offset (dx, dy) in the loops' order adds the wrapped neighbour's liveness to the count, except at (0, 0) |
| Rules.NeighboursAreTheEightAround | src/GameOfLife.java:142-156 | the count of the offset loops is the sum over the eight wrapped neighbours, and it is at most 8 |
| Rules.CornerSeesAcrossWrap | src/GameOfLife.java:145-156 | the neighbours of cell (0, 0) are (39,39), (39,0), (39,1), (0,39), (0,1), (1,39), (1,0) and (1,1), across both edges of the torus |
| Rules.NextCell | src/GameOfLife.java:159-167 | the engine's three-way decision is B3/S23: the next state is alive exactly when a live cell has 2 or 3 neighbours or a dead cell has exactly 3 |
| Rules.Step | src/GameOfLife.java:140-168 | every cell of the next generation is alive exactly when B3/S23 holds for that cell's toroidal neighbour count in the current one |
| Patterns.NeighboursOfProd | src/GameOfLife.java:142-156 | on a grid whose live cells are a set of columns crossed with a set of rows, the neighbour count plus the cell itself is the product of the two per-axis counts |
| Patterns.StepOfProdAt | src/GameOfLife.java:140-168 | a cell of the next generation of such a grid is the engine's decision on the per-axis counts |
| Patterns.BlockIsStill | src/GameOfLife.java:140-168 | the 2x2 block is unchanged by one generation, at every position of the torus, including across the edges |
| Patterns.BlinkerOscillates | src/GameOfLife.java:140-168 | the horizontal three-cell blinker becomes vertical after one generation and the vertical one horizontal, so it changes after one generation and returns after two, at every position |
| Rules.Toggle | src/GameOfLife.java:96 | exactly cell (x, y) flips and every other cell keeps its state |
| Rules.ToggleTwice | src/GameOfLife.java:122 | flipping the same cell twice restores the grid |
| Rules.Draw | src/GameOfLife.java:73 | a cell's draw makes it alive exactly when the draw is below the density divided by 100 |
| Rules.DrawAtExtremes | src/GameOfLife.java:73-74 | for a draw in [0, 1), a density of 100 or more always gives alive and one of 0 or less always gives dead |
| Persistence.CellChar | src/GameOfLife.java:212-215 | the character appended for a cell is '1' exactly when it is alive and '0' exactly when it is dead |
| Persistence.EncodeColumn | src/GameOfLife.java:211-216 | after y passes of the inner save loop, y characters have been appended for the column |
| Persistence.EncodeColumns | src/GameOfLife.java:210-217 | after n passes of the outer save loop, the string has n*40 characters |
| Persistence.EncodeColumnAt | src/GameOfLife.java:211-216 | character y of the characters that the inner save loop appends for a column is the character of cell y |
| Persistence.EncodeColumnsAt | src/GameOfLife.java:210-217 | after n columns, character x*40+y of the save string is the character of cell (x, y), for every x < n |
| Persistence.Encode | src/GameOfLife.java:209-217 | the save string has 1600 characters, and character x*40+y is '1' exactly when cell (x, y) is alive |
| Persistence.EncodedCharAt | src/GameOfLife.java:212-215 | character x*40+y of the save string is '1' for a live cell (x, y) and '0' for a dead one |
| Persistence.EncodeIsDigits | src/GameOfLife.java:212-215 | every character of the save string is '0' or '1' |
| Persistence.DecodeOver | src/GameOfLife.java:239-245 | after the load loop, cell (x, y) is alive exactly when character x*40+y is '1', for every index inside the line; any other character means dead; a cell past the end of a short line keeps its old value |
| Persistence.Decode | src/GameOfLife.java:242 | for a line of at least 1600 characters, cell (x, y) is alive exactly when character x*40+y is '1' |
| Persistence.ShortLineChangesBuffer | src/GameOfLife.java:240-242 | a load of a line shorter than 1600 characters that starts with '1' changes a buffer whose cell (0, 0) is dead, even though the load then fails |
| Persistence.DecodeOverComplete | src/GameOfLife.java:240-244 | a line of at least 1600 characters overwrites the whole buffer, so the earlier contents do not matter |
| Persistence.DecodeEncode | src/GameOfLife.java:239-245 | decoding the save string of a grid gives back that grid |
| Persistence.LoadAfterSave | src/GameOfLife.java:239-245 | the load loop that reads the save string of a buffer leaves that buffer as it was |
| Persistence.EncodeDecode | src/GameOfLife.java:209-217 | saving the decoding of a 1600-character string of '0' and '1' gives back that string |
| Engine.GameOfLife.constructor | src/GameOfLife.java:46-51 | every cell of both buffers is dead; buffer 0 is current; the game is not playing; prevX and prevY are -1, as the field initialisers at lines 15-24 set them |
| Engine.GameOfLife.CountNeighbours | src/GameOfLife.java:142-156 | the counting loops, with Java's remainder and the -1 to 39 fix-up, compute the toroidal neighbour count of the current buffer |
| Engine.GameOfLife.GenerateInto | src/GameOfLife.java:140-168 | the cell loops leave the current buffer as it was and write every cell of the other buffer with its next state |
| Engine.GameOfLife.GenerateCell | src/GameOfLife.java:142-167 | the body of the cell loops writes the next state of cell (x, y) into the other buffer and no other element of the array changes |
| Engine.GameOfLife.Generate | src/GameOfLife.java:140-168 | after the cell loops, the current buffer is unchanged and the other buffer is `Step` of it |
| Engine.GameOfLife.Tick | src/GameOfLife.java:139-171 | when playing: the buffer index alternates; the old buffer still holds the old generation; the new current buffer is its `Step`. When not playing, nothing changes. `playing` is not written |
| Engine.GameOfLife.Start | src/GameOfLife.java:81 | `playing` becomes true; it is the only operation that writes `playing`, so the flag only goes from false to true |
| Engine.GameOfLife.Click | src/GameOfLife.java:96-101 | the current buffer becomes its toggle at (x, y); the other buffer is unchanged; prevX and prevY are set to the cell |
| Engine.GameOfLife.Drag | src/GameOfLife.java:118-128 | when the cell differs from (prevX, prevY), the current buffer becomes its toggle at it; otherwise the array is unchanged. The other buffer is unchanged, and prevX and prevY are always set to the cell |
| Engine.GameOfLife.Randomize | src/GameOfLife.java:71-76 | every cell of the current buffer is alive exactly when its draw times 100 is below the density of 25; the other buffer is unchanged |
| Engine.GameOfLife.Save | src/GameOfLife.java:209-217 | the string the save loops build is `Encode` of the current buffer |
| Engine.GameOfLife.Load | src/GameOfLife.java:239-245 | a failed read changes nothing. A line leaves the current buffer as `DecodeOver` of the old buffer, and the result says whether `charAt` ran past the end, which happens exactly for lines shorter than 1600. The other buffer is untouched |
| Engine.GameOfLife.LoadChecked | src/GameOfLife.java:239-245 | the corrected load: it loads exactly when the line is present and has at least 1600 characters, and then the current buffer is `Decode` of it; otherwise the array is unchanged. The other buffer is untouched |
| Engine.SaveThenLoad | src/GameOfLife.java:209-245 | saving, then loading the saved string with the program's own load loop, leaves the current buffer as it was, and the loop never runs past the end of the line |
| Engine.SaveThenLoadChecked | src/GameOfLife.java:209-245 | the same round trip through the corrected load: the saved line is accepted and the current buffer is left as it was |
| Engine.DragTwice | src/GameOfLife.java:120-128 | two drag events over the same cell flip it once if the pointer arrived from another cell, and not at all otherwise |

## Left out

- The Swing window, painting and the buttons' layout (lines 178-287), and
  the hit-tests that pick which button was pressed (lines 66-70, 80, 85, 90).
  These are user interface and hold no state of the engine. The model's
  operations are what each button does.
- The division of pixel coordinates by 20 into cell coordinates
  (lines 62-63, 118-119). Click and Drag take cell coordinates and require
  them to be on the grid. A drag that leaves the window can give a cell off
  the grid. Java's division truncates toward zero, so pixels -19 to -1 still
  give cell 0. Pixels further out give a cell outside [0, 40), and line 122
  then throws `ArrayIndexOutOfBoundsException` before `prevX` and `prevY`
  are updated. The model leaves that case out.
- The animation thread, its `Thread.sleep(200)` and the repaint requests.
  `Tick` is one pass of the loop body. The race between that thread and the
  mouse handlers, which share the array without locking, is concurrency, and
  it is not modelled.
- File I/O for save and load. `Save` returns the string that would be
  written. `Load` takes the line read, or `None` where `readLine` or opening
  the file failed. The ignored `IOException` of the writer is not modelled.
- `Math.random()`: `Randomize` takes one real sample per cell in its place.
  Floating-point rounding of `Math.random()*100` is modelled as exact real
  arithmetic.
- Rules.Step: the glider is not proved to move by one cell diagonally every
  four generations. That follows from the per-cell contract of `Step`, but
  it is not stated as a lemma; the still block and the period-2 blinker are.
- `main` and the constructor's window setup (lines 27-44, 54-57, 289-291).
- Engine.GameOfLife.Load: the `StringIndexOutOfBoundsException` that the
  Java loop throws on a short line is modelled as the result `outOfBounds`
  returned at the faulting index. What the exception does to the mouse
  handler thread is not modelled.
- Engine.GameOfLife.Load: the line read is a Dafny string, a sequence of
  Unicode scalar values, while Java's `charAt` and `length` count UTF-16
  code units. A line with characters outside the Basic Multilingual Plane
  therefore has a different length and different characters at index
  x*40+y in the model than in Java: a leading emoji followed by 1598 '1's
  loads in Java but is reported as too short here. The same holds for
  `LoadChecked`, `DecodeOver` and `Decode`.

## Findings

| source | as written | input that shows it | evidently intended | confidence | as-written member | corrected member |
|---|---|---|---|---|---|---|
| src/GameOfLife.java:240-242 | the load loop calls `savedState.charAt(x * 40 + y)` without checking the line's length | a `save.txt` whose first line is `1`: cell (0, 0) becomes alive, then `charAt(1)` throws and the buffer stays half-loaded | a line shorter than 1600 characters is rejected before any cell is written, and the grid is left as it was | not executed; high, from reading the loop | Persistence.ShortLineChangesBuffer | Engine.GameOfLife.LoadChecked |
