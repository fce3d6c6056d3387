/** The engine object of the game: the double-buffered 40x40x2 boolean array,
    the index of the current buffer, the playing flag and the cell of the last
    mouse event, with the operations that change them in place. */
module Engine {
  import opened Wrappers
  import opened Rules
  import opened Persistence

  class GameOfLife {
    /** gameState[x, y, b] is cell (x, y) of buffer b. */
    var gameState: array3<bool>
    /** The current buffer: the one shown, edited, saved and read by a step. */
    var buffer: int
    /** Whether the animation loop advances generations. */
    var playing: bool
    /** The cell of the last click or drag, (-1, -1) before the first one. */
    var prevX: int
    var prevY: int
    /** Density of the Random button, in percent; the engine never changes it. */
    const percentageAlive: int := 25

    ghost predicate Valid()
      reads this
    {
      gameState.Length0 == 40 && gameState.Length1 == 40 && gameState.Length2 == 2
      && 0 <= buffer < 2
    }

    /** Buffer b as a grid value. */
    ghost function Buffer(b: int): (g: Grid)
      reads this, gameState
      requires Valid() && 0 <= b < 2
      ensures IsGrid(g)
      ensures forall x, y :: 0 <= x < 40 && 0 <= y < 40 ==> g[x][y] == gameState[x, y, b]
    {
      var a := gameState;
      seq(40, x requires 0 <= x < 40 reads a =>
        seq(40, y requires 0 <= y < 40 reads a => a[x, y, b]))
    }

    /** The current buffer as a grid value. */
    ghost function Current(): (g: Grid)
      reads this, gameState
      requires Valid()
      ensures IsGrid(g)
    {
      Buffer(buffer)
    }

    /** A new engine: both buffers dead, buffer 0 current, not playing, and no
        mouse event seen yet. */
    constructor ()
      ensures Valid() && fresh(gameState)
      ensures buffer == 0 && !playing && prevX == -1 && prevY == -1
      ensures forall x, y, b :: 0 <= x < 40 && 0 <= y < 40 && 0 <= b < 2 ==> !gameState[x, y, b]
    {
      var a := new bool[40, 40, 2];
      for x := 0 to 40
        invariant forall i, j, b :: 0 <= i < x && 0 <= j < 40 && 0 <= b < 2 ==> !a[i, j, b]
      {
        for y := 0 to 40
          invariant forall i, j, b :: 0 <= i < x && 0 <= j < 40 && 0 <= b < 2 ==> !a[i, j, b]
          invariant forall j, b :: 0 <= j < y && 0 <= b < 2 ==> !a[x, j, b]
        {
          a[x, y, 0] := false;
          a[x, y, 1] := false;
        }
      }
      gameState := a;
      buffer := 0;
      playing := false;
      prevX, prevY := -1, -1;
    }

    /** The counting loops of the step for cell (x, y): they visit the nine
        offsets, skip (0, 0), and wrap each coordinate with Java's remainder
        followed by the fix-up of -1 to 39. */
    method CountNeighbours(ghost g: Grid, x: int, y: int) returns (counter: int)
      requires Valid() && 0 <= x < 40 && 0 <= y < 40
      requires IsGrid(g) && forall i, j {:trigger gameState[i, j, buffer]} :: 0 <= i < 40 && 0 <= j < 40 ==> gameState[i, j, buffer] == g[i][j]
      ensures counter == Neighbours(g, x, y)
    {
      counter := 0;
      for xx := -1 to 2
        invariant counter == Counted(g, x, y, 3 * (xx + 1))
      {
        for yy := -1 to 2
          invariant counter == Counted(g, x, y, 3 * (xx + 1) + (yy + 1))
        {
          CountedNext(g, x, y, xx, yy);
          if xx != 0 || yy != 0 {
            var i, j := JavaRem(x + xx), JavaRem(y + yy);
            if i == -1 { i := 39; }
            if j == -1 { j := 39; }
            FixedUpRemainderIsToroidal(x, xx);
            FixedUpRemainderIsToroidal(y, yy);
            assert Alive(g, x + xx, y + yy) == if gameState[i, j, buffer] then 1 else 0;
            if gameState[i, j, buffer] {
              counter := counter + 1;
            }
          }
        }
      }
    }

    /** The double loop of the step: every cell of the other buffer receives
        the next generation of the current one, which is only read. */
    method Generate()
      requires Valid()
      modifies gameState
      ensures Valid()
      ensures Buffer(buffer) == old(Buffer(buffer))
      ensures Buffer(1 - buffer) == Step(old(Buffer(buffer)))
    {
      ghost var g := Current();
      var next := (buffer + 1) % 2;
      GenerateInto(g, Step(g), next);
      GridExt(Current(), g);
      GridExt(Buffer(next), Step(g));
    }

    /** The loops of the step over the cells, writing into buffer `next` the
        grid `stepped`, which holds the next state of every cell of `g`. */
    method GenerateInto(ghost g: Grid, ghost stepped: Grid, next: int)
      requires Valid() && IsGrid(g) && IsGrid(stepped) && 0 <= next < 2 && next != buffer
      requires forall i, j {:trigger gameState[i, j, buffer]} :: 0 <= i < 40 && 0 <= j < 40 ==> gameState[i, j, buffer] == g[i][j]
      requires forall i, j {:trigger Neighbours(g, i, j)} :: 0 <= i < 40 && 0 <= j < 40 ==>
        stepped[i][j] == NextCell(g[i][j], Neighbours(g, i, j))
      modifies gameState
      ensures forall i, j :: 0 <= i < 40 && 0 <= j < 40 ==> gameState[i, j, buffer] == g[i][j]
      ensures forall i, j :: 0 <= i < 40 && 0 <= j < 40 ==> gameState[i, j, next] == stepped[i][j]
    {
      for x := 0 to 40
        invariant forall i, j {:trigger gameState[i, j, buffer]} :: 0 <= i < 40 && 0 <= j < 40 ==> gameState[i, j, buffer] == g[i][j]
        invariant forall i, j :: 0 <= i < x && 0 <= j < 40 ==> gameState[i, j, next] == stepped[i][j]
      {
        for y := 0 to 40
          invariant forall i, j {:trigger gameState[i, j, buffer]} :: 0 <= i < 40 && 0 <= j < 40 ==> gameState[i, j, buffer] == g[i][j]
          invariant forall i, j :: 0 <= i < x && 0 <= j < 40 ==> gameState[i, j, next] == stepped[i][j]
          invariant forall j :: 0 <= j < y ==> gameState[x, j, next] == stepped[x][j]
        {
          GenerateCell(g, stepped, x, y, next);
        }
      }
    }

    /** The body of the cell loops for cell (x, y): count its neighbours in the
        current buffer and write its next state into buffer `next`. No other
        element of the array changes. The fact about `stepped` is used only
        where a neighbour count occurs. */
    method GenerateCell(ghost g: Grid, ghost stepped: Grid, x: int, y: int, next: int)
      requires Valid() && IsGrid(g) && IsGrid(stepped) && 0 <= next < 2 && next != buffer
      requires 0 <= x < 40 && 0 <= y < 40
      requires forall i, j {:trigger gameState[i, j, buffer]} :: 0 <= i < 40 && 0 <= j < 40 ==> gameState[i, j, buffer] == g[i][j]
      requires forall i, j {:trigger Neighbours(g, i, j)} :: 0 <= i < 40 && 0 <= j < 40 ==>
        stepped[i][j] == NextCell(g[i][j], Neighbours(g, i, j))
      modifies gameState
      ensures gameState[x, y, next] == stepped[x][y]
      ensures forall i, j, b {:trigger gameState[i, j, b]} :: 0 <= i < 40 && 0 <= j < 40 && 0 <= b < 2 && (i != x || j != y || b != next) ==>
        gameState[i, j, b] == old(gameState[i, j, b])
    {
      var counter := CountNeighbours(g, x, y);
      assert stepped[x][y] == NextCell(gameState[x, y, buffer], counter);
      if gameState[x, y, buffer] && (counter < 2 || counter > 3) {
        gameState[x, y, next] := false;
      } else if !gameState[x, y, buffer] && counter == 3 {
        gameState[x, y, next] := true;
      } else {
        gameState[x, y, next] := gameState[x, y, buffer];
      }
    }

    /** One pass of the animation loop, without the sleep and the repaint:
        when playing, one generation and then the buffer flip. */
    method Tick()
      requires Valid()
      modifies gameState, this`buffer
      ensures Valid()
      ensures old(playing) ==> buffer == (old(buffer) + 1) % 2
      ensures old(playing) ==> Buffer(old(buffer)) == old(Current())
      ensures old(playing) ==> Current() == Step(old(Current()))
      ensures !old(playing) ==> buffer == old(buffer) && unchanged(gameState)
    {
      if playing {
        Generate();
        buffer := (buffer + 1) % 2;
      }
    }

    /** The Start button. Nothing else assigns `playing`. */
    method Start()
      requires Valid()
      modifies this`playing
      ensures Valid() && playing
    {
      playing := true;
    }

    /** A click on the grid: cell (x, y) of the current buffer flips. */
    method Click(x: int, y: int)
      requires Valid() && 0 <= x < 40 && 0 <= y < 40
      modifies gameState, this`prevX, this`prevY
      ensures Valid()
      ensures Current() == Toggle(old(Current()), x, y)
      ensures Buffer(1 - buffer) == old(Buffer(1 - buffer))
      ensures prevX == x && prevY == y
    {
      ghost var g, other := Current(), Buffer(1 - buffer);
      gameState[x, y, buffer] := !gameState[x, y, buffer];
      prevX := x;
      prevY := y;
      GridExt(Current(), Toggle(g, x, y));
      GridExt(Buffer(1 - buffer), other);
    }

    /** A drag event over cell (x, y): the cell flips only when the pointer has
        moved to another cell since the last click or drag. */
    method Drag(x: int, y: int)
      requires Valid() && 0 <= x < 40 && 0 <= y < 40
      modifies gameState, this`prevX, this`prevY
      ensures Valid()
      ensures (x != old(prevX) || y != old(prevY)) ==> Current() == Toggle(old(Current()), x, y)
      ensures (x == old(prevX) && y == old(prevY)) ==> unchanged(gameState)
      ensures Buffer(1 - buffer) == old(Buffer(1 - buffer))
      ensures prevX == x && prevY == y
    {
      ghost var g, other := Current(), Buffer(1 - buffer);
      if x != prevX || y != prevY {
        gameState[x, y, buffer] := !gameState[x, y, buffer];
        GridExt(Current(), Toggle(g, x, y));
      }
      prevX := x;
      prevY := y;
      GridExt(Buffer(1 - buffer), other);
    }

    /** The Random button: each cell of the current buffer becomes alive when
        its draw passes the density test; samples[x][y] stands for the value
        Math.random() returns for cell (x, y). */
    method Randomize(samples: seq<seq<real>>)
      requires Valid() && IsGrid(samples)
      modifies gameState
      ensures Valid()
      ensures forall x, y :: 0 <= x < 40 && 0 <= y < 40 ==>
        gameState[x, y, buffer] == Draw(samples[x][y], percentageAlive)
      ensures Buffer(1 - buffer) == old(Buffer(1 - buffer))
    {
      ghost var other := Buffer(1 - buffer);
      for x := 0 to 40
        invariant forall i, j :: 0 <= i < 40 && 0 <= j < 40 ==>
          gameState[i, j, 1 - buffer] == other[i][j]
        invariant forall i, j :: 0 <= i < x && 0 <= j < 40 ==>
          gameState[i, j, buffer] == Draw(samples[i][j], percentageAlive)
      {
        for y := 0 to 40
          invariant forall i, j :: 0 <= i < 40 && 0 <= j < 40 ==>
            gameState[i, j, 1 - buffer] == other[i][j]
          invariant forall i, j :: 0 <= i < x && 0 <= j < 40 ==>
            gameState[i, j, buffer] == Draw(samples[i][j], percentageAlive)
          invariant forall j :: 0 <= j < y ==>
            gameState[x, j, buffer] == Draw(samples[x][j], percentageAlive)
        {
          if samples[x][y] * 100.0 < percentageAlive as real {
            gameState[x, y, buffer] := true;
          } else {
            gameState[x, y, buffer] := false;
          }
        }
      }
      GridExt(Buffer(1 - buffer), other);
    }

    /** The string of the Save button, before it is written to the file. */
    method Save() returns (savedState: string)
      requires Valid()
      ensures savedState == Encode(Current())
    {
      ghost var g := Current();
      savedState := "";
      for x := 0 to 40
        invariant savedState == EncodeColumns(g, x)
      {
        ghost var done := savedState;
        for y := 0 to 40
          invariant savedState == done + EncodeColumn(g[x], y)
        {
          ghost var before := savedState;
          if gameState[x, y, buffer] {
            savedState := savedState + "1";
          } else {
            savedState := savedState + "0";
          }
          assert savedState == before + [CellChar(g[x][y])];
          assert done + EncodeColumn(g[x], y + 1) == done + EncodeColumn(g[x], y) + [CellChar(g[x][y])];
        }
        assert EncodeColumns(g, x + 1) == done + EncodeColumn(g[x], 40);
      }
    }

    /** The Load button after the file was read: savedState is the line read,
        None when reading failed. The result is true when charAt ran past the
        end of a short line, the point where the Java code throws after having
        written every cell before it. */
    method Load(savedState: Option<string>) returns (outOfBounds: bool)
      requires Valid()
      modifies gameState
      ensures Valid()
      ensures savedState.None? ==> !outOfBounds && unchanged(gameState)
      ensures savedState.Some? ==> outOfBounds == (|savedState.value| < 1600)
      ensures savedState.Some? ==> Current() == DecodeOver(old(Current()), savedState.value)
      ensures Buffer(1 - buffer) == old(Buffer(1 - buffer))
    {
      outOfBounds := false;
      ghost var g, other := Current(), Buffer(1 - buffer);
      if savedState.Some? {
        var s := savedState.value;
        for x := 0 to 40
          invariant x * 40 <= |s|
          invariant forall i, j :: 0 <= i < 40 && 0 <= j < 40 ==>
            gameState[i, j, 1 - buffer] == other[i][j]
          invariant forall i, j :: 0 <= i < 40 && 0 <= j < 40 ==>
            gameState[i, j, buffer] == if i * 40 + j < x * 40 then s[i * 40 + j] == '1' else g[i][j]
        {
          for y := 0 to 40
            invariant x * 40 + y <= |s|
            invariant forall i, j :: 0 <= i < 40 && 0 <= j < 40 ==>
              gameState[i, j, 1 - buffer] == other[i][j]
            invariant forall i, j :: 0 <= i < 40 && 0 <= j < 40 ==>
              gameState[i, j, buffer] == if i * 40 + j < x * 40 + y then s[i * 40 + j] == '1' else g[i][j]
          {
            if x * 40 + y >= |s| {
              outOfBounds := true;
              GridExt(Current(), DecodeOver(g, s));
              GridExt(Buffer(1 - buffer), other);
              return;
            }
            gameState[x, y, buffer] := s[x * 40 + y] == '1';
          }
        }
        GridExt(Current(), DecodeOver(g, s));
      }
      GridExt(Buffer(1 - buffer), other);
    }

    /** The load as intended: a line shorter than 1600 characters is
        rejected before any cell is written, so that, like a failed read, it
        leaves the grid as it was; a complete line replaces the current buffer
        by its decoding. */
    method LoadChecked(savedState: Option<string>) returns (loaded: bool)
      requires Valid()
      modifies gameState
      ensures Valid()
      ensures loaded <==> savedState.Some? && |savedState.value| >= 1600
      ensures loaded ==> Current() == Decode(savedState.value)
      ensures !loaded ==> unchanged(gameState)
      ensures Buffer(1 - buffer) == old(Buffer(1 - buffer))
    {
      loaded := savedState.Some? && |savedState.value| >= 1600;
      if loaded {
        ghost var g := Current();
        var outOfBounds := Load(savedState);
        DecodeOverComplete(g, savedState.value);
      }
    }
  }

  /** Saving and then loading the saved string, with the program's own load
      loop, gives back the current buffer, and the loop does not run past the
      end of the line. */
  method SaveThenLoad(game: GameOfLife) returns (outOfBounds: bool)
    requires game.Valid()
    modifies game.gameState
    ensures game.Valid() && game.Current() == old(game.Current())
    ensures !outOfBounds
  {
    ghost var g := game.Current();
    var s := game.Save();
    ghost var saved := game.Current();
    LoadAfterSave(saved);
    outOfBounds := game.Load(Some(s));
    assert game.Current() == saved;
    forall x, y | 0 <= x < 40 && 0 <= y < 40
      ensures saved[x][y] == g[x][y]
    {
      assert saved[x][y] == game.gameState[x, y, game.buffer];
    }
    GridExt(saved, g);
  }

  /** The same round trip through the corrected load: the saved string is
      accepted and gives back the current buffer. */
  method SaveThenLoadChecked(game: GameOfLife) returns (loaded: bool)
    requires game.Valid()
    modifies game.gameState
    ensures game.Valid() && game.Current() == old(game.Current())
    ensures loaded
  {
    ghost var g := game.Current();
    var s := game.Save();
    ghost var saved := game.Current();
    DecodeEncode(saved);
    loaded := game.LoadChecked(Some(s));
    assert game.Current() == saved;
    forall x, y | 0 <= x < 40 && 0 <= y < 40
      ensures saved[x][y] == g[x][y]
    {
      assert saved[x][y] == game.gameState[x, y, game.buffer];
    }
    GridExt(saved, g);
  }

  /** Two drag events over the same cell flip it at most once. */
  method DragTwice(game: GameOfLife, x: int, y: int)
    requires game.Valid() && 0 <= x < 40 && 0 <= y < 40
    modifies game.gameState, game`prevX, game`prevY
    ensures game.Valid()
    ensures (x != old(game.prevX) || y != old(game.prevY)) ==> game.Current() == Toggle(old(game.Current()), x, y)
    ensures (x == old(game.prevX) && y == old(game.prevY)) ==> game.Current() == old(game.Current())
  {
    game.Drag(x, y);
    game.Drag(x, y);
  }
}
