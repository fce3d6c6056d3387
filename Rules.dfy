/** The cellular-automaton rule of the engine, on values: the 40x40 toroidal
    grid, Java's remainder operator, the neighbour count and the B3/S23
    transition, plus the value-level effect of the editing operations. */
module Rules {

  /** One buffer of the grid as a value: g[x][y] is the cell in column x, row y. */
  type Grid = seq<seq<bool>>

  /** m has 40 columns of 40 cells each. */
  predicate IsGrid<T>(m: seq<seq<T>>)
  {
    |m| == 40 && forall x :: 0 <= x < 40 ==> |m[x]| == 40
  }

  /** Two grids that agree on every cell are the same grid. */
  lemma GridExt(a: Grid, b: Grid)
    requires IsGrid(a) && IsGrid(b)
    requires forall x, y :: 0 <= x < 40 && 0 <= y < 40 ==> a[x][y] == b[x][y]
    ensures a == b
  {
    forall x | 0 <= x < 40
      ensures a[x] == b[x]
    {
      assert |a[x]| == |b[x]|;
    }
  }

  // ---------------------------------------------------------------------
  // Toroidal addressing

  /** Java's `a % 40` on int: Java's division truncates toward zero, so the
      remainder takes the sign of the dividend (Dafny's `%` never goes
      negative). Only the divisor 40 occurs in the engine's neighbour loops. */
  function JavaRem(a: int): (r: int)
    ensures a >= 0 ==> 0 <= r < 40
    ensures a < 0 ==> -40 < r <= 0
    ensures (a - r) % 40 == 0
  {
    if a >= 0 then a % 40 else -((-a) % 40)
  }

  /** Java's remainder against Dafny's Euclidean one, for every dividend: they
      differ exactly on negative dividends that 40 does not divide, by 40. At
      -1, the case the engine's fix-up repairs, Java gives -1 where the
      Euclidean remainder is 39. */
  lemma JavaRemAgainstEuclidean(a: int)
    ensures JavaRem(a) == if a < 0 && a % 40 != 0 then a % 40 - 40 else a % 40
    ensures JavaRem(-1) == -1 && (-1) % 40 == 39
  {
  }

  /** A coordinate at most one cell off the grid, taken back onto the torus:
      on-grid coordinates stay, -1 becomes 39 and 40 becomes 0. */
  function Wrap(c: int): (r: int)
    requires -1 <= c <= 40
    ensures 0 <= r < 40
    ensures r == c <==> 0 <= c < 40
  {
    if c < 0 then c + 40 else if c >= 40 then c - 40 else c
  }

  /** The neighbour coordinate as the engine computes it, Java's remainder
      followed by the fix-up of -1 to 39, is the wrapped coordinate, which is
      the Euclidean (c + d) mod 40. */
  lemma FixedUpRemainderIsToroidal(c: int, d: int)
    requires 0 <= c < 40 && -1 <= d <= 1
    ensures var i := JavaRem(c + d);
      (if i == -1 then 39 else i) == Wrap(c + d)
    ensures Wrap(c + d) == (c + d) % 40
  {
    if c + d == -1 {
      assert JavaRem(c + d) == -1;
    } else {
      assert 0 <= c + d <= 40;
    }
  }

  // ---------------------------------------------------------------------
  // Neighbour count

  /** 1 when the cell at (i, j), wrapped onto the torus, is alive, else 0. */
  function Alive(g: Grid, i: int, j: int): (r: nat)
    requires IsGrid(g) && -1 <= i <= 40 && -1 <= j <= 40
    ensures r <= 1
    ensures r == 1 <==> g[Wrap(i)][Wrap(j)]
  {
    if g[Wrap(i)][Wrap(j)] then 1 else 0
  }

  /** Live cells among the first k of the nine offsets (dx, dy) in {-1,0,1}^2,
      taken dx-major as the engine's two offset loops visit them; offset
      number 4 is (0, 0), the cell itself, which is not counted. */
  function Counted(g: Grid, x: int, y: int, k: int): (r: nat)
    requires IsGrid(g) && 0 <= x < 40 && 0 <= y < 40 && 0 <= k <= 9
    decreases k
  {
    if k == 0 then 0
    else
      Counted(g, x, y, k - 1)
      + (if k - 1 == 4 then 0 else Alive(g, x + (k - 1) / 3 - 1, y + (k - 1) % 3 - 1))
  }

  /** The number of live cells among the eight toroidal neighbours of (x, y). */
  function Neighbours(g: Grid, x: int, y: int): (n: nat)
    requires IsGrid(g) && 0 <= x < 40 && 0 <= y < 40
    ensures n <= 8
  {
    Counted(g, x, y, 9)
  }

  /** Visiting offset (dx, dy) adds that neighbour, unless it is the centre. */
  lemma {:induction false} CountedNext(g: Grid, x: int, y: int, dx: int, dy: int)
    requires IsGrid(g) && 0 <= x < 40 && 0 <= y < 40 && -1 <= dx <= 1 && -1 <= dy <= 1
    ensures Counted(g, x, y, 3 * (dx + 1) + (dy + 1) + 1)
      == Counted(g, x, y, 3 * (dx + 1) + (dy + 1)) + (if dx == 0 && dy == 0 then 0 else Alive(g, x + dx, y + dy))
  {
    var k := 3 * (dx + 1) + (dy + 1);
    assert k / 3 - 1 == dx && k % 3 - 1 == dy;
  }

  /** The neighbour count is the sum over the eight cells around (x, y), each
      coordinate wrapped onto the torus; it is at most 8. */
  lemma {:induction false} NeighboursAreTheEightAround(g: Grid, x: int, y: int)
    requires IsGrid(g) && 0 <= x < 40 && 0 <= y < 40
    ensures Neighbours(g, x, y) ==
      Alive(g, x - 1, y - 1) + Alive(g, x - 1, y) + Alive(g, x - 1, y + 1)
      + Alive(g, x, y - 1) + Alive(g, x, y + 1)
      + Alive(g, x + 1, y - 1) + Alive(g, x + 1, y) + Alive(g, x + 1, y + 1)
    ensures Neighbours(g, x, y) <= 8
  {
    assert Counted(g, x, y, 3) == Alive(g, x - 1, y - 1) + Alive(g, x - 1, y) + Alive(g, x - 1, y + 1);
    assert Counted(g, x, y, 6) == Counted(g, x, y, 3) + Alive(g, x, y - 1) + Alive(g, x, y + 1);
    assert Counted(g, x, y, 9) == Counted(g, x, y, 6) + Alive(g, x + 1, y - 1) + Alive(g, x + 1, y) + Alive(g, x + 1, y + 1);
  }

  /** The grid has no edges: cell (0, 0) sees (39, 39), (39, 0), (39, 1),
      (0, 39), (0, 1), (1, 39), (1, 0) and (1, 1). */
  lemma {:induction false} CornerSeesAcrossWrap(g: Grid)
    requires IsGrid(g)
    ensures Neighbours(g, 0, 0) ==
      (if g[39][39] then 1 else 0) + (if g[39][0] then 1 else 0)
      + (if g[39][1] then 1 else 0) + (if g[0][39] then 1 else 0)
      + (if g[0][1] then 1 else 0) + (if g[1][39] then 1 else 0)
      + (if g[1][0] then 1 else 0) + (if g[1][1] then 1 else 0)
  {
    NeighboursAreTheEightAround(g, 0, 0);
  }

  // ---------------------------------------------------------------------
  // Transition rule

  /** The engine's decision for one cell, in its own order of tests; it is
      Conway's B3/S23 rule. */
  function NextCell(alive: bool, n: int): (r: bool)
    ensures r <==> (alive && (n == 2 || n == 3)) || (!alive && n == 3)
  {
    if alive && (n < 2 || n > 3) then false
    else if !alive && n == 3 then true
    else alive
  }

  /** One generation: every cell of the result follows B3/S23 on the
      neighbour counts of g. */
  function Step(g: Grid): (r: Grid)
    requires IsGrid(g)
    ensures IsGrid(r)
    ensures forall x, y {:trigger r[x][y]} :: 0 <= x < 40 && 0 <= y < 40 ==>
      (r[x][y] <==> (g[x][y] && (Neighbours(g, x, y) == 2 || Neighbours(g, x, y) == 3))
                    || (!g[x][y] && Neighbours(g, x, y) == 3))
  {
    seq(40, x requires 0 <= x < 40 =>
      seq(40, y requires 0 <= y < 40 => NextCell(g[x][y], Neighbours(g, x, y))))
  }

  // ---------------------------------------------------------------------
  // Editing

  /** g with exactly the cell (x, y) flipped. */
  function Toggle(g: Grid, x: int, y: int): (r: Grid)
    requires IsGrid(g) && 0 <= x < 40 && 0 <= y < 40
    ensures IsGrid(r)
    ensures r[x][y] == !g[x][y]
    ensures forall i, j :: 0 <= i < 40 && 0 <= j < 40 && (i != x || j != y) ==> r[i][j] == g[i][j]
  {
    g[x := g[x][y := !g[x][y]]]
  }

  /** Toggling the same cell twice restores the grid. */
  lemma ToggleTwice(g: Grid, x: int, y: int)
    requires IsGrid(g) && 0 <= x < 40 && 0 <= y < 40
    ensures Toggle(Toggle(g, x, y), x, y) == g
  {
    GridExt(Toggle(Toggle(g, x, y), x, y), g);
  }

  /** Whether `Math.random()*100 < percentageAlive` holds for a draw `sample`
      taken in [0, 1). */
  function Draw(sample: real, percent: int): (r: bool)
    ensures r <==> sample < percent as real / 100.0
  {
    sample * 100.0 < percent as real
  }

  /** A density of 100 or more makes every draw alive, one of 0 or less
      makes every draw dead. */
  lemma DrawAtExtremes(sample: real, percent: int)
    requires 0.0 <= sample < 1.0
    ensures percent >= 100 ==> Draw(sample, percent)
    ensures percent <= 0 ==> !Draw(sample, percent)
  {
  }
}
