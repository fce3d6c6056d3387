/** Known patterns under the step: the 2x2 block is a still life and the
    three-cell blinker has period 2, wherever they sit on the torus. Both are
    products of a set of columns and a set of rows, whose neighbour counts
    factor into one count per axis. */
module Patterns {
  import opened Rules

  /** The grid whose live cells are the columns marked in p crossed with the
      rows marked in q. */
  function Prod(p: seq<bool>, q: seq<bool>): (g: Grid)
    requires |p| == 40 && |q| == 40
    ensures IsGrid(g)
  {
    seq(40, x requires 0 <= x < 40 => seq(40, y requires 0 <= y < 40 => p[x] && q[y]))
  }

  /** How many of the coordinates x - 1, x and x + 1, wrapped, are marked in p. */
  function Around(p: seq<bool>, x: int): nat
    requires |p| == 40 && 0 <= x < 40
  {
    (if p[Wrap(x - 1)] then 1 else 0) + (if p[x] then 1 else 0) + (if p[Wrap(x + 1)] then 1 else 0)
  }

  /** Multiplying out the product of two three-term sums. */
  lemma Distribute(l: int, c: int, r: int, d: int, e: int, u: int)
    ensures (l + c + r) * (d + e + u)
      == l * d + l * e + l * u + c * d + c * e + c * u + r * d + r * e + r * u
  {
  }

  /** On a product grid, the eight wrapped neighbours and the cell itself add
      up to the product of the two per-axis counts. */
  lemma {:induction false} EightOfProd(p: seq<bool>, q: seq<bool>, x: int, y: int)
    requires |p| == 40 && |q| == 40 && 0 <= x < 40 && 0 <= y < 40
    ensures var g := Prod(p, q);
      Alive(g, x - 1, y - 1) + Alive(g, x - 1, y) + Alive(g, x - 1, y + 1)
      + Alive(g, x, y - 1) + Alive(g, x, y + 1)
      + Alive(g, x + 1, y - 1) + Alive(g, x + 1, y) + Alive(g, x + 1, y + 1)
      + (if p[x] && q[y] then 1 else 0)
      == Around(p, x) * Around(q, y)
  {
    var g := Prod(p, q);
    var l, c, r := (if p[Wrap(x - 1)] then 1 else 0), (if p[x] then 1 else 0), (if p[Wrap(x + 1)] then 1 else 0);
    var d, e, u := (if q[Wrap(y - 1)] then 1 else 0), (if q[y] then 1 else 0), (if q[Wrap(y + 1)] then 1 else 0);
    Distribute(l, c, r, d, e, u);
    assert Wrap(x) == x && Wrap(y) == y;
    assert Alive(g, x - 1, y - 1) == l * d;
    assert Alive(g, x - 1, y) == l * e;
    assert Alive(g, x - 1, y + 1) == l * u;
    assert Alive(g, x, y - 1) == c * d;
    assert Alive(g, x, y + 1) == c * u;
    assert Alive(g, x + 1, y - 1) == r * d;
    assert Alive(g, x + 1, y) == r * e;
    assert Alive(g, x + 1, y + 1) == r * u;
    assert (if p[x] && q[y] then 1 else 0) == c * e;
  }

  /** The neighbour count of a product grid, plus the cell itself, is the
      product of the two per-axis counts. */
  lemma {:induction false} NeighboursOfProd(p: seq<bool>, q: seq<bool>, x: int, y: int)
    requires |p| == 40 && |q| == 40 && 0 <= x < 40 && 0 <= y < 40
    ensures Neighbours(Prod(p, q), x, y) + (if p[x] && q[y] then 1 else 0) == Around(p, x) * Around(q, y)
  {
    NeighboursAreTheEightAround(Prod(p, q), x, y);
    EightOfProd(p, q, x, y);
  }

  /** The two coordinates a and a + 1, wrapped. */
  function Pair(a: int): (p: seq<bool>)
    requires 0 <= a < 40
    ensures |p| == 40
  {
    seq(40, x => x == a || x == Wrap(a + 1))
  }

  /** The single coordinate a. */
  function Single(a: int): (p: seq<bool>)
    requires 0 <= a < 40
    ensures |p| == 40
  {
    seq(40, x => x == a)
  }

  /** The three coordinates a - 1, a and a + 1, wrapped. */
  function Line(a: int): (p: seq<bool>)
    requires 0 <= a < 40
    ensures |p| == 40
  {
    seq(40, x => x == Wrap(a - 1) || x == a || x == Wrap(a + 1))
  }

  /** How far x lies past a, going round the torus. */
  function Offset(x: int, a: int): (d: int)
    requires 0 <= x < 40 && 0 <= a < 40
    ensures 0 <= d < 40
  {
    if x >= a then x - a else x - a + 40
  }

  /** The coordinates a, a + 1 and a - 1 are at offsets 0, 1 and 39 from a,
      and a step of one cell changes the offset by one, round the torus. */
  lemma {:induction false} OffsetFacts(a: int, x: int)
    requires 0 <= a < 40 && 0 <= x < 40
    ensures x == a <==> Offset(x, a) == 0
    ensures x == Wrap(a + 1) <==> Offset(x, a) == 1
    ensures x == Wrap(a - 1) <==> Offset(x, a) == 39
    ensures Offset(Wrap(x - 1), a) == if Offset(x, a) == 0 then 39 else Offset(x, a) - 1
    ensures Offset(Wrap(x + 1), a) == if Offset(x, a) == 39 then 0 else Offset(x, a) + 1
  {
  }

  /** A coordinate of a pair sees both of its coordinates; any other one sees
      at most one. */
  lemma {:induction false} AroundPair(a: int, x: int)
    requires 0 <= a < 40 && 0 <= x < 40
    ensures Pair(a)[x] ==> Around(Pair(a), x) == 2
    ensures !Pair(a)[x] ==> Around(Pair(a), x) <= 1
  {
    OffsetFacts(a, x);
    OffsetFacts(a, Wrap(x - 1));
    OffsetFacts(a, Wrap(x + 1));
  }

  /** A single coordinate is seen from itself and from its two neighbours. */
  lemma {:induction false} AroundSingle(a: int, x: int)
    requires 0 <= a < 40 && 0 <= x < 40
    ensures Around(Single(a), x) == if Line(a)[x] then 1 else 0
  {
    OffsetFacts(a, x);
    OffsetFacts(a, Wrap(x - 1));
    OffsetFacts(a, Wrap(x + 1));
  }

  /** The middle of a line sees three of its coordinates, its ends see two, and
      a coordinate off the line sees at most one. */
  lemma {:induction false} AroundLine(a: int, x: int)
    requires 0 <= a < 40 && 0 <= x < 40
    ensures x == a ==> Around(Line(a), x) == 3
    ensures Line(a)[x] && x != a ==> Around(Line(a), x) == 2
    ensures !Line(a)[x] ==> Around(Line(a), x) <= 1
  {
    OffsetFacts(a, x);
    OffsetFacts(a, Wrap(x - 1));
    OffsetFacts(a, Wrap(x + 1));
  }

  // ---------------------------------------------------------------------
  // Block

  /** The 2x2 block with its corner at (a, b); it wraps across the edges when
      a or b is 39. */
  function Block(a: int, b: int): (g: Grid)
    requires 0 <= a < 40 && 0 <= b < 40
    ensures IsGrid(g)
  {
    Prod(Pair(a), Pair(b))
  }

  /** A cell of the step of a product grid, in terms of the per-axis counts. */
  lemma {:induction false} StepOfProdAt(p: seq<bool>, q: seq<bool>, x: int, y: int)
    requires |p| == 40 && |q| == 40 && 0 <= x < 40 && 0 <= y < 40
    ensures Step(Prod(p, q))[x][y]
      == NextCell(p[x] && q[y], Around(p, x) * Around(q, y) - (if p[x] && q[y] then 1 else 0))
  {
    NeighboursOfProd(p, q, x, y);
  }

  /** The per-axis counts of a block: its cells have three neighbours, and any
      other cell has at most two. */
  lemma {:induction false} BlockCounts(a: int, b: int, x: int, y: int)
    requires 0 <= a < 40 && 0 <= b < 40 && 0 <= x < 40 && 0 <= y < 40
    ensures var alive := Pair(a)[x] && Pair(b)[y];
      NextCell(alive, Around(Pair(a), x) * Around(Pair(b), y) - (if alive then 1 else 0)) == alive
  {
    var cx, cy := Around(Pair(a), x), Around(Pair(b), y);
    AroundPair(a, x);
    AroundPair(b, y);
    if Pair(a)[x] && Pair(b)[y] {
      assert cx * cy == 4;
    } else if !Pair(a)[x] {
      assert cx * cy <= cy by {
        if cx == 0 { assert cx * cy == 0; } else { assert cx * cy == cy; }
      }
    } else {
      assert cx * cy <= cx by {
        if cy == 0 { assert cx * cy == 0; } else { assert cx * cy == cx; }
      }
    }
  }

  /** One cell of the block stays as it is. */
  lemma {:induction false} BlockCell(a: int, b: int, x: int, y: int)
    requires 0 <= a < 40 && 0 <= b < 40 && 0 <= x < 40 && 0 <= y < 40
    ensures Step(Block(a, b))[x][y] == Block(a, b)[x][y]
  {
    StepOfProdAt(Pair(a), Pair(b), x, y);
    BlockCounts(a, b, x, y);
  }

  /** The block is a still life, at every position of the torus. */
  lemma {:induction false} BlockIsStill(a: int, b: int)
    requires 0 <= a < 40 && 0 <= b < 40
    ensures Step(Block(a, b)) == Block(a, b)
  {
    forall x, y | 0 <= x < 40 && 0 <= y < 40
      ensures Step(Block(a, b))[x][y] == Block(a, b)[x][y]
    {
      BlockCell(a, b, x, y);
    }
    GridExt(Step(Block(a, b)), Block(a, b));
  }

  // ---------------------------------------------------------------------
  // Blinker

  /** Three live cells in row b, centred on column a. */
  function Horizontal(a: int, b: int): (g: Grid)
    requires 0 <= a < 40 && 0 <= b < 40
    ensures IsGrid(g)
  {
    Prod(Line(a), Single(b))
  }

  /** Three live cells in column a, centred on row b. */
  function Vertical(a: int, b: int): (g: Grid)
    requires 0 <= a < 40 && 0 <= b < 40
    ensures IsGrid(g)
  {
    Prod(Single(a), Line(b))
  }

  /** One cell of the step of the horizontal blinker. */
  lemma {:induction false} HorizontalCell(a: int, b: int, x: int, y: int)
    requires 0 <= a < 40 && 0 <= b < 40 && 0 <= x < 40 && 0 <= y < 40
    ensures Step(Horizontal(a, b))[x][y] == Vertical(a, b)[x][y]
  {
    NeighboursOfProd(Line(a), Single(b), x, y);
    AroundLine(a, x);
    AroundSingle(b, y);
  }

  /** One cell of the step of the vertical blinker. */
  lemma {:induction false} VerticalCell(a: int, b: int, x: int, y: int)
    requires 0 <= a < 40 && 0 <= b < 40 && 0 <= x < 40 && 0 <= y < 40
    ensures Step(Vertical(a, b))[x][y] == Horizontal(a, b)[x][y]
  {
    NeighboursOfProd(Single(a), Line(b), x, y);
    AroundSingle(a, x);
    AroundLine(b, y);
  }

  /** The blinker turns from horizontal to vertical and back: it changes after
      one generation and returns after two, at every position of the torus. */
  lemma {:induction false} BlinkerOscillates(a: int, b: int)
    requires 0 <= a < 40 && 0 <= b < 40
    ensures Step(Horizontal(a, b)) == Vertical(a, b)
    ensures Step(Vertical(a, b)) == Horizontal(a, b)
    ensures Step(Horizontal(a, b)) != Horizontal(a, b)
    ensures Step(Step(Horizontal(a, b))) == Horizontal(a, b)
  {
    forall x, y | 0 <= x < 40 && 0 <= y < 40
      ensures Step(Horizontal(a, b))[x][y] == Vertical(a, b)[x][y]
    {
      HorizontalCell(a, b, x, y);
    }
    GridExt(Step(Horizontal(a, b)), Vertical(a, b));
    forall x, y | 0 <= x < 40 && 0 <= y < 40
      ensures Step(Vertical(a, b))[x][y] == Horizontal(a, b)[x][y]
    {
      VerticalCell(a, b, x, y);
    }
    GridExt(Step(Vertical(a, b)), Horizontal(a, b));
    var left := Wrap(a - 1);
    assert Horizontal(a, b)[left][b] && !Vertical(a, b)[left][b];
  }
}
