/** The save format: one character per cell, '1' alive and '0' dead, column
    by column (x outer, y inner), 1600 characters with no header. */
module Persistence {
  import opened Rules

  /** The character the save loop appends for one cell. */
  function CellChar(alive: bool): (c: char)
    ensures c == '1' <==> alive
    ensures c == '0' <==> !alive
  {
    if alive then '1' else '0'
  }

  /** The first m characters of one column's encoding, as the save loop's
      inner loop appends them. */
  function EncodeColumn(column: seq<bool>, m: int): (s: string)
    requires 0 <= m <= |column|
    ensures |s| == m
    decreases m
  {
    if m == 0 then [] else EncodeColumn(column, m - 1) + [CellChar(column[m - 1])]
  }

  /** The encoding of the first n columns of g, as the outer loop appends them. */
  function EncodeColumns(g: Grid, n: int): (s: string)
    requires IsGrid(g) && 0 <= n <= 40
    ensures |s| == n * 40
    decreases n
  {
    if n == 0 then [] else EncodeColumns(g, n - 1) + EncodeColumn(g[n - 1], |g[n - 1]|)
  }

  /** Character y of a column's encoding is the character of cell y. */
  lemma {:induction false} EncodeColumnAt(column: seq<bool>, m: int, y: int)
    requires 0 <= y < m <= |column|
    ensures EncodeColumn(column, m)[y] == CellChar(column[y])
    decreases m
  {
    if y < m - 1 {
      EncodeColumnAt(column, m - 1, y);
    }
  }

  /** Character k = x*40+y of the encoding of the first n columns is the
      character of cell (x, y). */
  lemma {:induction false} EncodeColumnsAt(g: Grid, n: int, x: int, y: int, k: int)
    requires IsGrid(g) && 0 <= x < n <= 40 && 0 <= y < 40 && k == x * 40 + y
    ensures EncodeColumns(g, n)[k] == CellChar(g[x][y])
    decreases n
  {
    var previous, column := EncodeColumns(g, n - 1), EncodeColumn(g[n - 1], |g[n - 1]|);
    assert EncodeColumns(g, n) == previous + column;
    if x < n - 1 {
      EncodeColumnsAt(g, n - 1, x, y, k);
      assert k < |previous|;
    } else {
      EncodeColumnAt(g[n - 1], 40, y);
      assert k - |previous| == y;
    }
  }

  /** The string the save operation produces for a buffer: 1600 characters,
      character x*40+y being '1' exactly when cell (x, y) is alive. */
  function Encode(g: Grid): (s: string)
    requires IsGrid(g)
    ensures |s| == 1600
    ensures forall x, y :: 0 <= x < 40 && 0 <= y < 40 ==> (s[x * 40 + y] == '1' <==> g[x][y])
  {
    var s := EncodeColumns(g, |g|);
    assert forall x, y :: 0 <= x < 40 && 0 <= y < 40 ==> (s[x * 40 + y] == '1' <==> g[x][y]) by {
      forall x, y | 0 <= x < 40 && 0 <= y < 40
        ensures s[x * 40 + y] == '1' <==> g[x][y]
      {
        EncodeColumnsAt(g, 40, x, y, x * 40 + y);
      }
    }
    s
  }

  /** Character k = x*40+y of the save string encodes cell (x, y). */
  lemma {:induction false} EncodedCharAt(g: Grid, x: int, y: int, k: int)
    requires IsGrid(g) && 0 <= x < 40 && 0 <= y < 40 && k == x * 40 + y
    ensures Encode(g)[k] == CellChar(g[x][y])
  {
    EncodeColumnsAt(g, 40, x, y, k);
  }

  /** Two strings of the same length that agree at every index are equal. */
  lemma StringExt(a: string, b: string)
    requires |a| == |b| && forall k :: 0 <= k < |a| ==> a[k] == b[k]
    ensures a == b
  {
  }

  /** Every character of the save string is '0' or '1'. */
  lemma {:induction false} EncodeIsDigits(g: Grid)
    requires IsGrid(g)
    ensures forall k :: 0 <= k < |Encode(g)| ==> Encode(g)[k] == '0' || Encode(g)[k] == '1'
  {
    var s := Encode(g);
    forall k | 0 <= k < |s|
      ensures s[k] == '0' || s[k] == '1'
    {
      EncodedCharAt(g, k / 40, k % 40, k);
    }
  }

  /** What the load loop leaves in a buffer g when it reads s: every cell whose
      index x*40+y lies inside s takes '1' as alive and any other character as
      dead; a cell past the end of s keeps its value (the loop has already
      failed when it gets there). */
  function DecodeOver(g: Grid, s: string): (r: Grid)
    requires IsGrid(g)
    ensures IsGrid(r)
    ensures forall x, y :: 0 <= x < 40 && 0 <= y < 40 ==>
      r[x][y] == if x * 40 + y < |s| then s[x * 40 + y] == '1' else g[x][y]
  {
    seq(40, x requires 0 <= x < 40 =>
      seq(40, y requires 0 <= y < 40 =>
        if x * 40 + y < |s| then s[x * 40 + y] == '1' else g[x][y]))
  }

  /** The load loop has no length check: on a line shorter than 1600
      characters it faults only after overwriting every cell before the end of
      the line. With cell (0, 0) dead and a line starting with '1', the load
      that fails has already changed the buffer. */
  lemma {:induction false} ShortLineChangesBuffer(g: Grid, s: string)
    requires IsGrid(g) && 0 < |s| < 1600 && s[0] == '1' && !g[0][0]
    ensures DecodeOver(g, s) != g
  {
    assert DecodeOver(g, s)[0][0];
  }

  /** Decoding a complete string: cell (x, y) is alive exactly when the
      character at x*40+y is '1'. */
  function Decode(s: string): (r: Grid)
    requires |s| >= 1600
    ensures IsGrid(r)
    ensures forall x, y :: 0 <= x < 40 && 0 <= y < 40 ==> (r[x][y] <==> s[x * 40 + y] == '1')
  {
    seq(40, x requires 0 <= x < 40 =>
      seq(40, y requires 0 <= y < 40 => s[x * 40 + y] == '1'))
  }

  /** A string of at least 1600 characters overwrites the whole buffer, so what
      the buffer held before does not matter. */
  lemma {:induction false} DecodeOverComplete(g: Grid, s: string)
    requires IsGrid(g) && |s| >= 1600
    ensures DecodeOver(g, s) == Decode(s)
  {
    forall x, y | 0 <= x < 40 && 0 <= y < 40
      ensures DecodeOver(g, s)[x][y] == Decode(s)[x][y]
    {
      assert x * 40 + y < 1600;
    }
    GridExt(DecodeOver(g, s), Decode(s));
  }

  /** Loading what was saved gives back the buffer, cell for cell. */
  lemma {:induction false} DecodeEncode(g: Grid)
    requires IsGrid(g)
    ensures Decode(Encode(g)) == g
  {
    GridExt(Decode(Encode(g)), g);
  }

  /** Loading the saved string over the buffer it was saved from, as the
      engine's load loop does, leaves that buffer as it was. */
  lemma {:induction false} LoadAfterSave(g: Grid)
    requires IsGrid(g)
    ensures |Encode(g)| == 1600 && DecodeOver(g, Encode(g)) == g
  {
    DecodeOverComplete(g, Encode(g));
    DecodeEncode(g);
  }

  /** Saving what was loaded gives back the string, when that string is
      exactly 1600 characters of '0' and '1'. */
  lemma {:induction false} EncodeDecode(s: string)
    requires |s| == 1600
    requires forall k :: 0 <= k < |s| ==> s[k] == '0' || s[k] == '1'
    ensures Encode(Decode(s)) == s
  {
    var t := Encode(Decode(s));
    forall k | 0 <= k < |s|
      ensures t[k] == s[k]
    {
      EncodeDecodeAt(s, k / 40, k % 40, k);
    }
    StringExt(t, s);
  }

  /** One character of the save-load-save round trip. */
  lemma {:induction false} EncodeDecodeAt(s: string, x: int, y: int, k: int)
    requires |s| == 1600
    requires 0 <= x < 40 && 0 <= y < 40 && k == x * 40 + y
    requires s[k] == '0' || s[k] == '1'
    ensures Encode(Decode(s))[k] == s[k]
  {
    EncodedCharAt(Decode(s), x, y, k);
  }
}
