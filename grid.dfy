/**
 * The pure parts of world.c: the domain test, the address arithmetic of the
 * two cell accessors, the Life rule, and the neighbour count the update loop
 * computes. Cells are stored row-major: a grid of `rows` rows and `cols`
 * columns keeps column `c` of row `r` at slot `cols * r + c`.
 */
module Grid {
  import opened Types

  /**
   * isWithinDomain: column `c` and row `r` lie inside a `rows` x `cols` grid;
   * only a non-empty grid has such a position.
   */
  predicate WithinDomain(rows: int, cols: int, c: int, r: int): (inside: bool)
    ensures inside ==> rows >= 1 && cols >= 1
  {
    r >= 0 && c >= 0 && r < rows && c < cols
  }

  /**
   * The slot worldCell(x, y) points at, or None for its NULL. The code hands
   * its arguments to isWithinDomain in swapped order, so x is bounded by
   * `rows` and y by `cols`, while the slot itself is the row-major `cols * y + x`.
   */
  function CellSlot(rows: nat, cols: nat, x: int, y: int): (p: Option<nat>)
    ensures p.Some? <==> 0 <= x < rows && 0 <= y < cols
    ensures p.Some? && cols <= rows ==> p.value < rows * cols
  {
    if !WithinDomain(rows, cols, y, x) then None
    else
      TransposedSlotBound(rows, cols, x, y);
      Some(cols * y + x)
  }

  /**
   * The slot worldCellNext(x, y) points at, or None for its NULL: the buffer
   * has one extra row and column on every side, so position (x, y) of the
   * grid lives at column x + 1, row y + 1 of a `cnRows` x `cnCols` buffer.
   */
  function NextSlot(cnRows: nat, cnCols: nat, x: int, y: int): (p: Option<nat>)
    ensures p.Some? <==> -1 <= x < cnCols - 1 && -1 <= y < cnRows - 1
    ensures p.Some? ==> p.value < cnRows * cnCols
  {
    var c := x + 1;
    var r := y + 1;
    if c >= cnCols || r >= cnRows || c < 0 || r < 0 then None
    else
      RowMajorBound(cnCols, cnRows, c, r);
      Some(cnCols * r + c)
  }

  /**
   * The Life rule B3/S23 as the update loop tests it: a dead cell with three
   * live neighbours is born, a live cell with two or three survives.
   */
  function LifeRule(alive: bool, liveNeighbours: int): (next: bool)
    ensures next <==> liveNeighbours == 3 || (alive && liveNeighbours == 2)
    ensures next ==> 2 <= liveNeighbours <= 3
  {
    (!alive && liveNeighbours == 3) || (alive && (liveNeighbours == 2 || liveNeighbours == 3))
  }

  /** The cell at column `c`, row `r` of grid `g` is inside the grid and live (non-zero). */
  ghost predicate AliveAt(g: seq<byte>, rows: nat, cols: nat, c: int, r: int)
    requires |g| == rows * cols
  {
    if !WithinDomain(rows, cols, c, r) then false
    else
      RowMajorBound(cols, rows, c, r);
      g[cols * r + c] != 0
  }

  /** 1 when the neighbour at offset (dc, dr) is live; the centre itself is never counted. */
  ghost function Neighbour(g: seq<byte>, rows: nat, cols: nat, c: int, r: int, dc: int, dr: int): nat
    requires |g| == rows * cols
  {
    if dc == 0 && dr == 0 then 0
    else if AliveAt(g, rows, cols, c + dc, r + dr) then 1
    else 0
  }

  /** Live neighbours in row offset `dr` among the first `k` column offsets -1, 0, 1. */
  ghost function RowLive(g: seq<byte>, rows: nat, cols: nat, c: int, r: int, dr: int, k: nat): nat
    requires |g| == rows * cols && k <= 3
  {
    if k == 0 then 0
    else RowLive(g, rows, cols, c, r, dr, k - 1) + Neighbour(g, rows, cols, c, r, k - 2, dr)
  }

  /** Live neighbours in the first `k` row offsets -1, 0, 1. */
  ghost function Live(g: seq<byte>, rows: nat, cols: nat, c: int, r: int, k: nat): nat
    requires |g| == rows * cols && k <= 3
  {
    if k == 0 then 0
    else Live(g, rows, cols, c, r, k - 1) + RowLive(g, rows, cols, c, r, k - 2, 3)
  }

  /** The number of live cells among the eight neighbours of (c, r); off-grid neighbours are dead. */
  ghost function LiveNeighbourCount(g: seq<byte>, rows: nat, cols: nat, c: int, r: int): nat
    requires |g| == rows * cols
  {
    Live(g, rows, cols, c, r, 3)
  }

  /** Whether the cell at (c, r) is live in the next generation. */
  ghost predicate NextState(g: seq<byte>, rows: nat, cols: nat, c: int, r: int)
    requires |g| == rows * cols
  {
    LifeRule(AliveAt(g, rows, cols, c, r), LiveNeighbourCount(g, rows, cols, c, r))
  }

  /** A cell has at most eight neighbours: the centre is excluded from the count. */
  lemma {:induction false} LiveNeighbourCountBound(g: seq<byte>, rows: nat, cols: nat, c: int, r: int)
    requires |g| == rows * cols
    ensures LiveNeighbourCount(g, rows, cols, c, r) <= 8
  {
    forall dr | -1 <= dr <= 1
      ensures RowLive(g, rows, cols, c, r, dr, 3) <= 3
      ensures dr == 0 ==> RowLive(g, rows, cols, c, r, dr, 3) <= 2
    {
      assert RowLive(g, rows, cols, c, r, dr, 1) <= 1;
      assert RowLive(g, rows, cols, c, r, dr, 2) <= 2;
      assert dr == 0 ==> RowLive(g, rows, cols, c, r, dr, 2) <= 1;
    }
    assert Live(g, rows, cols, c, r, 1) <= 3;
    assert Live(g, rows, cols, c, r, 2) <= 5;
  }

  /**
   * No cell two or more steps outside the grid can be born: all its
   * neighbours are off the grid. Hence scanning the one-cell ring around the
   * grid finds every birth.
   */
  lemma {:induction false} NoBirthBeyondRing(g: seq<byte>, rows: nat, cols: nat, c: int, r: int)
    requires |g| == rows * cols
    requires c < -1 || c > cols || r < -1 || r > rows
    ensures LiveNeighbourCount(g, rows, cols, c, r) == 0
    ensures !NextState(g, rows, cols, c, r)
  {
    forall dr | -1 <= dr <= 1
      ensures RowLive(g, rows, cols, c, r, dr, 3) == 0
    {
      assert RowLive(g, rows, cols, c, r, dr, 1) == 0;
      assert RowLive(g, rows, cols, c, r, dr, 2) == 0;
    }
    assert Live(g, rows, cols, c, r, 1) == 0;
    assert Live(g, rows, cols, c, r, 2) == 0;
  }

  /**
   * worldCell answers exactly on the positions isWithinDomain accepts if and
   * only if the grid is square: on any other grid some in-domain cell gets NULL.
   */
  lemma CellSlotMatchesDomainIffSquare(rows: nat, cols: nat)
    requires rows >= 1 && cols >= 1
    ensures (forall c, r :: CellSlot(rows, cols, c, r).Some? <==> WithinDomain(rows, cols, c, r))
            <==> rows == cols
  {
    if rows < cols {
      assert WithinDomain(rows, cols, rows, 0) && CellSlot(rows, cols, rows, 0).None?;
    } else if rows > cols {
      assert WithinDomain(rows, cols, 0, cols) && CellSlot(rows, cols, 0, cols).None?;
    }
  }

  /**
   * Every slot worldCell returns lies inside the `rows * cols` buffer if and
   * only if the grid is at least as tall as it is wide.
   */
  lemma CellSlotInBufferIff(rows: nat, cols: nat)
    requires rows >= 1 && cols >= 1
    ensures (forall x, y :: CellSlot(rows, cols, x, y).Some? ==> CellSlot(rows, cols, x, y).value < rows * cols)
            <==> cols <= rows
  {
    if rows < cols {
      var x, y := rows - 1, cols - 1;
      assert CellSlot(rows, cols, x, y) == Some(cols * y + x);
      assert cols * y + x >= rows * cols by {
        assert cols * y + x == cols * cols - cols + rows - 1;
        assert cols * cols - rows * cols == cols * (cols - rows);
        MulMonotone(cols, 1, cols - rows);
      }
    }
  }

  /**
   * worldCell gives different positions different slots if and only if the
   * grid is at most as tall as it is wide; on a taller grid column `cols` of
   * row y shares its slot with column 0 of row y + 1.
   */
  lemma CellSlotInjectiveIff(rows: nat, cols: nat)
    requires rows >= 1 && cols >= 2
    ensures (forall x1, y1, x2, y2 ::
               CellSlot(rows, cols, x1, y1).Some? && CellSlot(rows, cols, x1, y1) == CellSlot(rows, cols, x2, y2)
               ==> x1 == x2 && y1 == y2)
            <==> rows <= cols
  {
    if rows <= cols {
      forall x1, y1, x2, y2 |
        CellSlot(rows, cols, x1, y1).Some? && CellSlot(rows, cols, x1, y1) == CellSlot(rows, cols, x2, y2)
        ensures x1 == x2 && y1 == y2
      {
        SlotInjective(cols, y1, x1, y2, x2);
      }
    } else {
      assert CellSlot(rows, cols, cols, 0) == Some(cols) == CellSlot(rows, cols, 0, 1);
    }
  }

  /** On a square grid worldCell addresses every in-domain cell at its row-major slot. */
  lemma CellSlotSquare(n: nat, c: int, r: int)
    requires WithinDomain(n, n, c, r)
    ensures CellSlot(n, n, c, r) == Some(n * r + c)
  {
  }

  /** Row-major slots of a `w`-wide, `h`-high grid stay below `w * h`. */
  lemma RowMajorBound(w: nat, h: nat, x: int, y: int)
    requires 0 <= x < w && 0 <= y < h
    ensures 0 <= w * y + x < w * h
  {
    MulMonotone(w, y + 1, h);
  }

  /** The slot worldCell computes stays in the buffer when x < rows, y < cols and cols <= rows. */
  lemma TransposedSlotBound(rows: nat, cols: nat, x: int, y: int)
    requires 0 <= x < rows && 0 <= y < cols
    ensures 0 <= cols * y + x
    ensures cols <= rows ==> cols * y + x < rows * cols
  {
    MulMonotone(cols, y, cols - 1);
    if cols <= rows {
      assert rows * cols - cols * (cols - 1) - rows + 1 == (rows - cols) * (cols - 1) + 1;
      MulMonotone(rows - cols, 0, cols - 1);
    }
  }

  /** `a * b <= a * c` when `b <= c`. */
  lemma MulMonotone(a: nat, b: int, c: int)
    requires b <= c
    ensures a * b <= a * c
  {
    assert a * c - a * b == a * (c - b);
  }

  /** Row-major slots are one-to-one: the quotient and remainder by `w` are unique. */
  lemma SlotInjective(w: nat, a: int, b: int, a2: int, b2: int)
    requires 0 <= b < w && 0 <= b2 < w
    requires w * a + b == w * a2 + b2
    ensures a == a2 && b == b2
  {
    if a < a2 {
      MulMonotone(w, a + 1, a2);
    } else if a2 < a {
      MulMonotone(w, a2 + 1, a);
    }
  }
}
