/**
 * The World of world.c: a Life grid of `rows` x `cols` cells that grows by
 * one cell on a side whenever a cell is born just outside it.
 */
module WorldEngine {
  import opened Types
  import opened Grid
  import opened Generation
  import opened WorldFile
  import opened FileIO

  /** The size of the buffer worldLoadFromFile reads the file into. */
  const MAX_WORLD_FILE_BYTES: nat := 8192

  /** worldCreate's initial side length. */
  const INITIAL_SIDE: nat := 20

  /** realloc of a byte buffer to `size` bytes; the bytes past the old end are taken to be zero. */
  method Realloc(a: array<byte>, size: nat) returns (b: array<byte>)
    ensures fresh(b) && b[..] == Resized(a[..], size)
  {
    var s := a[..];
    b := new byte[size](k requires 0 <= k < size => if k < |s| then s[k] else 0);
    assert b[..] == Resized(s, size);
  }

  /**
   * worldToggleCell on grid `g`: the slot worldCell(x, y) addresses flips
   * between dead and live; when worldCell gives NULL nothing changes.
   */
  ghost function Toggled(g: seq<byte>, rows: nat, cols: nat, x: int, y: int): (t: seq<byte>)
    requires |g| == rows * cols && cols <= rows
    ensures |t| == |g|
    ensures CellSlot(rows, cols, x, y).None? ==> t == g
    ensures forall k :: 0 <= k < |g| && CellSlot(rows, cols, x, y) != Some(k) ==> t[k] == g[k]
    ensures CellSlot(rows, cols, x, y).Some? ==>
              var k := CellSlot(rows, cols, x, y).value; k < |g| && (t[k] != 0 <==> g[k] == 0)
  {
    match CellSlot(rows, cols, x, y)
    case None => g
    case Some(k) => g[k := if g[k] != 0 then 0 else 1]
  }

  /** Toggling a cell twice restores the grid, as long as cells hold 0 or 1. */
  lemma ToggleTwice(g: seq<byte>, rows: nat, cols: nat, x: int, y: int)
    requires |g| == rows * cols && cols <= rows && Binary(g)
    ensures Binary(Toggled(g, rows, cols, x, y))
    ensures Toggled(Toggled(g, rows, cols, x, y), rows, cols, x, y) == g
  {
  }

  /**
   * On a square grid toggling (x, y) flips exactly the cell at column x, row y
   * when it is inside the grid, and leaves every other cell as it was.
   */
  lemma {:induction false} ToggleFlipsOnlyItsCell(g: seq<byte>, n: nat, x: int, y: int, c: int, r: int)
    requires |g| == n * n
    ensures AliveAt(Toggled(g, n, n, x, y), n, n, c, r)
            <==> (AliveAt(g, n, n, c, r) != (c == x && r == y && WithinDomain(n, n, x, y)))
  {
    if WithinDomain(n, n, x, y) && WithinDomain(n, n, c, r) {
      RowMajorBound(n, n, c, r);
      RowMajorBound(n, n, x, y);
      if c != x || r != y {
        if n * r + c == n * y + x {
          SlotInjective(n, r, c, y, x);
        }
      }
    }
  }

  class World {
    /** The grid, row-major. */
    var cells: array<byte>
    var rows: nat
    var cols: nat
    /** The next generation, with a one-cell margin on every side. */
    var cellsNext: array<byte>
    var cnRows: nat
    var cnCols: nat
    /** The world coordinates of the top-left cell. */
    var tlCellPosX: int
    var tlCellPosY: int

    /**
     * The invariant the model keeps for every world it reaches: the margin
     * buffer is two larger on each axis, both buffers have their sizes, and
     * the grid is square or one row taller than wide. Cells and margin bytes
     * are 0 or 1; after a step that grows the rows but not the columns this
     * rests on Realloc's zero tail, because the copy back never writes part
     * of the new last row.
     */
    ghost predicate Valid()
      reads this, cells, cellsNext
    {
      && cells != cellsNext
      && 1 <= cols <= rows <= cols + 1
      && cnRows == rows + 2 && cnCols == cols + 2
      && cells.Length == rows * cols
      && cellsNext.Length == cnRows * cnCols
      && Binary(cells[..]) && Binary(cellsNext[..])
    }

    /** worldCreate: a 20 x 20 all-dead grid, an all-dead 22 x 22 margin buffer, origin (0, 0). */
    constructor Create()
      ensures Valid() && fresh(cells) && fresh(cellsNext)
      ensures rows == INITIAL_SIDE && cols == INITIAL_SIDE && cnRows == rows + 2 && cnCols == cols + 2
      ensures tlCellPosX == 0 && tlCellPosY == 0
      ensures forall k :: 0 <= k < cells.Length ==> cells[k] == 0
      ensures forall k :: 0 <= k < cellsNext.Length ==> cellsNext[k] == 0
    {
      tlCellPosX := 0;
      tlCellPosY := 0;
      rows := INITIAL_SIDE;
      cols := INITIAL_SIDE;
      cells := new byte[INITIAL_SIDE * INITIAL_SIDE](_ => 0);
      cnRows := INITIAL_SIDE + 2;
      cnCols := INITIAL_SIDE + 2;
      cellsNext := new byte[(INITIAL_SIDE + 2) * (INITIAL_SIDE + 2)](_ => 0);
    }

    /**
     * The neighbour count of worldUpdate for position (c, r): every in-domain
     * neighbour other than the centre is read through worldCell, which gives
     * NULL, and so crashes, exactly when the grid is not square.
     */
    method CountLiveNeighbours(c: int, r: int) returns (count: Run<nat>)
      requires Valid()
      ensures count.Returns? ==> count.value == LiveNeighbourCount(cells[..], rows, cols, c, r)
      ensures rows == cols ==> count.Returns?
      ensures count.Crashes? ==> count.fault == NullDereference && rows != cols
    {
      var live := 0;
      var dr := -1;
      while dr <= 1
        invariant -1 <= dr <= 2
        invariant live == Live(cells[..], rows, cols, c, r, dr + 1)
      {
        var dc := -1;
        while dc <= 1
          invariant -1 <= dc <= 2
          invariant live == Live(cells[..], rows, cols, c, r, dr + 1) + RowLive(cells[..], rows, cols, c, r, dr, dc + 1)
        {
          if WithinDomain(rows, cols, c + dc, r + dr) && !(dc == 0 && dr == 0) {
            var p := CellSlot(rows, cols, c + dc, r + dr);
            if p.None? {
              return Crashes(NullDereference);
            }
            if cells[p.value] != 0 {
              live := live + 1;
            }
          }
          dc := dc + 1;
        }
        dr := dr + 1;
      }
      return Returns(live);
    }

    /**
     * One position of the scan of worldUpdate: the cell's own state, read
     * through worldCell when (c, r) is in the domain, and its neighbour count
     * give its next state. The read gives NULL on a row at or past `cols` of a
     * taller grid.
     */
    method NextStateAt(c: int, r: int) returns (next: Run<bool>)
      requires Valid()
      ensures next.Returns? ==> next.value == NextState(cells[..], rows, cols, c, r)
      ensures rows == cols ==> next.Returns?
      ensures WithinDomain(rows, cols, c, r) && r >= cols ==> next.Crashes?
      ensures next.Crashes? ==> next.fault == NullDereference && rows != cols
    {
      var cell: byte := 0;
      if WithinDomain(rows, cols, c, r) {
        var p := CellSlot(rows, cols, c, r);
        if p.None? {
          return Crashes(NullDereference);
        }
        RowMajorBound(cols, rows, c, r);
        cell := cells[p.value];
      }
      var count := CountLiveNeighbours(c, r);
      if count.Crashes? {
        return Crashes(count.fault);
      }
      return Returns(LifeRule(cell != 0, count.value));
    }

    /**
     * The store of the scan of worldUpdate at position (c, r): worldCellNext
     * gives the slot, and it receives 1 for a live next state and 0 otherwise.
     * Earlier stores of the scan stay in place.
     */
    method StoreNext(c: int, r: int, born: bool)
      requires Valid() && -1 <= c <= cols && -1 <= r <= rows
      requires ScannedNextBefore(cellsNext[..], cells[..], rows, cols, c, r)
      requires born == NextState(cells[..], rows, cols, c, r)
      modifies cellsNext
      ensures Valid()
      ensures ScannedNextBefore(cellsNext[..], cells[..], rows, cols, c + 1, r)
      ensures var k := (cols + 2) * (r + 1) + (c + 1);
              k < cellsNext.Length && cellsNext[..] == old(cellsNext[..])[k := Bit(born)]
      ensures forall c', r' :: -1 <= c' <= cols && r' != r ==>
                MarginAt(cellsNext[..], cols, c', r') == MarginAt(old(cellsNext[..]), cols, c', r')
    {
      ScannedNextStep(cellsNext[..], cells[..], rows, cols, c, r);
      ghost var before := cellsNext[..];
      var q := NextSlot(cnRows, cnCols, c, r);
      if born {
        cellsNext[q.value] := 1;
      } else {
        cellsNext[q.value] := 0;
      }
      assert cellsNext[..] == before[q.value := Bit(born)];
      StoreKeepsOtherRows(before, cols, c, r, Bit(born));
    }

    /**
     * Row r of the scan of worldUpdate, columns -1 to `cols`: it stores the
     * next state of each position in the margin buffer and raises the growth
     * flags `fl` carries in from the earlier rows.
     */
    method ScanRow(r: int, fl: Growth) returns (scan: Run<Growth>)
      requires Valid() && -1 <= r <= rows
      requires fl == BirthsBefore(cells[..], rows, cols, -1, r)
      requires ScannedNextBefore(cellsNext[..], cells[..], rows, cols, -1, r)
      modifies cellsNext
      ensures Valid()
      ensures scan.Returns? ==> scan.value == BirthsBefore(cells[..], rows, cols, -1, r + 1)
      ensures scan.Returns? ==> ScannedNextBefore(cellsNext[..], cells[..], rows, cols, -1, r + 1)
      ensures rows == cols ==> scan.Returns?
      ensures rows != cols && r == cols ==> scan.Crashes?
      ensures scan.Crashes? ==> scan.fault == NullDereference && rows != cols
      ensures forall c', r' :: -1 <= c' <= cols && -1 <= r' <= rows && r' != r ==>
                MarginAt(cellsNext[..], cols, c', r') == MarginAt(old(cellsNext[..]), cols, c', r')
    {
      var growLeft, growRight, growTop, growBottom := fl.growLeft, fl.growRight, fl.growTop, fl.growBottom;
      ghost var g := cells[..];
      ghost var start := cellsNext[..];
      var c := -1;
      while c <= cols
        invariant -1 <= c <= cols + 1
        invariant Valid() && cells[..] == g
        invariant rows != cols && r == cols ==> c <= 0
        invariant ScannedNextBefore(cellsNext[..], g, rows, cols, c, r)
        invariant growLeft == BirthsBefore(g, rows, cols, c, r).growLeft
        invariant growRight == BirthsBefore(g, rows, cols, c, r).growRight
        invariant growTop == BirthsBefore(g, rows, cols, c, r).growTop
        invariant growBottom == BirthsBefore(g, rows, cols, c, r).growBottom
        invariant forall c', r' :: -1 <= c' <= cols && -1 <= r' <= rows && r' != r ==>
                    MarginAt(cellsNext[..], cols, c', r') == MarginAt(start, cols, c', r')
      {
        var next := NextStateAt(c, r);
        if next.Crashes? {
          return Crashes(next.fault);
        }
        BirthsBeforeStep(g, rows, cols, c, r);
        StoreNext(c, r, next.value);
        if next.value {
          if !growLeft && r == -1 {
            growLeft := true;
          }
          if !growRight && r == rows {
            growRight := true;
          }
          if !growTop && c == -1 {
            growTop := true;
          }
          if !growBottom && c == cols {
            growBottom := true;
          }
        }
        c := c + 1;
      }
      BirthsBeforeNextRow(g, rows, cols, r);
      ScannedNextNextRow(cellsNext[..], g, rows, cols, r);
      return Returns(Growth(growLeft, growRight, growTop, growBottom));
    }

    /**
     * The scan of worldUpdate over the ring [-1, cols] x [-1, rows]: it stores
     * the next state of every position in the margin buffer and raises the
     * growth flags. It crashes on a NULL from worldCell exactly when the grid
     * is not square.
     */
    method Scan() returns (scan: Run<Growth>)
      requires Valid()
      modifies cellsNext
      ensures Valid()
      ensures scan.Crashes? <==> rows != cols
      ensures scan.Crashes? ==> scan.fault == NullDereference
      ensures scan.Returns? ==> scan.value == Births(cells[..], rows, cols)
      ensures scan.Returns? ==> ScannedNext(cellsNext[..], cells[..], rows, cols)
    {
      var fl := Growth(false, false, false, false);
      ghost var g := cells[..];
      var r := -1;
      while r <= rows
        invariant -1 <= r <= rows + 1
        invariant Valid() && cells[..] == g
        invariant rows != cols ==> r <= cols
        invariant ScannedNextBefore(cellsNext[..], g, rows, cols, -1, r)
        invariant fl == BirthsBefore(g, rows, cols, -1, r)
      {
        var row := ScanRow(r, fl);
        if row.Crashes? {
          return Crashes(row.fault);
        }
        fl := row.value;
        r := r + 1;
      }
      return Returns(fl);
    }

    /**
     * The copy back of worldUpdate into the grown grid: iteration (r, c), rows
     * outer over the new `rows` and columns inner over the new `cols`, moves the
     * margin byte of old position (r - growTop, c - growLeft) to worldCell(r, c)
     * and clears it. Both accessors get their arguments transposed; the margin
     * buffer still has its old `n + 2` x `n + 2` shape. The copy crashes on a
     * NULL read or a write past the cell buffer exactly when CopyBackFits fails.
     */
    method CopyBack(ghost g: seq<byte>, ghost n: nat, fl: Growth) returns (fault: Option<Fault>)
      requires cells != cellsNext
      requires n >= 1 && |g| == n * n && Binary(g)
      requires rows == GrownRows(n, fl) && cols == GrownCols(n, fl)
      requires cnRows == n + 2 && cnCols == n + 2 && cellsNext.Length == cnRows * cnCols
      requires cells.Length == rows * cols && cells[..] == Resized(g, rows * cols)
      requires ScannedNext(cellsNext[..], g, n, n) && Binary(cellsNext[..])
      modifies cells, cellsNext
      ensures fault.None? <==> CopyBackFits(fl)
      ensures fault.None? ==> cells[..] == CopiedCells(g, n, fl) && Binary(cells[..])
      ensures fault.None? ==> NextAfterReads(cellsNext[..], g, n, fl, rows, 0) && Binary(cellsNext[..])
    {
      ghost var s0 := cells[..];
      NextAfterReadsStart(cellsNext[..], g, n, fl);
      var r := 0;
      while r < rows
        invariant 0 <= r <= rows
        invariant cells[..] == CopyBackCells(s0, g, n, fl, r, 0)
        invariant NextAfterReads(cellsNext[..], g, n, fl, r, 0)
        invariant forall r', c' :: 0 <= r' < r && 0 <= c' < cols ==> IterationFits(n, fl, r', c')
        invariant Binary(cells[..]) && Binary(cellsNext[..])
      {
        fault := CopyBackRow(g, n, fl, r, s0);
        if fault.Some? {
          return;
        }
        r := r + 1;
      }
      CopyBackFitsIff(n, fl);
      return None;
    }

    /** Row r of the copy back of worldUpdate, columns 0 to `cols` - 1. */
    method CopyBackRow(ghost g: seq<byte>, ghost n: nat, fl: Growth, r: nat, ghost s0: seq<byte>) returns (fault: Option<Fault>)
      requires cells != cellsNext
      requires n >= 1 && |g| == n * n && r < rows
      requires rows == GrownRows(n, fl) && cols == GrownCols(n, fl)
      requires cnRows == n + 2 && cnCols == n + 2 && cellsNext.Length == cnRows * cnCols
      requires cells.Length == rows * cols && |s0| == cells.Length
      requires cells[..] == CopyBackCells(s0, g, n, fl, r, 0)
      requires NextAfterReads(cellsNext[..], g, n, fl, r, 0)
      requires forall r', c' :: 0 <= r' < r && 0 <= c' < cols ==> IterationFits(n, fl, r', c')
      requires Binary(cells[..]) && Binary(cellsNext[..])
      modifies cells, cellsNext
      ensures fault.Some? ==> !CopyBackFits(fl)
      ensures fault.None? ==> cells[..] == CopyBackCells(s0, g, n, fl, r + 1, 0)
      ensures fault.None? ==> NextAfterReads(cellsNext[..], g, n, fl, r + 1, 0)
      ensures fault.None? ==> forall r', c' :: 0 <= r' < r + 1 && 0 <= c' < cols ==> IterationFits(n, fl, r', c')
      ensures Binary(cells[..]) && Binary(cellsNext[..])
    {
      var c := 0;
      while c < cols
        invariant 0 <= c <= cols
        invariant cells[..] == CopyBackCells(s0, g, n, fl, r, c)
        invariant NextAfterReads(cellsNext[..], g, n, fl, r, c)
        invariant forall r', c' :: 0 <= r' < rows && 0 <= c' < cols && ScannedBefore(c', r', c, r) ==> IterationFits(n, fl, r', c')
        invariant Binary(cells[..]) && Binary(cellsNext[..])
      {
        // r < rows and c < cols, so worldCell(r, c) is never NULL here
        var p := CellSlot(rows, cols, r, c);
        var q := NextSlot(cnRows, cnCols, r - (Bit(fl.growTop) as int), c - (Bit(fl.growLeft) as int));
        if q.None? {
          assert !IterationFits(n, fl, r, c);
          CopyBackFitsIff(n, fl);
          return Some(NullDereference);
        }
        if p.value >= cells.Length {
          assert !IterationFits(n, fl, r, c);
          CopyBackFitsIff(n, fl);
          return Some(OutOfBoundsWrite);
        }
        MoveCell(g, n, fl, r, c, s0, p.value, q.value);
        c := c + 1;
      }
      NextAfterReadsNextRow(cellsNext[..], g, n, fl, r);
      return None;
    }

    /**
     * Copy-back iteration (r, c) when both accessors answer and the write is
     * inside the cell buffer: the margin byte at `q` moves to cell slot `p`
     * and is cleared.
     */
    method MoveCell(ghost g: seq<byte>, ghost n: nat, fl: Growth, r: nat, c: nat, ghost s0: seq<byte>, p: nat, q: nat)
      requires cells != cellsNext
      requires |g| == n * n && r < rows && c < cols
      requires rows == GrownRows(n, fl) && cols == GrownCols(n, fl)
      requires cellsNext.Length == (n + 2) * (n + 2)
      requires cells.Length == rows * cols && |s0| == cells.Length
      requires CellSlot(rows, cols, r, c) == Some(p) && p < cells.Length
      requires NextSlot(n + 2, n + 2, r - Bit(fl.growTop) as int, c - Bit(fl.growLeft) as int) == Some(q)
      requires cells[..] == CopyBackCells(s0, g, n, fl, r, c)
      requires NextAfterReads(cellsNext[..], g, n, fl, r, c)
      requires Binary(cells[..]) && Binary(cellsNext[..])
      modifies cells, cellsNext
      ensures cells[..] == CopyBackCells(s0, g, n, fl, r, c + 1)
      ensures NextAfterReads(cellsNext[..], g, n, fl, r, c + 1)
      ensures Binary(cells[..]) && Binary(cellsNext[..])
    {
      NextAfterReadsStep(cellsNext[..], g, n, fl, r, c);
      ghost var before := cells[..];
      cells[p] := cellsNext[q];
      assert cells[..] == before[p := CopiedValue(g, n, fl, r, c)];
      ghost var nextBefore := cellsNext[..];
      cellsNext[q] := 0;
      assert cellsNext[..] == nextBefore[q := 0];
    }

    /**
     * The first growth step of worldUpdate: when any flag is raised, the rows
     * grow by growLeft + growRight, the columns by growTop + growBottom, the
     * cell buffer is reallocated to the new size, and the origin moves by one
     * for growLeft (x) and for growTop (y).
     */
    method GrowCells(fl: Growth)
      requires cells != cellsNext && cells.Length == rows * cols
      modifies this
      ensures rows == old(rows) + (Bit(fl.growLeft) as int) + (Bit(fl.growRight) as int)
      ensures cols == old(cols) + (Bit(fl.growTop) as int) + (Bit(fl.growBottom) as int)
      ensures cells.Length == rows * cols && cells[..] == Resized(old(cells[..]), rows * cols)
      ensures cells != cellsNext && (fl.Any() ==> fresh(cells)) && (!fl.Any() ==> cells == old(cells))
      ensures tlCellPosX == old(tlCellPosX) - (Bit(fl.growLeft) as int) && tlCellPosY == old(tlCellPosY) - (Bit(fl.growTop) as int)
      ensures cellsNext == old(cellsNext) && cnRows == old(cnRows) && cnCols == old(cnCols)
    {
      if fl.Any() {
        rows := rows + (Bit(fl.growLeft) as int) + (Bit(fl.growRight) as int);
        cols := cols + (Bit(fl.growTop) as int) + (Bit(fl.growBottom) as int);
        cells := Realloc(cells, rows * cols);
        if fl.growLeft {
          tlCellPosX := tlCellPosX - 1;
        }
        if fl.growTop {
          tlCellPosY := tlCellPosY - 1;
        }
      } else {
        assert Resized(cells[..], cells.Length) == cells[..];
      }
    }

    /**
     * The last growth step of worldUpdate: when any flag is raised, the
     * margin buffer grows like the grid and is reallocated to the new size.
     */
    method GrowNext(fl: Growth, ghost g: seq<byte>, ghost n: nat)
      requires |g| == n * n && cnRows == n + 2 && cnCols == n + 2
      requires cells != cellsNext && cellsNext.Length == cnRows * cnCols
      requires NextAfterReads(cellsNext[..], g, n, fl, GrownRows(n, fl), 0) && Binary(cellsNext[..])
      modifies this
      ensures cnRows == GrownRows(n, fl) + 2 && cnCols == GrownCols(n, fl) + 2
      ensures cellsNext.Length == cnRows * cnCols
      ensures LeftMargin(cellsNext[..], g, n, fl) && Binary(cellsNext[..])
      ensures cells != cellsNext && (fl.Any() ==> fresh(cellsNext)) && (!fl.Any() ==> cellsNext == old(cellsNext))
      ensures cells == old(cells) && rows == old(rows) && cols == old(cols)
      ensures tlCellPosX == old(tlCellPosX) && tlCellPosY == old(tlCellPosY)
    {
      ghost var next := cellsNext[..];
      ghost var size := (GrownRows(n, fl) + 2) * (GrownCols(n, fl) + 2);
      ResizedMargin(next, g, n, fl);
      if fl.Any() {
        cnRows := cnRows + (Bit(fl.growLeft) as int) + (Bit(fl.growRight) as int);
        cnCols := cnCols + (Bit(fl.growTop) as int) + (Bit(fl.growBottom) as int);
        cellsNext := Realloc(cellsNext, cnRows * cnCols);
      } else {
        assert Resized(next, size) == next;
      }
    }

    /**
     * worldUpdate: one generation. The scan crashes unless the grid is square;
     * the copy back crashes unless CopyBackFits holds for the flags the scan
     * raised. Otherwise the grid grows by the raised flags, the origin moves
     * up by one for growLeft and left by one for growTop, the cells are the
     * copied next generation, and the call returns 1.
     */
    method Update() returns (outcome: Run<int>)
      requires Valid()
      modifies this, cells, cellsNext
      ensures outcome.Crashes? <==> old(rows) != old(cols) || !CopyBackFits(Births(old(cells[..]), old(rows), old(cols)))
      ensures outcome.Returns? ==>
                var fl := Births(old(cells[..]), old(rows), old(cols));
                && outcome.value == 1
                && Valid()
                && rows == GrownRows(old(rows), fl) && cols == GrownCols(old(cols), fl)
                && tlCellPosX == old(tlCellPosX) - (Bit(fl.growLeft) as int)
                && tlCellPosY == old(tlCellPosY) - (Bit(fl.growTop) as int)
                && cells[..] == CopiedCells(old(cells[..]), old(rows), fl)
                && LeftMargin(cellsNext[..], old(cells[..]), old(rows), fl)
    {
      ghost var g, n := cells[..], rows;
      var scan := Scan();
      if scan.Crashes? {
        return Crashes(scan.fault);
      }
      var fl := scan.value;
      GrowCells(fl);
      var fault := CopyBack(g, n, fl);
      if fault.Some? {
        return Crashes(fault.value);
      }
      GrowNext(fl, g, n);
      return Returns(1);
    }

    /**
     * worldToggleCell: the cell worldCell(cellPosX, cellPosY) addresses flips
     * between dead and live; a NULL from worldCell leaves the grid unchanged.
     */
    method ToggleCell(cellPosX: int, cellPosY: int)
      requires Valid()
      modifies cells
      ensures Valid()
      ensures cells[..] == Toggled(old(cells[..]), rows, cols, cellPosX, cellPosY)
    {
      var p := CellSlot(rows, cols, cellPosX, cellPosY);
      if p.None? {
        return;
      }
      if cells[p.value] != 0 {
        cells[p.value] := 0;
      } else {
        cells[p.value] := 1;
      }
    }

    /**
     * worldLoadFromFile: reads at most MAX_WORLD_FILE_BYTES - 1 bytes of the
     * file and stores its digits into the existing grid, stopping at the first
     * byte it rejects and never reading the last byte. It returns 1 when no
     * byte was rejected and the file was not empty, 0 otherwise, and keeps the
     * stores made before a rejection. The dimensions and the origin do not change.
     */
    method LoadFromFile(file: Option<seq<byte>>) returns (loaded: int)
      requires Valid()
      modifies cells
      ensures Valid()
      ensures var b := FileContents(file, MAX_WORLD_FILE_BYTES);
              && (loaded == 0 || loaded == 1)
              && (loaded == 1 <==> |b| > 0 && forall i :: 0 <= i < |b| - 1 ==> !Rejects(b, rows, cols, i))
              && cells[..] == LoadedCells(old(cells[..]), b, rows, cols, ParsedLength(b, rows, cols))
    {
      var contents := ReadFile(file, MAX_WORLD_FILE_BYTES);
      var bytes := |contents|;
      if bytes == 0 {
        return 0;
      }
      var isFirstRow := true;
      var colsPerRow := 0;
      var r := 0;
      var c := 0;
      var cellIndex := 0;
      ghost var g := cells[..];
      while cellIndex != bytes - 1
        invariant 0 <= cellIndex <= bytes - 1
        invariant c == Column(contents, cellIndex) && r == Row(contents, cellIndex)
        invariant isFirstRow <==> Width(contents, cellIndex).None?
        invariant !isFirstRow ==> colsPerRow == Width(contents, cellIndex).value
        invariant forall j :: 0 <= j < cellIndex ==> !Rejects(contents, rows, cols, j)
        invariant cells[..] == LoadedCells(g, contents, rows, cols, cellIndex)
        invariant Valid()
        decreases bytes - 1 - cellIndex
      {
        var cellChar := contents[cellIndex];
        cellIndex := cellIndex + 1;

        var cell := CellSlot(rows, cols, c, r);
        if cell.None? {
          ParsedLengthAtReject(contents, rows, cols, cellIndex - 1);
          return 0;
        }

        if cellChar == NEWLINE {
          if isFirstRow {
            isFirstRow := false;
            colsPerRow := c;
          }
          if c != colsPerRow {
            ParsedLengthAtReject(contents, rows, cols, cellIndex - 1);
            return 0;
          }
          r := r + 1;
          c := 0;
          continue;
        } else if cellChar == ONE {
          cells[cell.value] := 1;
        } else if cellChar == ZERO {
          cells[cell.value] := 0;
        } else {
          ParsedLengthAtReject(contents, rows, cols, cellIndex - 1);
          return 0;
        }
        c := c + 1;
      }
      return 1;
    }
  }
}
