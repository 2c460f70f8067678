/**
 * What one call of worldUpdate computes, as functions of the grid before the
 * call: the four growth flags the scan raises, the grown dimensions, when
 * the shifted copy back into the grown buffer stays inside its buffers, and
 * the cells it leaves behind.
 *
 * The scan only completes on a square grid (see Grid.CellSlotMatchesDomainIffSquare),
 * so the copy back always starts from an `n` x `n` grid `g` and an
 * `(n + 2)` x `(n + 2)` next buffer.
 */
module Generation {
  import opened Types
  import opened Grid

  /**
   * The growth flags of worldUpdate under their names in the code. The names
   * are crossed with what they detect: growLeft is raised by a birth in row -1
   * and adds a row, growTop by a birth in column -1 and adds a column.
   */
  datatype Growth = Growth(growLeft: bool, growRight: bool, growTop: bool, growBottom: bool)
  {
    /** The grid grows at all. */
    predicate Any()
    {
      growLeft || growRight || growTop || growBottom
    }
  }

  /** Position (c', r') comes before (c, r) in the scan order: rows outer, columns inner. */
  predicate ScannedBefore(c': int, r': int, c: int, r: int)
  {
    r' < r || (r' == r && c' < c)
  }

  /** Some position of grid row `row` in columns -1 to k - 1 is live in the next generation. */
  ghost predicate BornInRow(g: seq<byte>, rows: nat, cols: nat, row: int, k: int)
    requires |g| == rows * cols && k >= -1
    decreases k + 1
  {
    k > -1 && (BornInRow(g, rows, cols, row, k - 1) || NextState(g, rows, cols, k - 1, row))
  }

  /** Some position of grid column `col` in rows -1 to k - 1 is live in the next generation. */
  ghost predicate BornInColumn(g: seq<byte>, rows: nat, cols: nat, col: int, k: int)
    requires |g| == rows * cols && k >= -1
    decreases k + 1
  {
    k > -1 && (BornInColumn(g, rows, cols, col, k - 1) || NextState(g, rows, cols, col, k - 1))
  }

  /** BornInRow holds exactly when one of the positions it covers is born. */
  lemma {:induction false} BornInRowIff(g: seq<byte>, rows: nat, cols: nat, row: int, k: int)
    requires |g| == rows * cols && k >= -1
    ensures BornInRow(g, rows, cols, row, k) <==> exists c :: -1 <= c < k && NextState(g, rows, cols, c, row)
    decreases k + 1
  {
    if k > -1 {
      BornInRowIff(g, rows, cols, row, k - 1);
      if NextState(g, rows, cols, k - 1, row) {
        assert -1 <= k - 1 < k;
      }
    }
  }

  /** BornInColumn holds exactly when one of the positions it covers is born. */
  lemma {:induction false} BornInColumnIff(g: seq<byte>, rows: nat, cols: nat, col: int, k: int)
    requires |g| == rows * cols && k >= -1
    ensures BornInColumn(g, rows, cols, col, k) <==> exists r :: -1 <= r < k && NextState(g, rows, cols, col, r)
    decreases k + 1
  {
    if k > -1 {
      BornInColumnIff(g, rows, cols, col, k - 1);
      if NextState(g, rows, cols, col, k - 1) {
        assert -1 <= k - 1 < k;
      }
    }
  }

  /**
   * The flags the scan of a `rows` x `cols` grid has raised once it reaches
   * position (c, r), rows outer and columns inner: a cell scanned so far is
   * born in row -1 (growLeft), row `rows` (growRight), column -1 (growTop)
   * or column `cols` (growBottom).
   */
  ghost function BirthsBefore(g: seq<byte>, rows: nat, cols: nat, c: int, r: int): Growth
    requires |g| == rows * cols && -1 <= c <= cols + 1 && -1 <= r
  {
    Growth(
      if r == -1 then BornInRow(g, rows, cols, -1, c) else BornInRow(g, rows, cols, -1, cols + 1),
      if r < rows then false else if r == rows then BornInRow(g, rows, cols, rows, c) else BornInRow(g, rows, cols, rows, cols + 1),
      BornInColumn(g, rows, cols, -1, r) || (c > -1 && NextState(g, rows, cols, -1, r)),
      BornInColumn(g, rows, cols, cols, r) || (c > cols && NextState(g, rows, cols, cols, r)))
  }

  /** The flags a complete scan of the ring [-1, cols] x [-1, rows] raises. */
  ghost function Births(g: seq<byte>, rows: nat, cols: nat): (fl: Growth)
    requires |g| == rows * cols
    ensures fl.growLeft <==> exists c :: -1 <= c <= cols && NextState(g, rows, cols, c, -1)
    ensures fl.growRight <==> exists c :: -1 <= c <= cols && NextState(g, rows, cols, c, rows)
    ensures fl.growTop <==> exists r :: -1 <= r <= rows && NextState(g, rows, cols, -1, r)
    ensures fl.growBottom <==> exists r :: -1 <= r <= rows && NextState(g, rows, cols, cols, r)
  {
    BornInRowIff(g, rows, cols, -1, cols + 1);
    BornInRowIff(g, rows, cols, rows, cols + 1);
    BornInColumnIff(g, rows, cols, -1, rows + 1);
    BornInColumnIff(g, rows, cols, cols, rows + 1);
    BirthsBefore(g, rows, cols, -1, rows + 1)
  }

  /**
   * Scanning position (c, r) raises exactly the flags of its own birth: a
   * born cell in row -1 raises growLeft, in row `rows` growRight, in column
   * -1 growTop and in column `cols` growBottom.
   */
  lemma {:induction false} BirthsBeforeStep(g: seq<byte>, rows: nat, cols: nat, c: int, r: int)
    requires |g| == rows * cols
    requires -1 <= c <= cols && -1 <= r <= rows
    ensures var before, after, born := BirthsBefore(g, rows, cols, c, r), BirthsBefore(g, rows, cols, c + 1, r), NextState(g, rows, cols, c, r);
            && (after.growLeft <==> before.growLeft || (born && r == -1))
            && (after.growRight <==> before.growRight || (born && r == rows))
            && (after.growTop <==> before.growTop || (born && c == -1))
            && (after.growBottom <==> before.growBottom || (born && c == cols))
  {
  }

  /** Finishing row r of the scan and starting row r + 1 have scanned the same positions. */
  lemma {:induction false} BirthsBeforeNextRow(g: seq<byte>, rows: nat, cols: nat, r: int)
    requires |g| == rows * cols && -1 <= r
    ensures BirthsBefore(g, rows, cols, cols + 1, r) == BirthsBefore(g, rows, cols, -1, r + 1)
  {
  }

  /**
   * The row count after the step: one more for each of growLeft and growRight,
   * so at most two more, and unchanged exactly when neither is raised.
   */
  function GrownRows(rows: nat, fl: Growth): (rows': nat)
    ensures rows <= rows' <= rows + 2
    ensures rows' == rows <==> !fl.growLeft && !fl.growRight
    ensures rows' == rows + 2 <==> fl.growLeft && fl.growRight
  {
    rows + Bit(fl.growLeft) as int + Bit(fl.growRight) as int
  }

  /**
   * The column count after the step: one more for each of growTop and
   * growBottom, so at most two more, and unchanged exactly when neither is raised.
   */
  function GrownCols(cols: nat, fl: Growth): (cols': nat)
    ensures cols <= cols' <= cols + 2
    ensures cols' == cols <==> !fl.growTop && !fl.growBottom
    ensures cols' == cols + 2 <==> fl.growTop && fl.growBottom
  {
    cols + Bit(fl.growTop) as int + Bit(fl.growBottom) as int
  }

  /**
   * realloc to `size` slots: the common prefix keeps its bytes; the slots past
   * the old end are taken to be zero.
   */
  ghost function Resized(s: seq<byte>, size: nat): (t: seq<byte>)
    ensures |t| == size
    ensures forall k :: 0 <= k < size && k < |s| ==> t[k] == s[k]
    ensures forall k :: |s| <= k < size ==> t[k] == 0
  {
    seq(size, k requires 0 <= k < size => if k < |s| then s[k] else 0)
  }

  /**
   * Iteration (r, c) of the copy-back loop: it reads the next buffer at
   * worldCellNext(r - growTop, c - growLeft), computed with the old
   * `(n + 2)` x `(n + 2)` dimensions, and writes the grown cell buffer at
   * worldCell(r, c). Both calls get their arguments transposed. The
   * iteration fits when the read is not NULL and the write lands in the buffer.
   */
  ghost predicate IterationFits(n: nat, fl: Growth, r: int, c: int)
  {
    var rows', cols' := GrownRows(n, fl), GrownCols(n, fl);
    && NextSlot(n + 2, n + 2, r - (Bit(fl.growTop) as int), c - (Bit(fl.growLeft) as int)).Some?
    && CellSlot(rows', cols', r, c).Some?
    && CellSlot(rows', cols', r, c).value < rows' * cols'
  }

  /**
   * The copy back completes exactly when: the rows grow by at most one more
   * than growTop, the columns grow by at most one more than growLeft, and the
   * columns grow no more than the rows.
   */
  ghost predicate CopyBackFits(fl: Growth)
  {
    var rowGrowth, colGrowth := (Bit(fl.growLeft) as int) + (Bit(fl.growRight) as int), (Bit(fl.growTop) as int) + (Bit(fl.growBottom) as int);
    rowGrowth <= (Bit(fl.growTop) as int) + 1 && colGrowth <= (Bit(fl.growLeft) as int) + 1 && colGrowth <= rowGrowth
  }

  /** The byte iteration (r, c) of the copy back moves: the next state of old position (r - growTop, c - growLeft). */
  ghost function CopiedValue(g: seq<byte>, n: nat, fl: Growth, r: int, c: int): byte
    requires |g| == n * n
  {
    Bit(NextState(g, n, n, r - (Bit(fl.growTop) as int), c - (Bit(fl.growLeft) as int)))
  }

  /**
   * The cell buffer after the copy-back iterations before (r, c) in loop
   * order (rows r outer, columns c inner), starting from `s0`. A write past
   * the end of the buffer is left out; CopyBackFits rules it out.
   */
  ghost function CopyBackCells(s0: seq<byte>, g: seq<byte>, n: nat, fl: Growth, r: nat, c: nat): (s: seq<byte>)
    requires |g| == n * n
    requires r <= GrownRows(n, fl) && c <= GrownCols(n, fl) && (c > 0 ==> r < GrownRows(n, fl))
    ensures |s| == |s0|
    decreases r, c
  {
    if c > 0 then
      var s := CopyBackCells(s0, g, n, fl, r, c - 1);
      var k := GrownCols(n, fl) * (c - 1) + r;
      if 0 <= k < |s| then s[k := CopiedValue(g, n, fl, r, c - 1)] else s
    else if r > 0 then
      CopyBackCells(s0, g, n, fl, r - 1, GrownCols(n, fl))
    else
      s0
  }

  /** The cell buffer worldUpdate leaves: the old cells, reallocated, then every copy-back iteration. */
  ghost function CopiedCells(g: seq<byte>, n: nat, fl: Growth): (s: seq<byte>)
    requires |g| == n * n
    ensures |s| == GrownRows(n, fl) * GrownCols(n, fl)
  {
    var rows', cols' := GrownRows(n, fl), GrownCols(n, fl);
    CopyBackCells(Resized(g, rows' * cols'), g, n, fl, rows', 0)
  }

  /**
   * The byte at position (c, r) of the margin buffer of a grid `cols` wide,
   * addressed as worldCellNext does; -1 past its end.
   */
  ghost function MarginAt(next: seq<byte>, cols: nat, c: int, r: int): int
  {
    var k := (cols + 2) * (r + 1) + (c + 1);
    if 0 <= k < |next| then next[k] as int else -1
  }

  /**
   * The margin buffer holds 1 or 0 for the next state of every position of
   * the ring [-1, cols] x [-1, rows] of grid `g` scanned before (c, r).
   */
  ghost predicate ScannedNextBefore(next: seq<byte>, g: seq<byte>, rows: nat, cols: nat, c: int, r: int)
    requires |g| == rows * cols
  {
    forall c', r' {:trigger MarginAt(next, cols, c', r')} :: -1 <= c' <= cols && -1 <= r' <= rows && ScannedBefore(c', r', c, r) ==>
      MarginAt(next, cols, c', r') == Bit(NextState(g, rows, cols, c', r')) as int
  }

  /** The margin buffer after the whole scan: the next state of every position of the ring. */
  ghost predicate ScannedNext(next: seq<byte>, g: seq<byte>, rows: nat, cols: nat)
    requires |g| == rows * cols
  {
    ScannedNextBefore(next, g, rows, cols, -1, rows + 1)
  }

  /**
   * Storing the next state of position (c, r) at its worldCellNext slot
   * extends what the margin buffer holds to (c + 1, r): distinct positions
   * of the ring have distinct slots, so no earlier store is overwritten.
   */
  lemma {:induction false} ScannedNextStep(next: seq<byte>, g: seq<byte>, rows: nat, cols: nat, c: int, r: int)
    requires |g| == rows * cols && |next| == (rows + 2) * (cols + 2)
    requires -1 <= c <= cols && -1 <= r <= rows
    requires ScannedNextBefore(next, g, rows, cols, c, r)
    ensures var k := (cols + 2) * (r + 1) + (c + 1);
            && 0 <= k < |next|
            && ScannedNextBefore(next[k := Bit(NextState(g, rows, cols, c, r))], g, rows, cols, c + 1, r)
  {
    var w := cols + 2;
    var k := w * (r + 1) + (c + 1);
    RowMajorBound(w, rows + 2, c + 1, r + 1);
    var next' := next[k := Bit(NextState(g, rows, cols, c, r))];
    var c1 := c + 1;
    forall c', r' | -1 <= c' <= cols && -1 <= r' <= rows && ScannedBefore(c', r', c1, r)
      ensures MarginAt(next', cols, c', r') == Bit(NextState(g, rows, cols, c', r')) as int
    {
      if (c', r') != (c, r) {
        assert MarginAt(next, cols, c', r') == Bit(NextState(g, rows, cols, c', r')) as int;
        MarginSlotsDistinct(w, c', r', c, r);
      }
    }
  }

  /** A store at the slot of position (c, r) leaves the margin bytes of every other row as they were. */
  lemma {:induction false} StoreKeepsOtherRows(next: seq<byte>, cols: nat, c: int, r: int, v: byte)
    requires -1 <= c <= cols && 0 <= (cols + 2) * (r + 1) + (c + 1) < |next|
    ensures var k := (cols + 2) * (r + 1) + (c + 1);
            forall c', r' :: -1 <= c' <= cols && r' != r ==> MarginAt(next[k := v], cols, c', r') == MarginAt(next, cols, c', r')
  {
    var k := (cols + 2) * (r + 1) + (c + 1);
    forall c', r' | -1 <= c' <= cols && r' != r
      ensures MarginAt(next[k := v], cols, c', r') == MarginAt(next, cols, c', r')
    {
      MarginSlotsDistinct(cols + 2, c', r', c, r);
    }
  }

  /** Finishing row r of the scan and starting row r + 1 have filled the same slots. */
  lemma {:induction false} ScannedNextNextRow(next: seq<byte>, g: seq<byte>, rows: nat, cols: nat, r: int)
    requires |g| == rows * cols
    requires ScannedNextBefore(next, g, rows, cols, cols + 1, r)
    ensures ScannedNextBefore(next, g, rows, cols, -1, r + 1)
  {
  }

  /**
   * Old position (c', r') of the margin buffer has been read by a copy-back
   * iteration before (r, c): the one that reads it is (c' + growTop, r' + growLeft).
   */
  ghost predicate ReadBefore(n: nat, fl: Growth, r: int, c: int, c': int, r': int)
  {
    var r2, c2 := c' + (Bit(fl.growTop) as int), r' + (Bit(fl.growLeft) as int);
    0 <= r2 < GrownRows(n, fl) && 0 <= c2 < GrownCols(n, fl) && (r2 < r || (r2 == r && c2 < c))
  }

  /**
   * The margin buffer of an `n` x `n` grid `g` after the copy-back iterations
   * before (r, c): every slot already read is 0, every other one still holds
   * the next state the scan put there.
   */
  ghost predicate NextAfterReads(next: seq<byte>, g: seq<byte>, n: nat, fl: Growth, r: int, c: int)
    requires |g| == n * n
  {
    forall c', r' {:trigger MarginAt(next, n, c', r')} :: -1 <= c' <= n && -1 <= r' <= n ==> MarginAt(next, n, c', r') == MarginAfterReads(g, n, fl, r, c, c', r')
  }

  /** The value NextAfterReads demands at old position (c', r'): 0 once read, the scanned next state before. */
  ghost function MarginAfterReads(g: seq<byte>, n: nat, fl: Growth, r: int, c: int, c': int, r': int): int
    requires |g| == n * n
  {
    if ReadBefore(n, fl, r, c, c', r') then 0 else Bit(NextState(g, n, n, c', r')) as int
  }

  /** Before the first copy-back iteration the margin buffer still holds everything the scan stored. */
  lemma {:induction false} NextAfterReadsStart(next: seq<byte>, g: seq<byte>, n: nat, fl: Growth)
    requires |g| == n * n && ScannedNext(next, g, n, n)
    ensures NextAfterReads(next, g, n, fl, 0, 0)
  {
  }

  /**
   * Copy-back iteration (r, c) reads the scan's next state of old position
   * (r - growTop, c - growLeft), which no earlier iteration has cleared, and
   * clearing that slot extends NextAfterReads to (r, c + 1).
   */
  lemma {:induction false} NextAfterReadsStep(next: seq<byte>, g: seq<byte>, n: nat, fl: Growth, r: int, c: int)
    requires |g| == n * n && |next| == (n + 2) * (n + 2)
    requires 0 <= r < GrownRows(n, fl) && 0 <= c < GrownCols(n, fl)
    requires NextSlot(n + 2, n + 2, r - (Bit(fl.growTop) as int), c - (Bit(fl.growLeft) as int)).Some?
    requires NextAfterReads(next, g, n, fl, r, c)
    ensures var k := NextSlot(n + 2, n + 2, r - (Bit(fl.growTop) as int), c - (Bit(fl.growLeft) as int)).value;
            && next[k] == CopiedValue(g, n, fl, r, c)
            && NextAfterReads(next[k := 0], g, n, fl, r, c + 1)
  {
    var w := n + 2;
    var x, y := r - (Bit(fl.growTop) as int), c - (Bit(fl.growLeft) as int);
    var k := NextSlot(w, w, x, y).value;
    assert MarginAt(next, n, x, y) == Bit(NextState(g, n, n, x, y)) as int;
    var next' := next[k := 0];
    var c1 := c + 1;
    forall c', r' | -1 <= c' <= n && -1 <= r' <= n
      ensures MarginAt(next', n, c', r') == MarginAfterReads(g, n, fl, r, c1, c', r')
    {
      assert MarginAt(next, n, c', r') == MarginAfterReads(g, n, fl, r, c, c', r');
      ReadBeforeStep(n, fl, r, c, c', r');
      if (c', r') != (x, y) {
        MarginSlotsDistinct(w, c', r', x, y);
      }
    }
  }

  /** Iteration (r, c) of the copy back reads old position (c', r') exactly when that position is (r - growTop, c - growLeft). */
  lemma ReadBeforeStep(n: nat, fl: Growth, r: int, c: int, c': int, r': int)
    requires 0 <= r < GrownRows(n, fl) && 0 <= c < GrownCols(n, fl)
    ensures ReadBefore(n, fl, r, c + 1, c', r') <==>
            ReadBefore(n, fl, r, c, c', r') || (c' == r - (Bit(fl.growTop) as int) && r' == c - (Bit(fl.growLeft) as int))
  {
  }

  /** Distinct positions of a margin buffer `w` slots wide have distinct slots. */
  lemma MarginSlotsDistinct(w: nat, c1: int, r1: int, c2: int, r2: int)
    requires -1 <= c1 < w - 1 && -1 <= c2 < w - 1
    requires (c1, r1) != (c2, r2)
    ensures w * (r1 + 1) + (c1 + 1) != w * (r2 + 1) + (c2 + 1)
  {
    if w * (r1 + 1) + (c1 + 1) == w * (r2 + 1) + (c2 + 1) {
      SlotInjective(w, r1 + 1, c1 + 1, r2 + 1, c2 + 1);
    }
  }

  /** Finishing copy-back row r and starting row r + 1 have cleared the same slots. */
  lemma {:induction false} NextAfterReadsNextRow(next: seq<byte>, g: seq<byte>, n: nat, fl: Growth, r: int)
    requires |g| == n * n
    requires NextAfterReads(next, g, n, fl, r, GrownCols(n, fl))
    ensures NextAfterReads(next, g, n, fl, r + 1, 0)
  {
    var r1, cols' := r + 1, GrownCols(n, fl);
    forall c', r' | -1 <= c' <= n && -1 <= r' <= n
      ensures MarginAt(next, n, c', r') == MarginAfterReads(g, n, fl, r1, 0, c', r')
    {
      assert MarginAt(next, n, c', r') == MarginAfterReads(g, n, fl, r, cols', c', r');
    }
  }

  /**
   * The margin buffer worldUpdate leaves, reallocated to `size` bytes: the
   * read positions of the old layout are 0, the unread ones keep the scan's
   * next state, and the bytes past the old end are 0.
   */
  ghost predicate LeftMargin(next: seq<byte>, g: seq<byte>, n: nat, fl: Growth)
    requires |g| == n * n
  {
    && (n + 2) * (n + 2) <= |next|
    && NextAfterReads(next, g, n, fl, GrownRows(n, fl), 0)
    && forall k :: (n + 2) * (n + 2) <= k < |next| ==> next[k] == 0
  }

  /** Reallocating the margin buffer to the grown size after the copy back gives LeftMargin. */
  lemma {:induction false} ResizedMargin(next: seq<byte>, g: seq<byte>, n: nat, fl: Growth)
    requires |g| == n * n && |next| == (n + 2) * (n + 2)
    requires NextAfterReads(next, g, n, fl, GrownRows(n, fl), 0)
    ensures LeftMargin(Resized(next, (GrownRows(n, fl) + 2) * (GrownCols(n, fl) + 2)), g, n, fl)
  {
    var w, rows', cols' := n + 2, GrownRows(n, fl) + 2, GrownCols(n, fl) + 2;
    MulMonotone(w, w, cols');
    MulMonotone(cols', w, rows');
    var t := Resized(next, rows' * cols');
    forall c', r' | -1 <= c' <= n && -1 <= r' <= n
      ensures MarginAt(t, n, c', r') == MarginAfterReads(g, n, fl, GrownRows(n, fl), 0, c', r')
    {
      assert MarginAt(next, n, c', r') == MarginAfterReads(g, n, fl, GrownRows(n, fl), 0, c', r');
      RowMajorBound(w, w, c' + 1, r' + 1);
    }
  }

  /**
   * Every iteration of the copy back fits if and only if CopyBackFits holds:
   * more row growth reads past the last column of the next buffer, more
   * column growth past its last row, and a grid left wider than tall makes
   * worldCell's transposed slot run past the end of the cell buffer.
   */
  lemma {:induction false} CopyBackFitsIff(n: nat, fl: Growth)
    requires n >= 1
    ensures CopyBackFits(fl) <==>
            forall r, c :: 0 <= r < GrownRows(n, fl) && 0 <= c < GrownCols(n, fl) ==> IterationFits(n, fl, r, c)
  {
    var rows', cols' := GrownRows(n, fl), GrownCols(n, fl);
    var gl, gt := Bit(fl.growLeft) as int, Bit(fl.growTop) as int;
    if CopyBackFits(fl) {
      forall r, c | 0 <= r < rows' && 0 <= c < cols'
        ensures IterationFits(n, fl, r, c)
      {
        TransposedSlotBound(rows', cols', r, c);
      }
    } else if rows' - n > gt + 1 {
      assert !IterationFits(n, fl, rows' - 1, 0);
    } else if cols' - n > gl + 1 {
      assert !IterationFits(n, fl, 0, cols' - 1);
    } else {
      assert rows' < cols';
      var r, c := rows' - 1, cols' - 1;
      assert cols' * c + r >= rows' * cols' by {
        assert cols' * c + r == cols' * cols' - cols' + rows' - 1;
        assert cols' * cols' - rows' * cols' == cols' * (cols' - rows');
        MulMonotone(cols', 1, cols' - rows');
      }
      assert !IterationFits(n, fl, r, c);
    }
  }

  /**
   * On a grid that stays square the copy back is a shifted copy: after the
   * iterations before (r, c), cell (X, Y) holds the next state of old
   * position (X - growTop, Y - growLeft) if its iteration has run and its
   * old byte otherwise, because worldCell's transposed arguments and the
   * transposed loop order cancel.
   */
  lemma {:induction false} CopyBackCellsSquareAt(s0: seq<byte>, g: seq<byte>, n: nat, fl: Growth, r: nat, c: nat, x: int, y: int)
    requires |g| == n * n
    requires GrownRows(n, fl) == GrownCols(n, fl)
    requires |s0| == GrownRows(n, fl) * GrownRows(n, fl)
    requires r <= GrownRows(n, fl) && c <= GrownCols(n, fl) && (c > 0 ==> r < GrownRows(n, fl))
    requires 0 <= x < GrownRows(n, fl) && 0 <= y < GrownRows(n, fl)
    ensures var m := GrownRows(n, fl);
            0 <= m * y + x < m * m &&
            CopyBackCells(s0, g, n, fl, r, c)[m * y + x] ==
              if x < r || (x == r && y < c) then CopiedValue(g, n, fl, x, y) else s0[m * y + x]
    decreases r, c
  {
    var m := GrownRows(n, fl);
    RowMajorBound(m, m, x, y);
    if c > 0 {
      CopyBackCellsSquareAt(s0, g, n, fl, r, c - 1, x, y);
      RowMajorBound(m, m, r, c - 1);
      if m * y + x == m * (c - 1) + r {
        SlotInjective(m, y, x, c - 1, r);
      }
    } else if r > 0 {
      CopyBackCellsSquareAt(s0, g, n, fl, r - 1, m, x, y);
    }
  }

  /**
   * When a step leaves the grid square, the cell at column x, row y of the
   * new grid is the next state of old position (x - growTop, y - growLeft):
   * the copy back shifts right by one column for a birth in column -1 and
   * down by one row for a birth in row -1.
   */
  lemma {:induction false} CopiedCellsSquare(g: seq<byte>, n: nat, fl: Growth, x: int, y: int)
    requires |g| == n * n
    requires GrownRows(n, fl) == GrownCols(n, fl)
    requires 0 <= x < GrownRows(n, fl) && 0 <= y < GrownRows(n, fl)
    ensures var m := GrownRows(n, fl);
            0 <= m * y + x < m * m &&
            CopiedCells(g, n, fl)[m * y + x] == CopiedValue(g, n, fl, x, y)
  {
    var m := GrownRows(n, fl);
    var s0 := Resized(g, m * m);
    assert CopiedCells(g, n, fl) == CopyBackCells(s0, g, n, fl, m, 0);
    CopyBackCellsSquareAt(s0, g, n, fl, m, 0, x, y);
  }
}
