/**
 * The world file format worldLoadFromFile reads, as functions of the file's
 * bytes: lines of '0' (dead) and '1' (live) separated by '\n'. Byte i of the
 * file sits at a column and a row of the grid, and the loader rejects it when
 * worldCell gives NULL for that position, when it is a '\n' that ends a line
 * of another length than the first line, or when it is any other byte.
 */
module WorldFile {
  import opened Types
  import opened Grid

  const NEWLINE: byte := 10
  const ZERO: byte := 48
  const ONE: byte := 49

  /** The line byte i of `b` is on: the number of '\n' before it. */
  function Row(b: seq<byte>, i: nat): (r: nat)
    requires i <= |b|
    ensures r <= i
  {
    if i == 0 then 0
    else Row(b, i - 1) + (if b[i - 1] == NEWLINE then 1 else 0)
  }

  /** The column byte i of `b` is at: the number of bytes since the last '\n' before it. */
  function Column(b: seq<byte>, i: nat): (c: nat)
    requires i <= |b|
    ensures c <= i
  {
    if i == 0 then 0
    else if b[i - 1] == NEWLINE then 0
    else Column(b, i - 1) + 1
  }

  /** The length of the first line, once a '\n' before byte i has ended it. */
  function Width(b: seq<byte>, i: nat): (w: Option<nat>)
    requires i <= |b|
    ensures w.Some? ==> w.value < i
  {
    if i == 0 then None
    else if Width(b, i - 1).Some? then Width(b, i - 1)
    else if b[i - 1] == NEWLINE then Some(Column(b, i - 1))
    else None
  }

  /**
   * The loader stops at byte i of `b`, for i < |b| - 1 (it never reads the
   * last byte), on a grid of `rows` x `cols`: worldCell
   * has no cell at its column and row, or it is a '\n' ending a line whose
   * length differs from the first line's, or it is neither '0', '1' nor '\n'.
   */
  predicate Rejects(b: seq<byte>, rows: nat, cols: nat, i: nat): (rejected: bool)
    requires i < |b|
    ensures !rejected ==> (b[i] == NEWLINE || b[i] == ZERO || b[i] == ONE) && Column(b, i) < rows && Row(b, i) < cols
    ensures b[i] == ZERO || b[i] == ONE ==> (rejected <==> Column(b, i) >= rows || Row(b, i) >= cols)
  {
    || CellSlot(rows, cols, Column(b, i), Row(b, i)).None?
    || (b[i] == NEWLINE && Width(b, i).Some? && Column(b, i) != Width(b, i).value)
    || (b[i] != NEWLINE && b[i] != ZERO && b[i] != ONE)
  }

  /** The first byte from i on that the loader rejects, or the last byte of `b`, which it never reads. */
  function ParsedFrom(b: seq<byte>, rows: nat, cols: nat, i: nat): (n: nat)
    requires i < |b|
    requires forall j :: 0 <= j < i ==> !Rejects(b, rows, cols, j)
    ensures i <= n < |b|
    ensures forall j :: 0 <= j < n ==> !Rejects(b, rows, cols, j)
    ensures n < |b| - 1 ==> Rejects(b, rows, cols, n)
    decreases |b| - i
  {
    if i == |b| - 1 || Rejects(b, rows, cols, i) then i
    else ParsedFrom(b, rows, cols, i + 1)
  }

  /**
   * How many bytes the loader consumes before it stops: the index of the first
   * rejected byte, or |b| - 1 when there is none. It stops at once on an empty file.
   */
  function ParsedLength(b: seq<byte>, rows: nat, cols: nat): (n: nat)
    ensures |b| == 0 ==> n == 0
    ensures |b| > 0 ==> n < |b|
    ensures forall j :: 0 <= j < n ==> !Rejects(b, rows, cols, j)
    ensures n < |b| - 1 ==> Rejects(b, rows, cols, n)
  {
    if |b| == 0 then 0 else ParsedFrom(b, rows, cols, 0)
  }

  /** The loader stops at the first byte it rejects. */
  lemma ParsedLengthAtReject(b: seq<byte>, rows: nat, cols: nat, i: nat)
    requires i < |b| - 1 && Rejects(b, rows, cols, i)
    requires forall j :: 0 <= j < i ==> !Rejects(b, rows, cols, j)
    ensures ParsedLength(b, rows, cols) == i
  {
  }

  /** Byte j of `b` is a digit the loader stores at `k`, the slot worldCell gives for its position. */
  predicate StoresAt(b: seq<byte>, rows: nat, cols: nat, j: nat, k: nat)
    requires j < |b|
  {
    (b[j] == ZERO || b[j] == ONE) && CellSlot(rows, cols, Column(b, j), Row(b, j)) == Some(k)
  }

  /**
   * The cells after the loader has consumed the first i bytes of `b`: each
   * '0' or '1' stores 0 or 1 at the slot worldCell gives for its position. A
   * later byte storing at the same slot overwrites an earlier one.
   */
  ghost function LoadedCells(g: seq<byte>, b: seq<byte>, rows: nat, cols: nat, i: nat): (s: seq<byte>)
    requires i <= |b| && |g| == rows * cols && cols <= rows
    ensures |s| == |g|
  {
    if i == 0 then g
    else
      var s := LoadedCells(g, b, rows, cols, i - 1);
      var p := CellSlot(rows, cols, Column(b, i - 1), Row(b, i - 1));
      if (b[i - 1] == ZERO || b[i - 1] == ONE) && p.Some? then s[p.value := Bit(b[i - 1] == ONE)]
      else s
  }

  /**
   * A slot that no digit among the first i bytes stores at keeps its old byte;
   * in particular a failed load leaves every cell past the point of failure
   * alone, and it does not undo the stores made before it.
   */
  lemma {:induction false} LoadedCellsUntouched(g: seq<byte>, b: seq<byte>, rows: nat, cols: nat, i: nat, k: nat)
    requires i <= |b| && |g| == rows * cols && cols <= rows && k < |g|
    requires forall j :: 0 <= j < i ==> !StoresAt(b, rows, cols, j, k)
    ensures LoadedCells(g, b, rows, cols, i)[k] == g[k]
  {
    if i > 0 {
      assert !StoresAt(b, rows, cols, i - 1, k);
      LoadedCellsUntouched(g, b, rows, cols, i - 1, k);
    }
  }

  /**
   * A slot holds the digit of the last of the first i bytes that stores at it:
   * 1 for '1', 0 for '0'.
   */
  lemma {:induction false} LoadedCellsLastStore(g: seq<byte>, b: seq<byte>, rows: nat, cols: nat, i: nat, j: nat, k: nat)
    requires i <= |b| && |g| == rows * cols && cols <= rows
    requires j < i && StoresAt(b, rows, cols, j, k)
    requires forall j' :: j < j' < i ==> !StoresAt(b, rows, cols, j', k)
    ensures k < |g| && LoadedCells(g, b, rows, cols, i)[k] == Bit(b[j] == ONE)
  {
    if i - 1 > j {
      assert !StoresAt(b, rows, cols, i - 1, k);
      LoadedCellsLastStore(g, b, rows, cols, i - 1, j, k);
    }
  }

  /**
   * Scanning forward never revisits a position: a later byte is on a later
   * row, or on the same row as many columns further as it is bytes further.
   */
  lemma {:induction false} PositionsAdvance(b: seq<byte>, j: nat, j': nat)
    requires j < j' <= |b|
    ensures Row(b, j) < Row(b, j') || (Row(b, j) == Row(b, j') && Column(b, j') == Column(b, j) + (j' - j))
    decreases j'
  {
    if j' - 1 > j {
      PositionsAdvance(b, j, j' - 1);
    }
  }

  /**
   * On a square grid a successful load draws the file: the cell worldCell
   * gives for the position of every '0' or '1' the loader consumed holds that
   * digit, since no two bytes share a position and worldCell is one-to-one there.
   */
  lemma {:induction false} LoadDrawsFile(g: seq<byte>, b: seq<byte>, n: nat, i: nat, j: nat)
    requires i <= |b| && |g| == n * n
    requires forall j' :: 0 <= j' < i ==> !Rejects(b, n, n, j')
    requires j < i && (b[j] == ZERO || b[j] == ONE)
    ensures Column(b, j) < n && Row(b, j) < n
    ensures n * Row(b, j) + Column(b, j) < n * n
    ensures LoadedCells(g, b, n, n, i)[n * Row(b, j) + Column(b, j)] == Bit(b[j] == ONE)
  {
    assert !Rejects(b, n, n, j);
    DigitStoredLast(g, b, n, i, j);
  }

  /** The digit at byte j of a square-grid file is the last store at its slot. */
  lemma {:induction false} DigitStoredLast(g: seq<byte>, b: seq<byte>, n: nat, i: nat, j: nat)
    requires i <= |b| && |g| == n * n
    requires j < i && (b[j] == ZERO || b[j] == ONE) && Column(b, j) < n && Row(b, j) < n
    ensures n * Row(b, j) + Column(b, j) < n * n
    ensures LoadedCells(g, b, n, n, i)[n * Row(b, j) + Column(b, j)] == Bit(b[j] == ONE)
  {
    var k := n * Row(b, j) + Column(b, j);
    RowMajorBound(n, n, Column(b, j), Row(b, j));
    assert StoresAt(b, n, n, j, k);
    forall j' | j < j' < i
      ensures !StoresAt(b, n, n, j', k)
    {
      DistinctSlots(b, n, j, j');
    }
    LoadedCellsLastStore(g, b, n, n, i, j, k);
  }

  /** Two bytes of a file never share a slot of a square grid. */
  lemma DistinctSlots(b: seq<byte>, n: nat, j: nat, j': nat)
    requires j < j' < |b| && Column(b, j) < n
    ensures !StoresAt(b, n, n, j', n * Row(b, j) + Column(b, j))
  {
    if StoresAt(b, n, n, j', n * Row(b, j) + Column(b, j)) {
      PositionsAdvance(b, j, j');
      SlotInjective(n, Row(b, j), Column(b, j), Row(b, j'), Column(b, j'));
    }
  }

  /** Column, row and first-line width at byte i depend only on the bytes before it. */
  lemma {:induction false} PositionOfPrefix(b1: seq<byte>, b2: seq<byte>, i: nat)
    requires i <= |b1| && i <= |b2| && b1[..i] == b2[..i]
    ensures Row(b1, i) == Row(b2, i) && Column(b1, i) == Column(b2, i) && Width(b1, i) == Width(b2, i)
  {
    if i > 0 {
      assert b1[..i - 1] == b1[..i][..i - 1] && b2[..i - 1] == b2[..i][..i - 1];
      assert b1[i - 1] == b1[..i][i - 1] && b2[i - 1] == b2[..i][i - 1];
      PositionOfPrefix(b1, b2, i - 1);
    }
  }

  /** Two files that agree up to their last byte are consumed alike from byte i on. */
  lemma {:induction false} ParsedFromIgnoresLast(b1: seq<byte>, b2: seq<byte>, rows: nat, cols: nat, i: nat)
    requires |b1| == |b2| && i < |b1| && b1[..|b1| - 1] == b2[..|b2| - 1]
    requires forall j :: 0 <= j < i ==> !Rejects(b1, rows, cols, j)
    requires forall j :: 0 <= j < i ==> !Rejects(b2, rows, cols, j)
    ensures ParsedFrom(b1, rows, cols, i) == ParsedFrom(b2, rows, cols, i)
    decreases |b1| - i
  {
    if i < |b1| - 1 {
      assert b1[..i] == b2[..i] by {
        assert b1[..i] == b1[..|b1| - 1][..i] && b2[..i] == b2[..|b2| - 1][..i];
      }
      assert b1[i] == b1[..|b1| - 1][i] && b2[i] == b2[..|b2| - 1][i];
      PositionOfPrefix(b1, b2, i);
      if !Rejects(b1, rows, cols, i) {
        ParsedFromIgnoresLast(b1, b2, rows, cols, i + 1);
      }
    }
  }

  /** The cells after the first i bytes depend only on those bytes. */
  lemma {:induction false} LoadedCellsOfPrefix(g: seq<byte>, b1: seq<byte>, b2: seq<byte>, rows: nat, cols: nat, i: nat)
    requires |g| == rows * cols && cols <= rows
    requires i <= |b1| && i <= |b2| && b1[..i] == b2[..i]
    ensures LoadedCells(g, b1, rows, cols, i) == LoadedCells(g, b2, rows, cols, i)
  {
    if i > 0 {
      assert b1[..i - 1] == b1[..i][..i - 1] && b2[..i - 1] == b2[..i][..i - 1];
      assert b1[i - 1] == b1[..i][i - 1] && b2[i - 1] == b2[..i][i - 1];
      PositionOfPrefix(b1, b2, i - 1);
      LoadedCellsOfPrefix(g, b1, b2, rows, cols, i - 1);
    }
  }

  /**
   * The loader never reads the last byte of the file: two files that differ
   * only there are consumed to the same length and leave the same cells.
   */
  lemma LastByteIgnored(g: seq<byte>, b: seq<byte>, x: byte, y: byte, rows: nat, cols: nat)
    requires |g| == rows * cols && cols <= rows
    ensures ParsedLength(b + [x], rows, cols) == ParsedLength(b + [y], rows, cols)
    ensures LoadedCells(g, b + [x], rows, cols, ParsedLength(b + [x], rows, cols))
            == LoadedCells(g, b + [y], rows, cols, ParsedLength(b + [y], rows, cols))
  {
    var b1, b2 := b + [x], b + [y];
    assert b1[..|b1| - 1] == b == b2[..|b2| - 1];
    ParsedFromIgnoresLast(b1, b2, rows, cols, 0);
    var n := ParsedLength(b1, rows, cols);
    assert b1[..n] == b2[..n] by {
      assert b1[..n] == b[..n] && b2[..n] == b[..n];
    }
    LoadedCellsOfPrefix(g, b1, b2, rows, cols, n);
  }

  /** In a first line without '\n' byte i sits at column i of row 0. */
  lemma {:induction false} FirstLinePosition(b: seq<byte>, i: nat)
    requires i <= |b|
    requires forall j :: 0 <= j < i ==> b[j] != NEWLINE
    ensures Column(b, i) == i && Row(b, i) == 0 && Width(b, i).None?
  {
    if i > 0 {
      FirstLinePosition(b, i - 1);
    }
  }

  /**
   * worldCell's domain test covers the '\n' too: a first line of `rows` digits
   * puts its '\n' at column `rows`, where worldCell gives NULL, so the loader
   * stops there when more bytes follow. A file that is only that line and its
   * '\n' loads, because the last byte is never read (OneLineLoads).
   */
  lemma FullWidthLineRejected(b: seq<byte>, rows: nat, cols: nat)
    requires cols >= 1 && |b| > rows + 1 && b[rows] == NEWLINE
    requires forall j :: 0 <= j < rows ==> b[j] == ZERO || b[j] == ONE
    ensures Rejects(b, rows, cols, rows)
    ensures ParsedLength(b, rows, cols) == rows
  {
    forall j | 0 <= j < rows
      ensures !Rejects(b, rows, cols, j)
    {
      FirstLinePosition(b, j);
    }
    FirstLinePosition(b, rows);
    ParsedLengthAtReject(b, rows, cols, rows);
  }

  /**
   * A file holding one line of at most `rows` digits (followed by its unread
   * last byte) loads on any grid with a column.
   */
  lemma OneLineLoads(b: seq<byte>, rows: nat, cols: nat)
    requires 0 < |b| <= rows + 1 && cols >= 1
    requires forall j :: 0 <= j < |b| - 1 ==> b[j] == ZERO || b[j] == ONE
    ensures forall j :: 0 <= j < |b| - 1 ==> !Rejects(b, rows, cols, j)
  {
    forall j | 0 <= j < |b| - 1
      ensures !Rejects(b, rows, cols, j)
    {
      FirstLinePosition(b, j);
    }
  }
}
