# Life world engine, modelled in Dafny

This project models the World of `world.c`, a Conway's Life simulator with rule
B3/S23. The grid grows by one cell on a side whenever a cell is born just
outside it. The model covers these parts:

- **State.** The grid is a row-major byte buffer `cells` of `rows` x `cols`. The
  next generation lives in `cellsNext`, which has a one-cell margin on every side
  (`cnRows` x `cnCols`). The top-left origin is `tlCellPosX`, `tlCellPosY`.
- **Construction.** `worldCreate` builds this state.
- **Accessors.** `isWithinDomain`, `worldCell` and `worldCellNext`.
- **Generation step.** `worldUpdate` scans, sets the growth flags, reallocates,
  copies back and clears, then grows the margin buffer.
- **Toggle.** `worldToggleCell`.
- **File loader.** `worldLoadFromFile`, together with the byte-count contract of
  `readFile` in `fileio.c`.

Modules:

- `Types`: bytes, `Option`, and the `Run` result.
- `Grid`: the pure address arithmetic, the Life rule, and a reference
  definition of the neighbour count.
- `Generation`: what one step computes, as functions of the grid before it.
- `WorldFile`: the file format the loader accepts, as functions of the file's
  bytes.
- `FileIO`: `readFile`.
- `WorldEngine`: the `World` class, whose methods follow the C loops statement
  by statement and are proved against the functions above.

What C does after a null dereference or a write past the end of a heap buffer
is undefined. The model stops at the first such operation and returns it as
`Crashes(fault)`. It does not describe any state after that point. The claims
below about which worlds are reachable rest on this choice.

## Behaviour of the code that the model reproduces

- **`worldCell` swaps its arguments.** It passes `(r, c)` to `isWithinDomain(c, r)`.
  It therefore accepts `x < rows` and `y < cols` but addresses slot `cols * y + x`
  (`Grid.CellSlot`). The answers agree with `isWithinDomain` only on a square grid
  (`Grid.CellSlotMatchesDomainIffSquare`). The slot stays inside the buffer only
  when `cols <= rows` (`Grid.CellSlotInBufferIff`).
- **The scan crashes on a non-square grid.** On such a grid, some in-domain
  neighbour read gets NULL from `worldCell`, and `worldUpdate` dereferences it
  (`WorldEngine.World.Scan`: it crashes exactly when `rows != cols`).
- **The growth flag names are crossed.** `grow_left` is raised by a birth in row
  -1, adds a row and decrements `tl_cell_pos_x`. `grow_top` is raised by a birth
  in column -1, adds a column and decrements `tl_cell_pos_y`. The model keeps the
  code's names (`Generation.Growth`).
- **The copy back transposes both accessors.** It calls `worldCell(r, c)` and
  `worldCellNext(r - grow_top, c - grow_left)`.
  - When the grid stays square, the two swaps cancel. The new cell at column x,
    row y is then the next state of old position (x - growTop, y - growLeft)
    (`Generation.CopiedCellsSquare`).
  - Otherwise the copy back crashes unless `Generation.CopyBackFits` holds
    (`Generation.CopyBackFitsIff`).
  - So the only non-square grid a step can leave behind is one row taller than
    it is wide. One example is a 20 x 20 grid whose only births outside it are in
    row -1. The next step on that grid crashes in the scan. Every world reachable
    without a crash therefore has `cols <= rows <= cols + 1` (part of `World.Valid`).
  - A step that adds a row but no column leaves part of the new last row
    unwritten. Those cells hold whatever `realloc` left there. The model takes
    them to be 0 (see `WorldEngine.World.Update` under "Left out").
- **Every margin slot the copy back reads is reset to 0.** Slots it does not read
  keep the scan's value (`Generation.LeftMargin`).
- **The loader writes into the existing grid.** It never reads the last byte of
  the file. It fails at the first position `worldCell` rejects, which includes the
  position of a `'\n'`. Because of that, a first line of `rows` digits that has more
  bytes after it fails at its newline (`WorldFile.FullWidthLineRejected`). On a
  square grid that is a line as long as the grid is wide. A file that is only that
  line and its '\n' loads, because the last byte is never read (`WorldFile.OneLineLoads`). A failure does not undo the cells already written.
- **`world.h` disagrees with `world.c`.** It declares a `struct World` without the
  margin buffer and `void` return types. The model follows `world.c`.
- **Growth is one cell per side.** A step grows the grid by exactly one cell on
  each flagged side and never by more (`Generation.GrownRows`,
  `Generation.GrownCols`).
- **Toggling uses grid coordinates.** `worldToggleCell` takes grid coordinates and
  does not translate them by the origin.
- **Loading never grows the grid.** `worldLoadFromFile` only writes into the grid
  that already exists.
- **Saving does nothing.** `worldSaveToFile` is a stub that returns 1.

## Model

| member | source | states |
|---|---|---|
| Types.Bit | world.c:83-99 | the byte the scan stores is 1 exactly for a live next state and 0 otherwise |
| Grid.WithinDomain | world.c:47-49 | a position is in the domain only of a non-empty grid; its agreement with worldCell is stated by Grid.CellSlotMatchesDomainIffSquare |
| Grid.CellSlot | world.c:160-171 | worldCell answers exactly for 0 <= x < rows and 0 <= y < cols (arguments transposed); the slot is in the buffer when cols <= rows |
| Grid.NextSlot | world.c:173-189 | worldCellNext answers exactly for -1 <= x < cnCols - 1 and -1 <= y < cnRows - 1, at a slot inside the margin buffer |
| Grid.LifeRule | world.c:83-84 | a cell lives next iff it has 3 live neighbours, or it is live with 2; a live next state implies 2 or 3 neighbours |
| Grid.LiveNeighbourCountBound | world.c:72-81 | the neighbour count excludes the centre and is at most 8 |
| Grid.NoBirthBeyondRing | world.c:63-65 | no position two or more cells outside the grid has a live neighbour or is born, so the ring [-1, cols] x [-1, rows] finds every birth |
| Grid.CellSlotMatchesDomainIffSquare | world.c:160-171 | worldCell answers on exactly the isWithinDomain positions iff rows == cols |
| Grid.CellSlotInBufferIff | world.c:169-170 | every slot worldCell returns is inside the rows*cols buffer iff cols <= rows |
| Grid.CellSlotInjectiveIff | world.c:169-170 | for cols >= 2, worldCell gives distinct positions distinct slots iff rows <= cols |
| Grid.CellSlotSquare | world.c:160-171 | on a square grid worldCell addresses every in-domain cell at its row-major slot |
| Generation.Births | world.c:88-95 | each flag is raised iff some position of its row (-1 or rows) or its column (-1 or cols) is born |
| Generation.BirthsBeforeStep | world.c:83-95 | scanning one position raises exactly the flags its own birth calls for and keeps the raised ones |
| Generation.GrownRows | world.c:107 | the row count grows by one for each of growLeft and growRight: at most two, none iff neither is raised, two iff both are |
| Generation.GrownCols | world.c:108 | the column count grows by one for each of growTop and growBottom: at most two, none iff neither is raised, two iff both are |
| Generation.Resized | world.c:109 | realloc keeps the common prefix, and the slots past the old end are zero |
| Generation.ScannedNextStep | world.c:83-100 | storing the next state of one position extends the scanned margin without overwriting an earlier store |
| Generation.StoreKeepsOtherRows | world.c:85-99 | a store at the slot of position (c, r) leaves the margin bytes of every other row unchanged |
| Generation.NextAfterReadsStart | world.c:122 | before the copy back the margin buffer holds the whole scan |
| Generation.NextAfterReadsStep | world.c:124-127 | each copy-back iteration reads the scanned next state of old position (r - growTop, c - growLeft), which no earlier iteration cleared, and clears it |
| Generation.ResizedMargin | world.c:132-140 | reallocating the margin buffer after the copy back keeps the cleared and unread slots and zeroes the new tail |
| Generation.CopyBackFitsIff | world.c:122-129 | every copy-back iteration stays inside both buffers iff CopyBackFits holds for the raised flags |
| Generation.CopyBackCellsSquareAt | world.c:122-129 | on a grid that stays square, a cell holds its shifted next state once its iteration has run and its old byte before that |
| Generation.CopiedCellsSquare | world.c:122-129 | on a grid that stays square, the new cell at column x, row y is the next state of old position (x - growTop, y - growLeft) |
| WorldEngine.Realloc | world.c:109 | the reallocated buffer is fresh and holds the resized contents |
| WorldEngine.Toggled | world.c:145-158 | the cell worldCell addresses flips between 0 and non-zero; every other cell is kept; a NULL from worldCell changes nothing |
| WorldEngine.ToggleTwice | world.c:145-158 | toggling keeps cells at 0 or 1, and toggling the same position twice restores the grid |
| WorldEngine.ToggleFlipsOnlyItsCell | world.c:145-158 | on a square grid toggling flips exactly the in-domain cell at (x, y) and no other |
| WorldEngine.World.Create | world.c:17-26 | a 20 x 20 all-dead grid, an all-dead 22 x 22 margin buffer, origin (0, 0) and the world invariant |
| WorldEngine.World.CountLiveNeighbours | world.c:72-81 | returns the live neighbour count; crashes (NULL) only on a non-square grid and never on a square one |
| WorldEngine.World.NextStateAt | world.c:67-84 | returns the Life rule applied to the cell and its count; crashes on a non-square grid when reading an in-domain cell in row cols or below |
| WorldEngine.World.StoreNext | world.c:85-99 | changes exactly the worldCellNext slot of (c, r), to 1 or 0, and so extends the scanned margin by one position and keeps every other row |
| WorldEngine.World.ScanRow | world.c:65-101 | one scan row stores every next state, leaves the margin bytes of every other row unchanged and raises exactly that row's flags; it crashes on row cols of a non-square grid |
| WorldEngine.World.Scan | world.c:63-102 | crashes iff the grid is not square; otherwise returns the Births flags and fills the margin with the next state of every ring position |
| WorldEngine.World.GrowCells | world.c:105-119 | rows grow by growLeft + growRight and cols by growTop + growBottom; cells are reallocated; the origin x drops by growLeft and y by growTop |
| WorldEngine.World.CopyBack | world.c:122-129 | completes iff CopyBackFits; then the cells are the shifted next generation and every slot read is cleared |
| WorldEngine.World.CopyBackRow | world.c:123-128 | one copy-back row moves each read next state into the cell buffer and clears it, or reports the NULL read or the overflowing write |
| WorldEngine.World.MoveCell | world.c:124-127 | one copy-back iteration moves the scanned next state of old position (r - growTop, c - growLeft) into cell slot worldCell(r, c) and clears the margin byte it read |
| WorldEngine.World.GrowNext | world.c:132-140 | the margin dimensions grow by the same flags and the reallocated margin is LeftMargin |
| WorldEngine.World.Update | world.c:51-143 | crashes iff the grid is not square or the copy back does not fit; otherwise returns 1, keeps the world invariant, grows by the Births flags, moves the origin and leaves the copied cells and the cleared margin |
| WorldEngine.World.ToggleCell | world.c:145-158 | the grid becomes Toggled at (cellPosX, cellPosY); the dimensions and the invariant are kept |
| WorldEngine.World.LoadFromFile | world.c:191-245 | returns 1 iff the contents are non-empty and no byte before the last is rejected, else 0; the cells are the stores of the bytes before the first rejection |
| WorldFile.Rejects | world.c:211-238 | a byte that is accepted is '0', '1' or '\n' at a position worldCell answers for; a digit is rejected exactly when worldCell gives NULL for its position |
| WorldFile.ParsedLength | world.c:207-239 | the loader consumes exactly the bytes before the first rejected one, or all but the last byte |
| WorldFile.ParsedLengthAtReject | world.c:211-238 | the loader stops at the first rejected byte |
| WorldFile.LoadedCellsUntouched | world.c:191-245 | a slot no consumed digit stores at keeps its old byte, and earlier stores are not undone |
| WorldFile.LoadedCellsLastStore | world.c:232-235 | a slot holds the value of the last consumed digit that stores at it |
| WorldFile.PositionsAdvance | world.c:217-241 | later bytes sit on a later line, or further right on the same line |
| WorldFile.LoadDrawsFile | world.c:191-245 | on a square grid every consumed '0' or '1' is inside the grid and its cell holds that digit afterwards |
| WorldFile.LastByteIgnored | world.c:207 | the last byte of the file does not affect how far the loader gets or the cells it leaves |
| WorldFile.FullWidthLineRejected | world.c:211-215 | a first line of `rows` digits followed by more bytes is rejected at its newline, and the loader consumes exactly those `rows` digits |
| WorldFile.OneLineLoads | world.c:202-244 | a single line of at most `rows` digits with any final byte loads without rejection |
| FileIO.FileContents | fileio.c:5-31 | nothing for max_bytes 0 or an unopenable file; otherwise a prefix of the file of min(size, max_bytes - 1) bytes, and the whole file for max_bytes 1 |
| FileIO.ReadFile | fileio.c:16-30 | the fgetc loop returns exactly FileContents |

## Left out

- `Generation.Resized`, `WorldEngine.Realloc`: the bytes `realloc` adds past the old end are indeterminate in C; the model takes them to be zero.
- WorldEngine.World.Update: its cells rest on `WorldEngine.Realloc` zeroing the new tail. A step that grows the rows by one and the columns by none on an n x n grid writes only slots up to n * n in the copy back. Slots n * n + 1 to n * n + n - 1, which are columns 1 to n - 1 of the new last row, are never written. In C they hold indeterminate bytes, and in the model they hold 0. `World.Valid`'s "cells are 0 or 1" holds after such a step only because of this.
- `malloc`, `calloc` and `realloc` failure paths (world.c:11-15, 28-32, 110-113, 136-139) are not modelled: allocation is taken to succeed, so `worldUpdate` never returns 0.
- `fprintf` logging is not modelled. It has no effect on the state.
- `update_rate` and `timeNow` (world.c:17-18) are not modelled. They are wall-clock, floating-point state.
- `worldDestroy` is not modelled. Freeing memory has no counterpart in Dafny.
- `worldSaveToFile` is a stub that returns 1 without writing anything, so it has no behaviour to state.
- `worldPrint` is not modelled. It only writes to standard output.
- File-system access in `readFile` (`fopen`, `fgetc`) is replaced by a parameter: `None` is a file that cannot be opened, `Some(bytes)` is its contents. The NUL terminator that `readFile` writes is not modelled, because the loader never reads it.
- `int` and `unsigned` arithmetic is modelled as unbounded. The grid grows by at most two cells per step, so 32-bit wrap-around is not reached in any realistic run.
- `main.c`, the window, renderer, time control and matrix code are not part of this model. They are OpenGL, GLFW and floating-point code.
- WorldEngine.World.NextStateAt: when it reports a crash, it states only that the grid is not square; it does not name which read failed.
