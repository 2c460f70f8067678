/** Value types shared by the world engine model. */
module Types {

  /** An `unsigned char` / `char` of the C source. */
  newtype byte = b: int | 0 <= b < 256

  /** A pointer that may be NULL: `None` is NULL, `Some(i)` addresses slot `i` of a buffer. */
  datatype Option<+T> = None | Some(value: T)

  /** The ways a C function of the world engine can stop the process instead of returning. */
  datatype Fault =
    | NullDereference     // a NULL pointer returned by worldCell / worldCellNext is dereferenced
    | OutOfBoundsWrite    // a store through a pointer past the end of the cell buffer

  /** The outcome of running a C function: it returns a value, or it crashes. */
  datatype Run<+T> = Returns(value: T) | Crashes(fault: Fault)

  /** The byte 1 for a live cell and 0 for a dead one, as the engine stores cells. */
  function Bit(alive: bool): (b: byte)
    ensures b <= 1 && (b == 1 <==> alive)
  {
    if alive then 1 else 0
  }

  /** Every byte of `s` is 0 or 1. */
  ghost predicate Binary(s: seq<byte>)
  {
    forall k :: 0 <= k < |s| ==> s[k] <= 1
  }
}
