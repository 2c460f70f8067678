/**
 * readFile of fileio.c as far as worldLoadFromFile depends on it: how many
 * bytes of a file it hands back. The file system is a parameter: `None` is a
 * file that cannot be opened, `Some(f)` one whose bytes are `f`.
 */
module FileIO {
  import opened Types

  /**
   * The bytes readFile leaves in `contents` (and whose count it returns): none
   * when `maxBytes` is 0 or the file cannot be opened; otherwise the file up to
   * `maxBytes` - 1 bytes. With `maxBytes` = 1 the stop test `bytes == maxBytes - 1`
   * is checked only after a byte has been stored, so it never fires and the
   * whole file is read.
   */
  function FileContents(file: Option<seq<byte>>, maxBytes: nat): (contents: seq<byte>)
    ensures file.None? || maxBytes == 0 ==> contents == []
    ensures file.Some? ==> contents <= file.value
    ensures file.Some? && maxBytes >= 2 ==> |contents| == if |file.value| < maxBytes - 1 then |file.value| else maxBytes - 1
    ensures file.Some? && maxBytes == 1 ==> contents == file.value
  {
    if maxBytes == 0 || file.None? then []
    else if maxBytes == 1 || |file.value| <= maxBytes - 1 then file.value
    else file.value[..maxBytes - 1]
  }

  /** readFile: the fgetc loop, which stores each byte and stops once it has stored `maxBytes` - 1 of them. */
  method ReadFile(file: Option<seq<byte>>, maxBytes: nat) returns (contents: seq<byte>)
    ensures contents == FileContents(file, maxBytes)
  {
    if maxBytes == 0 {
      return [];
    }
    if file.None? {
      return [];
    }
    var f := file.value;
    contents := [];
    var bytes := 0;
    while bytes < |f|
      invariant bytes <= |f| && contents == f[..bytes]
      invariant maxBytes >= 2 ==> bytes < maxBytes - 1
    {
      contents := contents + [f[bytes]];
      bytes := bytes + 1;
      if bytes == maxBytes - 1 {
        break;
      }
    }
  }
}
