/** The two C/C++ byte-stream interfaces the scanner reads files through,
    each reduced to its position in the file's bytes and its status. */
module Streams {
  import opened FileModel

  /** A `std::ifstream` opened in binary mode on a file that exists. */
  class InputFileStream {
    const data: Bytes
    var pos: nat
    var eofBit: bool
    var failBit: bool
    /** What `gcount()` returns: the bytes the last read extracted. */
    var count: nat

    ghost predicate Valid()
      reads this
    {
      pos <= |data|
    }

    constructor (content: Bytes)
      ensures Valid()
      ensures data == content && pos == 0 && !eofBit && !failBit && count == 0
    {
      data := content;
      pos, eofBit, failBit, count := 0, false, false, 0;
    }

    /** `good()`: no status bit is set. */
    predicate Good()
      reads this
    {
      !eofBit && !failBit
    }

    /** The stream's truth value, `!fail()`. */
    predicate Succeeded()
      reads this
    {
      !failBit
    }

    /** `read(buffer, n)`: returns the `count` bytes stored in the buffer. On a
        stream that is not good nothing is extracted and failbit is set; a read
        that meets the end of the file before `n` bytes sets eofbit and failbit;
        one that extracts exactly the remaining bytes sets neither. */
    method Read(n: nat) returns (chunk: Bytes)
      requires Valid()
      modifies this
      ensures Valid()
      ensures |chunk| == count
      ensures old(Good()) ==>
        var avail := |data| - old(pos);
        && chunk == data[old(pos)..old(pos) + (if n <= avail then n else avail)]
        && pos == old(pos) + |chunk|
        && eofBit == (avail < n) && failBit == (avail < n)
      ensures !old(Good()) ==>
        chunk == [] && pos == old(pos) && failBit && eofBit == old(eofBit)
    {
      if !Good() {
        chunk := [];
        failBit, count := true, 0;
      } else if pos + n <= |data| {
        chunk := data[pos..pos + n];
        pos, count := pos + n, n;
      } else {
        chunk := data[pos..];
        pos, count := |data|, |data| - pos;
        eofBit, failBit := true, true;
      }
    }
  }

  /** A C `FILE*` opened with `fopen(path, "rb")`. */
  class CFile {
    const data: Bytes
    var pos: nat

    ghost predicate Valid()
      reads this
    {
      pos <= |data|
    }

    constructor (content: Bytes)
      ensures Valid() && data == content && pos == 0
    {
      data, pos := content, 0;
    }

    /** `fread(buffer, 1, n, file)`: up to `n` bytes; fewer only at the end of
        the file, none once it is reached. */
    method Fread(n: nat) returns (chunk: Bytes)
      requires Valid()
      modifies this
      ensures Valid()
      ensures var avail := |data| - old(pos);
        chunk == data[old(pos)..old(pos) + (if n <= avail then n else avail)]
      ensures pos == old(pos) + |chunk|
    {
      if pos + n <= |data| {
        chunk := data[pos..pos + n];
      } else {
        chunk := data[pos..];
      }
      pos := pos + |chunk|;
    }
  }
}
