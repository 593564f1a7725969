// The input stream a header is read from (std::istream), modelled as the bytes
// it delivers and a cursor into them.
module Streams {
  import opened Wrappers
  import opened ZipUtil

  class InputStream {
    const data: seq<byte>
    var pos: nat

    constructor (content: seq<byte>)
      ensures data == content && pos == 0
    {
      data := content;
      pos := 0;
    }

    /** The cursor (istream::tellg). */
    method Tell() returns (p: nat)
      ensures p == pos
    {
      p := pos;
    }

    /** Reads the next `n` bytes and advances the cursor past them (istream::read);
        a read past the end of the data yields nothing and leaves the cursor. */
    method Read(n: nat) returns (r: Option<seq<byte>>)
      modifies this`pos
      ensures old(pos) + n <= |data| ==> r == Some(data[old(pos)..old(pos) + n]) && pos == old(pos) + n
      ensures |data| < old(pos) + n ==> r == None && pos == old(pos)
    {
      if pos + n <= |data| {
        r := Some(data[pos..pos + n]);
        pos := pos + n;
      } else {
        r := None;
      }
    }

    /** Moves the cursor to `p`: the effect of code outside the model that consumes
        the stream (an entry's payload, its data descriptor, or a sync). */
    method SeekTo(p: nat)
      modifies this`pos
      ensures pos == p
    {
      pos := p;
    }
  }
}
