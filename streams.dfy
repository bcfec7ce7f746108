/** Java input streams as the field sees them: a finite byte sequence read from a
    position, in chunks whose size the stream chooses, ending either in end-of-file or,
    for a stream whose transport broke, in an I/O error. */
module Streams {
  import opened Types

  /** What a stream still has to give: the bytes before its end, and whether that end
      is an I/O error rather than end-of-file. */
  datatype Source = Source(available: Bytes, endsInError: bool)

  /** A read of `n` bytes from `src` either finds them all or runs into an I/O error;
      it never meets end-of-file first. */
  predicate CanSupply(src: Source, n: nat)
  {
    n <= |src.available| || src.endsInError
  }

  /** `InputStream.read`: -1, a chunk, or a thrown IOException. */
  datatype ReadResult = Eof | Chunk(bytes: Bytes) | IoError

  class InputStream {
    const content: Bytes
    const endsInError: bool
    var pos: nat

    ghost predicate Valid()
      reads this
    {
      pos <= |content|
    }

    function Remaining(): (src: Source)
      reads this
      requires Valid()
      ensures |src.available| == |content| - pos
    {
      Source(content[pos..], endsInError)
    }

    /** `new ByteArrayInputStream(content)` when `endsInError` is false. */
    constructor (content: Bytes, endsInError: bool)
      ensures Valid() && pos == 0
      ensures this.content == content && this.endsInError == endsInError
    {
      this.content := content;
      this.endsInError := endsInError;
      pos := 0;
    }

    /** `read(buff, 0, n)`: blocks until at least one byte, end-of-file or an error;
        how many of the `n` requested bytes arrive is the stream's choice. */
    method Read(n: nat) returns (r: ReadResult)
      requires Valid() && n > 0
      modifies this
      ensures Valid()
      ensures old(pos) == |content| ==> pos == old(pos) && r == (if endsInError then IoError else Eof)
      ensures old(pos) < |content| ==>
        r.Chunk? && old(pos) < pos <= old(pos) + n && r.bytes == content[old(pos)..pos]
    {
      if pos == |content| {
        r := if endsInError then IoError else Eof;
      } else {
        var k :| 1 <= k <= n && pos + k <= |content|;
        r := Chunk(content[pos..pos + k]);
        pos := pos + k;
      }
    }
  }

  /** The remaining bytes of a nullable stream; `None` for the null stream. */
  function SourceOf(s: InputStream?): (src: Option<Source>)
    reads s
    requires s != null ==> s.Valid()
    ensures src.None? <==> s == null
  {
    if s == null then None else Some(s.Remaining())
  }
}
