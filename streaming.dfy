/**
 * The body of the download response: `generate()` reads the downloaded
 * file in 8192-byte chunks until a read comes back empty, yielding each
 * chunk. The file is an in-memory byte sequence behind a reader object
 * whose position every read advances, as a Python file object's does.
 */
module Streaming {

  newtype byte = x: int | 0 <= x < 256

  const ChunkSize: nat := 8192

  /** A file opened with `open(path, 'rb')`: fixed contents and a read position. */
  class FileReader {
    const contents: seq<byte>
    var pos: nat

    ghost predicate Valid()
      reads this
    {
      pos <= |contents|
    }

    constructor (data: seq<byte>)
      ensures Valid() && contents == data && pos == 0
    {
      contents := data;
      pos := 0;
    }

    /** `f.read(n)`: up to `n` bytes from the position on; empty only at end of file (or for `n == 0`). */
    method Read(n: nat) returns (chunk: seq<byte>)
      requires Valid()
      modifies this
      ensures Valid()
      ensures chunk == old(contents[pos..if pos + n <= |contents| then pos + n else |contents|])
      ensures pos == old(pos) + |chunk|
    {
      var stop := if pos + n <= |contents| then pos + n else |contents|;
      chunk := contents[pos..stop];
      pos := stop;
    }
  }

  /** The bytes of a chunk sequence laid end to end: what the client receives. */
  function Concat(chunks: seq<seq<byte>>): seq<byte> {
    if |chunks| == 0 then [] else Concat(chunks[..|chunks| - 1]) + chunks[|chunks| - 1]
  }

  /**
   * Lines 140-145: the chunks `generate()` yields for a file. None is
   * empty, none exceeds 8192 bytes, all but the last are exactly 8192
   * bytes, and together they are the file, byte for byte.
   */
  method Generate(data: seq<byte>) returns (chunks: seq<seq<byte>>)
    ensures forall i :: 0 <= i < |chunks| ==> 0 < |chunks[i]| <= ChunkSize
    ensures forall i :: 0 <= i < |chunks| - 1 ==> |chunks[i]| == ChunkSize
    ensures Concat(chunks) == data
  {
    var f := new FileReader(data);
    chunks := [];
    while true
      invariant f.Valid() && f.contents == data
      invariant Concat(chunks) == data[..f.pos]
      invariant forall i :: 0 <= i < |chunks| ==> 0 < |chunks[i]| <= ChunkSize
      invariant forall i :: 0 <= i < |chunks| - 1 ==> |chunks[i]| == ChunkSize
      invariant |chunks| > 0 && |chunks[|chunks| - 1]| < ChunkSize ==> f.pos == |data|
      decreases |data| - f.pos
    {
      var chunk := f.Read(ChunkSize);
      if |chunk| == 0 {
        break;
      }
      assert data[..f.pos] == data[..f.pos - |chunk|] + chunk;
      ghost var before := chunks;
      chunks := chunks + [chunk];
      assert chunks[..|chunks| - 1] == before;
    }
    assert data[..|data|] == data;
  }
}
