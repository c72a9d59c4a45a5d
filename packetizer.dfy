/**
 * How the sender cuts the input file into payloads: every send step performs
 * one `read` of MAX_PAYLOAD_LENGTH bytes at the stream's current position and
 * takes `gcount()` as the payload length. A short read (fewer bytes than
 * requested, possibly none) marks the last data datagram.
 */
module Packetizer {
  import opened Datagrams

  function Min(a: int, b: int): int
  {
    if a < b then a else b
  }

  /**
   * One `read` at position `pos`: the bytes that follow `pos`, as many as
   * requested or as many as remain. The read is short exactly when it reaches
   * the end of the file.
   */
  function Read(file: seq<byte>, pos: nat): (chunk: seq<byte>)
    requires pos <= |file|
    ensures |chunk| <= MAX_PAYLOAD_LENGTH
    ensures pos + |chunk| <= |file| && chunk == file[pos..pos + |chunk|]
    ensures |chunk| < MAX_PAYLOAD_LENGTH <==> pos + |chunk| == |file| && pos + MAX_PAYLOAD_LENGTH > |file|
  {
    file[pos..Min(pos + MAX_PAYLOAD_LENGTH, |file|)]
  }

  /** The payload of the `k`-th read (counting from 0) when every earlier read was full. */
  function Chunk(file: seq<byte>, k: nat): seq<byte>
  {
    Read(file, Min(MAX_PAYLOAD_LENGTH * k, |file|))
  }

  /**
   * Number of data datagrams the sender produces for `file`: one per full
   * read, plus the final short one (which is empty when the file length is a
   * multiple of MAX_PAYLOAD_LENGTH).
   */
  function DataCount(file: seq<byte>): nat
  {
    |file| / MAX_PAYLOAD_LENGTH + 1
  }

  /** The payloads of the first `n` reads, concatenated in order. */
  function Assembled(file: seq<byte>, n: nat): seq<byte>
  {
    if n == 0 then [] else Assembled(file, n - 1) + Chunk(file, n - 1)
  }

  /**
   * Every read before the last one is full; the last one carries the
   * remainder of the file, so it is the first and only short read.
   */
  lemma ChunkLength(file: seq<byte>, k: nat)
    requires k < DataCount(file)
    ensures |Chunk(file, k)| == if k + 1 < DataCount(file) then MAX_PAYLOAD_LENGTH else |file| % MAX_PAYLOAD_LENGTH
    ensures |Chunk(file, k)| < MAX_PAYLOAD_LENGTH <==> k + 1 == DataCount(file)
  {
    var q, r := |file| / MAX_PAYLOAD_LENGTH, |file| % MAX_PAYLOAD_LENGTH;
    assert |file| == MAX_PAYLOAD_LENGTH * q + r;
    if k < q {
      assert MAX_PAYLOAD_LENGTH * k + MAX_PAYLOAD_LENGTH <= MAX_PAYLOAD_LENGTH * q;
    } else {
      assert k == q;
    }
  }

  /**
   * The file length is a multiple of MAX_PAYLOAD_LENGTH exactly when the last
   * data datagram is empty, so such a file costs one extra empty data
   * datagram before the end-of-file datagram.
   */
  lemma ExactMultipleEndsWithEmptyChunk(file: seq<byte>)
    ensures |file| % MAX_PAYLOAD_LENGTH == 0 <==> Chunk(file, DataCount(file) - 1) == []
  {
    ChunkLength(file, DataCount(file) - 1);
  }

  /** The first `n` payloads are the first `n` * MAX_PAYLOAD_LENGTH bytes of the file, or all of it. */
  lemma {:induction false} AssembledIsPrefix(file: seq<byte>, n: nat)
    ensures Assembled(file, n) == file[..Min(MAX_PAYLOAD_LENGTH * n, |file|)]
  {
    if n > 0 {
      AssembledIsPrefix(file, n - 1);
      var lo := Min(MAX_PAYLOAD_LENGTH * (n - 1), |file|);
      var hi := Min(MAX_PAYLOAD_LENGTH * n, |file|);
      assert Chunk(file, n - 1) == file[lo..hi];
      assert file[..lo] + file[lo..hi] == file[..hi];
    }
  }

  /** Concatenating the payloads of all data datagrams gives back the file. */
  lemma ChunksReassemble(file: seq<byte>)
    ensures Assembled(file, DataCount(file)) == file
  {
    AssembledIsPrefix(file, DataCount(file));
    assert MAX_PAYLOAD_LENGTH * DataCount(file) >= |file|;
  }
}
