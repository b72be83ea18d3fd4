/**
 * The seeder's chunk server: how a file is cut into fixed-size chunks and how
 * one connection's request is answered. The file is the byte sequence on disk;
 * each accepted connection carries exactly one request and is then closed.
 */
module Seeder {
  import opened Wrappers
  import opened Text

  /** Chunk size in bytes, fixed for every peer. */
  const ChunkSize: nat := 512

  /** The registration datagram a seeder sends to the tracker when it starts. */
  function RegisterMessage(filename: string, port: int): string {
    "REGISTER_SEEDER " + filename + " " + IntToString(port)
  }

  /**
   * The advertised number of chunks, `max(1, size // 512 + 1)`. It is floor plus
   * one: chunks `0 .. n-1` cover the file, and the last one starts at or before
   * its end, so it is empty exactly when the size is a multiple of 512.
   */
  function ChunkCount(size: nat): (n: nat)
    ensures n >= 1
    ensures (n - 1) * ChunkSize <= size < n * ChunkSize
  {
    Max(1, size / ChunkSize + 1)
  }

  function Max(a: int, b: int): (m: int)
    ensures m >= a && m >= b && (m == a || m == b)
  {
    if a < b then b else a
  }

  /** Ceiling division, to compare the advertised count against. */
  function CeilDiv(a: nat, b: nat): nat
    requires b > 0
  {
    (a + b - 1) / b
  }

  /**
   * The count is one more than `ceil(size / 512)` when the size is a multiple of
   * 512 (an empty file included, which gets one chunk), and equal to it otherwise.
   */
  lemma ChunkCountVersusCeiling(size: nat)
    ensures size % ChunkSize == 0 ==> ChunkCount(size) == CeilDiv(size, ChunkSize) + 1
    ensures size % ChunkSize != 0 ==> ChunkCount(size) == CeilDiv(size, ChunkSize)
  {
    var q, r := size / ChunkSize, size % ChunkSize;
    assert size == q * ChunkSize + r;
    if r == 0 {
      assert (size + ChunkSize - 1) == q * ChunkSize + (ChunkSize - 1);
      assert CeilDiv(size, ChunkSize) == q;
    } else {
      assert (size + ChunkSize - 1) == (q + 1) * ChunkSize + (r - 1);
      assert CeilDiv(size, ChunkSize) == q + 1;
    }
  }

  function Min(a: int, b: int): int { if a < b then a else b }

  /**
   * Chunk `id`: seek to `id * 512` and read at most 512 bytes. Past the end of
   * the file the read is empty.
   */
  function Chunk(file: seq<byte>, id: nat): (c: seq<byte>)
    ensures |c| <= ChunkSize
    ensures |c| == if id * ChunkSize >= |file| then 0 else Min(ChunkSize, |file| - id * ChunkSize)
    ensures forall k :: 0 <= k < |c| ==> c[k] == file[id * ChunkSize + k]
  {
    var start := Min(id * ChunkSize, |file|);
    file[start .. Min(start + ChunkSize, |file|)]
  }

  /** The chunks `0 .. n-1` in order. */
  function Chunks(file: seq<byte>, n: nat): seq<seq<byte>> {
    seq(n, i requires 0 <= i < n => Chunk(file, i))
  }

  /** Chunks `0 .. n-1` laid end to end give the first `n * 512` bytes of the file. */
  lemma {:induction false} ChunksFormPrefix(file: seq<byte>, n: nat)
    ensures Flatten(Chunks(file, n)) == file[..Min(n * ChunkSize, |file|)]
  {
    if n > 0 {
      var cs := Chunks(file, n);
      assert cs[..n - 1] == Chunks(file, n - 1);
      ChunksFormPrefix(file, n - 1);
      var lo := Min((n - 1) * ChunkSize, |file|);
      var hi := Min(n * ChunkSize, |file|);
      assert cs[n - 1] == file[lo..hi];
      assert file[..lo] + file[lo..hi] == file[..hi];
    }
  }

  /** Reassembly: all advertised chunks, concatenated, are exactly the file. */
  lemma Reassemble(file: seq<byte>)
    ensures Flatten(Chunks(file, ChunkCount(|file|))) == file
  {
    ChunksFormPrefix(file, ChunkCount(|file|));
  }

  /**
   * What handling one connection ends with. In every case the connection is
   * closed afterwards; `Raised` is an exception that the handler catches and logs.
   */
  datatype Outcome = Ignored | Raised | Sent(data: seq<byte>)

  /** The reply to `GET_CHUNK_COUNT`: the count in decimal, as ASCII bytes. */
  function CountReply(count: nat): seq<byte> {
    AsciiBytes(NatToString(count))
  }

  /**
   * One connection: the request text is split on whitespace and dispatched.
   * Fewer than two tokens: nothing is sent. `GET_CHUNK_COUNT` is answered only
   * for the seeder's own file name. `GET_CHUNK` needs exactly three tokens and
   * serves the seeder's file whatever name it is given; an id that `int()`
   * rejects, or a negative one (a negative seek), raises. Whatever is sent is
   * the count reply or a piece of the file no longer than a chunk, and only a
   * chunk request can raise.
   */
  function HandleRequest(filename: string, file: seq<byte>, request: string): (o: Outcome)
    ensures o.Sent? ==> o.data == CountReply(ChunkCount(|file|)) || |o.data| <= ChunkSize
    ensures o.Raised? ==> var t := Split(request); |t| == 3 && t[0] == "GET_CHUNK"
  {
    var tokens := Split(request);
    if |tokens| < 2 then Ignored
    else if tokens[0] == "GET_CHUNK_COUNT" && tokens[1] == filename then
      Sent(CountReply(ChunkCount(|file|)))
    else if tokens[0] == "GET_CHUNK" && |tokens| == 3 then
      match ParseInt(tokens[2])
      case None => Raised
      case Some(id) => if id < 0 then Raised else Sent(Chunk(file, id))
    else Ignored
  }

  /**
   * The seeder answers exactly when the request has at least two tokens and is
   * either a count request naming its file, or a three-token chunk request whose
   * id is a non-negative integer.
   */
  lemma AnswersExactly(filename: string, file: seq<byte>, request: string)
    ensures var t := Split(request);
      HandleRequest(filename, file, request).Sent? <==>
        |t| >= 2 &&
        ((t[0] == "GET_CHUNK_COUNT" && t[1] == filename) ||
         (t[0] == "GET_CHUNK" && |t| == 3 && ParseInt(t[2]).Some? && ParseInt(t[2]).value >= 0))
  {
  }
}
