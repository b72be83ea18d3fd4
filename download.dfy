/**
 * The scratch download script: ask the tracker for seeders of one file, fetch
 * every chunk from every listed seeder over one connection each, appending to
 * one shared list, then write the list out. Connection success is the
 * parameter `connects`; what a seeder sends back for a request is
 * `exchange(address, request)`, assumed to arrive whole.
 */
module Download {
  import opened Wrappers
  import opened Text
  import opened Peers

  /** How the script ends: it exits early, an exception escapes, or the output file is written. */
  datatype Outcome = NoSeeders | Crashed | Written(name: string, contents: seq<byte>)

  /** The request for the chunk count. */
  function ChunkCountRequest(filename: string): string {
    "GET_CHUNK_COUNT " + filename
  }

  /** The request for chunk `id`. */
  function ChunkRequest(filename: string, id: nat): string {
    "GET_CHUNK " + filename + " " + NatToString(id)
  }

  /** The name of the output file. */
  function OutputName(filename: string): string {
    "downloaded_" + filename
  }

  /** The seeder tokens: every token of the (possibly cut) reply after the first. */
  function SeederList(reply: string): (seeders: seq<string>)
    ensures AllWords(seeders)
  {
    var tokens := Split(Take(reply, RecvSize));
    SplitGivesWords(Take(reply, RecvSize));
    if tokens == [] then [] else tokens[1..]
  }

  /** The replies to chunk requests `0 .. total-1`, in that order. */
  function ChunksFrom(a: Address, filename: string, total: nat, exchange: (Address, string) -> seq<byte>): (cs: seq<seq<byte>>)
    ensures |cs| == total
    ensures forall k :: 0 <= k < total ==> cs[k] == exchange(a, ChunkRequest(filename, k))
  {
    seq(total, k requires 0 <= k < total => exchange(a, ChunkRequest(filename, k)))
  }

  /**
   * Everything fetched from one seeder token, or None where the script would
   * raise: a token that is not `ip:port`, a failed connection, or a count reply
   * that is not an integer. A count that is not positive fetches nothing.
   * What is fetched comes from the token's address, which accepted the
   * connection: its answers to the requests for chunks `0, 1, ...` in order.
   */
  function FetchFrom(token: string, filename: string, connects: Address -> bool,
                     exchange: (Address, string) -> seq<byte>): (r: Option<seq<seq<byte>>>)
    ensures r.Some? ==> ParseAddress(token).Some? && connects(ParseAddress(token).value)
    ensures r.Some? ==> forall k :: 0 <= k < |r.value| ==>
      r.value[k] == exchange(ParseAddress(token).value, ChunkRequest(filename, k))
  {
    match ParseAddress(token)
    case None => None
    case Some(a) =>
      if !connects(a) then None
      else match AsciiText(exchange(a, ChunkCountRequest(filename)))
        case None => None
        case Some(text) =>
          match ParseInt(text)
          case None => None
          case Some(total) => Some(ChunksFrom(a, filename, if total < 0 then 0 else total, exchange))
  }

  /** The shared list after visiting the seeders in order, or None if some visit raised. */
  function FetchAll(seeders: seq<string>, filename: string, connects: Address -> bool,
                    exchange: (Address, string) -> seq<byte>): (r: Option<seq<seq<byte>>>)
    ensures r.Some? ==> seeders != [] ==> FetchFrom(seeders[|seeders| - 1], filename, connects, exchange).Some?
    decreases |seeders|
  {
    if seeders == [] then Some([])
    else
      var init, last := seeders[..|seeders| - 1], seeders[|seeders| - 1];
      match FetchAll(init, filename, connects, exchange)
      case None => None
      case Some(before) =>
        match FetchFrom(last, filename, connects, exchange)
        case None => None
        case Some(more) => Some(before + more)
  }

  /**
   * What the script does with a tracker reply: it drops the reply's first token
   * and reports that there are no seeders exactly when no token is left or the
   * next one, the reply's second token, is `NO_SEEDERS`. The tracker's own
   * `NO_SEEDERS` reply is a single token, so it exits through the first test,
   * never the second. The script writes only under the output file's fixed name.
   */
  function Script(filename: string, reply: string, connects: Address -> bool,
                   exchange: (Address, string) -> seq<byte>): (o: Outcome)
    ensures o.NoSeeders? <==> SeederList(reply) == [] || SeederList(reply)[0] == "NO_SEEDERS"
    ensures o.Written? ==> o.name == OutputName(filename)
  {
    var seeders := SeederList(reply);
    if seeders == [] || seeders[0] == "NO_SEEDERS" then NoSeeders
    else match FetchAll(seeders, filename, connects, exchange)
      case None => Crashed
      case Some(chunks) => Written(OutputName(filename), Flatten(chunks))
  }

  /** The output file is written only when every listed seeder was visited without an error. */
  lemma ScriptWritesAfterEveryVisit(filename: string, reply: string, connects: Address -> bool,
                                    exchange: (Address, string) -> seq<byte>)
    requires Script(filename, reply, connects, exchange).Written?
    ensures var seeders := SeederList(reply);
      forall i :: 0 <= i < |seeders| ==> FetchFrom(seeders[i], filename, connects, exchange).Some?
  {
    FetchAllVisitsEach(SeederList(reply), filename, connects, exchange);
  }

  /** When the visits succeed, every seeder's visit succeeded on its own. */
  lemma FetchAllVisitsEach(seeders: seq<string>, filename: string, connects: Address -> bool,
                            exchange: (Address, string) -> seq<byte>)
    requires FetchAll(seeders, filename, connects, exchange).Some?
    ensures forall i :: 0 <= i < |seeders| ==> FetchFrom(seeders[i], filename, connects, exchange).Some?
  {
    forall k | 0 <= k < |seeders| ensures FetchFrom(seeders[k], filename, connects, exchange).Some? {
      if FetchFrom(seeders[k], filename, connects, exchange).None? {
        FetchAllPrefix(seeders, k, filename, connects, exchange);
        CrashIsFinal(seeders, k + 1, filename, connects, exchange);
        assert false;
      }
    }
  }

  /** When every seeder's visit succeeds on its own, so do the visits in turn. */
  lemma {:induction false} EachVisitFetchesAll(seeders: seq<string>, filename: string, connects: Address -> bool,
                                               exchange: (Address, string) -> seq<byte>)
    requires forall i :: 0 <= i < |seeders| ==> FetchFrom(seeders[i], filename, connects, exchange).Some?
    ensures FetchAll(seeders, filename, connects, exchange).Some?
    decreases |seeders|
  {
    if seeders != [] {
      var init := seeders[..|seeders| - 1];
      forall i | 0 <= i < |init| ensures FetchFrom(init[i], filename, connects, exchange).Some? {
        assert init[i] == seeders[i];
      }
      EachVisitFetchesAll(init, filename, connects, exchange);
    }
  }

  /**
   * The body of the per-seeder loop: connect to one seeder token, ask for the
   * count, then append chunks `0 .. total-1` to the shared list in place.
   * None where the script raises.
   */
  method AppendFrom(chunks: seq<seq<byte>>, token: string, filename: string, connects: Address -> bool,
                    exchange: (Address, string) -> seq<byte>) returns (result: Option<seq<seq<byte>>>)
    ensures FetchFrom(token, filename, connects, exchange).None? ==> result.None?
    ensures FetchFrom(token, filename, connects, exchange).Some? ==>
              result == Some(chunks + FetchFrom(token, filename, connects, exchange).value)
  {
    var address := ParseAddress(token);
    if address.None? {
      return None;
    }
    var a := address.value;
    if !connects(a) {
      return None;
    }
    var countText := AsciiText(exchange(a, ChunkCountRequest(filename)));
    if countText.None? {
      return None;
    }
    var total := ParseInt(countText.value);
    if total.None? {
      return None;
    }
    // `range(total)` is empty for a negative count
    var n: nat := if total.value < 0 then 0 else total.value;
    var shared := chunks;
    var id := 0;
    while id < n
      invariant id <= n
      invariant shared == chunks + ChunksFrom(a, filename, id, exchange)
    {
      var chunk := exchange(a, ChunkRequest(filename, id));
      ChunksFromSnoc(a, filename, id, exchange);
      shared := shared + [chunk];
      id := id + 1;
    }
    return Some(shared);
  }

  /** The write loop: the chunks are written one after another, in append order. */
  method WriteOut(chunks: seq<seq<byte>>) returns (written: seq<byte>)
    ensures written == Flatten(chunks)
  {
    written := [];
    var k := 0;
    while k < |chunks|
      invariant 0 <= k <= |chunks|
      invariant written == Flatten(chunks[..k])
    {
      assert chunks[..k + 1][..k] == chunks[..k];
      written := written + chunks[k];
      k := k + 1;
    }
    assert chunks[..k] == chunks;
  }

  /**
   * The script itself: one shared list, never reset, grown seeder by seeder in
   * list order, then written out. An exception ends the script before anything
   * is written.
   */
  method Run(filename: string, reply: string, connects: Address -> bool,
             exchange: (Address, string) -> seq<byte>) returns (out: Outcome)
    ensures out == Script(filename, reply, connects, exchange)
  {
    var seeders := SeederList(reply);
    if seeders == [] || seeders[0] == "NO_SEEDERS" {
      return NoSeeders;
    }
    var chunks: seq<seq<byte>> := [];
    var i := 0;
    while i < |seeders|
      invariant 0 <= i <= |seeders|
      invariant FetchAll(seeders[..i], filename, connects, exchange) == Some(chunks)
    {
      FetchAllPrefix(seeders, i, filename, connects, exchange);
      var grown := AppendFrom(chunks, seeders[i], filename, connects, exchange);
      if grown.None? {
        CrashIsFinal(seeders, i + 1, filename, connects, exchange);
        return Crashed;
      }
      chunks := grown.value;
      i := i + 1;
    }
    assert seeders[..i] == seeders;
    var written := WriteOut(chunks);
    return Written(OutputName(filename), written);
  }

  lemma ChunksFromSnoc(a: Address, filename: string, n: nat, exchange: (Address, string) -> seq<byte>)
    ensures ChunksFrom(a, filename, n + 1, exchange) == ChunksFrom(a, filename, n, exchange) + [exchange(a, ChunkRequest(filename, n))]
  {
  }

  /** The list after the first `i + 1` seeders, in terms of the list after the first `i`. */
  lemma FetchAllPrefix(seeders: seq<string>, i: nat, filename: string, connects: Address -> bool,
                       exchange: (Address, string) -> seq<byte>)
    requires i < |seeders|
    ensures FetchAll(seeders[..i + 1], filename, connects, exchange) ==
      match FetchAll(seeders[..i], filename, connects, exchange)
      case None => None
      case Some(before) =>
        match FetchFrom(seeders[i], filename, connects, exchange)
        case None => None
        case Some(more) => Some(before + more)
  {
    var longer := seeders[..i + 1];
    assert longer[..|longer| - 1] == seeders[..i];
  }

  /** Once a visit has raised, the later seeders are never visited. */
  lemma {:induction false} CrashIsFinal(seeders: seq<string>, n: nat, filename: string,
                                        connects: Address -> bool, exchange: (Address, string) -> seq<byte>)
    requires n <= |seeders| && FetchAll(seeders[..n], filename, connects, exchange).None?
    ensures FetchAll(seeders, filename, connects, exchange).None?
    decreases |seeders| - n
  {
    if n < |seeders| {
      var longer := seeders[..n + 1];
      assert longer[..|longer| - 1] == seeders[..n];
      CrashIsFinal(seeders, n + 1, filename, connects, exchange);
    } else {
      assert seeders[..n] == seeders;
    }
  }

  /** Visiting one more seeder appends what it yields to what the earlier ones yielded. */
  lemma FetchAllSnoc(seeders: seq<string>, filename: string, connects: Address -> bool,
                     exchange: (Address, string) -> seq<byte>)
    requires seeders != []
    requires FetchAll(seeders[..|seeders| - 1], filename, connects, exchange).Some?
    requires FetchFrom(seeders[|seeders| - 1], filename, connects, exchange).Some?
    ensures FetchAll(seeders, filename, connects, exchange) ==
      Some(FetchAll(seeders[..|seeders| - 1], filename, connects, exchange).value
           + FetchFrom(seeders[|seeders| - 1], filename, connects, exchange).value)
  {
  }

  /** Flattening distributes over concatenation. */
  lemma {:induction false} FlattenAppend(xs: seq<seq<byte>>, ys: seq<seq<byte>>)
    ensures Flatten(xs + ys) == Flatten(xs) + Flatten(ys)
    decreases |ys|
  {
    if ys == [] {
      assert xs + ys == xs;
    } else {
      var zs, k := xs + ys, |ys| - 1;
      assert zs[..|zs| - 1] == xs + ys[..k] && zs[|zs| - 1] == ys[k];
      FlattenAppend(xs, ys[..k]);
      AppendAssoc(Flatten(xs), Flatten(ys[..k]), ys[k]);
    }
  }

  /** A `NO_SEEDERS` reply, or one with nothing after its first token, makes the script exit. */
  lemma NoSeedersExits(filename: string, reply: string, connects: Address -> bool,
                       exchange: (Address, string) -> seq<byte>)
    requires |Split(Take(reply, RecvSize))| <= 1
    ensures Script(filename, reply, connects, exchange) == NoSeeders
  {
  }
}
