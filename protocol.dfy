/**
 * Properties that span the components: what the tracker answers after seeders
 * register, what the leechers read out of that answer, and what the download
 * script writes when the seeders it reaches answer as the seeder model does.
 */
module Protocol {
  import opened Wrappers
  import opened Text
  import opened Peers
  import S = Seeder
  import T = Tracker
  import L = Leecher
  import D = Download

  // ---- the seeder answers the download script's requests ----

  /** The protocol's keywords are words: `str.split()` keeps each one whole. */
  lemma KeywordsAreWords()
    ensures IsWord("GET_CHUNK_COUNT") && IsWord("GET_CHUNK") && IsWord("REGISTER_SEEDER")
    ensures IsWord("REQUEST_SEEDERS") && IsWord("SEEDERS") && IsWord("NO_SEEDERS")
  {
    VisibleIsWord("GET_CHUNK_COUNT");
    VisibleIsWord("GET_CHUNK");
    VisibleIsWord("REGISTER_SEEDER");
    VisibleIsWord("REQUEST_SEEDERS");
    VisibleIsWord("SEEDERS");
    VisibleIsWord("NO_SEEDERS");
  }

  lemma CountRequestTokens(filename: string)
    requires IsWord(filename)
    ensures Split(D.ChunkCountRequest(filename)) == ["GET_CHUNK_COUNT", filename]
  {
    KeywordsAreWords();
    assert D.ChunkCountRequest(filename) == JoinSpace(["GET_CHUNK_COUNT", filename]);
    SplitJoin(["GET_CHUNK_COUNT", filename]);
  }

  lemma ChunkRequestTokens(filename: string, id: nat)
    requires IsWord(filename)
    ensures Split(D.ChunkRequest(filename, id)) == ["GET_CHUNK", filename, IntToString(id)]
  {
    KeywordsAreWords();
    var ts := ["GET_CHUNK", filename, NatToString(id)];
    assert ts[1..][1..] == [ts[2]];
    assert JoinSpace(ts[1..]) == filename + " " + ts[2];
    assert D.ChunkRequest(filename, id) == JoinSpace(ts);
    SplitJoin(ts);
  }

  /** The script's count request, for the seeder's own file, is answered with the chunk count. */
  lemma CountRequestAnswered(filename: string, file: seq<byte>)
    requires IsWord(filename)
    ensures S.HandleRequest(filename, file, D.ChunkCountRequest(filename)) == S.Sent(S.CountReply(S.ChunkCount(|file|)))
  {
    CountRequestTokens(filename);
  }

  /** The script's request for chunk `id` is answered with that chunk, whatever file name it names. */
  lemma ChunkRequestAnswered(filename: string, file: seq<byte>, asked: string, id: nat)
    requires IsWord(asked)
    ensures S.HandleRequest(filename, file, D.ChunkRequest(asked, id)) == S.Sent(S.Chunk(file, id))
  {
    ChunkRequestTokens(asked, id);
    var t := Split(D.ChunkRequest(asked, id));
    IntRoundTrip(id);
    assert ParseInt(t[2]) == Some(id as int);
    assert t[0] == "GET_CHUNK" != "GET_CHUNK_COUNT";
  }

  // ---- registration and discovery ----

  /** The registration datagrams of seeders `senders`, all for one file and port. */
  function Registrations(filename: string, port: int, senders: seq<Address>): (ds: seq<T.Datagram>)
    ensures |ds| == |senders|
  {
    seq(|senders|, k requires 0 <= k < |senders| => T.Datagram(S.RegisterMessage(filename, port), senders[k]))
  }

  /** The addresses the tracker records for those seeders: each sender's host with the registered port. */
  function Registered(port: int, senders: seq<Address>): (addrs: seq<Address>)
    ensures |addrs| == |senders|
  {
    seq(|senders|, k requires 0 <= k < |senders| => Address(senders[k].host, port))
  }

  /** A registration datagram is split into its three tokens. */
  lemma RegisterMessageTokens(filename: string, port: int)
    requires IsWord(filename) && |S.RegisterMessage(filename, port)| <= RecvSize
    ensures Split(Take(S.RegisterMessage(filename, port), RecvSize)) == ["REGISTER_SEEDER", filename, IntToString(port)]
  {
    KeywordsAreWords();
    var ts := ["REGISTER_SEEDER", filename, IntToString(port)];
    assert IsWord(IntToString(port)) by {
      var s := IntToString(port);
      if port < 0 {
        assert s == "-" + NatToString(-port);
      }
    }
    assert ts[1..][1..] == [ts[2]];
    assert JoinSpace(ts[1..]) == filename + " " + ts[2];
    assert S.RegisterMessage(filename, port) == JoinSpace(ts);
    SplitJoin(ts);
  }

  lemma RegisteredSnoc(port: int, senders: seq<Address>)
    requires senders != []
    ensures Registered(port, senders)
         == Registered(port, senders[..|senders| - 1]) + [Address(senders[|senders| - 1].host, port)]
  {
    var n := |senders|;
    var whole, init := Registered(port, senders), Registered(port, senders[..n - 1]);
    assert forall k :: 0 <= k < n - 1 ==> whole[k] == init[k];
  }

  /** One registration datagram appends the sender's address to the file's list. */
  lemma RegisterStep(registry: T.Registry, filename: string, port: int, sender: Address)
    requires IsWord(filename) && |S.RegisterMessage(filename, port)| <= RecvSize
    ensures T.Step(registry, T.Datagram(S.RegisterMessage(filename, port), sender))
         == T.Continue(registry[filename := T.Lookup(registry, filename) + [Address(sender.host, port)]], None)
  {
    RegisterMessageTokens(filename, port);
    IntRoundTrip(port);
  }

  /** One more registration datagram, to a running tracker, extends the file's list by one address. */
  lemma RegistrationsSnoc(registry: T.Registry, filename: string, port: int, senders: seq<Address>)
    requires IsWord(filename) && |S.RegisterMessage(filename, port)| <= RecvSize
    requires senders != []
    ensures var n := |senders|;
      var prev := T.Run(registry, Registrations(filename, port, senders[..n - 1]));
      var added := T.Lookup(prev.registry, filename) + [Address(senders[n - 1].host, port)];
      prev.running ==>
        T.Run(registry, Registrations(filename, port, senders)) == T.Trace(prev.registry[filename := added], true, prev.replies)
  {
    var n := |senders|;
    var ds := Registrations(filename, port, senders);
    assert ds[..n - 1] == Registrations(filename, port, senders[..n - 1]);
    var prev := T.Run(registry, ds[..n - 1]);
    RegisterStep(prev.registry, filename, port, senders[n - 1]);
  }

  /** Updating one file's list leaves every other file's list as it was. */
  lemma LookupUpdate(registry: T.Registry, filename: string, list: seq<Address>)
    ensures T.Lookup(registry[filename := list], filename) == list
    ensures forall other :: other != filename ==> T.Lookup(registry[filename := list], other) == T.Lookup(registry, other)
  {
  }

  /**
   * Registrations accumulate: after the datagrams of `senders`, the tracker is
   * still running, has sent nothing, and the file's list has grown by their
   * addresses in arrival order; every other file's list is as it was.
   */
  lemma {:induction false} RegistrationsAccumulate(registry: T.Registry, filename: string, port: int, senders: seq<Address>)
    requires IsWord(filename) && |S.RegisterMessage(filename, port)| <= RecvSize
    ensures var t := T.Run(registry, Registrations(filename, port, senders));
      && t.running && t.replies == []
      && T.Lookup(t.registry, filename) == T.Lookup(registry, filename) + Registered(port, senders)
      && forall other :: other != filename ==> T.Lookup(t.registry, other) == T.Lookup(registry, other)
    decreases |senders|
  {
    if senders == [] {
      assert Registrations(filename, port, senders) == [];
    } else {
      var n := |senders|;
      var init := senders[..n - 1];
      var a := Address(senders[n - 1].host, port);
      RegistrationsAccumulate(registry, filename, port, init);
      RegistrationsSnoc(registry, filename, port, senders);
      var prev := T.Run(registry, Registrations(filename, port, init));
      LookupUpdate(prev.registry, filename, T.Lookup(prev.registry, filename) + [a]);
      RegisteredSnoc(port, senders);
      AppendAssoc(T.Lookup(registry, filename), Registered(port, init), [a]);
    }
  }

  /** The reply to a query is split into `NO_SEEDERS`, or `SEEDERS` and the address tokens. */
  lemma ReplyTokens(seeders: seq<Address>, limit: nat)
    requires forall i :: 0 <= i < |seeders| ==> PlainHost(seeders[i].host)
    requires |T.SeedersReply(seeders)| <= limit
    ensures Split(Take(T.SeedersReply(seeders), limit)) ==
      if seeders == [] then ["NO_SEEDERS"] else ["SEEDERS"] + T.Tokens(seeders)
  {
    KeywordsAreWords();
    if seeders == [] {
      SplitJoin(["NO_SEEDERS"]);
    } else {
      var tokens := T.Tokens(seeders);
      var ts := ["SEEDERS"] + tokens;
      forall i | 0 <= i < |tokens| ensures IsWord(tokens[i]) {
        AddressTokenIsWord(seeders[i]);
      }
      AllWordsPrepend("SEEDERS", tokens);
      assert ts[1..] == tokens;
      assert T.SeedersReply(seeders) == JoinSpace(ts);
      SplitJoin(ts);
    }
  }

  /**
   * What the message leecher reads out of the tracker's reply is exactly the
   * registered address list, in order (an empty list for `NO_SEEDERS`).
   */
  lemma LeecherReadsReply(seeders: seq<Address>)
    requires forall i :: 0 <= i < |seeders| ==> PlainHost(seeders[i].host)
    requires |T.SeedersReply(seeders)| <= RecvSize
    ensures var tokens := L.SeedersFromReply(Some(T.SeedersReply(seeders)));
      && |tokens| == |seeders|
      && forall i :: 0 <= i < |tokens| ==> ParseAddress(tokens[i]) == Some(seeders[i])
  {
    ReplyTokens(seeders, RecvSize);
    forall i | 0 <= i < |seeders| ensures ParseAddress(T.Tokens(seeders)[i]) == Some(seeders[i]) {
      AddressRoundTrip(seeders[i]);
    }
  }

  /** A query datagram leaves the registry alone and is answered with the file's list. */
  lemma QueryStep(registry: T.Registry, filename: string, leecher: Address)
    requires IsWord(filename) && |"REQUEST_SEEDERS " + filename| <= RecvSize
    ensures T.Step(registry, T.Datagram("REQUEST_SEEDERS " + filename, leecher))
         == T.Continue(registry, Some(T.SeedersReply(T.Lookup(registry, filename))))
  {
    KeywordsAreWords();
    assert "REQUEST_SEEDERS " + filename == JoinSpace(["REQUEST_SEEDERS", filename]);
    SplitJoin(["REQUEST_SEEDERS", filename]);
  }

  /**
   * After the registrations, a query is answered with every registered address
   * in registration order, and the tracker is still running.
   */
  lemma AnsweredAfterRegistrations(filename: string, port: int, senders: seq<Address>, leecher: Address)
    requires IsWord(filename) && |S.RegisterMessage(filename, port)| <= RecvSize
    requires |"REQUEST_SEEDERS " + filename| <= RecvSize
    ensures var query := T.Datagram("REQUEST_SEEDERS " + filename, leecher);
      var t := T.Run(map[], Registrations(filename, port, senders) + [query]);
      t.running && t.replies == [(leecher, T.SeedersReply(Registered(port, senders)))]
  {
    var query := T.Datagram("REQUEST_SEEDERS " + filename, leecher);
    var regs := Registrations(filename, port, senders);
    var ds := regs + [query];
    assert ds[..|ds| - 1] == regs && ds[|ds| - 1] == query;
    RegistrationsAccumulate(map[], filename, port, senders);
    var before := T.Run(map[], regs);
    assert T.Lookup(before.registry, filename) == Registered(port, senders);
    QueryStep(before.registry, filename, leecher);
  }

  /**
   * Discovery end to end: seeders register one file with the tracker, a leecher
   * queries it, and the leecher reads back every registered address in
   * registration order, each with the sender's host and the registered port.
   */
  lemma Discovery(filename: string, port: int, senders: seq<Address>, leecher: Address)
    requires IsWord(filename) && |S.RegisterMessage(filename, port)| <= RecvSize
    requires |"REQUEST_SEEDERS " + filename| <= RecvSize
    requires forall i :: 0 <= i < |senders| ==> PlainHost(senders[i].host)
    requires |T.SeedersReply(Registered(port, senders))| <= RecvSize
    ensures var query := T.Datagram("REQUEST_SEEDERS " + filename, leecher);
      var t := T.Run(map[], Registrations(filename, port, senders) + [query]);
      && t.running && |t.replies| == 1
      && var tokens := L.SeedersFromReply(Some(t.replies[0].1));
         |tokens| == |senders| &&
         forall i :: 0 <= i < |tokens| ==> ParseAddress(tokens[i]) == Some(Address(senders[i].host, port))
  {
    var addrs := Registered(port, senders);
    var query := T.Datagram("REQUEST_SEEDERS " + filename, leecher);
    var t := T.Run(map[], Registrations(filename, port, senders) + [query]);
    AnsweredAfterRegistrations(filename, port, senders, leecher);
    assert t.replies[0].1 == T.SeedersReply(addrs);
    assert forall i :: 0 <= i < |addrs| ==> PlainHost(addrs[i].host);
    LeecherReadsReply(addrs);
  }

  // ---- downloading from seeders that answer as the seeder model does ----

  /** What `recv` returns after the seeder has handled a request: its reply, or nothing once it closed. */
  function Answer(o: S.Outcome): seq<byte> {
    if o.Sent? then o.data else []
  }

  /** The peer at `a` answers every request as a seeder of `file` under `filename` does. */
  ghost predicate Honest(a: Address, filename: string, file: seq<byte>, exchange: (Address, string) -> seq<byte>) {
    forall request :: exchange(a, request) == Answer(S.HandleRequest(filename, file, request))
  }

  /** The file, `n` times over. */
  function Copies(file: seq<byte>, n: nat): seq<byte> {
    if n == 0 then [] else Copies(file, n - 1) + file
  }

  /** A seeder at a plain address that advertises `count` chunks is asked for exactly chunks `0 .. count-1`. */
  lemma FetchFromCounted(filename: string, file: seq<byte>, a: Address,
                         connects: Address -> bool, exchange: (Address, string) -> seq<byte>)
    requires IsWord(filename) && PlainHost(a.host) && connects(a)
    requires exchange(a, D.ChunkCountRequest(filename)) == Answer(S.HandleRequest(filename, file, D.ChunkCountRequest(filename)))
    ensures D.FetchFrom(AddressToken(a), filename, connects, exchange)
         == Some(D.ChunksFrom(a, filename, S.ChunkCount(|file|), exchange))
  {
    assert ParseAddress(AddressToken(a)) == Some(a) by { AddressRoundTrip(a); }
    var count := S.ChunkCount(|file|);
    var text := NatToString(count);
    assert AsciiText(exchange(a, D.ChunkCountRequest(filename))) == Some(text) by {
      CountRequestAnswered(filename, file);
      AsciiRoundTrip(text);
    }
    assert ParseInt(text) == Some(count as int) by { IntRoundTrip(count); }
  }

  /** From an honest seeder the script fetches every advertised chunk, in order. */
  lemma FetchFromHonest(filename: string, file: seq<byte>, a: Address,
                        connects: Address -> bool, exchange: (Address, string) -> seq<byte>)
    requires IsWord(filename) && PlainHost(a.host) && connects(a)
    requires Honest(a, filename, file, exchange)
    ensures D.FetchFrom(AddressToken(a), filename, connects, exchange) == Some(S.Chunks(file, S.ChunkCount(|file|)))
  {
    var count := S.ChunkCount(|file|);
    FetchFromCounted(filename, file, a, connects, exchange);
    var got := D.ChunksFrom(a, filename, count, exchange);
    forall k | 0 <= k < count ensures got[k] == S.Chunks(file, count)[k] {
      ChunkRequestAnswered(filename, file, filename, k);
    }
    assert got == S.Chunks(file, count);
  }

  /** Visiting seeders that each yield the same chunks gives those chunks' bytes once per seeder. */
  lemma {:induction false} FetchAllAlike(tokens: seq<string>, cs: seq<seq<byte>>, filename: string,
                                         connects: Address -> bool, exchange: (Address, string) -> seq<byte>)
    requires forall i :: 0 <= i < |tokens| ==> D.FetchFrom(tokens[i], filename, connects, exchange) == Some(cs)
    ensures var r := D.FetchAll(tokens, filename, connects, exchange);
      r.Some? && Flatten(r.value) == Copies(Flatten(cs), |tokens|)
    decreases |tokens|
  {
    if tokens != [] {
      var n := |tokens|;
      var init := tokens[..n - 1];
      var earlier := D.FetchAll(init, filename, connects, exchange);
      assert earlier.Some? && Flatten(earlier.value) == Copies(Flatten(cs), n - 1) by {
        assert forall i :: 0 <= i < |init| ==> init[i] == tokens[i];
        FetchAllAlike(init, cs, filename, connects, exchange);
      }
      D.FetchAllSnoc(tokens, filename, connects, exchange);
      D.FlattenAppend(earlier.value, cs);
    }
  }

  /** Visiting `n` honest seeders of one file yields the file `n` times over. */
  lemma FetchAllHonest(filename: string, file: seq<byte>, seeders: seq<Address>,
                       connects: Address -> bool, exchange: (Address, string) -> seq<byte>)
    requires IsWord(filename)
    requires forall i :: 0 <= i < |seeders| ==>
      PlainHost(seeders[i].host) && connects(seeders[i]) && Honest(seeders[i], filename, file, exchange)
    ensures var r := D.FetchAll(T.Tokens(seeders), filename, connects, exchange);
      r.Some? && Flatten(r.value) == Copies(file, |seeders|)
  {
    var ts := T.Tokens(seeders);
    var cs := S.Chunks(file, S.ChunkCount(|file|));
    forall i | 0 <= i < |ts| ensures D.FetchFrom(ts[i], filename, connects, exchange) == Some(cs) {
      FetchFromHonest(filename, file, seeders[i], connects, exchange);
    }
    FetchAllAlike(ts, cs, filename, connects, exchange);
    S.Reassemble(file);
  }

  /** The script reads a reply listing seeders as their tokens, the first of which is not `NO_SEEDERS`. */
  lemma SeedersListed(seeders: seq<Address>)
    requires seeders != [] && forall i :: 0 <= i < |seeders| ==> PlainHost(seeders[i].host)
    requires |T.SeedersReply(seeders)| <= RecvSize
    ensures D.SeederList(T.SeedersReply(seeders)) == T.Tokens(seeders) && T.Tokens(seeders)[0] != "NO_SEEDERS"
  {
    var ts := T.Tokens(seeders);
    assert Split(Take(T.SeedersReply(seeders), RecvSize)) == ["SEEDERS"] + ts by {
      ReplyTokens(seeders, RecvSize);
    }
    assert (["SEEDERS"] + ts)[1..] == ts;
    assert ts[0] != "NO_SEEDERS" by {
      var t := AddressToken(seeders[0]);
      assert t[|seeders[0].host|] == ':';
      assert ':' !in "NO_SEEDERS";
    }
  }

  /** A reply whose seeder list is `ts`, not headed by `NO_SEEDERS`: the script writes what visiting `ts` yields, or crashes. */
  lemma ScriptForList(filename: string, reply: string, ts: seq<string>, connects: Address -> bool,
                      exchange: (Address, string) -> seq<byte>)
    requires D.SeederList(reply) == ts && ts != [] && ts[0] != "NO_SEEDERS"
    ensures D.Script(filename, reply, connects, exchange) ==
      match D.FetchAll(ts, filename, connects, exchange)
      case None => D.Crashed
      case Some(cs) => D.Written(D.OutputName(filename), Flatten(cs))
  {
  }

  /**
   * The download script, given the tracker's reply for reachable seeders that
   * all serve the same file, writes `downloaded_<name>` holding that file once
   * per listed seeder: the shared chunk list is never reset between seeders.
   */
  lemma DownloadFromHonestSeeders(filename: string, file: seq<byte>, seeders: seq<Address>,
                                  connects: Address -> bool, exchange: (Address, string) -> seq<byte>)
    requires IsWord(filename) && seeders != []
    requires forall i :: 0 <= i < |seeders| ==>
      PlainHost(seeders[i].host) && connects(seeders[i]) && Honest(seeders[i], filename, file, exchange)
    requires |T.SeedersReply(seeders)| <= RecvSize
    ensures D.Script(filename, T.SeedersReply(seeders), connects, exchange)
         == D.Written(D.OutputName(filename), Copies(file, |seeders|))
  {
    var ts := T.Tokens(seeders);
    SeedersListed(seeders);
    ScriptForList(filename, T.SeedersReply(seeders), ts, connects, exchange);
    FetchAllHonest(filename, file, seeders, connects, exchange);
  }

  /** With one seeder the written file is the seeder's file. */
  lemma DownloadFromOneSeeder(filename: string, file: seq<byte>, a: Address,
                              connects: Address -> bool, exchange: (Address, string) -> seq<byte>)
    requires IsWord(filename) && PlainHost(a.host) && connects(a) && Honest(a, filename, file, exchange)
    requires |T.SeedersReply([a])| <= RecvSize
    ensures D.Script(filename, T.SeedersReply([a]), connects, exchange) == D.Written(D.OutputName(filename), file)
  {
    DownloadFromHonestSeeders(filename, file, [a], connects, exchange);
    assert Copies(file, 1) == file;
  }

  /** With two seeders of the same file the written file holds its content twice. */
  lemma DownloadFromTwoSeeders(filename: string, file: seq<byte>, a: Address, b: Address,
                               connects: Address -> bool, exchange: (Address, string) -> seq<byte>)
    requires IsWord(filename)
    requires PlainHost(a.host) && connects(a) && Honest(a, filename, file, exchange)
    requires PlainHost(b.host) && connects(b) && Honest(b, filename, file, exchange)
    requires |T.SeedersReply([a, b])| <= RecvSize
    ensures D.Script(filename, T.SeedersReply([a, b]), connects, exchange) == D.Written(D.OutputName(filename), file + file)
  {
    var seeders := [a, b];
    assert forall i :: 0 <= i < |seeders| ==>
      PlainHost(seeders[i].host) && connects(seeders[i]) && Honest(seeders[i], filename, file, exchange) by {
      forall i | 0 <= i < |seeders|
        ensures PlainHost(seeders[i].host) && connects(seeders[i]) && Honest(seeders[i], filename, file, exchange)
      {
        if i == 1 {
          assert seeders[i] == b;
        }
      }
    }
    DownloadFromHonestSeeders(filename, file, seeders, connects, exchange);
    assert Copies(file, 1) == file by {
      assert Copies(file, 1) == Copies(file, 0) + file;
    }
    assert Copies(file, |seeders|) == file + file;
  }

  /**
   * The peer at `a` answers the count request as a seeder of `file` does and has
   * then closed the connection, so a chunk request sent afterwards reads nothing.
   */
  ghost predicate OneShot(a: Address, filename: string, file: seq<byte>, exchange: (Address, string) -> seq<byte>) {
    && exchange(a, D.ChunkCountRequest(filename)) == Answer(S.HandleRequest(filename, file, D.ChunkCountRequest(filename)))
    && forall id: nat :: exchange(a, D.ChunkRequest(filename, id)) == []
  }

  /** Chunks that are all empty concatenate to nothing. */
  lemma {:induction false} FlattenEmpty(cs: seq<seq<byte>>)
    requires forall k :: 0 <= k < |cs| ==> cs[k] == []
    ensures Flatten(cs) == []
    decreases |cs|
  {
    if cs != [] {
      FlattenEmpty(cs[..|cs| - 1]);
    }
  }

  /**
   * From a seeder that closes after the count reply, a file shorter than one
   * chunk is fetched as its one advertised chunk, read empty.
   */
  lemma FetchFromOneShot(filename: string, file: seq<byte>, a: Address,
                         connects: Address -> bool, exchange: (Address, string) -> seq<byte>)
    requires IsWord(filename) && PlainHost(a.host) && connects(a) && OneShot(a, filename, file, exchange)
    requires |file| < S.ChunkSize
    ensures var r := D.FetchFrom(AddressToken(a), filename, connects, exchange);
      r.Some? && |r.value| == S.ChunkCount(|file|) && Flatten(r.value) == []
  {
    var cs := D.ChunksFrom(a, filename, S.ChunkCount(|file|), exchange);
    FetchFromCounted(filename, file, a, connects, exchange);
    assert Flatten(cs) == [] by { FlattenEmpty(cs); }
  }

  /** A seeder list of one token: the script's list is what that token yields. */
  lemma FetchAllOne(token: string, filename: string, connects: Address -> bool,
                    exchange: (Address, string) -> seq<byte>)
    ensures D.FetchAll([token], filename, connects, exchange) == D.FetchFrom(token, filename, connects, exchange)
  {
    var ts := [token];
    assert ts[..0] == [];
    match D.FetchFrom(token, filename, connects, exchange)
    case None =>
    case Some(cs) =>
      assert [] + cs == cs;
  }

  /** A reply whose seeder list is one token: the script writes what that token yields, or crashes with it. */
  lemma ScriptForToken(filename: string, reply: string, token: string, connects: Address -> bool,
                       exchange: (Address, string) -> seq<byte>)
    requires D.SeederList(reply) == [token] && token != "NO_SEEDERS"
    ensures D.Script(filename, reply, connects, exchange) ==
      match D.FetchFrom(token, filename, connects, exchange)
      case None => D.Crashed
      case Some(cs) => D.Written(D.OutputName(filename), Flatten(cs))
  {
    ScriptForList(filename, reply, [token], connects, exchange);
    FetchAllOne(token, filename, connects, exchange);
  }

  /** With a reply listing one seeder, the script writes whatever that seeder yields, or crashes with it. */
  lemma ScriptForOneSeeder(filename: string, a: Address, connects: Address -> bool,
                           exchange: (Address, string) -> seq<byte>)
    requires PlainHost(a.host) && |T.SeedersReply([a])| <= RecvSize
    ensures D.Script(filename, T.SeedersReply([a]), connects, exchange) ==
      match D.FetchFrom(AddressToken(a), filename, connects, exchange)
      case None => D.Crashed
      case Some(cs) => D.Written(D.OutputName(filename), Flatten(cs))
  {
    SeedersListed([a]);
    assert T.Tokens([a]) == [AddressToken(a)];
    ScriptForToken(filename, T.SeedersReply([a]), AddressToken(a), connects, exchange);
  }

  /**
   * A seeder that closes the connection after the count reply, holding a file
   * shorter than one chunk: the script still asks for the one advertised chunk,
   * reads nothing, and writes an empty file, whatever the seeder's file holds.
   * (A larger file would make the script send a second request on the reset
   * connection, which raises; that path is not modelled.)
   */
  lemma DownloadFromOneShotSeeder(filename: string, file: seq<byte>, a: Address,
                                  connects: Address -> bool, exchange: (Address, string) -> seq<byte>)
    requires IsWord(filename) && PlainHost(a.host) && connects(a) && OneShot(a, filename, file, exchange)
    requires |file| < S.ChunkSize
    requires |T.SeedersReply([a])| <= RecvSize
    ensures D.Script(filename, T.SeedersReply([a]), connects, exchange) == D.Written(D.OutputName(filename), [])
  {
    FetchFromOneShot(filename, file, a, connects, exchange);
    ScriptForOneSeeder(filename, a, connects, exchange);
  }
}
