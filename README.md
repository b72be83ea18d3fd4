# A verified model of a small peer-to-peer file sharing system and a framed chat

The system has two parts.

1. **The file sharing part.**
   - A UDP **tracker** keeps, for every file name, the list of seeder addresses that registered for it.
   - A **seeder** registers with the tracker and then serves its file over TCP, cut into 512-byte chunks.
   - A **download script** asks the tracker for seeders. It fetches the chunk count and every chunk from each listed seeder, appends all chunks to one list, and writes that list to `downloaded_<name>`.
   - A **message leecher** asks the tracker for seeders and tries them in order until one accepts a message.
2. **The chat part.** A TCP chat **client** frames each message as a 64-byte decimal length header padded with spaces, followed by the body. The chat **server** reads frames until the disconnect message or until the peer closes.

The model follows each program's own shape:

- The seeder's request handling and the client's framing are functions.
- The tracker is a class. Its registry (`active_seeders`) is a field that the per-datagram handler updates in place, and its receive loop is a method.
- The download script, the leecher's seeder loop and the chat server's connection loop are methods with loops. Each is proved against a function of its inputs.
- A `Protocol` module proves what the parts do together:
  - registrations followed by a query are answered with every registered address, in order;
  - the leecher reads those addresses back;
  - from seeders that answer every request, the script writes the file once per listed seeder.

Python's text built-ins are modelled with Python's semantics:

- `str.split()` splits on runs of whitespace;
- `str.split(":")` keeps empty parts;
- `int()` strips surrounding whitespace and accepts a sign and single underscores between digits. Its whitespace is narrower than `str.split()`'s: the separators U+001C to U+001F split text but make `int()` raise;
- `str()` of an integer;
- `b' ' * k` is empty for negative `k`.

Text on the wire is ASCII. A byte at or above 128 counts as a decoding failure.

The world outside the programs is represented by parameters:

- `connects: Address -> bool` says whether a TCP connection and exchange succeed;
- `exchange: (Address, string) -> seq<byte>` is what a peer sends back for a request;
- a chat connection is the byte stream the client sent.

A UDP receive keeps at most 1024 bytes (`Take`), and so does the tracker's reply as the leechers receive it. In the chat server, a receive of `n` bytes returns the next `n` bytes of the stream, or what is left. A length of 2^63 or more does not fit `recv`'s signed 64-bit size argument, and the receive raises.

Some behaviour of the code is stated outright:

- Registration is additive. Registering the same seeder twice leaves two entries (`Tracker.RegisterTwiceKeepsBoth`).
- The seeder advertises `max(1, size // 512 + 1)` chunks. That is `ceil(size / 512) + 1` when the size is a multiple of 512 (`Seeder.ChunkCountVersusCeiling`), so the last advertised chunk is empty.
- A seeder connection carries one request and is then closed.
- `ALIVE` does nothing.
- A malformed datagram kills the tracker's only handler thread. From then on nothing else is handled (`Tracker.HaltIsFinal`).

## Model

| member | source | states |
|---|---|---|
| Text.LeadingWord | torrent/tracker.py:19 | the first token of `split()`: a prefix of the input, free of whitespace, followed by whitespace or the end |
| Text.SplitGivesWords | torrent/tracker.py:19 | every token `split()` returns is non-empty and free of whitespace |
| Text.SplitBlank | torrent/leecher.py:27-29 | `split()` returns no tokens exactly when the text is blank, which is when `seeders_response[0]` raises |
| Text.JoinSpace | torrent/tracker.py:30 | `" ".join` starts with the first token, followed by a space when more tokens come |
| Text.SplitJoin | torrent/tracker.py:30 | splitting a space-joined list of words gives back exactly those words |
| Text.SplitOn | torrent/leecher.py:46 | `s.split(":")` always returns at least one part |
| Text.SplitOnCount | torrent/leecher.py:46 | `s.split(":")` returns one part more than `s` holds colons, so unpacking into two names needs exactly one colon |
| Text.SplitOnAbsent | torrent/leecher.py:46 | `s.split(":")` of a string without `:` is `[s]` |
| Text.SplitOnPair | torrent/leecher.py:46 | `(a + ":" + b).split(":")` is `[a, b]` when neither part holds a `:` |
| Text.NatToString | client.py:17 | `str(n)` is a non-empty string of decimal digits |
| Text.IntToString | torrent/seeder.py:44 | `str(i)` is non-empty and neither starts nor ends with whitespace |
| Text.IntRoundTrip | torrent/tracker.py:23 | `int(str(i)) == i` for every integer, negative ones included |
| Text.ParseIntOfNumeral | torrent/tracker.py:23 | `int()` of a numeral surrounded by the whitespace `int()` strips is that numeral's decimal value |
| Text.ParseIntNeedsDigit | torrent/tracker.py:23 | text that `int()` accepts holds a digit, and a negative result needs a minus sign |
| Text.SeparatorEndsNoInt | torrent/tempCodeRunnerFile.py:28 | any text ending in one of U+001C to U+001F makes `int()` raise |
| Text.SeparatorIsNotIntSpace | torrent/tempCodeRunnerFile.py:28 | a count reply `"5\x1c"` splits as `["5"]` but makes `int()` raise |
| Text.IntSpaceIgnoredInFront | torrent/tracker.py:23 | `int()` whitespace in front of a field does not change what `int()` returns |
| Text.TrimLeft | torrent/tracker.py:23 | leading `int()` whitespace removed: a suffix of the input that starts with a character `int()` does not strip |
| Text.TrimLeftDropsIntSpace | torrent/tracker.py:23 | every character `TrimLeft` drops is `int()` whitespace |
| Text.TrimRight | server.py:21 | trailing `int()` whitespace removed: a prefix of the input that ends with a character `int()` does not strip |
| Text.TrimRightDropsIntSpace | server.py:21 | every character `TrimRight` drops is `int()` whitespace, so U+001C to U+001F stay |
| Text.TrimRightSpaces | server.py:21 | trailing padding spaces are removed exactly, down to the last digit |
| Text.PaddedNatRoundTrip | server.py:21 | `int(str(n) + " " * k) == n` for every `k`, negative or zero included |
| Text.Spaces | client.py:18 | `b' ' * k` holds `k` spaces, or none when `k` is not positive |
| Text.AsciiBytes | client.py:15 | encoding ASCII text gives one byte per character |
| Text.AsciiRoundTrip | server.py:22 | decoding the encoding of ASCII text gives the text back |
| Text.AsciiTextExactly | server.py:19 | decoding succeeds exactly when every byte is below 128, with one character per byte of the same code |
| Text.Take | server.py:19 | a receive into an `n`-byte buffer keeps the first `min(n, length)` bytes, in order |
| Peers.ParseAddress | torrent/leecher.py:46-47 | a token parses exactly when it splits on `:` into two parts and the second is an integer, and the host is the first part |
| Peers.AddressTokenIsWord | torrent/tracker.py:30 | the `ip:port` token of a plain host is a single whitespace-free word |
| Peers.AddressRoundTrip | torrent/leecher.py:46-47 | splitting the tracker's `ip:port` token gives back the registered address |
| Seeder.ChunkCount | torrent/seeder.py:70 | the advertised count is at least 1, and the last advertised chunk starts at or before the end of the file |
| Seeder.ChunkCountVersusCeiling | torrent/seeder.py:70 | the count is `ceil(size / 512) + 1` when the size is a multiple of 512, and `ceil(size / 512)` otherwise |
| Seeder.Chunk | torrent/seeder.py:76-78 | chunk `id` is at most 512 bytes, holds the file's bytes from `id * 512` on, and is empty past the end |
| Seeder.ChunksFormPrefix | torrent/seeder.py:76-78 | chunks `0 .. n-1` concatenated are the first `min(n * 512, size)` bytes of the file |
| Seeder.Reassemble | torrent/seeder.py:70-78 | all advertised chunks concatenated are exactly the file |
| Seeder.HandleRequest | torrent/seeder.py:58-79 | what is sent is the decimal chunk count or a piece of at most 512 bytes, and only a three-token `GET_CHUNK` request can raise |
| Seeder.AnswersExactly | torrent/seeder.py:58-79 | a reply is sent exactly for a count request naming the seeder's file, or a three-token chunk request with a non-negative integer id |
| Tracker.SeedersReply | torrent/tracker.py:29-30 | the reply is `NO_SEEDERS` exactly when the list is empty, and otherwise `SEEDERS` space-joined with the address tokens |
| Tracker.Dispatch | torrent/tracker.py:21-35 | a handled datagram only adds addresses, never removes any, and only a `REQUEST_SEEDERS` message gets a reply, leaving the registry unchanged |
| Tracker.Step | torrent/tracker.py:18-19 | a datagram that fits the 1024-byte buffer is dispatched on its whole text, split into tokens |
| Tracker.Run | torrent/tracker.py:16-35 | over any datagrams the registry only grows, and at most one reply is sent per datagram |
| Tracker.Tokens | torrent/tracker.py:30 | one `ip:port` token per registered address, in registration order |
| Tracker.RegisterAppends | torrent/tracker.py:21-24 | a registration appends `(sender ip, port)` to the file's list, creating it when absent, changes no other list and replies nothing |
| Tracker.RegisterTwiceKeepsBoth | torrent/tracker.py:24 | registering the same seeder twice leaves two entries for it |
| Tracker.QueryAnswers | torrent/tracker.py:27-31 | a query leaves the registry unchanged and replies `NO_SEEDERS` exactly when the list is empty, otherwise `SEEDERS` and the tokens in order |
| Tracker.HaltsExactly | torrent/tracker.py:19-29 | the handler dies exactly on an empty datagram, a registration without file or integer port, or a query without file |
| Tracker.OtherCommandsIgnored | torrent/tracker.py:33-35 | `ALIVE` and unknown commands change nothing and send nothing |
| Tracker.HaltIsFinal | torrent/tracker.py:16-19 | once the handler has died, later datagrams change neither the registry nor the replies |
| Tracker.TrackerServer.constructor | torrent/tracker.py:14 | the registry starts empty and the handler alive |
| Tracker.TrackerServer.Handle | torrent/tracker.py:18-19 | handling a datagram cut to 1024 bytes and split moves the registry and reply as `Step` says; when the handler dies, the registry is untouched |
| Tracker.TrackerServer.Apply | torrent/tracker.py:21-35 | the dispatch on the first token updates the registry and reply as `Dispatch` says |
| Tracker.TrackerServer.Register | torrent/tracker.py:21-24 | the registration branch appends in place, or dies on a missing token or bad port with the registry untouched |
| Tracker.TrackerServer.Answer | torrent/tracker.py:27-31 | the query branch leaves the registry untouched and returns the reply for the file's list, or dies on a missing file name |
| Tracker.TrackerServer.Serve | torrent/tracker.py:16-35 | after the receive loop, the registry, the liveness flag and the replies sent are those of `Run` over the datagrams |
| Leecher.SeedersFromReply | torrent/leecher.py:19-40 | the seeder tokens are whitespace-free, and a timeout gives none |
| Leecher.SendMessage | torrent/leecher.py:42-66 | sending succeeds exactly when the token parses as `ip:port` and the exchange with that address completes |
| Leecher.Communicate | torrent/leecher.py:68-85 | seeders are tried in list order; success exactly when some seeder accepts, and then the last one tried is the first that does; on failure every seeder was tried |
| Leecher.TryInOrder | torrent/leecher.py:79-85 | the loop stops at the first seeder that accepts, after trying all earlier ones in order |
| Download.SeederList | torrent/tempCodeRunnerFile.py:11-12 | the seeder tokens taken from the tracker's reply are whitespace-free |
| Download.FetchFrom | torrent/tempCodeRunnerFile.py:20-34 | a visit that does not raise connected to the token's parsed address, and its `k`-th chunk is that address's answer to the request for chunk `k` |
| Download.FetchAll | torrent/tempCodeRunnerFile.py:19-34 | visits that do not raise ended with a visit to the last seeder that did not raise |
| Download.FetchAllVisitsEach | torrent/tempCodeRunnerFile.py:19-34 | when the loop over the seeders does not raise, no single seeder's visit raised |
| Download.EachVisitFetchesAll | torrent/tempCodeRunnerFile.py:19-34 | when no single seeder's visit raises, the loop over the seeders does not raise |
| Download.Script | torrent/tempCodeRunnerFile.py:11-41 | the script reports no seeders exactly when the reply has at most one token or its second token is `NO_SEEDERS` (a test the tracker's one-token `NO_SEEDERS` reply never reaches), and writes only under `downloaded_<name>` |
| Download.ScriptWritesAfterEveryVisit | torrent/tempCodeRunnerFile.py:19-41 | the output file is written only when every listed seeder was visited without an error |
| Download.ChunksFrom | torrent/tempCodeRunnerFile.py:31-34 | the chunks fetched are the seeder's answers to requests `0 .. total-1`, in that order |
| Download.AppendFrom | torrent/tempCodeRunnerFile.py:19-36 | one seeder's visit appends exactly what `FetchFrom` yields to the shared list, or fails where the script raises |
| Download.WriteOut | torrent/tempCodeRunnerFile.py:39-41 | the written bytes are the chunks concatenated in list order |
| Download.Run | torrent/tempCodeRunnerFile.py:11-41 | the script's outcome (early exit, crash, or the file written) is `Script` of the tracker's reply |
| Download.CrashIsFinal | torrent/tempCodeRunnerFile.py:19-36 | once one seeder's visit raises, the whole script crashes |
| Download.FlattenAppend | torrent/tempCodeRunnerFile.py:39-41 | writing two lists of chunks one after the other writes their concatenation |
| Download.NoSeedersExits | torrent/tempCodeRunnerFile.py:14-16 | a reply with no token after the first makes the script exit without writing |
| ChatClient.DisconnectBytes | client.py:6 | the disconnect message on the wire has one byte per character |
| ChatClient.DisconnectEncodes | client.py:6 | those bytes are the ASCII encoding of `!DISCONNECT` |
| ChatClient.LengthHeader | client.py:17-18 | the header is exactly 64 bytes when the decimal length fits, and the unpadded digits otherwise |
| ChatClient.Frame | client.py:14-20 | a frame is the header followed by the body |
| ChatClient.HeaderDecodes | client.py:17-18 | the header decodes back to the padded decimal text |
| ChatClient.HeaderParses | client.py:18 | `int()` reads the padded header text back as the body length |
| ChatServer.ReadOne | server.py:19-22 | a successful read of a header and body consumes at least one byte of the stream, and its body is shorter than 2^63 bytes |
| ChatServer.ReadOneCases | server.py:19-22 | the peer has closed exactly when the header read is empty; the read fails exactly when a non-empty header does not parse or gives a length that is negative or 2^63 or more; otherwise the body is the next that many bytes, or what is left, and reading resumes after it |
| ChatServer.UnparsableHeaderAborts | server.py:20-21 | a non-empty header that `int()` rejects aborts the session with nothing emitted |
| ChatServer.Receive | server.py:18-27 | the disconnect message is emitted only as the last message, and the session ends as disconnected exactly when it is |
| ChatServer.PrependOther | server.py:23-25 | emitting an ordinary message before a session keeps the disconnect message last and only last |
| ChatServer.HandleClient | server.py:15-29 | the messages emitted and the way the session ends are `Receive` of the connection's bytes |
| ChatServer.ReadFrame | server.py:19-22 | a frame whose length fits the header is read as exactly its body, and reading resumes right after it |
| ChatServer.ReceiveFrame | server.py:18-25 | a frame is emitted as its message, and the session goes on unless it is the disconnect message |
| ChatServer.ReceiveFrames | server.py:18-25 | frames of ordinary messages are all emitted, in order |
| ChatServer.RoundTrip | server.py:18-27 | messages sent with `send` and then the disconnect message come out exactly, in order, and the session ends there whatever follows |
| ChatServer.ClosedWithoutDisconnect | server.py:26-27 | a client that closes without the disconnect message has all its messages emitted before the session ends |
| Protocol.CountRequestTokens | torrent/tempCodeRunnerFile.py:27 | the count request splits into the command and the file name |
| Protocol.ChunkRequestTokens | torrent/tempCodeRunnerFile.py:32 | the chunk request splits into the command, the file name and the id |
| Protocol.CountRequestAnswered | torrent/seeder.py:69-71 | the script's count request is answered with the chunk count in decimal |
| Protocol.ChunkRequestAnswered | torrent/seeder.py:74-79 | the script's request for chunk `id` is answered with that chunk, whatever file name it names |
| Protocol.RegisterMessageTokens | torrent/seeder.py:44 | the registration datagram splits into command, file name and port |
| Protocol.RegisterStep | torrent/tracker.py:21-24 | one registration datagram appends the sender's address to the file's list |
| Protocol.RegistrationsSnoc | torrent/tracker.py:21-24 | one more registration to a live tracker extends the file's list by one address |
| Protocol.RegistrationsAccumulate | torrent/tracker.py:16-24 | after any number of registrations the tracker is alive, has sent nothing, the file's list has grown by the senders' addresses in arrival order, and other lists are unchanged |
| Protocol.ReplyTokens | torrent/tracker.py:30 | the tracker's reply splits into `NO_SEEDERS`, or `SEEDERS` followed by the address tokens |
| Protocol.LeecherReadsReply | torrent/leecher.py:26-33 | the leecher reads back exactly the registered addresses, in order |
| Protocol.QueryStep | torrent/tracker.py:27-31 | a query datagram is answered with the file's list and changes nothing |
| Protocol.AnsweredAfterRegistrations | torrent/tracker.py:16-31 | after the registrations, one query gets exactly one reply, listing every registered address in order |
| Protocol.Discovery | torrent/leecher.py:19-33 | what a leecher reads from the tracker after the registrations is every seeder's address in registration order |
| Protocol.FetchFromCounted | torrent/tempCodeRunnerFile.py:20-34 | a seeder that answers the count request as the seeder does is asked for exactly the advertised number of chunks, in order |
| Protocol.FetchFromHonest | torrent/tempCodeRunnerFile.py:19-34 | from a seeder that answers every request, the script fetches every advertised chunk in order |
| Protocol.FetchAllHonest | torrent/tempCodeRunnerFile.py:18-36 | visiting `n` such seeders of one file accumulates the file `n` times over |
| Protocol.FetchAllAlike | torrent/tempCodeRunnerFile.py:18-36 | seeders that each yield the same chunks accumulate those chunks' bytes once per seeder |
| Protocol.SeedersListed | torrent/tempCodeRunnerFile.py:11-14 | the script reads a reply listing seeders as their address tokens, the first of which is not `NO_SEEDERS` |
| Protocol.ScriptForToken | torrent/tempCodeRunnerFile.py:14-41 | a reply listing one token makes the script write what that token's visit yields, or crash |
| Protocol.DownloadFromHonestSeeders | torrent/tempCodeRunnerFile.py:9-41 | the script writes the file once per listed seeder, because the shared chunk list is never reset |
| Protocol.DownloadFromOneSeeder | torrent/tempCodeRunnerFile.py:9-41 | with one seeder that answers every request, the written file is the seeder's file |
| Protocol.DownloadFromTwoSeeders | torrent/tempCodeRunnerFile.py:9-41 | with two seeders of the same file, the written file holds its content twice |
| Protocol.FetchAllOne | torrent/tempCodeRunnerFile.py:18-36 | with one seeder the shared list is what that seeder yields |
| Protocol.ScriptForOneSeeder | torrent/tempCodeRunnerFile.py:9-41 | with a reply listing one seeder, the script writes what that seeder yields, or crashes with it |
| Protocol.FetchFromOneShot | torrent/seeder.py:85-87 | from a seeder that closed after the count reply, a file shorter than 512 bytes is fetched as its one advertised chunk, read empty |
| Protocol.DownloadFromOneShotSeeder | torrent/seeder.py:85-87 | with such a seeder and a file shorter than 512 bytes, the script writes an empty file, whatever the file holds |

## Findings

| source | as written | input that shows it | evidently intended | confidence | as-written member | corrected member |
|---|---|---|---|---|---|---|
| torrent/seeder.py:85-87 | the seeder closes every connection after its first request, but the download script sends the count request and then every chunk request on that one connection | one seeder whose file has 1 to 511 bytes, so one chunk is advertised | the chunk requests are answered, so the script writes the file | not executed; medium: the one chunk request is sent after the seeder has closed and reads nothing, as modelled, or fails with a reset; a file of 512 bytes or more needs a second chunk request, whose send raises, and is not covered | Protocol.DownloadFromOneShotSeeder | Protocol.DownloadFromOneSeeder |

The corrected seeder is `Protocol.Honest`: a peer that answers every request on the connection as `Seeder.HandleRequest` does. All the download lemmas except the one-shot ones assume it.

## Left out

- Sockets, threads, the seeder's accept loop, `bind`/`listen`, logging and printing are left out. Each handler is modelled on the data it receives.
- The tracker's `sendto`, and what happens when it fails, are left out. The replies are collected in order.
- Connection success and the seeder's replies to the download script are the parameters `connects` and `exchange`. A TCP receive in the file sharing part is taken to deliver the peer's whole reply. A reply longer than the buffer, and short reads, are not modelled.
- The script's `recv(512)` of a chunk is taken to return the whole chunk.
- Text is ASCII. `int()` and `str.split()` on non-ASCII digits and whitespace other than what `IsSpace` and `IsIntSpace` list are not modelled. A valid multi-byte UTF-8 sequence counts as a decoding failure (`Text.AsciiText`).
- Text.AsciiText: treats every byte at or above 128 as a decoding failure, because only ASCII is modelled. Python's UTF-8 decoder accepts valid multi-byte sequences.
- ChatServer.HandleClient: the body is kept as bytes. A body that is not valid UTF-8 raises in the source and would abort the session; that is not modelled. Comparing bytes with the disconnect message's bytes is the same as comparing the decoded text (`ChatClient.DisconnectEncodes`, `Text.AsciiTextExactly`).
- Leecher.Communicate: the message text from `input()` is left out. The seeder's response is decoded and then only logged; a response that does not decode is caught and makes `send_message` return false. `connects` covers that decoding together with the connection and the send, so the result depends only on whether the whole exchange completes.
- The leecher's `MAX_RETRIES` and `RETRY_DELAY` are never used by the source. Its outer `main` loop repeats `communicate` on user input, which is left out.
- Seeder.Chunk: a seek past 2^63 bytes, which raises an overflow error, is not modelled. Ports are unbounded integers, because the source does no range check; `connect` with an invalid port is covered by `connects`.
- The seeder's request buffer (`recv(1024)`) is taken to hold the whole request. Registration happens once at start-up, and its send error is only logged.
- Datagrams and requests are modelled as text that is already decoded. In the source, a datagram that is not valid UTF-8 kills the tracker's handler. Such a request is caught and logged by the seeder, and makes the leecher's `get_seeders` return no seeders.
- The tracker's `start` loop and daemon thread are left out. `Serve` covers the handler thread over a finite sequence of datagrams.
- The chat server's accept loop and the connection count are left out. `HandleClient` covers one connection.
- ChatServer.ReadOne: a length below 2^63 whose buffer cannot be allocated raises a memory error in the source; that is not modelled, and such a read returns what the stream holds.
- Protocol.FetchFromOneShot: covers only files shorter than 512 bytes. With a larger file the script sends a second chunk request on the closed connection, which raises; that path is not modelled.
- Protocol.DownloadFromOneShotSeeder: covers only files shorter than 512 bytes, for the same reason.
- Text.IntRoundTrip: holds for integers of every size. Python 3.11 and later refuse `int()` and `str()` conversions of more than 4300 digits by default; every text the programs pass to `int()` comes from a receive of at most 1024 bytes, so such numbers are not reached, and the limit is not modelled.
