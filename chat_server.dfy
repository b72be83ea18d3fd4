/**
 * The chat server's per-connection loop: read a 64-byte header, parse the
 * length, read that many body bytes, emit the body, and stop after the
 * disconnect message or when the peer has closed. The connection is the byte
 * stream the client sent; a receive of `n` bytes returns the next `n` bytes,
 * or what is left, and raises when `n` does not fit a signed 64-bit size.
 */
module ChatServer {
  import opened Wrappers
  import opened Text
  import opened ChatClient

  /**
   * How a session ends: after the disconnect message, or on an empty header
   * read (both close the connection), or by an exception from a header that
   * `int()` rejects or a length the receive refuses (negative, or 2^63 and
   * above), which leaves the handler without closing.
   */
  datatype Ending = Disconnected | PeerClosed | Aborted

  /** The messages emitted, in stream order, and how the session ended. */
  datatype Session = Session(messages: seq<seq<byte>>, ending: Ending)

  function Prepend(ms: seq<seq<byte>>, s: Session): Session {
    Session(ms + s.messages, s.ending)
  }

  /**
   * One pass of the loop body up to emitting: a header read of up to 64 bytes,
   * its decoding and `int()` parse, and a body read of that many bytes; `rest`
   * is what the connection still holds after the two reads.
   */
  datatype Read = Closed | Failed | Got(body: seq<byte>, rest: seq<byte>)

  function HeaderLength(header: seq<byte>): Option<int> {
    match AsciiText(header)
    case None => None
    case Some(text) => ParseInt(text)
  }

  /** The first length `recv` refuses: its size argument is a signed 64-bit integer. */
  const MaxRecv: nat := 0x8000_0000_0000_0000

  function ReadOne(stream: seq<byte>): (r: Read)
    ensures r.Got? ==> |r.rest| < |stream| && |r.body| < MaxRecv
  {
    var header := Take(stream, Header);
    if header == [] then Closed
    else match HeaderLength(header)
      case None => Failed
      case Some(n) =>
        if n < 0 || n >= MaxRecv then Failed
        else
          var after := stream[|header|..];
          var body := Take(after, n);
          Got(body, after[|body|..])
  }

  /**
   * The three outcomes of a read: the peer has closed exactly when the header
   * read is empty; the handler fails exactly when a non-empty header does not
   * decode and parse as an integer, or gives a length the receive refuses;
   * otherwise the body is the next that many bytes, or what is left.
   */
  lemma ReadOneCases(stream: seq<byte>)
    ensures var h := Take(stream, Header); var r := ReadOne(stream);
      && (r.Closed? <==> h == [])
      && (r.Failed? <==> h != [] && (HeaderLength(h).None? || HeaderLength(h).value < 0 || HeaderLength(h).value >= MaxRecv))
      && (r.Got? ==> r.body == Take(stream[|h|..], HeaderLength(h).value) && r.body + r.rest == stream[|h|..])
  {
    var h := Take(stream, Header);
    if h != [] && HeaderLength(h).Some? {
      var n := HeaderLength(h).value;
      if 0 <= n < MaxRecv {
        var after := stream[|h|..];
        assert after == Take(after, n) + after[|Take(after, n)|..];
      }
    }
  }

  /** A header that `int()` rejects aborts the session before anything is emitted. */
  lemma UnparsableHeaderAborts(stream: seq<byte>)
    requires Take(stream, Header) != [] && HeaderLength(Take(stream, Header)).None?
    ensures Receive(stream) == Session([], Aborted)
  {
    ReadOneCases(stream);
  }

  /**
   * The session stops at the disconnect message: that message is the last one
   * emitted exactly when the session ended by it, and no earlier message is it.
   */
  predicate StopsAtDisconnect(s: Session) {
    && (s.ending == Disconnected <==> |s.messages| > 0 && s.messages[|s.messages| - 1] == DisconnectBytes())
    && forall i :: 0 <= i < |s.messages| - 1 ==> s.messages[i] != DisconnectBytes()
  }

  /** Emitting another message in front keeps a session stopping at the disconnect message. */
  lemma PrependOther(body: seq<byte>, s: Session)
    requires body != DisconnectBytes() && StopsAtDisconnect(s)
    ensures StopsAtDisconnect(Prepend([body], s))
  {
    var ms := [body] + s.messages;
    assert forall i :: 0 < i < |ms| ==> ms[i] == s.messages[i - 1];
  }

  /** The session a stream produces; it stops at the disconnect message. */
  function Receive(stream: seq<byte>): (s: Session)
    ensures StopsAtDisconnect(s)
    decreases |stream|
  {
    match ReadOne(stream)
    case Closed => Session([], PeerClosed)
    case Failed => Session([], Aborted)
    case Got(body, rest) =>
      if body == DisconnectBytes() then Session([body], Disconnected)
      else
        var later := Receive(rest);
        PrependOther(body, later);
        Prepend([body], later)
  }

  /** One pass of the loop: what reading a frame makes of the session so far. */
  lemma Step(messages: seq<seq<byte>>, input: seq<byte>)
    ensures Prepend(messages, Receive(input)) ==
      match ReadOne(input)
      case Closed => Session(messages, PeerClosed)
      case Failed => Session(messages, Aborted)
      case Got(body, rest) =>
        if body == DisconnectBytes() then Session(messages + [body], Disconnected)
        else Prepend(messages + [body], Receive(rest))
  {
    match ReadOne(input)
    case Closed =>
      assert messages + [] == messages;
    case Failed =>
      assert messages + [] == messages;
    case Got(body, rest) =>
      if body != DisconnectBytes() {
        PrependAssoc(messages, [body], Receive(rest));
      }
  }

  /** `handle_client`: the `while connected` loop over the connection's bytes. */
  method HandleClient(stream: seq<byte>) returns (messages: seq<seq<byte>>, ending: Ending)
    ensures Session(messages, ending) == Receive(stream)
  {
    messages := [];
    var input := stream;
    var connected := true;
    assert [] + Receive(stream).messages == Receive(stream).messages;
    while connected
      invariant connected ==> Receive(stream) == Prepend(messages, Receive(input))
      invariant !connected ==> Receive(stream) == Session(messages, Disconnected)
      decreases |input|, connected
    {
      Step(messages, input);
      var read := ReadOne(input);
      match read
      case Closed =>
        return messages, PeerClosed;
      case Failed =>
        return messages, Aborted;
      case Got(body, rest) =>
        if body == DisconnectBytes() {
          connected := false;
        }
        messages := messages + [body];
        input := rest;
    }
    ending := Disconnected;
  }

  /** The frames of a list of messages, one after another. */
  function Frames(ms: seq<seq<byte>>): seq<byte> {
    if ms == [] then [] else Frame(ms[0]) + Frames(ms[1..])
  }

  /** A body length whose decimal form fits the header and that a receive accepts. */
  predicate FitsHeader(m: seq<byte>) {
    |NatToString(|m|)| <= Header && |m| < MaxRecv
  }

  /** A frame of a message whose length fits the header is read as exactly that message. */
  lemma ReadFrame(m: seq<byte>, tail: seq<byte>)
    requires FitsHeader(m)
    ensures ReadOne(Frame(m) + tail) == Got(m, tail)
  {
    var n := |m|;
    var h := LengthHeader(n);
    var stream := Frame(m) + tail;
    assert stream == h + (m + tail);
    assert Take(stream, Header) == h;
    HeaderDecodes(n);
    HeaderParses(n);
    assert HeaderLength(h) == Some(n);
    var after := stream[|h|..];
    assert after == m + tail;
    assert Take(after, n) == m;
    assert after[n..] == tail;
  }

  /** One frame is read back as exactly its message, and reading resumes right after it. */
  lemma ReceiveFrame(m: seq<byte>, tail: seq<byte>)
    requires FitsHeader(m)
    ensures Receive(Frame(m) + tail) ==
      if m == DisconnectBytes() then Session([m], Disconnected) else Prepend([m], Receive(tail))
  {
    ReadFrame(m, tail);
  }

  lemma FramesCons(ms: seq<seq<byte>>, tail: seq<byte>)
    requires ms != []
    ensures Frames(ms) + tail == Frame(ms[0]) + (Frames(ms[1..]) + tail)
  {
  }

  lemma PrependAssoc(xs: seq<seq<byte>>, ys: seq<seq<byte>>, s: Session)
    ensures Prepend(xs, Prepend(ys, s)) == Prepend(xs + ys, s)
  {
    assert xs + (ys + s.messages) == (xs + ys) + s.messages;
  }

  /** Frames of messages other than the disconnect message are all read back, in order. */
  lemma {:induction false} ReceiveFrames(ms: seq<seq<byte>>, tail: seq<byte>)
    requires forall i :: 0 <= i < |ms| ==> FitsHeader(ms[i]) && ms[i] != DisconnectBytes()
    ensures Receive(Frames(ms) + tail) == Prepend(ms, Receive(tail))
  {
    if ms == [] {
      assert Frames(ms) + tail == tail;
    } else {
      var later := Frames(ms[1..]) + tail;
      assert Frames(ms) + tail == Frame(ms[0]) + later by { FramesCons(ms, tail); }
      assert Receive(Frame(ms[0]) + later) == Prepend([ms[0]], Receive(later)) by {
        ReceiveFrame(ms[0], later);
      }
      assert Receive(later) == Prepend(ms[1..], Receive(tail)) by { ReceiveFrames(ms[1..], tail); }
      PrependAssoc([ms[0]], ms[1..], Receive(tail));
      assert [ms[0]] + ms[1..] == ms;
    }
  }

  /**
   * Round trip: sending `ms` and then the disconnect message yields exactly `ms`
   * followed by the disconnect message, and the session ends there, whatever
   * bytes follow.
   */
  lemma RoundTrip(ms: seq<seq<byte>>, after: seq<byte>)
    requires forall i :: 0 <= i < |ms| ==> FitsHeader(ms[i]) && ms[i] != DisconnectBytes()
    ensures Receive(Frames(ms) + Frame(DisconnectBytes()) + after)
         == Session(ms + [DisconnectBytes()], Disconnected)
  {
    var d := DisconnectBytes();
    assert FitsHeader(d) by {
      assert |d| == 11;
      assert NatToString(11) == NatToString(1) + [DigitChar(1)];
    }
    assert Frames(ms) + Frame(d) + after == Frames(ms) + (Frame(d) + after);
    ReceiveFrames(ms, Frame(d) + after);
    ReceiveFrame(d, after);
  }

  /** A peer that closes without the disconnect message: all its messages are read, then the session ends. */
  lemma ClosedWithoutDisconnect(ms: seq<seq<byte>>)
    requires forall i :: 0 <= i < |ms| ==> FitsHeader(ms[i]) && ms[i] != DisconnectBytes()
    ensures Receive(Frames(ms)) == Session(ms, PeerClosed)
  {
    ReceiveFrames(ms, []);
    assert Frames(ms) + [] == Frames(ms);
  }
}
