/**
 * The message leecher: it asks the tracker for seeders, then tries them one
 * after another until one exchange succeeds. Whether connecting, sending,
 * receiving and decoding the reply as UTF-8 succeed for an address is the
 * parameter `connects`.
 */
module Leecher {
  import opened Wrappers
  import opened Text
  import opened Peers

  /**
   * `get_seeders`: the tracker's reply, or None when it timed out. A reply whose
   * first token is `NO_SEEDERS`, an empty reply (the index error is caught) and
   * a timeout all give the empty list; otherwise every token after the first,
   * whatever the first one is.
   */
  function SeedersFromReply(reply: Option<string>): (seeders: seq<string>)
    ensures AllWords(seeders)
    ensures reply.None? ==> seeders == []
  {
    match reply
    case None => []
    case Some(text) =>
      var tokens := Split(Take(text, RecvSize));
      SplitGivesWords(Take(text, RecvSize));
      if |tokens| == 0 || tokens[0] == "NO_SEEDERS" then []
      else tokens[1..]
  }

  /**
   * `send_message`: the address token must split into `ip` and an integer port,
   * else the error is caught and the result is false; otherwise the result is
   * whether the exchange completed: the connection, the send, and a reply that
   * decodes, since a decoding error is caught the same way. The reply's text is
   * otherwise unused.
   */
  function SendMessage(token: string, connects: Address -> bool): (ok: bool)
    ensures ok <==> ParseAddress(token).Some? && connects(ParseAddress(token).value)
  {
    match ParseAddress(token)
    case None => false
    case Some(a) => connects(a)
  }

  /**
   * `communicate`: with no seeders nothing is sent; otherwise the seeders are
   * tried in list order and the first success ends the loop. `tried` lists the
   * attempts made, in order.
   */
  method Communicate(reply: Option<string>, connects: Address -> bool) returns (ok: bool, tried: seq<string>)
    ensures var seeders := SeedersFromReply(reply);
      && |tried| <= |seeders| && tried == seeders[..|tried|]
      && (forall i :: 0 <= i < |tried| - 1 ==> !SendMessage(tried[i], connects))
      && (ok <==> exists i :: 0 <= i < |seeders| && SendMessage(seeders[i], connects))
      && (ok ==> |tried| > 0 && SendMessage(tried[|tried| - 1], connects))
      && (!ok ==> tried == seeders)
  {
    var seeders := SeedersFromReply(reply);
    if seeders == [] {
      return false, [];
    }
    ok, tried := TryInOrder(seeders, connects);
  }

  /** The loop over the seeders: stop at the first one the message reaches. */
  method TryInOrder(seeders: seq<string>, connects: Address -> bool) returns (ok: bool, tried: seq<string>)
    ensures |tried| <= |seeders| && tried == seeders[..|tried|]
    ensures forall i :: 0 <= i < |tried| - 1 ==> !SendMessage(tried[i], connects)
    ensures ok <==> exists i :: 0 <= i < |seeders| && SendMessage(seeders[i], connects)
    ensures ok ==> |tried| > 0 && SendMessage(tried[|tried| - 1], connects)
    ensures !ok ==> tried == seeders
  {
    tried := [];
    var i := 0;
    while i < |seeders|
      invariant 0 <= i <= |seeders|
      invariant tried == seeders[..i]
      invariant forall k :: 0 <= k < i ==> !SendMessage(seeders[k], connects)
    {
      tried := tried + [seeders[i]];
      if SendMessage(seeders[i], connects) {
        assert tried[|tried| - 1] == seeders[i];
        return true, tried;
      }
      i := i + 1;
    }
    assert tried == seeders;
    return false, tried;
  }
}
