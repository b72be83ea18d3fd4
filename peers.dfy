/**
 * Peer addresses as they travel in tracker replies: the token `ip:port`,
 * written with an f-string by the tracker and split on `:` by the leechers.
 */
module Peers {
  import opened Wrappers
  import opened Text

  /**
   * Size of every receive buffer the tracker and its clients use for datagrams
   * and replies: longer text is cut to this many bytes.
   */
  const RecvSize: nat := 1024

  /** An `(ip, port)` pair. The port is whatever `int()` produced: no range check. */
  datatype Address = Address(host: string, port: int)

  /** A host that survives the round trip: a non-empty token with no `:` (an IPv4 address, say). */
  predicate PlainHost(host: string) {
    IsWord(host) && ':' !in host
  }

  /** The token `f"{ip}:{port}"`. */
  function AddressToken(a: Address): string {
    a.host + ":" + IntToString(a.port)
  }

  /**
   * `ip, port = token.split(":")` followed by `int(port)`: the token must split
   * into exactly two parts and the second must be an integer, else the source
   * raises (None).
   */
  function ParseAddress(token: string): (r: Option<Address>)
    ensures r.Some? <==> |SplitOn(token, ':')| == 2 && ParseInt(SplitOn(token, ':')[1]).Some?
    ensures r.Some? ==> r.value.host == SplitOn(token, ':')[0]
  {
    var parts := SplitOn(token, ':');
    if |parts| != 2 then None
    else match ParseInt(parts[1])
      case None => None
      case Some(port) => Some(Address(parts[0], port))
  }

  lemma IntToStringHasNoColon(i: int)
    ensures ':' !in IntToString(i)
  {
    var s := IntToString(i);
    if i < 0 {
      assert s == "-" + NatToString(-i);
    }
    assert forall k :: 0 <= k < |s| ==> s[k] != ':';
  }

  /** The token of an address with a plain host is a single whitespace-free word. */
  lemma AddressTokenIsWord(a: Address)
    requires PlainHost(a.host)
    ensures IsWord(AddressToken(a))
  {
    var s := IntToString(a.port);
    assert forall k :: 0 <= k < |s| ==> !IsSpace(s[k]) by {
      if a.port < 0 {
        assert s == "-" + NatToString(-a.port);
      }
    }
  }

  /** Splitting the token the tracker writes gives back the address. */
  lemma AddressRoundTrip(a: Address)
    requires PlainHost(a.host)
    ensures ParseAddress(AddressToken(a)) == Some(a)
  {
    IntToStringHasNoColon(a.port);
    assert AddressToken(a) == a.host + [':'] + IntToString(a.port);
    SplitOnPair(a.host, IntToString(a.port), ':');
    IntRoundTrip(a.port);
  }
}
