/**
 * The tracker: a UDP service holding, for every file name, the list of seeder
 * addresses that registered for it. One handler thread receives datagrams one
 * at a time; a malformed datagram raises, the thread dies, and nothing after
 * it is handled.
 */
module Tracker {
  import opened Wrappers
  import opened Text
  import opened Peers

  /** `active_seeders`: file name to the addresses registered for it, in registration order. */
  type Registry = map<string, seq<Address>>

  /** `active_seeders.get(filename, [])`. */
  function Lookup(registry: Registry, filename: string): seq<Address> {
    if filename in registry then registry[filename] else []
  }

  /** The `ip:port` tokens of a list of addresses, in order. */
  function Tokens(seeders: seq<Address>): (ts: seq<string>)
    ensures |ts| == |seeders|
    ensures forall i :: 0 <= i < |ts| ==> ts[i] == AddressToken(seeders[i])
  {
    seq(|seeders|, i requires 0 <= i < |seeders| => AddressToken(seeders[i]))
  }

  /**
   * The discovery reply: `NO_SEEDERS`, or `SEEDERS` followed by the space-joined
   * addresses; the two cannot be confused.
   */
  function SeedersReply(seeders: seq<Address>): (s: string)
    ensures s == "NO_SEEDERS" <==> seeders == []
    ensures seeders != [] ==> s == JoinSpace(["SEEDERS"] + Tokens(seeders))
  {
    if seeders == [] then "NO_SEEDERS"
    else
      var ts := Tokens(seeders);
      assert (["SEEDERS"] + ts)[1..] == ts;
      var s := "SEEDERS " + JoinSpace(ts);
      assert s[0] == 'S' != "NO_SEEDERS"[0];
      s
  }

  /** Every file of `before` is still listed in `after`, its list only extended at the end. */
  ghost predicate Grows(before: Registry, after: Registry) {
    forall f :: f in before ==> f in after && before[f] <= after[f]
  }

  /** A received datagram: its text and the address it came from. */
  datatype Datagram = Datagram(text: string, sender: Address)

  /** What handling one datagram does: go on with a registry and maybe a reply to the sender, or die. */
  datatype Effect = Continue(registry: Registry, reply: Option<string>) | Halt

  /**
   * `REGISTER_SEEDER file port`: a missing token or a port that `int()` rejects
   * raises; otherwise `(sender ip, port)` is appended to the file's list.
   */
  function Registration(registry: Registry, message: seq<string>, sender: Address): Effect {
    if |message| < 3 then Halt
    else match ParseInt(message[2])
      case None => Halt
      case Some(port) =>
        var filename := message[1];
        Continue(registry[filename := Lookup(registry, filename) + [Address(sender.host, port)]], None)
  }

  /** `REQUEST_SEEDERS file`: a missing file name raises; otherwise the reply for the file's list. */
  function Query(registry: Registry, message: seq<string>): Effect {
    if |message| < 2 then Halt
    else Continue(registry, Some(SeedersReply(Lookup(registry, message[1]))))
  }

  /**
   * Dispatch on the whitespace-split message. An empty message raises;
   * `ALIVE` and unknown commands do nothing.
   */
  function Dispatch(registry: Registry, message: seq<string>, sender: Address): (e: Effect)
    ensures e.Continue? ==> Grows(registry, e.registry)
    ensures e.Continue? && e.reply.Some? ==> |message| > 0 && message[0] == "REQUEST_SEEDERS" && e.registry == registry
  {
    if |message| == 0 then Halt
    else if message[0] == "REGISTER_SEEDER" then Registration(registry, message, sender)
    else if message[0] == "REQUEST_SEEDERS" then Query(registry, message)
    else Continue(registry, None)
  }

  /**
   * One datagram: cut to the buffer size, split on whitespace, dispatched. A
   * datagram that fits the buffer is read whole.
   */
  function Step(registry: Registry, d: Datagram): (e: Effect)
    ensures |d.text| <= RecvSize ==> e == Dispatch(registry, Split(d.text), d.sender)
  {
    Dispatch(registry, Split(Take(d.text, RecvSize)), d.sender)
  }

  /** The state of the handler after a run of datagrams, and the replies it sent. */
  datatype Trace = Trace(registry: Registry, running: bool, replies: seq<(Address, string)>)

  /**
   * The handler over a sequence of datagrams: once it has died, later datagrams
   * change nothing. No registration is ever lost, and there is at most one reply
   * per datagram.
   */
  function Run(registry: Registry, ds: seq<Datagram>): (t: Trace)
    ensures Grows(registry, t.registry)
    ensures |t.replies| <= |ds|
    decreases |ds|
  {
    if ds == [] then Trace(registry, true, [])
    else
      var before := Run(registry, ds[..|ds| - 1]);
      var d := ds[|ds| - 1];
      if !before.running then before
      else match Step(before.registry, d)
        case Halt => Trace(before.registry, false, before.replies)
        case Continue(r, reply) =>
          Trace(r, true, before.replies + if reply.Some? then [(d.sender, reply.value)] else [])
  }

  /**
   * A registration appends `(sender ip, port)` at the end of the file's list,
   * creating the list when absent; every other file's list is unchanged, nothing
   * is replied, and any integer port is accepted.
   */
  lemma RegisterAppends(registry: Registry, filename: string, portText: string, rest: seq<string>, sender: Address)
    requires ParseInt(portText).Some?
    ensures var e := Dispatch(registry, ["REGISTER_SEEDER", filename, portText] + rest, sender);
      && e.Continue? && e.reply == None
      && Lookup(e.registry, filename) == Lookup(registry, filename) + [Address(sender.host, ParseInt(portText).value)]
      && forall other :: other != filename ==> Lookup(e.registry, other) == Lookup(registry, other)
  {
    var m := ["REGISTER_SEEDER", filename, portText] + rest;
    assert m[0] == "REGISTER_SEEDER" && m[1] == filename && m[2] == portText;
  }

  /** Registering the same seeder twice leaves two entries for it, not one. */
  lemma RegisterTwiceKeepsBoth(registry: Registry, filename: string, portText: string, sender: Address)
    requires ParseInt(portText).Some?
    ensures var m := ["REGISTER_SEEDER", filename, portText];
      var once := Dispatch(registry, m, sender).registry;
      var twice := Dispatch(once, m, sender).registry;
      var a := Address(sender.host, ParseInt(portText).value);
      Lookup(twice, filename) == Lookup(registry, filename) + [a, a]
  {
    var m := ["REGISTER_SEEDER", filename, portText];
    var a := Address(sender.host, ParseInt(portText).value);
    assert m == m + [];
    var once := Dispatch(registry, m, sender).registry;
    assert Lookup(once, filename) == Lookup(registry, filename) + [a] by {
      RegisterAppends(registry, filename, portText, [], sender);
    }
    assert Lookup(Dispatch(once, m, sender).registry, filename) == Lookup(once, filename) + [a] by {
      RegisterAppends(once, filename, portText, [], sender);
    }
    AppendAssoc(Lookup(registry, filename), [a], [a]);
  }

  /**
   * A query leaves the registry as it was and replies `NO_SEEDERS` exactly when
   * the file has no entries, otherwise `SEEDERS ` and the tokens in registration order.
   */
  lemma QueryAnswers(registry: Registry, filename: string, rest: seq<string>, sender: Address)
    ensures var e := Dispatch(registry, ["REQUEST_SEEDERS", filename] + rest, sender);
      var seeders := Lookup(registry, filename);
      && e.Continue? && e.registry == registry && e.reply.Some?
      && (e.reply.value == "NO_SEEDERS" <==> seeders == [])
      && (seeders != [] ==> e.reply.value == JoinSpace(["SEEDERS"] + Tokens(seeders)))
  {
    var m := ["REQUEST_SEEDERS", filename] + rest;
    assert m[0] == "REQUEST_SEEDERS" && m[1] == filename;
    var seeders := Lookup(registry, filename);
    if seeders != [] {
      var ts := Tokens(seeders);
      assert (["SEEDERS"] + ts)[1..] == ts;
      var reply := "SEEDERS " + JoinSpace(ts);
      assert reply[0] == 'S' != "NO_SEEDERS"[0];
    }
  }

  /** The handler dies exactly on an empty message, a short registration or query, or a bad port. */
  lemma HaltsExactly(registry: Registry, m: seq<string>, sender: Address)
    ensures Dispatch(registry, m, sender).Halt? <==>
      || |m| == 0
      || (m[0] == "REGISTER_SEEDER" && (|m| < 3 || ParseInt(m[2]).None?))
      || (m[0] == "REQUEST_SEEDERS" && |m| < 2)
  {
  }

  /** `ALIVE` and every unknown command leave the registry unchanged and send nothing. */
  lemma OtherCommandsIgnored(registry: Registry, m: seq<string>, sender: Address)
    requires |m| > 0 && m[0] != "REGISTER_SEEDER" && m[0] != "REQUEST_SEEDERS"
    ensures Dispatch(registry, m, sender) == Continue(registry, None)
  {
  }

  /** Once the handler has died, further datagrams are never read. */
  lemma {:induction false} HaltIsFinal(registry: Registry, ds: seq<Datagram>, n: nat)
    requires n <= |ds| && !Run(registry, ds[..n]).running
    ensures Run(registry, ds) == Run(registry, ds[..n])
    decreases |ds| - n
  {
    if n < |ds| {
      var prefix := ds[..n + 1];
      assert prefix[..|prefix| - 1] == ds[..n];
      HaltIsFinal(registry, ds, n + 1);
    } else {
      assert ds[..n] == ds;
    }
  }

  /** The tracker process: the registry and whether its handler thread is still alive. */
  class TrackerServer {
    var activeSeeders: Registry
    var running: bool

    constructor ()
      ensures activeSeeders == map[] && running
    {
      activeSeeders := map[];
      running := true;
    }

    /** Handle one datagram in place, as the body of the receive loop does. */
    method Handle(d: Datagram) returns (reply: Option<string>)
      requires running
      modifies this
      ensures Step(old(activeSeeders), d) == if running then Continue(activeSeeders, reply) else Halt
      ensures !running ==> activeSeeders == old(activeSeeders) && reply == None
    {
      var message := Split(Take(d.text, RecvSize));
      reply := Apply(message, d.sender);
    }

    /** Act on the tokens of one datagram: the command's branch, or nothing for an unknown command. */
    method Apply(message: seq<string>, sender: Address) returns (reply: Option<string>)
      requires running
      modifies this
      ensures Dispatch(old(activeSeeders), message, sender) == if running then Continue(activeSeeders, reply) else Halt
      ensures !running ==> activeSeeders == old(activeSeeders) && reply == None
    {
      if |message| == 0 {
        running := false;
        reply := None;
      } else if message[0] == "REGISTER_SEEDER" {
        Register(message, sender);
        reply := None;
      } else if message[0] == "REQUEST_SEEDERS" {
        reply := Answer(message);
      } else {
        reply := None;
      }
    }

    /** The `REGISTER_SEEDER` branch: append the sender's address under the file name. */
    method Register(message: seq<string>, sender: Address)
      requires running
      modifies this
      ensures Registration(old(activeSeeders), message, sender) == if running then Continue(activeSeeders, None) else Halt
      ensures !running ==> activeSeeders == old(activeSeeders)
    {
      var port := if |message| < 3 then None else ParseInt(message[2]);
      if port.None? {
        running := false;
      } else {
        var filename := message[1];
        var list := Lookup(activeSeeders, filename);
        activeSeeders := activeSeeders[filename := list + [Address(sender.host, port.value)]];
      }
    }

    /** The `REQUEST_SEEDERS` branch: the reply for the file's current list. */
    method Answer(message: seq<string>) returns (reply: Option<string>)
      requires running
      modifies this
      ensures activeSeeders == old(activeSeeders)
      ensures Query(activeSeeders, message) == if running then Continue(activeSeeders, reply) else Halt
      ensures !running ==> reply == None
    {
      reply := None;
      if |message| < 2 {
        running := false;
        return;
      }
      reply := Some(SeedersReply(Lookup(activeSeeders, message[1])));
    }

    /** The receive loop over the datagrams that arrive, until the handler dies. */
    method Serve(ds: seq<Datagram>) returns (replies: seq<(Address, string)>)
      requires running
      modifies this
      ensures Trace(activeSeeders, running, replies) == Run(old(activeSeeders), ds)
    {
      replies := [];
      var i := 0;
      while i < |ds| && running
        invariant 0 <= i <= |ds|
        invariant Trace(activeSeeders, running, replies) == Run(old(activeSeeders), ds[..i])
        decreases |ds| - i
      {
        var d := ds[i];
        assert ds[..i + 1][..i] == ds[..i];
        var reply := Handle(d);
        if reply.Some? {
          replies := replies + [(d.sender, reply.value)];
        }
        i := i + 1;
      }
      if i < |ds| {
        HaltIsFinal(old(activeSeeders), ds, i);
      } else {
        assert ds[..i] == ds;
      }
    }
  }
}
