/** The registry of live WebSocket connections and its broadcast.  A socket
    is an opaque identifier; sending a message to a socket appends it to
    that socket's outbox.  A send that raises is given by the set `failing`
    of sockets whose send fails. */
module Connections {
  import opened Entities

  type Socket = nat

  /** The live-update messages, before their JSON encoding. */
  datatype Event =
    | ServiceUpdated(serviceId: Id, name: string, status: string)
    | IncidentCreated(incidentId: Id, title: string, status: string, serviceIds: seq<Id>)
    | IncidentUpdated(incidentId: Id, title: string, status: string, linkedIds: Option<seq<Id>>)

  /** `s.remove(x)` when `x` is in `s`: the first occurrence goes. */
  function RemoveFirst(s: seq<Socket>, x: Socket): (r: seq<Socket>)
    ensures |r| == if x in s then |s| - 1 else |s|
  {
    if s == [] then []
    else if s[0] == x then s[1..]
    else [s[0]] + RemoveFirst(s[1..], x)
  }

  /** The position of the first occurrence of `x`. */
  function FirstIndex(s: seq<Socket>, x: Socket): (i: nat)
    requires x in s
    ensures i < |s| && s[i] == x && x !in s[..i]
  {
    if s[0] == x then 0
    else
      var j := FirstIndex(s[1..], x);
      assert s[..j + 1] == [s[0]] + s[1..][..j];
      j + 1
  }

  /** Removing cuts out exactly the first occurrence, and nothing happens to
      a list without the socket. */
  lemma {:induction false} RemoveFirstSpec(s: seq<Socket>, x: Socket)
    ensures x in s ==> RemoveFirst(s, x) == s[..FirstIndex(s, x)] + s[FirstIndex(s, x) + 1..]
    ensures x !in s ==> RemoveFirst(s, x) == s
  {
    if s != [] && s[0] != x {
      RemoveFirstSpec(s[1..], x);
      if x in s {
        var j := FirstIndex(s[1..], x);
        assert s[..j + 1] == [s[0]] + s[1..][..j];
        assert s[j + 2..] == s[1..][j + 1..];
      } else {
        assert s == [s[0]] + s[1..];
      }
    }
  }

  /** Removing takes one copy of the socket out of the multiset of
      connections, and leaves the others' counts alone. */
  lemma {:induction false} RemoveFirstMultiset(s: seq<Socket>, x: Socket)
    requires x in s
    ensures multiset(RemoveFirst(s, x)) == multiset(s) - multiset{x}
  {
    if s[0] == x {
      assert s == [s[0]] + s[1..];
    } else {
      RemoveFirstMultiset(s[1..], x);
      assert s == [s[0]] + s[1..];
    }
  }

  /** Disconnecting a socket just connected, when it was not connected
      before, restores the list. */
  lemma {:induction false} RemoveAfterAppend(s: seq<Socket>, x: Socket)
    requires x !in s
    ensures RemoveFirst(s + [x], x) == s
  {
    if s != [] {
      assert (s + [x])[1..] == s[1..] + [x];
      RemoveAfterAppend(s[1..], x);
    }
  }

  /** Everything sent to `c` so far. */
  function Sent(outbox: map<Socket, seq<Event>>, c: Socket): seq<Event> {
    if c in outbox then outbox[c] else []
  }

  /** The outboxes after `msg` is sent to each of `cs` in turn. */
  function Deliver(outbox: map<Socket, seq<Event>>, cs: seq<Socket>, msg: Event): map<Socket, seq<Event>>
  {
    if cs == [] then outbox
    else
      var n := |cs| - 1;
      var prev := Deliver(outbox, cs[..n], msg);
      prev[cs[n] := Sent(prev, cs[n]) + [msg]]
  }

  lemma DeliverStep(outbox: map<Socket, seq<Event>>, cs: seq<Socket>, i: nat, msg: Event)
    requires i < |cs|
    ensures Deliver(outbox, cs[..i + 1], msg) ==
      var prev := Deliver(outbox, cs[..i], msg);
      prev[cs[i] := Sent(prev, cs[i]) + [msg]]
  {
    assert cs[..i + 1][..i] == cs[..i];
  }

  /** How many times `c` occurs in `cs`. */
  function Count(cs: seq<Socket>, c: Socket): (n: nat)
    ensures n <= |cs|
    ensures n == 0 <==> c !in cs
  {
    if cs == [] then 0
    else
      var n := |cs| - 1;
      assert cs == cs[..n] + [cs[n]];
      Count(cs[..n], c) + (if cs[n] == c then 1 else 0)
  }

  function Repeat(msg: Event, n: nat): (r: seq<Event>)
    ensures |r| == n && forall k :: 0 <= k < n ==> r[k] == msg
  {
    seq(n, _ => msg)
  }

  /** A socket receives the message once per occurrence in the list, after
      what it had already received; no other socket receives anything. */
  lemma {:induction false} DeliverSent(outbox: map<Socket, seq<Event>>, cs: seq<Socket>, msg: Event, c: Socket)
    ensures Sent(Deliver(outbox, cs, msg), c) == Sent(outbox, c) + Repeat(msg, Count(cs, c))
  {
    if cs == [] {
      assert Sent(outbox, c) + Repeat(msg, 0) == Sent(outbox, c);
    } else {
      var n := |cs| - 1;
      var prev := Deliver(outbox, cs[..n], msg);
      DeliverSent(outbox, cs[..n], msg, c);
      assert Deliver(outbox, cs, msg) == prev[cs[n] := Sent(prev, cs[n]) + [msg]];
      if cs[n] == c {
        assert Count(cs, c) == Count(cs[..n], c) + 1;
        assert Repeat(msg, Count(cs[..n], c)) + [msg] == Repeat(msg, Count(cs, c));
      } else {
        assert Count(cs, c) == Count(cs[..n], c);
      }
    }
  }

  /** In a list without duplicates a listed socket occurs once. */
  lemma {:induction false} CountDistinct(cs: seq<Socket>, c: Socket)
    requires forall i, j :: 0 <= i < j < |cs| ==> cs[i] != cs[j]
    requires c in cs
    ensures Count(cs, c) == 1
  {
    var n := |cs| - 1;
    assert forall i, j :: 0 <= i < j < n ==> cs[..n][i] != cs[..n][j];
    if cs[n] == c {
      assert c !in cs[..n];
    } else {
      assert c in cs[..n];
      CountDistinct(cs[..n], c);
    }
  }

  /** When every connection is registered once, each one receives exactly
      one copy of the message. */
  lemma DeliverOnce(outbox: map<Socket, seq<Event>>, cs: seq<Socket>, msg: Event, c: Socket)
    requires forall i, j :: 0 <= i < j < |cs| ==> cs[i] != cs[j]
    ensures c in cs ==> Sent(Deliver(outbox, cs, msg), c) == Sent(outbox, c) + [msg]
    ensures c !in cs ==> Sent(Deliver(outbox, cs, msg), c) == Sent(outbox, c)
  {
    DeliverSent(outbox, cs, msg, c);
    if c in cs {
      CountDistinct(cs, c);
      assert Repeat(msg, 1) == [msg];
    } else {
      assert Repeat(msg, 0) == [];
    }
  }

  /** The connections a broadcast reaches: those before the first one
      whose send raises. */
  function Reached(cs: seq<Socket>, failing: set<Socket>): (r: seq<Socket>)
    ensures |r| <= |cs| && r == cs[..|r|]
    ensures forall k :: 0 <= k < |r| ==> r[k] !in failing
    ensures |r| < |cs| ==> cs[|r|] in failing
  {
    if cs == [] || cs[0] in failing then []
    else
      var rest := Reached(cs[1..], failing);
      assert [cs[0]] + rest == cs[..|rest| + 1];
      [cs[0]] + rest
  }

  /** The reach of a broadcast is determined by the first failing
      connection. */
  lemma ReachedIs(cs: seq<Socket>, failing: set<Socket>, i: nat)
    requires i <= |cs|
    requires forall k :: 0 <= k < i ==> cs[k] !in failing
    requires i == |cs| || cs[i] in failing
    ensures Reached(cs, failing) == cs[..i]
  {
  }

  /** Without a failing send, everyone connected is reached: there is no
      filter by organization or anything else. */
  lemma ReachedAll(cs: seq<Socket>, failing: set<Socket>)
    requires forall c :: c in cs ==> c !in failing
    ensures Reached(cs, failing) == cs
  {
  }

  class ConnectionManager {
    /** The registered connections, in order of connection. */
    var active: seq<Socket>
    /** Everything sent to each socket. */
    var outbox: map<Socket, seq<Event>>

    constructor ()
      ensures active == [] && outbox == map[]
    {
      active := [];
      outbox := map[];
    }

    /** Accept a socket and register it at the end. */
    method Connect(ws: Socket)
      modifies this
      ensures active == old(active) + [ws]
      ensures outbox == old(outbox)
    {
      active := active + [ws];
    }

    /** Unregister the first occurrence of a socket; `ok` is false when the
        socket is not registered, where the list removal raises and nothing
        changes. */
    method Disconnect(ws: Socket) returns (ok: bool)
      modifies this
      ensures ok <==> ws in old(active)
      ensures active == RemoveFirst(old(active), ws)
      ensures outbox == old(outbox)
    {
      if ws !in active {
        RemoveFirstSpec(active, ws);
        return false;
      }
      active := RemoveFirst(active, ws);
      return true;
    }

    /** Send `msg` to every registered connection in list order.  The first
        send that raises ends the loop and the broadcast fails (`ok` false);
        the connections after it get nothing. */
    method Broadcast(msg: Event, failing: set<Socket>) returns (ok: bool)
      modifies this
      ensures active == old(active)
      ensures ok <==> forall c :: c in active ==> c !in failing
      ensures outbox == Deliver(old(outbox), Reached(active, failing), msg)
    {
      var i := 0;
      while i < |active|
        invariant 0 <= i <= |active|
        invariant active == old(active)
        invariant forall k :: 0 <= k < i ==> active[k] !in failing
        invariant outbox == Deliver(old(outbox), active[..i], msg)
      {
        var c := active[i];
        if c in failing {
          ReachedIs(active, failing, i);
          return false;
        }
        DeliverStep(old(outbox), active, i, msg);
        outbox := outbox[c := Sent(outbox, c) + [msg]];
        i := i + 1;
      }
      ReachedIs(active, failing, i);
      assert active[..i] == active;
      return true;
    }
  }
}
