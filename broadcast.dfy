/** The WebSocket side: the set of connected clients with their ready states,
    the messages sent to them, and the fan-out of one message to every OPEN
    client. */
module Broadcast {
  import opened Readings

  /** `WebSocket.CONNECTING`, `OPEN`, `CLOSING`, `CLOSED`. */
  datatype ReadyState = Connecting | Open | Closing | Closed

  /** The state a connection moves to next; CLOSED is final. */
  function Next(s: ReadyState): (r: ReadyState)
    ensures r != Connecting
    ensures r == s <==> s == Closed
    ensures s == Open ==> r != Open
  {
    match s
    case Connecting => Open
    case Open => Closing
    case Closing => Closed
    case Closed => Closed
  }

  datatype Client = Client(id: nat, state: ReadyState)

  /** The two JSON messages the server sends: `{type: 'new-reading', data}`
      and `{type: 'latest-reading', data}`. Serialising equal messages gives
      equal text, so the datatype stands for the text. */
  datatype Message = NewReading(data: Reading) | LatestReading(data: Reading)

  /** One `client.send(msg)`. */
  datatype Delivery = Delivery(client: nat, message: Message)

  predicate DistinctIds(clients: seq<Client>)
  {
    forall i, j :: 0 <= i < j < |clients| ==> clients[i].id != clients[j].id
  }

  /** Some client with this id is currently OPEN. */
  predicate IsOpen(clients: seq<Client>, id: nat)
  {
    exists i :: 0 <= i < |clients| && clients[i].id == id && clients[i].state == Open
  }

  /** The sends `broadcastJSON` performs, in client order. */
  function Fanout(clients: seq<Client>, msg: Message): (out: seq<Delivery>)
    ensures |out| <= |clients|
  {
    if clients == [] then []
    else (if clients[0].state == Open then [Delivery(clients[0].id, msg)] else []) + Fanout(clients[1..], msg)
  }

  /** Every send of a broadcast carries its message to an OPEN client. */
  lemma {:induction false} FanoutSends(clients: seq<Client>, msg: Message, k: nat)
    requires k < |Fanout(clients, msg)|
    ensures Fanout(clients, msg)[k].message == msg
    ensures IsOpen(clients, Fanout(clients, msg)[k].client)
  {
    var head := if clients[0].state == Open then [Delivery(clients[0].id, msg)] else [];
    var tail := clients[1..];
    if k >= |head| {
      FanoutSends(tail, msg, k - |head|);
      var i :| 0 <= i < |tail| && tail[i].id == Fanout(tail, msg)[k - |head|].client && tail[i].state == Open;
      assert clients[i + 1] == tail[i];
    }
  }

  lemma {:induction false} FanoutConcat(a: seq<Client>, b: seq<Client>, msg: Message)
    ensures Fanout(a + b, msg) == Fanout(a, msg) + Fanout(b, msg)
  {
    if a == [] {
      assert a + b == b;
    } else {
      var head := if a[0].state == Open then [Delivery(a[0].id, msg)] else [];
      assert (a + b)[0] == a[0] && (a + b)[1..] == a[1..] + b;
      FanoutConcat(a[1..], b, msg);
      calc {
        Fanout(a + b, msg);
        head + Fanout(a[1..] + b, msg);
        head + (Fanout(a[1..], msg) + Fanout(b, msg));
        (head + Fanout(a[1..], msg)) + Fanout(b, msg);
        Fanout(a, msg) + Fanout(b, msg);
      }
    }
  }

  /** What client `id` has received, in order. */
  function Inbox(out: seq<Delivery>, id: nat): (msgs: seq<Message>)
    ensures |msgs| <= |out|
  {
    if out == [] then []
    else (if out[0].client == id then [out[0].message] else []) + Inbox(out[1..], id)
  }

  lemma {:induction false} InboxConcat(a: seq<Delivery>, b: seq<Delivery>, id: nat)
    ensures Inbox(a + b, id) == Inbox(a, id) + Inbox(b, id)
  {
    if a != [] {
      assert (a + b)[0] == a[0] && (a + b)[1..] == a[1..] + b;
      InboxConcat(a[1..], b, id);
    } else {
      assert a + b == b;
    }
  }

  /** A client that was never addressed has received nothing. */
  lemma {:induction false} InboxUnaddressed(out: seq<Delivery>, id: nat)
    requires forall k :: 0 <= k < |out| ==> out[k].client != id
    ensures Inbox(out, id) == []
  {
    if out != [] {
      InboxUnaddressed(out[1..], id);
    }
  }

  /** One broadcast gives each OPEN client the message exactly once and every
      other client nothing. */
  lemma {:induction false} InboxOfFanout(clients: seq<Client>, msg: Message, id: nat)
    requires DistinctIds(clients)
    ensures Inbox(Fanout(clients, msg), id) == if IsOpen(clients, id) then [msg] else []
  {
    if clients != [] {
      var head := if clients[0].state == Open then [Delivery(clients[0].id, msg)] else [];
      var tail := clients[1..];
      assert DistinctIds(tail);
      InboxConcat(head, Fanout(tail, msg), id);
      InboxOfFanout(tail, msg, id);
      if IsOpen(clients, id) {
        var i :| 0 <= i < |clients| && clients[i].id == id && clients[i].state == Open;
        if i == 0 {
          assert !IsOpen(tail, id);
        } else {
          assert tail[i - 1] == clients[i];
        }
      } else {
        forall i | 0 <= i < |tail| ensures !(tail[i].id == id && tail[i].state == Open) {
          assert clients[i + 1] == tail[i];
        }
      }
    }
  }

  /** A client that is OPEN at two broadcasts receives the first message,
      then whatever was sent to it in between (bootstraps, other
      broadcasts), then the second, even when clients joined or left in
      between. */
  lemma BroadcastsInOrder(out: seq<Delivery>, c1: seq<Client>, m1: Message, mid: seq<Delivery>,
                          c2: seq<Client>, m2: Message, id: nat)
    requires DistinctIds(c1) && IsOpen(c1, id)
    requires DistinctIds(c2) && IsOpen(c2, id)
    ensures Inbox(out + Fanout(c1, m1) + mid + Fanout(c2, m2), id) == Inbox(out, id) + [m1] + Inbox(mid, id) + [m2]
  {
    InboxConcat(out + Fanout(c1, m1) + mid, Fanout(c2, m2), id);
    InboxConcat(out + Fanout(c1, m1), mid, id);
    InboxConcat(out, Fanout(c1, m1), id);
    InboxOfFanout(c1, m1, id);
    InboxOfFanout(c2, m2, id);
  }

  /** Moves the connection with this id to its next ready state. */
  function Advanced(clients: seq<Client>, id: nat): (r: seq<Client>)
    ensures |r| == |clients|
    ensures forall i :: 0 <= i < |r| ==> r[i].id == clients[i].id
    ensures forall i :: 0 <= i < |r| && clients[i].id != id ==> r[i] == clients[i]
    ensures forall i :: 0 <= i < |r| && clients[i].id == id ==> r[i].state == Next(clients[i].state)
  {
    seq(|clients|, i requires 0 <= i < |clients| =>
      if clients[i].id == id then Client(id, Next(clients[i].state)) else clients[i])
  }

  /** `wss.clients` and everything sent to them so far. */
  class Hub {
    var clients: seq<Client>
    var outbox: seq<Delivery>
    var nextClientId: nat

    /** Each connection has its own id, and ids at or above `nextClientId`
        have never been used, neither by a client nor by a send. */
    ghost predicate Valid()
      reads this
    {
      && DistinctIds(clients)
      && (forall i :: 0 <= i < |clients| ==> clients[i].id < nextClientId)
      && (forall k :: 0 <= k < |outbox| ==> outbox[k].client < nextClientId)
    }

    constructor ()
      ensures Valid() && clients == [] && outbox == []
    {
      clients := [];
      outbox := [];
      nextClientId := 0;
    }

    /** `broadcastJSON(msg)`: sends the message to each OPEN client. */
    method Publish(msg: Message)
      requires Valid()
      modifies this`outbox
      ensures Valid()
      ensures outbox == old(outbox) + Fanout(clients, msg)
    {
      var i := 0;
      while i < |clients|
        invariant 0 <= i <= |clients|
        invariant outbox == old(outbox) + Fanout(clients[..i], msg)
        invariant forall k :: 0 <= k < |outbox| ==> outbox[k].client < nextClientId
      {
        FanoutConcat(clients[..i], [clients[i]], msg);
        assert clients[..i + 1] == clients[..i] + [clients[i]];
        if clients[i].state == Open {
          outbox := outbox + [Delivery(clients[i].id, msg)];
        }
        i := i + 1;
      }
      assert clients[..i] == clients;
    }

    /** A new connection: `wss` adds it to its clients once the handshake is
        done, so it is OPEN and has received nothing. */
    method Join() returns (id: nat)
      requires Valid()
      modifies this
      ensures Valid()
      ensures id == old(nextClientId)
      ensures forall i :: 0 <= i < |old(clients)| ==> old(clients)[i].id != id
      ensures clients == old(clients) + [Client(id, Open)]
      ensures outbox == old(outbox)
      ensures Inbox(outbox, id) == []
      ensures IsOpen(clients, id)
    {
      id := nextClientId;
      InboxUnaddressed(outbox, id);
      clients := clients + [Client(id, Open)];
      nextClientId := nextClientId + 1;
      assert clients[|clients| - 1] == Client(id, Open);
    }

    /** `ws.send(msg)` to one client. */
    method Send(id: nat, msg: Message)
      requires Valid()
      requires id < nextClientId
      modifies this`outbox
      ensures Valid()
      ensures outbox == old(outbox) + [Delivery(id, msg)]
      ensures Inbox(outbox, id) == Inbox(old(outbox), id) + [msg]
    {
      InboxConcat(outbox, [Delivery(id, msg)], id);
      assert Inbox([Delivery(id, msg)], id) == [msg] + Inbox([], id);
      outbox := outbox + [Delivery(id, msg)];
    }

    /** The transport moves one connection on (an OPEN one starts closing). */
    method Advance(id: nat)
      requires Valid()
      modifies this`clients
      ensures Valid()
      ensures clients == Advanced(old(clients), id)
    {
      clients := Advanced(clients, id);
    }
  }
}
