/**
  The HMR socket server: the sub-protocol gate on upgrade, the greeting every
  new connection gets, the broadcast to open clients, and the update message a
  file change produces.
*/
module WebSocketServer {
  import opened Wrappers
  import opened Text
  import opened Paths
  import opened Protocol
  import Json

  /** The `readyState` of a connection. */
  datatype ReadyState = Connecting | Open | Closing | Closed

  datatype Client = Client(id: nat, state: ReadyState)

  /** One string sent to one connection. */
  datatype Delivery = Delivery(to: nat, data: string)

  /** The only sub-protocol the server upgrades. */
  const Subprotocol: string := "vite-hmr"

  /** The upgrade is handled exactly when the `sec-websocket-protocol` header is `vite-hmr`. */
  predicate AcceptsUpgrade(headers: map<string, string>) {
    "sec-websocket-protocol" in headers && headers["sec-websocket-protocol"] == Subprotocol
  }

  // ---------------------------------------------------------------------------
  // Update messages

  /** `getShortName(file, root)`: the path below `root`, or `file` itself when it is not below `root`. */
  function GetShortName(file: string, root: string): string {
    if StartsWith(file, root + "/") then Relative(root, file) else file
  }

  /** A file outside the root keeps its full name; a file below it is named relative to it. */
  lemma ShortNameSpec(file: string, root: string, rest: string)
    ensures !StartsWith(file, root + "/") ==> GetShortName(file, root) == file
    ensures IsCleanAbsolute(root) && IsCleanRelative(rest) ==> GetShortName(root + "/" + rest, root) == rest
  {
    if IsCleanAbsolute(root) && IsCleanRelative(rest) {
      assert StartsWith(root + "/" + rest, root + "/") by {
        assert (root + "/" + rest)[..|root + "/"|] == root + "/";
      }
      RelativeBelowRoot(root, rest);
    }
  }

  /** A short name the client can hot re-import. */
  predicate IsHotFile(short: string) {
    EndsWith(short, ".css") || EndsWith(short, ".jsx")
  }

  /** The message `handleHMRUpdate` broadcasts for a changed file at time `timestamp`. */
  function HmrUpdate(file: string, root: string, timestamp: nat): Payload {
    var short := GetShortName(file, root);
    if IsHotFile(short) then
      Update(Some([UpdateRecord("js-update", timestamp, "/" + short, "/" + short)]))
    else Update(None)
  }

  /**
    Every change yields an update message. It carries one `js-update` record,
    whose `path` and `acceptedPath` are both the short name after a slash,
    exactly when the short name ends in `.css` or `.jsx`; otherwise `updates`
    is undefined.
  */
  lemma HmrUpdateSpec(file: string, root: string, timestamp: nat)
    ensures var p := HmrUpdate(file, root, timestamp);
      var short := GetShortName(file, root);
      && p.Update?
      && (p.updates.Some? <==> EndsWith(short, ".css") || EndsWith(short, ".jsx"))
      && (p.updates.Some? ==>
            && |p.updates.value| == 1
            && p.updates.value[0].kind == "js-update"
            && p.updates.value[0].timestamp == timestamp
            && p.updates.value[0].path == "/" + short
            && p.updates.value[0].acceptedPath == p.updates.value[0].path)
      && WellFormed(p)
  {
  }

  // ---------------------------------------------------------------------------
  // Broadcast

  /** What `send` delivers: `data` to each open client, in the order of `clients`. */
  function Broadcast(clients: seq<Client>, data: string): seq<Delivery> {
    if clients == [] then []
    else
      var last := clients[|clients| - 1];
      Broadcast(clients[..|clients| - 1], data) + (if last.state == Open then [Delivery(last.id, data)] else [])
  }

  /** The strings delivered to connection `id`, in order. */
  function DeliveriesTo(out: seq<Delivery>, id: nat): seq<string> {
    if out == [] then []
    else
      var last := out[|out| - 1];
      DeliveriesTo(out[..|out| - 1], id) + (if last.to == id then [last.data] else [])
  }

  lemma {:induction false} DeliveriesToAppend(a: seq<Delivery>, b: seq<Delivery>, id: nat)
    ensures DeliveriesTo(a + b, id) == DeliveriesTo(a, id) + DeliveriesTo(b, id)
    decreases |b|
  {
    if b == [] {
      assert a + b == a;
    } else {
      var init := b[..|b| - 1];
      assert (a + b)[..|a + b| - 1] == a + init;
      DeliveriesToAppend(a, init, id);
    }
  }

  predicate UniqueIds(clients: seq<Client>) {
    forall i, j :: 0 <= i < j < |clients| ==> clients[i].id != clients[j].id
  }

  /**
    With distinct connection ids, a broadcast gives each open client the
    string exactly once and every other client nothing.
  */
  lemma {:induction false} BroadcastSpec(clients: seq<Client>, data: string)
    requires UniqueIds(clients)
    ensures forall i :: 0 <= i < |clients| ==>
      DeliveriesTo(Broadcast(clients, data), clients[i].id) == (if clients[i].state == Open then [data] else [])
  {
    if clients != [] {
      var init := clients[..|clients| - 1];
      var last := clients[|clients| - 1];
      BroadcastSpec(init, data);
      assert clients == init + [last];
      forall i | 0 <= i < |clients|
        ensures DeliveriesTo(Broadcast(clients, data), clients[i].id) == (if clients[i].state == Open then [data] else [])
      {
        if i < |init| {
          assert init[i] == clients[i];
          BroadcastKeepsEarlier(init, last, data, clients[i].id);
        } else {
          forall j | 0 <= j < |init| ensures init[j].id != last.id {
            assert init[j] == clients[j];
          }
          BroadcastReachesLast(init, last, data);
        }
      }
    }
  }

  /** Adding a client with another id changes nothing for connection `id`. */
  lemma BroadcastKeepsEarlier(init: seq<Client>, last: Client, data: string, id: nat)
    requires id != last.id
    ensures DeliveriesTo(Broadcast(init + [last], data), id) == DeliveriesTo(Broadcast(init, data), id)
  {
    var tail: seq<Delivery> := if last.state == Open then [Delivery(last.id, data)] else [];
    assert (init + [last])[..|init|] == init;
    DeliveriesToAppend(Broadcast(init, data), tail, id);
    assert DeliveriesTo(tail, id) == [] by {
      if tail != [] {
        assert tail[..0] == [];
      }
    }
  }

  /** An added client whose id is new receives the data when open, and otherwise nothing. */
  lemma BroadcastReachesLast(init: seq<Client>, last: Client, data: string)
    requires forall j :: 0 <= j < |init| ==> init[j].id != last.id
    ensures DeliveriesTo(Broadcast(init + [last], data), last.id) == (if last.state == Open then [data] else [])
  {
    var tail: seq<Delivery> := if last.state == Open then [Delivery(last.id, data)] else [];
    assert (init + [last])[..|init|] == init;
    DeliveriesToAppend(Broadcast(init, data), tail, last.id);
    BroadcastAbsent(init, data, last.id);
    assert DeliveriesTo(tail, last.id) == (if last.state == Open then [data] else []) by {
      if tail != [] {
        assert tail[..0] == [];
      }
    }
  }

  /** A connection not in the list gets nothing from a broadcast. */
  lemma {:induction false} BroadcastAbsent(clients: seq<Client>, data: string, id: nat)
    requires forall i :: 0 <= i < |clients| ==> clients[i].id != id
    ensures DeliveriesTo(Broadcast(clients, data), id) == []
  {
    if clients != [] {
      var init := clients[..|clients| - 1];
      var last := clients[|clients| - 1];
      BroadcastAbsent(init, data, id);
      var tail: seq<Delivery> := if last.state == Open then [Delivery(last.id, data)] else [];
      DeliveriesToAppend(Broadcast(init, data), tail, id);
      if tail != [] {
        assert tail[..0] == [];
      }
    }
  }

  /** Every string a broadcast delivers is `data`. */
  lemma {:induction false} BroadcastSameString(clients: seq<Client>, data: string)
    ensures forall k :: 0 <= k < |Broadcast(clients, data)| ==> Broadcast(clients, data)[k].data == data
  {
    if clients != [] {
      BroadcastSameString(clients[..|clients| - 1], data);
    }
  }

  /** The text of the greeting, `JSON.stringify({ type: 'connected' })`. */
  const Greeting: string := "{\"type\":" + ("\"" + "connected" + "\"" + "}")

  lemma GreetingIsConnected()
    ensures Stringify(Connected) == Greeting
  {
    var k := "connected";
    assert forall i :: 0 <= i < |k| ==> Json.IsPlain(k[i]);
    Json.EscapePlain(k);
  }

  /** The client reads the greeting as the `connected` message. */
  lemma GreetingParses()
    ensures Parse(Greeting) == Some(Connected)
  {
    GreetingIsConnected();
    ParseStringify(Connected);
  }

  /** The first string a connection received is the `connected` greeting. */
  predicate Greeted(out: seq<Delivery>, id: nat) {
    var ds := DeliveriesTo(out, id);
    ds != [] && ds[0] == Greeting
  }

  lemma GreetedAppend(out: seq<Delivery>, extra: seq<Delivery>, id: nat)
    requires Greeted(out, id)
    ensures Greeted(out + extra, id)
  {
    DeliveriesToAppend(out, extra, id);
  }

  lemma GreetedAll(out: seq<Delivery>, extra: seq<Delivery>, clients: seq<Client>)
    requires forall i :: 0 <= i < |clients| ==> Greeted(out, clients[i].id)
    ensures forall i :: 0 <= i < |clients| ==> Greeted(out + extra, clients[i].id)
  {
    forall i | 0 <= i < |clients| ensures Greeted(out + extra, clients[i].id) {
      GreetedAppend(out, extra, clients[i].id);
    }
  }

  lemma BroadcastSnoc(clients: seq<Client>, i: nat, data: string)
    requires i < |clients|
    ensures Broadcast(clients[..i + 1], data)
      == Broadcast(clients[..i], data) + (if clients[i].state == Open then [Delivery(clients[i].id, data)] else [])
  {
    assert clients[..i + 1][..i] == clients[..i];
  }

  /** A connection nothing was sent to yet has nothing in the record. */
  lemma {:induction false} DeliveriesToFresh(out: seq<Delivery>, id: nat)
    requires forall k :: 0 <= k < |out| ==> out[k].to < id
    ensures DeliveriesTo(out, id) == []
  {
    if out != [] {
      DeliveriesToFresh(out[..|out| - 1], id);
    }
  }

  /** A broadcast sends only to the clients it is given. */
  lemma {:induction false} BroadcastBelow(clients: seq<Client>, data: string, n: nat)
    requires forall i :: 0 <= i < |clients| ==> clients[i].id < n
    ensures forall k :: 0 <= k < |Broadcast(clients, data)| ==> Broadcast(clients, data)[k].to < n
  {
    if clients != [] {
      BroadcastBelow(clients[..|clients| - 1], data, n);
    }
  }

  /**
    The socket server's invariant on plain values: connection ids are distinct
    and below the next id, and every connection was greeted before anything else.
  */
  ghost predicate ServerConsistent(clients: seq<Client>, outbox: seq<Delivery>, nextId: nat) {
    && UniqueIds(clients)
    && (forall i :: 0 <= i < |clients| ==> clients[i].id < nextId)
    && (forall k :: 0 <= k < |outbox| ==> outbox[k].to < nextId)
    && (forall i :: 0 <= i < |clients| ==> Greeted(outbox, clients[i].id))
  }

  /** A broadcast to the server's own clients keeps the invariant. */
  lemma BroadcastKeepsConsistent(clients: seq<Client>, outbox: seq<Delivery>, nextId: nat, data: string)
    requires ServerConsistent(clients, outbox, nextId)
    ensures ServerConsistent(clients, outbox + Broadcast(clients, data), nextId)
  {
    var b := Broadcast(clients, data);
    BroadcastBelow(clients, data, nextId);
    GreetedAll(outbox, b, clients);
    assert forall k :: 0 <= k < |outbox + b| ==> (outbox + b)[k] == if k < |outbox| then outbox[k] else b[k - |outbox|];
  }

  /** The connections of the socket server and everything it has sent to them. */
  class HmrSocketServer {
    var clients: seq<Client>
    var outbox: seq<Delivery>
    var nextId: nat

    /** The invariant, `ServerConsistent`, on the current fields. */
    ghost predicate Valid()
      reads this
    {
      ServerConsistent(clients, outbox, nextId)
    }

    constructor ()
      ensures Valid()
      ensures clients == [] && outbox == []
    {
      clients := [];
      outbox := [];
      nextId := 0;
    }

    /**
      The `upgrade` handler and the `connection` handler it leads to: a request
      asking for the `vite-hmr` sub-protocol becomes an open connection that is
      sent the greeting; any other request changes nothing.
    */
    method Upgrade(headers: map<string, string>) returns (accepted: bool)
      requires Valid()
      modifies this
      ensures Valid()
      ensures accepted == AcceptsUpgrade(headers)
      ensures accepted ==> (clients == old(clients) + [Client(old(nextId), Open)]
        && outbox == old(outbox) + [Delivery(old(nextId), Greeting)])
      ensures !accepted ==> clients == old(clients) && outbox == old(outbox) && nextId == old(nextId)
    {
      accepted := AcceptsUpgrade(headers);
      if accepted {
        var id := nextId;
        DeliveriesToFresh(outbox, id);
        forall i | 0 <= i < |clients| ensures Greeted(outbox + [Delivery(id, Greeting)], clients[i].id) {
          GreetedAppend(outbox, [Delivery(id, Greeting)], clients[i].id);
        }
        DeliveriesToAppend(outbox, [Delivery(id, Greeting)], id);
        assert [Delivery(id, Greeting)][..0] == [];
        clients := clients + [Client(id, Open)];
        outbox := outbox + [Delivery(id, Greeting)];
        nextId := nextId + 1;
      }
    }

    /** A connection's state changes (it closes, say); nothing is sent. */
    method SetState(i: nat, state: ReadyState)
      requires Valid() && i < |clients|
      modifies this
      ensures Valid()
      ensures clients == old(clients)[i := Client(old(clients)[i].id, state)]
      ensures outbox == old(outbox) && nextId == old(nextId)
    {
      clients := clients[i := Client(clients[i].id, state)];
    }

    /**
      `send(payload)`: the payload is stringified once and that same string is
      delivered to each client whose state is open, in order.
    */
    method Send(p: Payload)
      requires Valid()
      modifies this`outbox
      ensures Valid()
      ensures outbox == old(outbox) + Broadcast(clients, Stringify(p))
    {
      var stringified := Stringify(p);
      Deliver(stringified);
    }

    /** The loop of `send`: `stringified` goes to each client whose state is open, in order. */
    method Deliver(stringified: string)
      requires Valid()
      modifies this`outbox
      ensures Valid()
      ensures outbox == old(outbox) + Broadcast(clients, stringified)
    {
      BroadcastKeepsConsistent(clients, outbox, nextId, stringified);
      var i := 0;
      while i < |clients|
        invariant 0 <= i <= |clients|
        invariant outbox == old(outbox) + Broadcast(clients[..i], stringified)
        modifies this`outbox
      {
        BroadcastSnoc(clients, i, stringified);
        if clients[i].state == Open {
          outbox := outbox + [Delivery(clients[i].id, stringified)];
        }
        i := i + 1;
      }
      assert clients[..i] == clients;
    }

    /**
      `handleHMRUpdate`: one `send` of the update message for the changed file,
      whatever its extension.
    */
    method HandleHmrUpdate(file: string, targetRoot: string, now: nat)
      requires Valid()
      modifies this`outbox
      ensures Valid()
      ensures outbox == old(outbox) + Broadcast(clients, Stringify(HmrUpdate(file, targetRoot, now)))
    {
      Send(HmrUpdate(file, targetRoot, now));
    }
  }

  /**
    After an update broadcast, every open client has been sent exactly the
    update's text once more, and every other client nothing more.
  */
  lemma UpdateReachesOpenClients(clients: seq<Client>, before: seq<Delivery>, file: string, root: string, now: nat)
    requires UniqueIds(clients)
    ensures var data := Stringify(HmrUpdate(file, root, now));
      forall i :: 0 <= i < |clients| ==>
        DeliveriesTo(before + Broadcast(clients, data), clients[i].id)
          == DeliveriesTo(before, clients[i].id) + (if clients[i].state == Open then [data] else [])
  {
    var data := Stringify(HmrUpdate(file, root, now));
    BroadcastSpec(clients, data);
    forall i | 0 <= i < |clients|
      ensures DeliveriesTo(before + Broadcast(clients, data), clients[i].id)
        == DeliveriesTo(before, clients[i].id) + (if clients[i].state == Open then [data] else [])
    {
      DeliveriesToAppend(before, Broadcast(clients, data), clients[i].id);
    }
  }
}
