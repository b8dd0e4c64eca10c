/**
  The browser side of HMR: the socket the page opens and what it does with
  each message the server sends. The browser APIs it calls (`WebSocket`,
  `setInterval`, `import()`, `location.reload`) are recorded as actions.
*/
module Client {
  import opened Wrappers
  import opened Text
  import opened Json
  import opened Protocol

  /** A call the client makes into the browser. */
  datatype Action =
    | OpenSocket(url: string, protocol: string)
    | SetInterval(ms: nat, message: string)  // a timer sending `message` on the socket every `ms` milliseconds
    | Import(url: string)
    | Reload
    | ReportError                            // `console.error` of the rejected handler

  const SocketProtocol: string := "vite-hmr"
  const PingInterval: nat := 30000
  const Ping: string := "ping"

  function SocketUrl(host: string): string {
    "ws://" + host
  }

  /** The URL a `js-update` record is re-imported from. */
  function ImportUrl(r: UpdateRecord): string {
    "/target/" + r.path + "?t=" + NatToString(r.timestamp)
  }

  predicate IsJsUpdate(r: UpdateRecord) {
    r.kind == "js-update"
  }

  /** The re-import URLs of the `js-update` records, in order. */
  function JsUpdateUrls(us: seq<UpdateRecord>): (urls: seq<string>)
    ensures |urls| <= |us|
  {
    if us == [] then []
    else
      var init := JsUpdateUrls(us[..|us| - 1]);
      var last := us[|us| - 1];
      if IsJsUpdate(last) then init + [ImportUrl(last)] else init
  }

  function Imports(urls: seq<string>): (r: seq<Action>)
    ensures |r| == |urls|
    ensures forall i :: 0 <= i < |urls| ==> r[i] == Import(urls[i])
  {
    if urls == [] then [] else Imports(urls[..|urls| - 1]) + [Import(urls[|urls| - 1])]
  }

  /** One reload for each import, among `urls`, that the browser loads. */
  function Reloads(urls: seq<string>, loads: string -> bool): (r: seq<Action>)
    ensures forall i :: 0 <= i < |r| ==> r[i] == Reload
    ensures |r| <= |urls|
  {
    if urls == [] then []
    else Reloads(urls[..|urls| - 1], loads) + (if loads(urls[|urls| - 1]) then [Reload] else [])
  }

  /**
    What the page does with the message text `data`. `loads(url)` says
    whether the dynamic import of `url` resolves. Every record's callback runs
    up to its `await` before any import resolves, so all imports are issued
    first and the reloads follow.
  */
  function Reaction(data: string, loads: string -> bool): seq<Action> {
    React(Parse(data), loads)
  }

  /** What the page does with a message once it is parsed; `None` when `JSON.parse` throws. */
  function React(p: Option<Payload>, loads: string -> bool): seq<Action> {
    match p
    case None => []
    case Some(Connected) => [SetInterval(PingInterval, Ping)]
    case Some(Update(None)) => [ReportError]
    case Some(Update(Some(us))) => UpdateActions(us, loads)
    case Some(Other(_)) => []
  }

  function UpdateActions(us: seq<UpdateRecord>, loads: string -> bool): seq<Action> {
    var urls := JsUpdateUrls(us);
    Imports(urls) + Reloads(urls, loads)
  }

  /** The page's HMR client: everything it has asked the browser to do so far. */
  class HmrClient {
    var actions: seq<Action>

    /** Loading the client opens the socket to the page's own host with the HMR sub-protocol. */
    constructor (host: string)
      ensures actions == [OpenSocket(SocketUrl(host), SocketProtocol)]
    {
      actions := [OpenSocket(SocketUrl(host), SocketProtocol)];
    }

    /** The socket's `message` listener. */
    method OnMessage(data: string, loads: string -> bool)
      modifies this
      ensures actions == old(actions) + Reaction(data, loads)
    {
      var p := Parse(data);
      assert Reaction(data, loads) == React(p, loads);
      match p
      case None =>
      case Some(Connected) =>
        actions := actions + [SetInterval(PingInterval, Ping)];
      case Some(Update(None)) =>
        actions := actions + [ReportError];
      case Some(Update(Some(us))) =>
        HandleUpdates(us, loads);
      case Some(Other(_)) =>
    }

    /**
      `payload.updates.forEach` with an async callback: each `js-update`
      record's import is issued in turn, and once the handler has returned,
      each import that loads is followed by a page reload.
    */
    method HandleUpdates(us: seq<UpdateRecord>, loads: string -> bool)
      modifies this
      ensures actions == old(actions) + UpdateActions(us, loads)
    {
      var pending := IssueImports(us);
      ReloadLoaded(pending, loads);
    }

    /** The synchronous part of each callback: a `js-update` record's import is issued. */
    method IssueImports(us: seq<UpdateRecord>) returns (pending: seq<string>)
      modifies this
      ensures pending == JsUpdateUrls(us)
      ensures actions == old(actions) + Imports(pending)
    {
      pending := [];
      var issued: seq<Action> := [];
      var i := 0;
      while i < |us|
        invariant 0 <= i <= |us|
        invariant pending == JsUpdateUrls(us[..i])
        invariant issued == Imports(pending)
        invariant actions == old(actions)
      {
        JsUpdateUrlsSnoc(us, i);
        if IsJsUpdate(us[i]) {
          var url := ImportUrl(us[i]);
          ImportsSnoc(pending, url);
          issued := issued + [Import(url)];
          pending := pending + [url];
        }
        i := i + 1;
      }
      assert us[..i] == us;
      actions := actions + issued;
    }

    /** The callbacks resume: each pending import that loads reloads the page. */
    method ReloadLoaded(pending: seq<string>, loads: string -> bool)
      modifies this
      ensures actions == old(actions) + Reloads(pending, loads)
    {
      var j := 0;
      while j < |pending|
        invariant 0 <= j <= |pending|
        invariant actions == old(actions) + Reloads(pending[..j], loads)
      {
        ReloadsSnoc(pending, j, loads);
        if loads(pending[j]) {
          actions := actions + [Reload];
        }
        j := j + 1;
      }
      assert pending[..j] == pending;
    }
  }

  lemma JsUpdateUrlsSnoc(us: seq<UpdateRecord>, i: nat)
    requires i < |us|
    ensures JsUpdateUrls(us[..i + 1])
      == JsUpdateUrls(us[..i]) + (if IsJsUpdate(us[i]) then [ImportUrl(us[i])] else [])
  {
    assert us[..i + 1][..i] == us[..i];
  }

  lemma ReloadsSnoc(urls: seq<string>, j: nat, loads: string -> bool)
    requires j < |urls|
    ensures Reloads(urls[..j + 1], loads) == Reloads(urls[..j], loads) + (if loads(urls[j]) then [Reload] else [])
  {
    assert urls[..j + 1][..j] == urls[..j];
  }

  lemma ImportsSnoc(urls: seq<string>, url: string)
    ensures Imports(urls + [url]) == Imports(urls) + [Import(url)]
  {
    assert (urls + [url])[..|urls|] == urls;
  }

  // ---------------------------------------------------------------------------
  // Properties

  /** Only `js-update` records are re-imported, each from its own URL, in order. */
  lemma {:induction false} JsUpdateUrlsSpec(us: seq<UpdateRecord>)
    ensures var urls := JsUpdateUrls(us);
      |urls| == |Filter(us)| && forall i :: 0 <= i < |urls| ==> urls[i] == ImportUrl(Filter(us)[i])
  {
    if us != [] {
      JsUpdateUrlsSpec(us[..|us| - 1]);
    }
  }

  /** The `js-update` records, in order. */
  function Filter(us: seq<UpdateRecord>): (r: seq<UpdateRecord>)
    ensures forall i :: 0 <= i < |r| ==> IsJsUpdate(r[i])
    ensures forall x :: x in r <==> x in us && IsJsUpdate(x)
  {
    if us == [] then []
    else
      var init := Filter(us[..|us| - 1]);
      var last := us[|us| - 1];
      assert us == us[..|us| - 1] + [last];
      if IsJsUpdate(last) then init + [last] else init
  }

  /** An update message the server sent is acted on record by record. */
  lemma UpdateMessageActs(us: seq<UpdateRecord>, loads: string -> bool)
    ensures Reaction(Stringify(Update(Some(us))), loads) == UpdateActions(us, loads)
  {
    ParseStringify(Update(Some(us)));
  }

  /**
    For a list of update records every import comes before every reload,
    there is one import per `js-update` record, from that record's URL and in
    the records' order, and one reload per import that loads.
  */
  lemma UpdateActionsShape(us: seq<UpdateRecord>, loads: string -> bool)
    ensures var r := UpdateActions(us, loads);
      var urls := JsUpdateUrls(us);
      && |urls| == |Filter(us)|
      && (forall i :: 0 <= i < |urls| ==> r[i] == Import(ImportUrl(Filter(us)[i])))
      && (forall i :: |urls| <= i < |r| ==> r[i] == Reload)
      && |r| - |urls| == |Loaded(urls, loads)|
  {
    JsUpdateUrlsSpec(us);
    ReloadsCount(JsUpdateUrls(us), loads);
  }

  /** The URLs among `urls` that load. */
  function Loaded(urls: seq<string>, loads: string -> bool): (r: seq<string>)
    ensures forall u :: u in r <==> u in urls && loads(u)
  {
    if urls == [] then []
    else
      var init := Loaded(urls[..|urls| - 1], loads);
      var last := urls[|urls| - 1];
      assert urls == urls[..|urls| - 1] + [last];
      if loads(last) then init + [last] else init
  }

  lemma {:induction false} ReloadsCount(urls: seq<string>, loads: string -> bool)
    ensures |Reloads(urls, loads)| == |Loaded(urls, loads)|
  {
    if urls != [] {
      ReloadsCount(urls[..|urls| - 1], loads);
    }
  }

  /**
    The greeting every connection gets starts the keep-alive timer: a `ping`
    every 30 seconds.
  */
  lemma ConnectedStartsPing(loads: string -> bool)
    ensures Reaction(Stringify(Connected), loads) == [SetInterval(30000, "ping")]
  {
    ParseStringify(Connected);
  }

  /** An update without a list of records makes the handler throw, and the error is reported. */
  lemma MissingUpdatesReported(loads: string -> bool)
    ensures Reaction(Stringify(Update(None)), loads) == [ReportError]
  {
    ParseStringify(Update(None));
  }

  /** A message of any other type does nothing: the switch has no default. */
  lemma OtherTypeIgnored(kind: string, loads: string -> bool)
    requires kind != "connected" && kind != "update"
    ensures Reaction(Stringify(Other(kind)), loads) == []
  {
    ParseStringify(Other(kind));
  }

  /**
    The query of a re-import URL starts at its first `?` when the record's path
    has none, and the timestamp reads back from it.
  */
  lemma ImportUrlParts(r: UpdateRecord)
    requires '?' !in r.path
    ensures var url := ImportUrl(r); var k := |"/target/" + r.path|;
      && IndexOf(url, "?") == Some(k)
      && url[..k] == "/target/" + r.path
      && url[k..k + 3] == "?t="
      && ReadNat(url[k + 3..]) == Some((r.timestamp, ""))
  {
    var p := "/target/" + r.path;
    var q := "?t=" + NatToString(r.timestamp);
    var url := ImportUrl(r);
    var k := |p|;
    ConcatAssoc(p, "?t=", NatToString(r.timestamp));
    assert url == p + q;
    assert '?' !in p by {
      assert p == "/target/" + r.path;
      forall i | 0 <= i < |p| ensures p[i] != '?' {
        if i >= 8 {
          assert p[i] == r.path[i - 8];
        }
      }
    }
    IndexOfCharAt(p, q, '?');
    DropPrefix(p, q, 0);
    assert url[..k] == p;
    DropPrefix(p, q, 3);
    assert q[3..] == NatToString(r.timestamp);
    ReadNatToString(r.timestamp, "");
    assert NatToString(r.timestamp) + "" == NatToString(r.timestamp);
  }
}
