/**
  The pieces together: a change the watcher reports reaches the page as an
  update message, the page re-imports the changed file, and the dev server
  routes that request back to the same file. Also the socket handshake and
  the round trip of an imported asset.
*/
module HmrFlow {
  import opened Wrappers
  import opened Text
  import opened Paths
  import opened Protocol
  import WebSocketServer
  import Dev
  import Client
  import Transform
  import Css

  // ---------------------------------------------------------------------------
  // The request the browser sends for a URL

  /** The parameter names of a query string: its `&`-separated parts, each up to its first `=`. */
  function QueryNames(q: string): set<string>
    decreases |q|
  {
    match IndexOf(q, "&")
    case None => ParamName(q)
    case Some(k) => ParamName(q[..k]) + QueryNames(q[k + 1..])
  }

  function ParamName(part: string): set<string> {
    var name := match IndexOf(part, "=") case None => part case Some(k) => part[..k];
    if name == "" then {} else {name}
  }

  /**
    The characters a browser keeps as written in a URL path: ASCII letters,
    digits and `-._~!$&'()*+,;=:@/`. Anything else (`%`, `?`, `#`, a space,
    a quote, a control or non-ASCII character) is percent-encoded or ends
    the path, which `ParseUrl` does not undo.
  */
  predicate UrlChar(c: char) {
    || ('a' <= c <= 'z') || ('A' <= c <= 'Z') || ('0' <= c <= '9')
    || c == '-' || c == '.' || c == '_' || c == '~' || c == '!' || c == '$' || c == '&' || c == '\''
    || c == '(' || c == ')' || c == '*' || c == '+' || c == ',' || c == ';' || c == '=' || c == ':'
    || c == '@' || c == '/'
  }

  /** A name the URL carries unencoded. */
  predicate UrlSafe(s: string) {
    forall i :: 0 <= i < |s| ==> UrlChar(s[i])
  }

  lemma UrlSafeNoQuery(s: string)
    requires UrlSafe(s)
    ensures '?' !in s
  {
    assert !UrlChar('?');
  }

  lemma UrlSafeBelow(s: string, p: string)
    requires UrlSafe(p) && UrlSafe(s)
    ensures UrlSafe(p + s)
  {
    forall i | 0 <= i < |p + s| ensures UrlChar((p + s)[i]) {
      if i >= |p| {
        assert (p + s)[i] == s[i - |p|];
      }
    }
  }

  lemma UrlSafeLiteral(s: string)
    requires UrlSafe(s)
    ensures Dev.PathLiteralSafe(s)
  {
    assert !UrlChar('"') && !UrlChar('\\') && !UrlChar('\n') && !UrlChar('\r');
  }

  /** The path and query parameter names of a same-origin URL. */
  function ParseUrl(url: string): Dev.Request {
    match IndexOf(url, "?")
    case None => Dev.Request(url, {})
    case Some(k) => Dev.Request(url[..k], QueryNames(url[k + 1..]))
  }

  /**
    A re-import URL is a request for `/target/` plus the record's path, with
    the one parameter `t`, for a path the URL carries unencoded.
  */
  lemma ReimportRequest(r: UpdateRecord)
    requires UrlSafe(r.path)
    ensures ParseUrl(Client.ImportUrl(r)) == Dev.Request("/target/" + r.path, {"t"})
  {
    UrlSafeNoQuery(r.path);
    var url := Client.ImportUrl(r);
    var k := |"/target/" + r.path|;
    Client.ImportUrlParts(r);
    var d := NatToString(r.timestamp);
    var q := url[k + 1..];
    assert q == "t=" + d by {
      assert url[k + 1..k + 3] == "t=";
      assert url[k + 3..] == d by {
        ConcatAssoc("/target/" + r.path, "?t=", d);
        DropPrefix("/target/" + r.path + "?t=", d, 0);
      }
    }
    TimestampParam(d);
  }

  lemma TimestampParam(d: string)
    requires forall i :: 0 <= i < |d| ==> IsDigit(d[i])
    ensures QueryNames("t=" + d) == {"t"}
  {
    var q := "t=" + d;
    assert '&' !in q by {
      forall i | 0 <= i < |q| ensures q[i] != '&' {
        if i >= 2 {
          assert q[i] == d[i - 2];
        }
      }
    }
    IndexOfCharAbsent(q, '&');
    assert QueryNames(q) == ParamName(q);
    TimestampName(d);
  }

  lemma TimestampName(d: string)
    ensures ParamName("t=" + d) == {"t"}
  {
    var q := "t=" + d;
    assert q == "t" + ("=" + d);
    IndexOfCharAt("t", "=" + d, '=');
    assert q[..1] == "t";
  }

  // ---------------------------------------------------------------------------
  // A change, end to end

  /** The update the server broadcasts for a `.jsx` or `.css` file below the target root. */
  lemma UpdateForChange(dir: string, rest: string, now: nat)
    requires IsAbsolute(dir) && IsCleanRelative(rest)
    requires Extname(rest) == ".jsx" || Extname(rest) == ".css"
    ensures var root := Dev.TargetRoot(dir);
      WebSocketServer.HmrUpdate(root + "/" + rest, root, now)
        == Update(Some([UpdateRecord("js-update", now, "/" + rest, "/" + rest)]))
  {
    var root := Dev.TargetRoot(dir);
    Dev.ServedBelowTarget(dir, rest);
    WebSocketServer.ShortNameSpec(root + "/" + rest, root, rest);
    LastNameNoTrailingSlash(rest);
    ExtnameEnds(rest);
    assert WebSocketServer.IsHotFile(rest);
  }

  /** The re-import URL of the record for `rest`. */
  lemma ReimportUrl(rest: string, now: nat)
    ensures Client.ImportUrl(UpdateRecord("js-update", now, "/" + rest, "/" + rest))
      == "/target//" + rest + "?t=" + NatToString(now)
  {
    ConcatAssoc("/target/", "/", rest);
    assert "/target/" + "/" == "/target//";
  }

  /** The page's reaction to an update with one `js-update` record: its import, and a reload once it loads. */
  lemma PageReimports(r: UpdateRecord, loads: string -> bool)
    requires Client.IsJsUpdate(r)
    ensures var u := Client.ImportUrl(r);
      Client.Reaction(Stringify(Update(Some([r]))), loads) == [Client.Import(u)] + (if loads(u) then [Client.Reload] else [])
  {
    Client.UpdateMessageActs([r], loads);
    OneRecordActions(r, loads);
  }

  lemma OneRecordActions(r: UpdateRecord, loads: string -> bool)
    requires Client.IsJsUpdate(r)
    ensures var u := Client.ImportUrl(r);
      Client.UpdateActions([r], loads) == [Client.Import(u)] + (if loads(u) then [Client.Reload] else [])
  {
    assert [r][..0] == [];
    var u := Client.ImportUrl(r);
    assert Client.JsUpdateUrls([r]) == [u];
    assert [u][..0] == [];
  }

  /** The re-import path has the extension of the changed file. */
  lemma ReimportExtname(rest: string)
    requires IsCleanRelative(rest)
    ensures Extname("/target//" + rest) == Extname(rest)
  {
    var st := Split(rest);
    assert IsName(st[|st| - 1]);
    LastNameNoTrailingSlash(rest);
    var p := "/target//" + rest;
    assert Basename(p) == Basename(rest) by {
      assert p == "/target/" + "/" + rest;
      BasenameBelow("/target/", rest);
    }
  }

  /** A path starting `/target/` other than the client's is routed by the target handler. */
  lemma TargetRoute(p: string, query: set<string>)
    requires |p| >= 8 && p[..8] == "/target/"
    ensures Dev.Route(Dev.Request(p, query))
      == if "import" in query then Dev.ImportStub else Dev.TargetHandler(Extname(p))
  {
    assert p[1] == 't';
    assert Dev.ClientPath[1] == '@';
  }

  /** A `/target/` path requested with only the `t` parameter goes to the handler for its extension. */
  lemma TimestampedRoute(p: string)
    requires |p| >= 8 && p[..8] == "/target/"
    ensures Dev.Route(Dev.Request(p, {"t"})) == Dev.TargetHandler(Extname(p))
  {
    TargetRoute(p, {"t"});
    assert "import" !in {"t"} by {
      assert |"import"| != |"t"|;
    }
  }

  /** The server routes the re-import of `rest` to the handler for its extension. */
  lemma ReimportRoute(rest: string)
    requires IsCleanRelative(rest)
    requires Extname(rest) == ".jsx" || Extname(rest) == ".css"
    ensures Dev.Route(Dev.Request("/target//" + rest, {"t"}))
      == (if Extname(rest) == ".jsx" then Dev.Script else Dev.Style)
  {
    ReimportExtname(rest);
    ScriptOrStyleRoute("/target//" + rest, Extname(rest));
  }

  lemma ScriptOrStyleRoute(p: string, e: string)
    requires |p| >= 8 && Extname(p) == e && (e == ".jsx" || e == ".css")
    requires p[..8] == "/target/"
    ensures Dev.Route(Dev.Request(p, {"t"})) == (if e == ".jsx" then Dev.Script else Dev.Style)
  {
    TimestampedRoute(p);
    if e == ".jsx" {
      assert Dev.TargetHandler(".jsx") == Dev.Script;
    } else {
      assert Dev.TargetHandler(".css") == Dev.Style;
    }
  }

  /** The file the re-import request reads is the changed file. */
  lemma ReimportServed(dir: string, rest: string)
    requires IsAbsolute(dir) && IsCleanRelative(rest)
    ensures Dev.ServedFile(dir, "/target//" + rest) == Dev.TargetRoot(dir) + "/" + rest
  {
    assert "../target" == "../" + "target";
    JoinBelowSibling(dir, "target", rest, true);
    DropConcat("/target//", rest, 1);
    assert "/target//"[1..] == "target" + "//";
  }

  /**
    When the watcher reports a change to `rest` below the target root (a
    `.jsx` or `.css` file), every page imports one URL: `/target/`, the short
    name after a slash, and the time as `?t=`. It reloads once the import
    loads. The dev server serves that URL with the script or stylesheet
    handler, from the changed file.
  */
  lemma ChangeReimportsFile(dir: string, rest: string, now: nat, loads: string -> bool)
    requires IsAbsolute(dir) && IsCleanRelative(rest) && UrlSafe(rest)
    requires Extname(rest) == ".jsx" || Extname(rest) == ".css"
    ensures var root := Dev.TargetRoot(dir);
      var msg := Stringify(WebSocketServer.HmrUpdate(root + "/" + rest, root, now));
      var url := "/target//" + rest + "?t=" + NatToString(now);
      var req := ParseUrl(url);
      && Client.Reaction(msg, loads) == [Client.Import(url)] + (if loads(url) then [Client.Reload] else [])
      && req == Dev.Request("/target//" + rest, {"t"})
      && Dev.Route(req) == (if Extname(rest) == ".jsx" then Dev.Script else Dev.Style)
      && Dev.ServedFile(dir, req.path) == root + "/" + rest
  {
    ChangeMessageActs(dir, rest, now, loads);
    ReimportParsed(rest, now);
    ReimportRoute(rest);
    ReimportServed(dir, rest);
  }

  lemma ChangeMessageActs(dir: string, rest: string, now: nat, loads: string -> bool)
    requires IsAbsolute(dir) && IsCleanRelative(rest)
    requires Extname(rest) == ".jsx" || Extname(rest) == ".css"
    ensures var root := Dev.TargetRoot(dir);
      var url := "/target//" + rest + "?t=" + NatToString(now);
      Client.Reaction(Stringify(WebSocketServer.HmrUpdate(root + "/" + rest, root, now)), loads)
        == [Client.Import(url)] + (if loads(url) then [Client.Reload] else [])
  {
    var r := UpdateRecord("js-update", now, "/" + rest, "/" + rest);
    UpdateForChange(dir, rest, now);
    PageReimports(r, loads);
    ReimportUrl(rest, now);
  }

  lemma ReimportParsed(rest: string, now: nat)
    requires UrlSafe(rest)
    ensures ParseUrl("/target//" + rest + "?t=" + NatToString(now)) == Dev.Request("/target//" + rest, {"t"})
  {
    var r := UpdateRecord("js-update", now, "/" + rest, "/" + rest);
    ReimportUrl(rest, now);
    UrlSafeBelow(rest, "/");
    ReimportRequest(r);
    assert "/target/" + r.path == "/target//" + rest by {
      ConcatAssoc("/target/", "/", rest);
    }
  }

  /**
    A change to any other file (an `.svg`, a `.js`, `index.html`) sends an
    update without records: the page's handler throws on it, the error is
    reported, and nothing is imported or reloaded.
  */
  lemma OtherChangeReported(dir: string, file: string, now: nat, loads: string -> bool)
    requires !WebSocketServer.IsHotFile(WebSocketServer.GetShortName(file, Dev.TargetRoot(dir)))
    ensures Client.Reaction(Stringify(WebSocketServer.HmrUpdate(file, Dev.TargetRoot(dir), now)), loads)
      == [Client.ReportError]
  {
    WebSocketServer.HmrUpdateSpec(file, Dev.TargetRoot(dir), now);
    Client.MissingUpdatesReported(loads);
  }

  // ---------------------------------------------------------------------------
  // The socket and the served page

  /** The sub-protocol the page asks for is the one the server upgrades. */
  lemma ClientSocketAccepted()
    ensures WebSocketServer.AcceptsUpgrade(map["sec-websocket-protocol" := Client.SocketProtocol])
  {
  }

  /**
    An imported asset's URL (`?import` added by the rewriter) is answered by
    the stub, whose export is the asset's own path; that path routes to the
    SVG handler, which reads the asset's file.
  */
  lemma AssetRoundTrip(dir: string, rest: string, fs: map<string, string>, transpile: (string, string) -> Option<Transform.Transpiled>,
                       seen: set<string>)
    requires IsAbsolute(dir) && IsCleanRelative(rest) && Extname(rest) == ".svg"
    requires UrlSafe(rest)
    ensures var stubReq := ParseUrl("/target/" + rest + "?import");
      var resp := Dev.Respond(dir, fs, transpile, seen, stubReq);
      && stubReq == Dev.Request("/target/" + rest, {"import"})
      && Dev.Route(stubReq) == Dev.ImportStub
      && |resp.effects| == 2 && resp.effects[1].SendBody? && resp.effects[1].body.Some?
      && Css.ReadLiteral(resp.effects[1].body.value[|Dev.StubPrefix|..]).Some?
      && Css.ReadLiteral(resp.effects[1].body.value[|Dev.StubPrefix|..]).value.0 == "/target/" + rest
      && ParseUrl("/target/" + rest) == Dev.Request("/target/" + rest, {})
      && Dev.Route(Dev.Request("/target/" + rest, {})) == Dev.Svg
      && Dev.ServedFile(dir, "/target/" + rest) == Dev.TargetRoot(dir) + "/" + rest
  {
    var p := "/target/" + rest;
    AssetPathSafe(rest);
    AssetRequests(rest);
    assert p[..8] == "/target/";
    TargetRoute(p, {"import"});
    TargetRoute(p, {});
    AssetExtname(rest);
    Dev.ImportStubExportsPath(dir, fs, transpile, seen, Dev.Request(p, {"import"}));
    Dev.ServedBelowTarget(dir, rest);
  }

  lemma AssetPathSafe(rest: string)
    requires UrlSafe(rest)
    ensures Dev.PathLiteralSafe("/target/" + rest) && '?' !in rest
  {
    UrlSafeBelow(rest, "/target/");
    UrlSafeLiteral("/target/" + rest);
    UrlSafeNoQuery(rest);
  }

  lemma AssetExtname(rest: string)
    requires IsCleanRelative(rest)
    ensures Extname("/target/" + rest) == Extname(rest)
  {
    LastNameNoTrailingSlash(rest);
    BasenameBelow("/target", rest);
    assert "/target/" + rest == "/target" + "/" + rest;
  }

  lemma AssetRequests(rest: string)
    requires '?' !in rest
    ensures ParseUrl("/target/" + rest + "?import") == Dev.Request("/target/" + rest, {"import"})
    ensures ParseUrl("/target/" + rest) == Dev.Request("/target/" + rest, {})
  {
    var p := "/target/" + rest;
    assert '?' !in p by {
      forall i | 0 <= i < |p| ensures p[i] != '?' {
        if i >= 8 {
          assert p[i] == rest[i - 8];
        }
      }
    }
    IndexOfCharAbsent(p, '?');
    IndexOfCharAt(p, "?import", '?');
    var u := p + "?import";
    assert u[|p| + 1..] == "import";
    IndexOfCharAbsent("import", '&');
    IndexOfCharAbsent("import", '=');
  }
}
