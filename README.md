# vite-demo dev server, modelled in Dafny

vite-demo is a small Vite-style development server. The page at `/` gets a
`<script>` tag for the HMR client runtime, served from `/@vite/client`.
Everything under `/target/` is answered by file type:

- `.js` and `.jsx` files are transpiled, and their import specifiers are
  rewritten into URLs the browser can load.
- `.svg` files are sent as they are.
- `.css` files are wrapped in a module that inserts a `<style>` element.
  The module also exports the stylesheet text.
- Any file requested with an `?import` query parameter gets a stub module.
  It exports the file's own URL.

Bare package imports are pointed at pre-bundled entry files under
`/target/.cache/`. A process-wide map records the packages queued for
bundling, so no package is bundled twice. A package is marked as the
rewriter reaches its clause, before anything is bundled. When a later clause
of the same pass throws, its mark stays and nothing is bundled, so that
package is never bundled in the process.

A file watcher on the `target` directory reports changes. For each change the
socket server broadcasts an `update` message to every open `vite-hmr`
connection. The message holds one `js-update` record when the changed file
is a `.jsx` or `.css` file, and no records otherwise. The page's client
re-imports each recorded file with a `?t=<timestamp>` query and then reloads.

The model has one module per part of the program:

- `Text`, `Paths` and `Json` model the string, `path.posix` and
  `JSON.stringify` behaviour the program relies on.
- `Protocol` models the messages and their JSON text.
- `Transform` and `Css` model `src/transform.js`.
- `WebSocketServer` models `src/webSocket.js`.
- `Dev` models `src/dev.js`.
- `Client` models `src/client.js`.
- `HmrFlow` connects the pieces end to end.

Pure code is written as functions. Code that changes state is written as classes:

- `Transform.ModuleCache` holds the package map and the bundler calls.
- `WebSocketServer.HmrSocketServer` holds the connections and everything sent
  to them.
- `Dev.DevServer` holds the server.
- `Client.HmrClient` holds the browser calls the page has made.

The program's surroundings are parameters of the model:

- The disk is a map from absolute file name to contents. A directory exists when some file lies below it, as `existsSync` sees it.
- The transpiler is a function. It gives nothing (`None`) where esbuild throws.
- `Date.now()` is a `now` argument.
- Whether a dynamic import resolves is a `loads` predicate.

The server's answers follow the code as written, including the three defects
listed under "## Findings". Each defect also has a corrected definition, and
the intended property is proved about that definition.

## Model

| member | source | states |
|---|---|---|
| Text.IndexOf | src/dev.js:22 | the result is the leftmost occurrence of the pattern, or none exists |
| Text.ReplaceFirst | src/dev.js:22 | `replace` with a string pattern; Text.ReplaceFirstSpec states that only the first occurrence changes and text without one is unchanged |
| Text.ReplaceFirstSpec | src/dev.js:22 | `replace` with a string pattern changes only the first occurrence and leaves text without one unchanged |
| Text.Trim | src/dev.js:22 | `trim()` gives a slice of the input with only white space cut from either end, and no white space at its ends; a string without white space at its ends is unchanged |
| Text.TrimKeepsInner | src/dev.js:22 | a stretch that starts and ends with a non-space character is still present after `trim()` |
| Text.NatToStringValue | src/client.js:24 | the decimal rendering of a timestamp reads back as the same number |
| Text.NatToStringInjective | src/client.js:24 | different timestamps give different `?t=` values |
| Paths.RelativeBelowRoot | src/webSocket.js:56 | `posix.relative(root, root + "/" + rest)` is `rest` for a clean root and a clean relative path |
| Paths.Normalize | src/transform.js:77 | `path.posix.normalize`: never empty, and absolute exactly when its input is; Paths.NormalizeAppend states how it treats an appended `.js` |
| Paths.JoinAll | src/dev.js:42 | `path.posix.join`: the non-empty parts joined with `/` and normalised; Paths.JoinBelowSibling and Paths.JoinParentAbsolute state what the server's joins give |
| Paths.Dirname | src/transform.js:77 | `path.posix.dirname`; Paths.DirnameBelow states that the directory of `a/b` is `a` |
| Paths.DirnameBelow | src/transform.js:77 | `dirname(a + "/" + b)` is `a` for a last segment `b` and an `a` of two characters or more |
| Paths.Extname | src/dev.js:51 | `path.posix.extname`: empty or starting with a dot; Paths.ExtnameEnds states that it is a suffix of the path |
| Paths.Relative | src/webSocket.js:56 | `path.posix.relative` for rooted paths; Paths.RelativeBelowRoot states that a path below the root is named by its remainder |
| Paths.JoinBelowSibling | src/dev.js:9 | `join(dir, '..', 'target/' + rest)` is `rest` below `join(dir, '../target')`, which is a clean absolute path |
| Paths.JoinParentAbsolute | src/transform.js:78 | joining the repository root with a rooted path is that path below the root |
| Paths.NormalizeAppend | src/transform.js:80 | appending `.js` to a path whose last segment is a name appends it to the normalised path |
| Paths.ExtnameEnds | src/dev.js:51 | `extname(p)`, a dot and what follows, is a suffix of `p` |
| Paths.BasenameBelow | src/dev.js:51 | the last segment of `a + "/" + b` is the last segment of `b` |
| Json.ReadQuoted | src/client.js:10 | `JSON.parse` reads back the string `JSON.stringify` wrote, and stops right after it |
| Json.Quote | src/webSocket.js:31 | `JSON.stringify` of a string: quoted, read back by Json.ReadQuoted and injective by Json.QuoteInjective |
| Json.QuoteInjective | src/webSocket.js:31 | different strings are stringified differently |
| Json.ReadNatToString | src/client.js:10 | a stringified non-negative integer reads back as itself |
| Protocol.ReadRecordWritten | src/webSocket.js:66-73 | an update record reads back from its JSON text |
| Protocol.Stringify | src/webSocket.js:31 | the text `JSON.stringify` writes for a message; Protocol.ParseStringify states that the client reads it back and Protocol.StringifyInjective that distinct messages give distinct text |
| Protocol.Parse | src/client.js:10 | the client's `JSON.parse` of a message; Protocol.ParseStringify states that it inverts Protocol.Stringify |
| Protocol.ReadArrayWritten | src/webSocket.js:66-73 | an array of update records reads back from its JSON text |
| Protocol.ParseStringify | src/client.js:10 | the client's `JSON.parse` of the text the server's `JSON.stringify` wrote gives the same message back |
| Protocol.StringifyInjective | src/webSocket.js:31 | different messages are sent as different text |
| WebSocketServer.ShortNameSpec | src/webSocket.js:55-57 | a file outside the root keeps its full name; a file below it is named relative to it |
| WebSocketServer.GetShortName | src/webSocket.js:55-57 | `getShortName`; WebSocketServer.ShortNameSpec states its two cases |
| WebSocketServer.AcceptsUpgrade | src/webSocket.js:10 | the upgrade test on the `sec-websocket-protocol` header; WebSocketServer.HmrSocketServer.Upgrade states that exactly the accepted upgrades add a connection |
| WebSocketServer.HmrUpdate | src/webSocket.js:60-79 | the message `handleHMRUpdate` sends; WebSocketServer.HmrUpdateSpec states its records |
| WebSocketServer.Broadcast | src/webSocket.js:32-36 | the deliveries of one `send`; WebSocketServer.BroadcastSpec, WebSocketServer.BroadcastAbsent and WebSocketServer.BroadcastSameString state who receives what |
| WebSocketServer.HmrUpdateSpec | src/webSocket.js:60-79 | every change is an `update`; it has one `js-update` record with the change time and path `/<short name>` exactly when the short name ends in `.css` or `.jsx`, and otherwise no `updates` |
| WebSocketServer.GreetingIsConnected | src/webSocket.js:18 | the greeting is the stringified `connected` message |
| WebSocketServer.GreetingParses | src/webSocket.js:18 | the client reads the greeting as `connected` |
| WebSocketServer.BroadcastSpec | src/webSocket.js:30-37 | with distinct connections, a broadcast delivers the string exactly once to each open client and nothing to the others |
| WebSocketServer.BroadcastAbsent | src/webSocket.js:32-35 | a connection that is not in the list receives nothing |
| WebSocketServer.BroadcastSameString | src/webSocket.js:31-34 | every delivery of one broadcast carries the same stringified payload |
| WebSocketServer.UpdateReachesOpenClients | src/webSocket.js:76-79 | after an update broadcast, each open client has received the update text once more and every other client nothing more |
| WebSocketServer.HmrSocketServer.constructor | src/webSocket.js:6-7 | the socket server starts with no connections and nothing sent |
| WebSocketServer.HmrSocketServer.Upgrade | src/webSocket.js:9-19 | an upgrade is accepted exactly when its protocol header is `vite-hmr`: a new open connection is created and sent the greeting; otherwise nothing changes; every connection was greeted first |
| WebSocketServer.HmrSocketServer.SetState | src/webSocket.js:33 | a connection's ready state changes and nothing is sent |
| WebSocketServer.HmrSocketServer.Send | src/webSocket.js:30-37 | `send` stringifies once and delivers that string to the open clients in order; nothing else is sent |
| WebSocketServer.HmrSocketServer.Deliver | src/webSocket.js:32-36 | the loop over the connections appends exactly the reference broadcast of the string to what has been sent |
| WebSocketServer.BroadcastKeepsEarlier | src/webSocket.js:32-35 | a connection added at the end changes nothing delivered to the other connections |
| WebSocketServer.BroadcastReachesLast | src/webSocket.js:32-35 | a connection added at the end, with an id no earlier one has, receives the string once if it is open and nothing otherwise |
| WebSocketServer.HmrSocketServer.HandleHmrUpdate | src/webSocket.js:60-79 | one broadcast of the update message for the changed file |
| Transform.UpToFirstThrow | src/transform.js:72-76 | the clauses the callback runs on: a prefix with no throwing clause, followed by the first throwing clause when there is one |
| Transform.Scan | src/transform.js:72-100 | the `replace` callback run over the clauses in order, up to the first throw; Transform.ScanIsReference, Transform.ThrowsIff, Transform.QueuedFresh and Transform.ScanStaysFailed state what it computes |
| Transform.RewriteSegment | src/transform.js:98 | the callback's result for one segment; Transform.RewriteSegmentKeepsText states what it keeps |
| Transform.AsWrittenSkipsTypeDefs | src/transform.js:73 | the look-ahead as written skips the value import `import typeDefs from …`; the intended one does not |
| Transform.SkippedNarrowsLookahead | src/transform.js:73 | the intended look-ahead skips only what the one as written skips, and it still skips `import type …`; so every clause the scan matches is also matched as intended |
| Transform.AsWrittenScanKeepsTypeDefs | src/transform.js:72-94 | the pass as written leaves `import typeDefs from "typeorm"` unchanged and queues nothing, and does not throw on `import typeDefs from './defs'`; the intended look-ahead matches both clauses |
| Transform.FreshSpec | src/transform.js:91-94 | the packages queued for bundling are the new ones, each once |
| Transform.QueuedFresh | src/transform.js:91-94 | the pass's build list has no duplicates and holds only packages it marked that were not marked before |
| Transform.MarkedOnThrowNeverQueued | src/transform.js:91-104 | a package marked by a pass that throws is in no later pass's build list, so it is never bundled |
| Transform.ThrowAfterMark | src/transform.js:76-94 | a pass can mark a new package and then throw on a later single-quoted clause |
| Transform.ScanIsReference | src/transform.js:72-100 | the pass throws exactly when a clause that the look-ahead as written matches is single-quoted; otherwise every segment is rewritten on its own; the queue holds the fresh package specifiers reached before any throw; the map gains exactly those |
| Transform.ThrowsIff | src/transform.js:73-76 | the pass throws exactly when some clause that the look-ahead as written matches is single-quoted |
| Transform.RewriteAllAt | src/transform.js:72-100 | the i-th output segment is the rewrite of the i-th input segment |
| Transform.RewriteSegmentKeepsText | src/transform.js:98 | unmatched text is unchanged; a rewritten clause keeps the text between `import` and the specifier and is double-quoted |
| Transform.LocalUrlShape | src/transform.js:76-88 | a local specifier is resolved against the module's directory, gets `.js` exactly when the fallback applies, and gets `?import` exactly when it names an `.svg` file |
| Transform.LocalUrl | src/transform.js:76-88 | the URL of a local specifier; Transform.LocalUrlShape states its three steps |
| Transform.Exists | src/transform.js:79-80 | `existsSync`: a file at the name, or a directory, which exists once a file lies below it; Transform.DirectoryBlocksFallback states the directory case |
| Transform.JsFallback | src/transform.js:79-83 | the `.js` fallback test; Dev.FallbackChecksServedFiles states which files it looks at |
| Transform.DirectoryBlocksFallback | src/transform.js:79-80 | a directory at the name, holding some file, counts as existing, so the `.js` fallback is not taken |
| Transform.DotExtension | src/transform.js:85 | `extname(from).slice(1)` is `svg` exactly for the extension `.svg` |
| Transform.PackageUrlShape | src/transform.js:89-90 | a package specifier becomes `/target/.cache/<spec>/index.js`, whatever the map holds |
| Transform.PackageUrl | src/transform.js:90 | the URL of a package's pre-bundled entry file; Transform.PackageUrlShape states its form |
| Transform.ModuleCache.constructor | src/transform.js:7-10 | the package map starts empty, and `appRoot` is the directory above the module's own |
| Transform.ModuleCache.BuildNodeModule | src/transform.js:29-51 | one bundler call with the entry point `node_modules/<pkg>/index.js` of each package, in order, and output to `target/.cache/`; no package is ever bundled twice |
| Transform.ModuleCache.TransformJSX | src/transform.js:54-110 | a transpiler failure returns that error and changes nothing; otherwise the result and the new package map are those of the reference pass; a throw returns the error, keeps the marks already made and bundles nothing; otherwise the new packages are bundled in one call when there are any |
| Transform.ScanStaysFailed | src/transform.js:72-100 | once the callback has thrown, the remaining segments change nothing |
| Css.TransformCssAsWritten | src/transform.js:113-126 | the module as written starts with the template's text before the literal and ends with its text after it |
| Css.EscapeSafe | src/transform.js:121 | for a stylesheet without `"`, `\` or `\r`, the escaping body is the body as written: the stylesheet without line feeds |
| Css.AsWrittenAgreesWhenSafe | src/transform.js:113-126 | for such a stylesheet, the template as written builds the same module as the corrected, escaping one |
| Css.AsWrittenExportedValue | src/transform.js:113-126 | for such a stylesheet, the literal as written ends at the template's closing quote and its value, the default export, is the stylesheet without line feeds |
| Css.TransformCss | src/transform.js:113-126 | the corrected, escaping template: the module starts with the template's text before the literal and ends with its text after it |
| Css.ReadEscaped | src/transform.js:121 | the escaped body reads back as the stylesheet without line feeds, and the literal ends at the template's quote |
| Css.ReadLiteral | src/transform.js:121 | how a script reads the stylesheet's `"…"` literal: a literal that is read ends at a `"` of the text; Css.ReadEscaped, Css.AsWrittenQuoteEndsLiteral and Css.AsWrittenCarriageReturnBreaksLiteral state what it reads from each template |
| Css.ExportedValue | src/transform.js:113-126 | with the corrected, escaping template, the module's string literal ends at the template's closing quote for every stylesheet, and its value, the default export, is the stylesheet with every line feed removed |
| Css.AsWrittenQuoteEndsLiteral | src/transform.js:121 | as written, a `"` in the stylesheet ends the literal early |
| Css.AsWrittenCarriageReturnBreaksLiteral | src/transform.js:121 | as written, a CRLF stylesheet leaves the literal unterminated |
| Dev.RouteSpec | src/dev.js:38-51 | the `/target/` prefix route answers exactly the paths under `/target/`; `import` takes precedence over the extension; scripts are `.js` and `.jsx`; other paths match no route |
| Dev.Route | src/dev.js:15-51 | which handler a request reaches; Dev.RouteSpec states the routing |
| Dev.Respond | src/dev.js:15-85 | the answer each handler gives, step by step up to its first error; Dev.HeaderBeforeBody, Dev.ImportStubExportsPath, Dev.IndexPageLoadsClient, Dev.StyleExportsStylesheet and Dev.ScriptServesRewritten state it, and Dev.DevServer.Handle answers with it |
| Dev.HeaderBeforeBody | src/dev.js:15-85 | every handler that sends something first sets the content type for its kind of file; only the CSS handler sends more than once; an unknown extension under `/target/` is never answered |
| Dev.ImportStubExportsPath | src/dev.js:44-48 | an `?import` request for a path without `"`, `\`, CR or LF is answered, whatever is on disk, with a module whose default export is the request path |
| Dev.InjectKeepsInsert | src/dev.js:22 | a page with `<head>` gets the client's script tag right after it, and trimming keeps it |
| Dev.IndexPageLoadsClient | src/dev.js:15-35 | `/` is served as HTML holding the client's script tag, and the client route answers that tag's source |
| Dev.StyleExportsStylesheet | src/dev.js:71-81 | a stylesheet is served as the template as written around its text without line feeds, followed by a second, empty `send`; for a stylesheet without `"`, `\` or `\r` the module's export is that text |
| Dev.ScriptServesRewritten | src/dev.js:52-63 | a script is served with its imports rewritten in the context the handler passes (`appRoot: targetRootPath`) and everything else unchanged; the request fails when the transpiler rejects the script, and otherwise exactly when a matched import is single-quoted |
| Dev.ServedBelowTarget | src/dev.js:42 | `/target/<rest>` is read from `<rest>` below the `target` directory |
| Dev.FallbackChecksServedFiles | src/transform.js:76-83 | in the intended context, with the repository root as `appRoot`, the `.js` fallback is taken exactly when neither a file nor a directory is where the route would serve the path from, and a file or a directory is where it would serve the path with `.js` appended |
| Dev.AsWrittenChecksNestedTarget | src/dev.js:56-60 | as written, the existence check for `/target/<rest>` looks at `target/target/<rest>`, while the route serves `target/<rest>` |
| Dev.AsWrittenSkipsJsFallback | src/dev.js:56-60 | when nothing, file or directory, is at `<rest>` and the file `<rest>.js` exists, the corrected context takes the `.js` fallback and the one as written does not |
| Dev.CorrectedTakesJsFallback | src/transform.js:78-81 | the corrected context takes the fallback when nothing, file or directory, is at the name and the `.js` file exists |
| Dev.AsWrittenMissesJsFile | src/dev.js:57 | the context as written never sees a `.js` file under `target` |
| Dev.DevServer.constructor | src/dev.js:11-12 | the server starts with an empty package map, no connections and nothing sent |
| Dev.DevServer.Handle | src/dev.js:38-85 | the answer, the new package map and the bundler calls are those of the reference response, whose script handler rewrites in the `target`-rooted context and whose stylesheet handler uses the template as written; only a script request the transpiler accepts changes the map |
| Dev.DevServer.OnChange | src/dev.js:92-94 | a change broadcasts the update for the file below the `target` directory |
| Client.Imports | src/client.js:24 | one `import()` per URL, in order |
| Client.Reloads | src/client.js:27 | only reloads, at most one per import |
| Client.Filter | src/client.js:22 | the `js-update` records, in order |
| Client.Loaded | src/client.js:24-27 | exactly the URLs whose import loads |
| Client.HmrClient.constructor | src/client.js:3-6 | loading the client opens a socket to `ws://<host>` with the `vite-hmr` sub-protocol |
| Client.HmrClient.OnMessage | src/client.js:9-11 | each message adds the reaction to its parsed payload |
| Client.HmrClient.HandleUpdates | src/client.js:20-30 | an update adds the imports of its `js-update` records, then a reload per import that loads |
| Client.HmrClient.IssueImports | src/client.js:21-24 | the callbacks' synchronous parts issue one import per `js-update` record, in order |
| Client.HmrClient.ReloadLoaded | src/client.js:24-27 | each import that loads is followed by a reload |
| Client.JsUpdateUrlsSpec | src/client.js:21-24 | one re-import URL per `js-update` record, from that record, in order |
| Client.JsUpdateUrls | src/client.js:21-24 | the re-import URLs of an update: at most one per record; Client.JsUpdateUrlsSpec states which |
| Client.UpdateMessageActs | src/client.js:9-30 | an update message the server sent is acted on record by record |
| Client.UpdateActionsShape | src/client.js:20-30 | every import comes before every reload; one import per `js-update` record, in order; one reload per import that loads |
| Client.ReloadsCount | src/client.js:24-27 | the number of reloads is the number of imports that load |
| Client.ConnectedStartsPing | src/client.js:15-19 | the `connected` greeting starts a timer sending `ping` every 30000 ms |
| Client.MissingUpdatesReported | src/client.js:10-21 | an update without records makes the handler throw, and the error is reported |
| Client.OtherTypeIgnored | src/client.js:14-31 | a message of any other type does nothing |
| Client.ImportUrlParts | src/client.js:24 | a re-import URL is `/target/<path>`, then `?t=`, then the record's timestamp, which reads back |
| Client.ImportUrl | src/client.js:24 | the re-import URL of one record; Client.ImportUrlParts states its parts |
| Client.React | src/client.js:13-32 | what the page does for one parsed message; Client.UpdateMessageActs, Client.ConnectedStartsPing, Client.MissingUpdatesReported and Client.OtherTypeIgnored state it |
| HmrFlow.ReimportRequest | src/client.js:24 | for a name the URL carries unencoded, a re-import URL requests `/target/<path>` with just the query parameter `t` |
| HmrFlow.UrlSafe | src/client.js:24 | the names a URL carries unencoded: ASCII letters, digits and ``-._~!$&'()*+,;=:@/``; HmrFlow.UrlSafeNoQuery and HmrFlow.UrlSafeLiteral state that such a name holds no `?`, `"`, `\`, CR or LF |
| HmrFlow.UpdateForChange | src/webSocket.js:60-79 | a change to a `.jsx` or `.css` file at `<rest>` below the target root gives the one record `/<rest>` |
| HmrFlow.PageReimports | src/client.js:20-27 | an update with one `js-update` record imports its URL and reloads once that import loads |
| HmrFlow.ReimportRoute | src/dev.js:51-81 | the re-import request is routed to the script or stylesheet handler, by extension |
| HmrFlow.ReimportServed | src/dev.js:42 | the re-import request reads the changed file |
| HmrFlow.ChangeReimportsFile | src/dev.js:92-94 | for a name the URL carries unencoded, a change to a `.jsx` or `.css` file makes every page import `/target//<rest>?t=<now>` and reload once it loads; the server serves that URL from the changed file with the matching handler |
| HmrFlow.OtherChangeReported | src/webSocket.js:64-79 | a change to any other file reaches the page as an update without records, and only an error is reported |
| HmrFlow.ClientSocketAccepted | src/webSocket.js:10 | the sub-protocol the page asks for is the one the server upgrades |
| HmrFlow.AssetRoundTrip | src/transform.js:85-87 | for a name the URL carries unencoded (so without `"`, `\`, CR or LF), the asset's `?import` URL is answered by a stub exporting the asset's path; that path goes to the SVG handler and reads the asset's file |

## Left out

- Transpiling is a parameter: the esbuild transpiler returns the code as a sequence of text and import clauses, or `None` where it throws. Its failure becomes `TranspileFailed` in the rewriter and `TransformFailed` in the server. The regular expression's own matching of clause boundaries is not modelled.
- Transform.RewriteSegment: puts the new specifier in literally. The string replacement at src/transform.js:98 also expands `$&`, `` $` ``, `$'` and `$$` in it, which is not modelled.
- Transform.Exists: an empty directory is not represented, since the disk holds only files; `existsSync` would be true of one.
- The sourcemap comes through unchanged and is not looked at.
- The esbuild bundler's output is not modelled. A bundler call is recorded with its entry points and output directory. Its other options are constants.
- Transform.ModuleCache.TransformJSX: the `await` on `buildNodeModule` is not modelled. It is treated as finishing before the response, and a failing bundle is not modelled.
- The HTTP framework's own behaviour is not modelled: case-insensitive and trailing-slash routing, the not-found and error pages, and the unhandled rejections of the async handler.
- Dev.Respond: a path under `/target/` with an unknown extension is left unanswered, which is what the handler does. The request then hangs, and the model does not represent that.
- The listening port 9001, console logging and the socket server's `error` handler are not modelled.
- The socket server's `close()` is not modelled.
- The watcher's options are not modelled. These are the ignored `node_modules` and `.cache` directories and the skipped initial scan. Dev.DevServer.OnChange accepts any file name.
- `Date.now()` is the `now` argument.
- Whether a dynamic `import()` resolves is the `loads` predicate.
- The reload that navigates away and aborts the page's other pending imports is not modelled.
- Protocol.Parse: reads only the layout `JSON.stringify` produces, and gives `None` for any other JSON text, however valid.
- `JSON.parse` throwing in the socket listener becomes an unhandled rejection. The model records no action for it.
- Css.ReadLiteral: does not read `\x`, `\u`, digit escapes or line continuations. It gives `None` for them, because the escaped form never holds them.
- HmrFlow.ParseUrl: ignores percent-encoding, fragments and repeated parameters, and keeps only the parameter names.
- HmrFlow.ReimportRequest: stated only for a path the URL carries unencoded (HmrFlow.UrlSafe). A name with `#`, `%`, a space or a non-ASCII letter reaches the server encoded or cut short, which ParseUrl does not follow.
- HmrFlow.ReimportParsed: stated only for a name the URL carries unencoded, for the same reason.
- HmrFlow.ChangeReimportsFile: stated only for a name the URL carries unencoded, for the same reason.
- HmrFlow.AssetRoundTrip: stated only for a name the URL carries unencoded, for the same reason.
- Paths.Relative: treats both its arguments as rooted. No current working directory is resolved.
- Integers are unbounded. Timestamps are `nat`, which matches JavaScript numbers for every realistic time.

## Findings

| source | as written | input that shows it | evidently intended | confidence | as-written member | corrected member |
|---|---|---|---|---|---|---|
| src/transform.js:73 | the look-ahead `(?!\s+type)` skips any clause whose first word starts with `type` | `import typeDefs from "./defs"`: the import is not rewritten, and a package import of that form is never bundled | skip only the `type` keyword, `(?!\s+type\b)` | not executed | Transform.AsWrittenScanKeepsTypeDefs | Transform.SkippedNarrowsLookahead |
| src/transform.js:114-121 | the stylesheet is embedded in a `"…"` literal with only line feeds removed | a stylesheet holding `"` (such as `content: "x"`) ends the literal early, and a CRLF file leaves a bare `\r` that breaks the literal | escape `\`, `"` and `\r` before embedding | not executed | Css.AsWrittenQuoteEndsLiteral | Css.ExportedValue |
| src/dev.js:56-60 | the rewriter gets `appRoot: targetRootPath`, and joins it with a path that already starts with `/target/` (src/transform.js:78) | `import App from "./App"` in `/target/main.jsx` with only `target/App.js` on disk: the check looks at `target/target/App`, so `.js` is never appended | pass the repository root, as the transform module's own `appRoot` is (src/transform.js:9) | not executed | Dev.AsWrittenSkipsJsFallback | Dev.FallbackChecksServedFiles |
