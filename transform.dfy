/**
  The import rewriter of `transformJSX` and the process-wide record of the
  packages it has sent to the bundler.

  The transpiler is a parameter. Its output code is given as the import scan
  sees it: a sequence of segments, each either text the pattern does not match
  or a candidate clause `import<between><quote><spec><quote>`. Whether the
  clause is rewritten is decided here, by the `type` look-ahead, the quote kind
  and the first character of the specifier.
*/
module Transform {
  import opened Wrappers
  import opened Text
  import opened Paths

  datatype Quote = Double | Single

  datatype Segment =
    | Raw(text: string)
    | Clause(between: string, spec: string, quote: Quote)

  function QuoteChar(q: Quote): char {
    if q == Double then '"' else '\''
  }

  /** The text a segment stands for. */
  function Render(seg: Segment): string {
    match seg
    case Raw(t) => t
    case Clause(b, sp, q) => "import" + b + [QuoteChar(q)] + sp + [QuoteChar(q)]
  }

  function RenderAll(segs: seq<Segment>): string {
    if segs == [] then "" else RenderAll(segs[..|segs| - 1]) + Render(segs[|segs| - 1])
  }

  /**
    What the transpiler returns: the code, as the scan sees it, and the fields
    kept beside it. The transpiler itself returns `None` where it throws (a
    syntax error, say).
  */
  datatype Transpiled = Transpiled(segments: seq<Segment>, sourceMap: string, warnings: seq<string>)

  /** What `transformJSX` returns: the transpiler's result with `code` replaced. */
  datatype Transformed = Transformed(code: string, sourceMap: string, warnings: seq<string>)

  /**
    How `transformJSX` fails: the transpiler throws, or the replace callback
    throws because the double-quote group is undefined for a single-quoted
    specifier.
  */
  datatype TransformError = TranspileFailed | UndefinedSpecifier

  /** What the rewrite of one module reads: `opts.appRoot`, `opts.path` and the files that exist. */
  datatype Context = Context(appRoot: string, path: string, files: set<string>)

  // ---------------------------------------------------------------------------
  // The `type` look-ahead

  /** A character of `\w`. */
  predicate IsWordChar(c: char) {
    'a' <= c <= 'z' || 'A' <= c <= 'Z' || '0' <= c <= '9' || c == '_'
  }

  /**
    The look-ahead `(?!\s+type)` as written: the clause is left alone when the
    text after `import` is white space followed by the letters `type`, whatever
    follows them.
  */
  predicate TypeLookaheadAsWritten(between: string) {
    var n := LeadingSpaces(between);
    n >= 1 && StartsWith(between[n..], "type")
  }

  /**
    The look-ahead as intended, `(?!\s+type\b)`: only the keyword `type` keeps
    the clause from being rewritten, not an identifier that starts with it.
  */
  predicate SkippedAsTypeImport(between: string) {
    var n := LeadingSpaces(between);
    n >= 1 && StartsWith(between[n..], "type") && (n + 4 == |between| || !IsWordChar(between[n + 4]))
  }

  /**
    As written, the look-ahead also skips a value import whose first binding
    starts with `type`: `import typeDefs from "…"` is left unrewritten and
    its package is never queued.
  */
  lemma AsWrittenSkipsTypeDefs()
    ensures TypeLookaheadAsWritten(" typeDefs from ")
    ensures !SkippedAsTypeImport(" typeDefs from ")
  {
    var b := " typeDefs from ";
    assert b[1..] == "type" + "Defs from ";
    assert LeadingSpaces(b) == 1 by {
      assert LeadingSpaces(b[1..]) == 0;
    }
  }

  /**
    The intended look-ahead skips only what the one as written skips, and still
    skips `import type`, so every clause the scan matches is matched as
    intended.
  */
  lemma SkippedNarrowsLookahead(between: string)
    ensures SkippedAsTypeImport(between) ==> TypeLookaheadAsWritten(between)
    ensures SkippedAsTypeImport(" type { Props } from ")
    ensures forall seg: Segment :: Matched(seg) ==> MatchedAsIntended(seg)
  {
    TypeImportSkipped();
  }

  /** The intended look-ahead skips `import type { Props } from "…"`. */
  lemma TypeImportSkipped()
    ensures SkippedAsTypeImport(" type { Props } from ")
  {
    var rest := " { Props } from ";
    assert " type { Props } from " == " type" + rest;
    TypeKeywordSkipped(rest);
  }

  /** One space, then the keyword `type` ended by anything but a word character. */
  lemma TypeKeywordSkipped(rest: string)
    requires rest == [] || !IsWordChar(rest[0])
    ensures SkippedAsTypeImport(" type" + rest)
  {
    var b := " type" + rest;
    assert b[1..] == "type" + rest;
    assert LeadingSpaces(b) == 1 by {
      assert !IsSpace(b[1]);
      assert LeadingSpaces(b[1..]) == 0;
    }
    assert |b| == 5 + |rest|;
    assert b[1..][..4] == "type";
    if rest != [] {
      assert b[5] == rest[0];
    }
  }

  // ---------------------------------------------------------------------------
  // Rewriting one specifier

  /** A specifier whose first character is `.` names a local file. */
  predicate IsLocal(spec: string) {
    spec != [] && spec[0] == '.'
  }

  /** `join(dirname(opts.path), c)`: the specifier resolved against the module's directory. */
  function LocalBase(ctx: Context, spec: string): string {
    Join(Dirname(ctx.path), spec)
  }

  /**
    `existsSync(p)`: `p` names a file, or a directory, which the disk holds as
    soon as some file lies below it.
  */
  predicate Exists(files: set<string>, p: string) {
    p in files || exists f :: f in files && StartsWith(f, p + "/")
  }

  /** Nothing exists at the path as named, but something does with `.js` appended. */
  predicate JsFallback(ctx: Context, from: string) {
    var filePath := Join(ctx.appRoot, from);
    !Exists(ctx.files, filePath) && Exists(ctx.files, filePath + ".js")
  }

  /** A directory at the name, holding some file, exists: the `.js` fallback is not taken. */
  lemma DirectoryBlocksFallback(ctx: Context, from: string, f: string)
    requires f in ctx.files && StartsWith(f, Join(ctx.appRoot, from) + "/")
    ensures !JsFallback(ctx, from)
  {
  }

  /** The local specifier after extension elision, before the asset marker. */
  function LocalResolved(ctx: Context, spec: string): string {
    var from := LocalBase(ctx, spec);
    if JsFallback(ctx, from) then from + ".js" else from
  }

  /** `['svg'].includes(extname(from).slice(1))`. */
  predicate IsAsset(from: string) {
    Drop1(Extname(from)) == "svg"
  }

  /** The URL a local specifier is rewritten to. */
  function LocalUrl(ctx: Context, spec: string): string {
    var from := LocalResolved(ctx, spec);
    if IsAsset(from) then from + "?import" else from
  }

  /** The URL of a package's pre-bundled entry file. */
  function PackageUrl(spec: string): string {
    "/target/.cache/" + spec + "/index.js"
  }

  function RewriteSpecifier(ctx: Context, spec: string): string {
    if IsLocal(spec) then LocalUrl(ctx, spec) else PackageUrl(spec)
  }

  // ---------------------------------------------------------------------------
  // Reference definitions of the whole pass

  /** The scan matches the clause: the look-ahead, as written, lets it through. */
  predicate Matched(seg: Segment) {
    seg.Clause? && !TypeLookaheadAsWritten(seg.between)
  }

  /** The clause the intended look-ahead lets through. */
  predicate MatchedAsIntended(seg: Segment) {
    seg.Clause? && !SkippedAsTypeImport(seg.between)
  }

  /** The callback reads `c.charAt(0)` with `c` undefined and throws. */
  predicate Throws(seg: Segment) {
    Matched(seg) && seg.quote == Single
  }

  predicate IsPackageImport(seg: Segment) {
    Matched(seg) && seg.quote == Double && !IsLocal(seg.spec)
  }

  /** One segment of the output: matched double-quoted clauses get their new specifier, everything else stays. */
  function RewriteSegment(ctx: Context, seg: Segment): Segment {
    if Matched(seg) && seg.quote == Double then Clause(seg.between, RewriteSpecifier(ctx, seg.spec), Double)
    else seg
  }

  function RewriteAll(ctx: Context, segs: seq<Segment>): (r: seq<Segment>)
    ensures |r| == |segs|
  {
    if segs == [] then [] else RewriteAll(ctx, segs[..|segs| - 1]) + [RewriteSegment(ctx, segs[|segs| - 1])]
  }

  /** The segments the callback runs on: everything before the first clause it throws on. */
  function UpToFirstThrow(segs: seq<Segment>): (r: seq<Segment>)
    ensures r <= segs
    ensures forall i :: 0 <= i < |r| ==> !Throws(r[i])
    ensures r != segs ==> Throws(segs[|r|])
  {
    if segs == [] then []
    else
      var init := segs[..|segs| - 1];
      var p := UpToFirstThrow(init);
      if p != init then p
      else if Throws(segs[|segs| - 1]) then init
      else
        assert segs == init + [segs[|segs| - 1]];
        segs
  }

  /** The package specifiers of the matched clauses, in order. */
  function PackageSpecs(segs: seq<Segment>): seq<string> {
    if segs == [] then []
    else
      var rest := PackageSpecs(segs[..|segs| - 1]);
      var last := segs[|segs| - 1];
      if IsPackageImport(last) then rest + [last.spec] else rest
  }

  /** The specifiers not in `seen`, each once, in the order they first occur. */
  function Fresh(seen: set<string>, specs: seq<string>): seq<string> {
    if specs == [] then []
    else
      var rest := Fresh(seen, specs[..|specs| - 1]);
      var last := specs[|specs| - 1];
      if last in seen || last in rest then rest else rest + [last]
  }

  predicate NoDup<T(==)>(xs: seq<T>) {
    forall i, j :: 0 <= i < j < |xs| ==> xs[i] != xs[j]
  }

  function Elems<T>(xs: seq<T>): set<T> {
    set x | x in xs
  }

  // ---------------------------------------------------------------------------
  // The pass as the callback runs it, one segment at a time

  /** The state of one pass: the output so far, the build list, the package map, and whether the callback threw. */
  datatype ScanState = ScanState(out: seq<Segment>, queued: seq<string>, seen: set<string>, failed: bool)

  function ScanStep(ctx: Context, st: ScanState, seg: Segment): ScanState {
    if st.failed then st
    else if !Matched(seg) then st.(out := st.out + [seg])
    else if seg.quote == Single then st.(failed := true)
    else if IsLocal(seg.spec) then st.(out := st.out + [Clause(seg.between, LocalUrl(ctx, seg.spec), Double)])
    else
      var st' := st.(out := st.out + [Clause(seg.between, PackageUrl(seg.spec), Double)]);
      if seg.spec in st.seen then st'
      else st'.(queued := st.queued + [seg.spec], seen := st.seen + {seg.spec})
  }

  function Scan(ctx: Context, seen: set<string>, segs: seq<Segment>): ScanState {
    if segs == [] then ScanState([], [], seen, false)
    else ScanStep(ctx, Scan(ctx, seen, segs[..|segs| - 1]), segs[|segs| - 1])
  }

  // ---------------------------------------------------------------------------
  // Properties

  /**
    The build list holds each specifier not yet in the map exactly once, and
    nothing else.
  */
  lemma {:induction false} FreshSpec(seen: set<string>, specs: seq<string>)
    ensures NoDup(Fresh(seen, specs))
    ensures forall p :: p in Fresh(seen, specs) <==> p in specs && p !in seen
  {
    if specs != [] {
      var init := specs[..|specs| - 1];
      FreshSpec(seen, init);
      assert specs == init + [specs[|specs| - 1]];
    }
  }

  /**
    The pass the callback runs agrees with the reference definitions: it
    throws exactly when some matched clause is single-quoted; otherwise every
    segment is rewritten on its own; the build list is the fresh package
    specifiers of the clauses reached before any throw, and the map gains
    exactly those.
  */
  lemma {:induction false} ScanIsReference(ctx: Context, seen: set<string>, segs: seq<Segment>)
    ensures var st := Scan(ctx, seen, segs);
      && st.failed == (UpToFirstThrow(segs) != segs)
      && (!st.failed ==> st.out == RewriteAll(ctx, segs))
      && st.queued == Fresh(seen, PackageSpecs(UpToFirstThrow(segs)))
      && st.seen == seen + Elems(st.queued)
  {
    if segs != [] {
      var init := segs[..|segs| - 1];
      var last := segs[|segs| - 1];
      ScanIsReference(ctx, seen, init);
      var prev := Scan(ctx, seen, init);
      if !prev.failed && !Throws(last) {
        assert segs == init + [last];
        assert UpToFirstThrow(segs) == segs;
        assert segs[..|segs| - 1] == init;
        var specs := PackageSpecs(init);
        if IsPackageImport(last) {
          assert PackageSpecs(segs) == specs + [last.spec];
          assert (specs + [last.spec])[..|specs|] == specs;
          FreshSpec(seen, specs);
        }
      }
    }
  }

  /** The build list has no duplicates, and holds only packages the pass marked that were not marked before. */
  lemma QueuedFresh(ctx: Context, seen: set<string>, segs: seq<Segment>)
    ensures var st := Scan(ctx, seen, segs);
      NoDup(st.queued) && forall p :: p in st.queued ==> p in st.seen && p !in seen
  {
    ScanIsReference(ctx, seen, segs);
    FreshSpec(seen, PackageSpecs(UpToFirstThrow(segs)));
  }

  /**
    A package marked by a pass that then throws is never queued again: every
    later pass starts from the map with its mark, so that package is never
    bundled in the process.
  */
  lemma MarkedOnThrowNeverQueued(ctx: Context, seen: set<string>, segs: seq<Segment>, ctx': Context, segs': seq<Segment>)
    requires Scan(ctx, seen, segs).failed
    ensures var st := Scan(ctx, seen, segs);
      forall p :: p in st.seen && p !in seen ==> p !in Scan(ctx', st.seen, segs').queued
  {
    QueuedFresh(ctx', Scan(ctx, seen, segs).seen, segs');
  }

  /**
    Such a pass happens: a new double-quoted package clause is marked, and
    the single-quoted clause after it throws.
  */
  lemma ThrowAfterMark(ctx: Context, seen: set<string>, c0: Segment, c1: Segment)
    requires Matched(c0) && c0.quote == Double && !IsLocal(c0.spec) && c0.spec !in seen
    requires Throws(c1)
    ensures var st := Scan(ctx, seen, [c0, c1]);
      st.failed && st.seen == seen + {c0.spec}
  {
    var s0 := ScanState([], [], seen, false);
    assert Scan(ctx, seen, [c0]) == ScanStep(ctx, s0, c0) by {
      assert [c0][..0] == [];
    }
    assert Scan(ctx, seen, [c0]).seen == seen + {c0.spec};
    assert [c0, c1][..1] == [c0];
  }

  /**
    The scan as written leaves `import typeDefs from "typeorm"` as it is and
    queues nothing, and does not throw on `import typeDefs from './defs'`;
    the intended look-ahead matches both clauses.
  */
  lemma AsWrittenScanKeepsTypeDefs(ctx: Context, seen: set<string>)
    ensures var c := Clause(" typeDefs from ", "typeorm", Double);
      MatchedAsIntended(c) && Scan(ctx, seen, [c]) == ScanState([c], [], seen, false)
    ensures var c := Clause(" typeDefs from ", "./defs", Single);
      MatchedAsIntended(c) && Scan(ctx, seen, [c]) == ScanState([c], [], seen, false)
  {
    AsWrittenSkipsTypeDefs();
    assert [Clause(" typeDefs from ", "typeorm", Double)][..0] == [];
    assert [Clause(" typeDefs from ", "./defs", Single)][..0] == [];
  }

  /** Throwing is a matter of the clauses alone: it happens exactly when a matched clause is single-quoted. */
  lemma {:induction false} ThrowsIff(segs: seq<Segment>)
    ensures UpToFirstThrow(segs) != segs <==> exists i :: 0 <= i < |segs| && Throws(segs[i])
  {
    var p := UpToFirstThrow(segs);
    if p == segs {
      assert forall i :: 0 <= i < |segs| ==> !Throws(segs[i]);
    } else {
      assert Throws(segs[|p|]);
    }
  }

  /** The i-th output segment is the rewrite of the i-th input segment. */
  lemma {:induction false} RewriteAllAt(ctx: Context, segs: seq<Segment>, i: nat)
    requires i < |segs|
    ensures RewriteAll(ctx, segs)[i] == RewriteSegment(ctx, segs[i])
  {
    if i < |segs| - 1 {
      RewriteAllAt(ctx, segs[..|segs| - 1], i);
    }
  }

  /**
    Text outside matched clauses is unchanged: raw text and clauses the
    look-ahead skips come through as they are, and a rewritten clause keeps
    the text between `import` and its specifier and is double-quoted.
  */
  lemma RewriteSegmentKeepsText(ctx: Context, seg: Segment)
    ensures !Matched(seg) ==> RewriteSegment(ctx, seg) == seg
    ensures Matched(seg) && seg.quote == Double ==>
      var r := RewriteSegment(ctx, seg);
      r.Clause? && r.between == seg.between && r.quote == Double &&
      Render(r) == "import" + seg.between + "\"" + r.spec + "\""
  {
  }

  /**
    A local specifier becomes `join(dirname(path), spec)`, followed by `.js`
    exactly when that file is missing under `appRoot` and its `.js` sibling
    exists, followed by `?import` exactly when the result is an `.svg` file.
  */
  lemma LocalUrlShape(ctx: Context, spec: string)
    requires IsLocal(spec)
    ensures var base := LocalBase(ctx, spec);
      var resolved := if JsFallback(ctx, base) then base + ".js" else base;
      RewriteSpecifier(ctx, spec) == resolved + (if Extname(resolved) == ".svg" then "?import" else "")
  {
    var resolved := LocalResolved(ctx, spec);
    DotExtension(Extname(resolved));
  }

  /** For an extension (empty or starting with a dot), dropping the dot gives `svg` exactly for `.svg`. */
  lemma DotExtension(e: string)
    requires e == [] || e[0] == '.'
    ensures Drop1(e) == "svg" <==> e == ".svg"
  {
    if e != [] {
      assert e == [e[0]] + e[1..];
    }
  }

  /** A package specifier becomes the URL of its entry file in the cache, whatever the map holds. */
  lemma PackageUrlShape(ctx: Context, spec: string)
    requires !IsLocal(spec)
    ensures RewriteSpecifier(ctx, spec) == "/target/.cache/" + spec + "/index.js"
  {
  }

  // ---------------------------------------------------------------------------
  // The bundler call and the process-wide state

  /** What `buildNodeModule` hands to the bundler. */
  datatype BuildCall = BuildCall(entryPoints: seq<string>, outdir: string)

  /** `join(appRoot, "node_modules", n, "index.js")` for every package, in order. */
  function EntryPoints(appRoot: string, pkgs: seq<string>): (r: seq<string>)
    ensures |r| == |pkgs|
  {
    seq(|pkgs|, i requires 0 <= i < |pkgs| => JoinAll([appRoot, "node_modules", pkgs[i], "index.js"]))
  }

  lemma EntryPointsSnoc(appRoot: string, pkgs: seq<string>, i: nat)
    requires i < |pkgs|
    ensures EntryPoints(appRoot, pkgs[..i + 1]) == EntryPoints(appRoot, pkgs[..i]) + [JoinAll([appRoot, "node_modules", pkgs[i], "index.js"])]
  {
  }

  /** `join(appRoot, 'target', '.cache/')`. */
  function CacheDir(appRoot: string): string {
    JoinAll([appRoot, "target", ".cache/"])
  }

  function Flatten<T>(xss: seq<seq<T>>): seq<T> {
    if xss == [] then [] else Flatten(xss[..|xss| - 1]) + xss[|xss| - 1]
  }

  lemma FlattenAppend<T>(xss: seq<seq<T>>, xs: seq<T>)
    ensures Flatten(xss + [xs]) == Flatten(xss) + xs
  {
    assert (xss + [xs])[..|xss|] == xss;
  }

  /** Appending a list without duplicates and disjoint from the rest keeps a list duplicate-free. */
  lemma NoDupAppend<T>(a: seq<T>, b: seq<T>)
    requires NoDup(a) && NoDup(b)
    requires forall x :: x in b ==> x !in a
    ensures NoDup(a + b)
  {
    forall i, j | 0 <= i < j < |a + b| ensures (a + b)[i] != (a + b)[j] {
      if i < |a| && j >= |a| {
        assert (a + b)[j] == b[j - |a|];
        assert (a + b)[j] in b;
      }
    }
  }

  /**
    The cache's invariant on plain values: no package is bundled twice in the
    life of the process, every bundled package is in the map, and the bundler
    never runs on an empty list.
  */
  ghost predicate Consistent(appRoot: string, seen: set<string>, bundled: seq<seq<string>>, builds: seq<BuildCall>) {
    && |builds| == |bundled|
    && (forall i :: 0 <= i < |bundled| ==> bundled[i] != [])
    && (forall i :: 0 <= i < |bundled| ==> builds[i] == BuildCall(EntryPoints(appRoot, bundled[i]), CacheDir(appRoot)))
    && NoDup(Flatten(bundled))
    && (forall p :: p in Flatten(bundled) ==> p in seen)
  }

  /** Marking more packages keeps the invariant. */
  lemma MarkKeepsConsistent(appRoot: string, seen: set<string>, seen': set<string>, bundled: seq<seq<string>>, builds: seq<BuildCall>)
    requires Consistent(appRoot, seen, bundled, builds) && seen <= seen'
    ensures Consistent(appRoot, seen', bundled, builds)
  {
  }

  /** Bundling a non-empty list of marked packages new to the bundler keeps the invariant. */
  lemma BuildKeepsConsistent(appRoot: string, seen: set<string>, bundled: seq<seq<string>>, builds: seq<BuildCall>, pkgs: seq<string>)
    requires Consistent(appRoot, seen, bundled, builds)
    requires pkgs != [] && NoDup(pkgs)
    requires forall p :: p in pkgs ==> p in seen && p !in Flatten(bundled)
    ensures Consistent(appRoot, seen, bundled + [pkgs], builds + [BuildCall(EntryPoints(appRoot, pkgs), CacheDir(appRoot))])
  {
    var bundled', builds' := bundled + [pkgs], builds + [BuildCall(EntryPoints(appRoot, pkgs), CacheDir(appRoot))];
    FlattenAppend(bundled, pkgs);
    NoDupAppend(Flatten(bundled), pkgs);
    assert forall i :: 0 <= i < |bundled| ==> bundled'[i] == bundled[i] && builds'[i] == builds[i];
  }

  /**
    The module-level package map `nodeModulesMap` and the bundler calls made
    so far. Every value the map holds is `true`, so it is kept as the set of
    its keys.
  */
  class ModuleCache {
    /** `appRoot` of the transform module: the directory above its own. */
    const appRoot: string
    var seen: set<string>
    /** The package lists passed to `buildNodeModule`, in order. */
    var bundled: seq<seq<string>>
    /** The bundler calls those lists produced. */
    var builds: seq<BuildCall>

    /** The cache's invariant, `Consistent`, on its current fields. */
    ghost predicate Valid()
      reads this
    {
      Consistent(appRoot, seen, bundled, builds)
    }

    constructor (moduleDir: string)
      ensures Valid()
      ensures appRoot == JoinAll([moduleDir, ".."])
      ensures seen == {} && bundled == [] && builds == []
    {
      appRoot := JoinAll([moduleDir, ".."]);
      seen := {};
      bundled := [];
      builds := [];
    }

    /**
      `buildNodeModule(pkgs)`: collect the entry points, then call the bundler
      once. The packages are new to the bundler and already in the map.
    */
    method BuildNodeModule(pkgs: seq<string>)
      requires Valid()
      requires pkgs != [] && NoDup(pkgs)
      requires forall p :: p in pkgs ==> p in seen && p !in Flatten(bundled)
      modifies this`bundled, this`builds
      ensures Valid()
      ensures bundled == old(bundled) + [pkgs]
      ensures builds == old(builds) + [BuildCall(EntryPoints(appRoot, pkgs), CacheDir(appRoot))]
    {
      var ep: seq<string> := [];
      var i := 0;
      while i < |pkgs|
        invariant 0 <= i <= |pkgs|
        invariant ep == EntryPoints(appRoot, pkgs[..i])
        invariant bundled == old(bundled) && builds == old(builds)
      {
        EntryPointsSnoc(appRoot, pkgs, i);
        ep := ep + [JoinAll([appRoot, "node_modules", pkgs[i], "index.js"])];
        i := i + 1;
      }
      assert pkgs[..i] == pkgs;
      BuildKeepsConsistent(appRoot, seen, bundled, builds, pkgs);
      bundled := bundled + [pkgs];
      builds := builds + [BuildCall(ep, CacheDir(appRoot))];
    }

    /**
      `transformJSX(opts)`: transpile, rewrite every matched clause while
      marking new packages in the map, then bundle the new packages if there
      are any. When the transpiler throws nothing changes. When the callback
      throws, the packages it has already marked stay marked and nothing is
      bundled.
    */
    method TransformJSX(transpile: (string, string) -> Option<Transpiled>, root: string, path: string, code: string, files: set<string>)
      returns (r: Result<Transformed, TransformError>)
      requires Valid()
      modifies this`seen, this`bundled, this`builds
      ensures Valid()
      ensures transpile(Drop1(Extname(path)), code).None? ==>
        r == Failure(TranspileFailed) && seen == old(seen) && bundled == old(bundled) && builds == old(builds)
      ensures transpile(Drop1(Extname(path)), code).Some? ==>
        var ret := transpile(Drop1(Extname(path)), code).value;
        var st := Scan(Context(root, path, files), old(seen), ret.segments);
        && seen == st.seen
        && (st.failed ==> r == Failure(UndefinedSpecifier) && bundled == old(bundled) && builds == old(builds))
        && (!st.failed ==>
              && r == Success(Transformed(RenderAll(st.out), ret.sourceMap, ret.warnings))
              && bundled == old(bundled) + (if st.queued == [] then [] else [st.queued])
              && |builds| == |bundled|)
    {
      var transpiled := transpile(Drop1(Extname(path)), code);
      if transpiled.None? {
        return Failure(TranspileFailed);
      }
      var ret := transpiled.value;
      var segs := ret.segments;
      var ctx := Context(root, path, files);
      ghost var seen0 := seen;
      assert Consistent(appRoot, seen0, bundled, builds);
      var out: seq<Segment> := [];
      var need: seq<string> := [];
      var thrown := false;
      var i := 0;
      while i < |segs|
        invariant 0 <= i <= |segs|
        invariant Scan(ctx, seen0, segs[..i]) == ScanState(out, need, seen, false)
        invariant seen0 <= seen
        modifies this`seen
      {
        var seg := segs[i];
        ScanSnoc(ctx, seen0, segs, i);
        if !seg.Clause? || TypeLookaheadAsWritten(seg.between) {
          out := out + [seg];
        } else if seg.quote == Single {
          ScanStaysFailed(ctx, seen0, segs, i + 1);
          thrown := true;
          break;
        } else if IsLocal(seg.spec) {
          out := out + [Clause(seg.between, LocalUrl(ctx, seg.spec), Double)];
        } else {
          out := out + [Clause(seg.between, PackageUrl(seg.spec), Double)];
          if seg.spec !in seen {
            need := need + [seg.spec];
            seen := seen + {seg.spec};
          }
        }
        i := i + 1;
      }
      ghost var st := Scan(ctx, seen0, segs);
      assert st.seen == seen && st.failed == thrown && (!thrown ==> st.out == out && st.queued == need) by {
        if !thrown {
          assert segs[..i] == segs;
        }
      }
      QueuedFresh(ctx, seen0, segs);
      MarkKeepsConsistent(appRoot, seen0, seen, bundled, builds);
      if thrown {
        return Failure(UndefinedSpecifier);
      }
      if |need| > 0 {
        BuildNodeModule(need);
      }
      r := Success(Transformed(RenderAll(out), ret.sourceMap, ret.warnings));
    }
  }

  lemma ScanSnoc(ctx: Context, seen: set<string>, segs: seq<Segment>, i: nat)
    requires i < |segs|
    ensures Scan(ctx, seen, segs[..i + 1]) == ScanStep(ctx, Scan(ctx, seen, segs[..i]), segs[i])
  {
    assert segs[..i + 1][..i] == segs[..i];
  }

  /** Once the callback has thrown, the rest of the segments change nothing. */
  lemma {:induction false} ScanStaysFailed(ctx: Context, seen: set<string>, segs: seq<Segment>, k: nat)
    requires k <= |segs| && Scan(ctx, seen, segs[..k]).failed
    ensures Scan(ctx, seen, segs) == Scan(ctx, seen, segs[..k])
    decreases |segs| - k
  {
    if k < |segs| {
      assert segs[..k + 1][..k] == segs[..k];
      ScanStaysFailed(ctx, seen, segs, k + 1);
    } else {
      assert segs[..k] == segs;
    }
  }
}
