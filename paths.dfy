/**
  The POSIX flavour of Node's `path` module, as far as the dev server uses it:
  `join`, `dirname`, `extname` and `relative`. A path is split at every `/`;
  `.` and empty segments are dropped and `..` removes the segment before it,
  which is how `path.normalize` resolves a path. Resolution of a relative path
  against the process's working directory is not modelled: `Relative` treats
  both of its arguments as rooted.
*/
module Paths {
  import opened Wrappers
  import opened Text

  /** A segment that names a directory entry: neither empty, `.` nor `..`. */
  predicate IsName(seg: string) {
    seg != "" && seg != "." && seg != ".."
  }

  /** Every segment is free of `/`. */
  predicate NoSlash(segs: seq<string>) {
    forall i :: 0 <= i < |segs| ==> '/' !in segs[i]
  }

  /** Every segment is a name without `/`. */
  predicate AllNames(segs: seq<string>) {
    forall i :: 0 <= i < |segs| ==> IsName(segs[i]) && '/' !in segs[i]
  }

  /** `p.split('/')`: the text between consecutive slashes, in order. */
  function Split(p: string): (r: seq<string>)
    ensures |r| > 0 && NoSlash(r)
  {
    if p == [] then [""]
    else
      var rest := Split(p[1..]);
      if p[0] == '/' then [""] + rest
      else [[p[0]] + rest[0]] + rest[1..]
  }

  /** `segs.join('/')`. */
  function JoinSegs(segs: seq<string>): (r: string)
    ensures segs != [] && segs[0] != "" ==> r != [] && r[0] == segs[0][0]
  {
    if segs == [] then ""
    else if |segs| == 1 then segs[0]
    else segs[0] + "/" + JoinSegs(segs[1..])
  }

  /** One step of `path.normalize`'s segment loop. */
  function Step(stack: seq<string>, seg: string, aboveRoot: bool): seq<string> {
    if seg == "" || seg == "." then stack
    else if seg == ".." then
      if |stack| > 0 && stack[|stack| - 1] != ".." then stack[..|stack| - 1]
      else if aboveRoot then stack + [".."]
      else stack
    else stack + [seg]
  }

  /**
    The segments left once `segs` is resolved onto `stack`. A `..` that has
    nothing to remove is dropped at the root of an absolute path and kept in a
    relative one (`aboveRoot`).
  */
  function Resolve(stack: seq<string>, segs: seq<string>, aboveRoot: bool): (r: seq<string>)
    ensures AllNamesOrUp(stack) && NoSlash(segs) ==> AllNamesOrUp(r)
    ensures !aboveRoot && AllNames(stack) && NoSlash(segs) ==> AllNames(r)
    decreases |segs|
  {
    if segs == [] then stack
    else Resolve(Step(stack, segs[0], aboveRoot), segs[1..], aboveRoot)
  }

  /** Every segment is a name or `..`, and none holds `/`. */
  predicate AllNamesOrUp(segs: seq<string>) {
    forall i :: 0 <= i < |segs| ==> segs[i] != "" && segs[i] != "." && '/' !in segs[i]
  }

  predicate IsAbsolute(p: string) {
    p != [] && p[0] == '/'
  }

  /** `path.posix.normalize(p)`. */
  function Normalize(p: string): (r: string)
    ensures r != []
    ensures p != [] ==> (IsAbsolute(r) <==> IsAbsolute(p))
  {
    if p == [] then "."
    else
      var abs := p[0] == '/';
      var trailing := p[|p| - 1] == '/';
      var segs := Resolve([], Split(p), !abs);
      var body := JoinSegs(segs);
      if body == "" then (if abs then "/" else if trailing then "./" else ".")
      else
        assert segs != [] && segs[0] != "" && segs[0][0] != '/';
        (if abs then "/" else "") + body + (if trailing then "/" else "")
  }

  function NonEmpty(parts: seq<string>): (r: seq<string>)
    ensures forall i :: 0 <= i < |r| ==> r[i] != ""
  {
    if parts == [] then []
    else if parts[0] == "" then NonEmpty(parts[1..])
    else [parts[0]] + NonEmpty(parts[1..])
  }

  /** `path.posix.join(...parts)`: the non-empty parts joined with `/`, then normalised. */
  function JoinAll(parts: seq<string>): string {
    var present := NonEmpty(parts);
    if present == [] then "." else Normalize(JoinSegs(present))
  }

  function Join(a: string, b: string): string {
    JoinAll([a, b])
  }

  /** The prefix of `p` left when its trailing slashes are removed. */
  function StripTrailingSlashes(p: string): (r: string)
    ensures r <= p
    ensures r == [] || r[|r| - 1] != '/'
    ensures forall i :: |r| <= i < |p| ==> p[i] == '/'
  {
    if p != [] && p[|p| - 1] == '/' then StripTrailingSlashes(p[..|p| - 1]) else p
  }

  /** The index of the last `c` in `s`. */
  function LastIndexOfChar(s: string, c: char): (r: Option<nat>)
    ensures r.Some? ==> r.value < |s| && s[r.value] == c
    ensures r.Some? ==> forall j :: r.value < j < |s| ==> s[j] != c
    ensures r.None? ==> forall j :: 0 <= j < |s| ==> s[j] != c
  {
    if s == [] then None
    else if s[|s| - 1] == c then Some(|s| - 1)
    else LastIndexOfChar(s[..|s| - 1], c)
  }

  /**
    `path.posix.dirname(p)`: everything before the last slash that is followed
    by a non-slash character, ignoring the slash at index 0; `/` or `.` when
    there is none.
  */
  function Dirname(p: string): string {
    if p == [] then "."
    else
      var q := StripTrailingSlashes(p);
      match LastIndexOfChar(q, '/')
      case Some(k) =>
        if k == 0 then "/"
        else if k == 1 && p[0] == '/' then "//"
        else p[..k]
      case None => if p[0] == '/' then "/" else "."
  }

  /** The last segment of `p`, trailing slashes ignored. */
  function Basename(p: string): string {
    var q := StripTrailingSlashes(p);
    match LastIndexOfChar(q, '/')
    case Some(k) => q[k + 1..]
    case None => q
  }

  /**
    `path.posix.extname(p)`: the last segment from its last dot on, or empty
    when the segment has no dot, starts with its only dot, or is `..`.
  */
  function Extname(p: string): (r: string)
    ensures r == [] || r[0] == '.'
  {
    var base := Basename(p);
    match LastIndexOfChar(base, '.')
    case None => ""
    case Some(d) => if d == 0 || base == ".." then "" else base[d..]
  }

  /** `s.slice(1)`. */
  function Drop1(s: string): string {
    if s == [] then [] else s[1..]
  }

  function CommonPrefix(a: seq<string>, b: seq<string>): (n: nat)
    ensures n <= |a| && n <= |b| && a[..n] == b[..n]
    ensures n < |a| && n < |b| ==> a[n] != b[n]
  {
    if a == [] || b == [] || a[0] != b[0] then 0
    else
      var n := CommonPrefix(a[1..], b[1..]);
      assert a[..n + 1] == [a[0]] + a[1..][..n];
      assert b[..n + 1] == [b[0]] + b[1..][..n];
      n + 1
  }

  function Ups(n: nat): (r: seq<string>)
    ensures |r| == n
  {
    if n == 0 then [] else [".."] + Ups(n - 1)
  }

  /** `path.posix.relative(from, to)`, for rooted paths. */
  function Relative(from: string, to: string): string {
    var f := Resolve([], Split(from), false);
    var t := Resolve([], Split(to), false);
    if f == t then ""
    else
      var c := CommonPrefix(f, t);
      JoinSegs(Ups(|f| - c) + t[c..])
  }

  /** A relative path whose every segment is a name: no `.`, `..`, empty segment or trailing slash. */
  predicate IsCleanRelative(p: string) {
    AllNames(Split(p))
  }

  /** An absolute path that `Normalize` leaves as it is: `/` followed by a clean relative path. */
  predicate IsCleanAbsolute(p: string) {
    IsAbsolute(p) && IsCleanRelative(p[1..])
  }

  // ---------------------------------------------------------------------------
  // Lemmas about splitting and joining

  lemma {:induction false} SplitNoSlashIsSingleton(p: string)
    requires '/' !in p
    ensures Split(p) == [p]
  {
    if p != [] {
      SplitNoSlashIsSingleton(p[1..]);
      assert [p[0]] + p[1..] == p;
    }
  }

  /** Splitting at a slash splits the two sides independently. */
  lemma {:induction false} SplitConcat(a: string, b: string)
    ensures Split(a + "/" + b) == Split(a) + Split(b)
  {
    if a == [] {
      assert a + "/" + b == "/" + b;
      assert ("/" + b)[1..] == b;
    } else {
      var s := a + "/" + b;
      assert s[0] == a[0];
      assert s[1..] == a[1..] + "/" + b;
      SplitConcat(a[1..], b);
      SplitConsConcat(a[0], Split(a[1..]), Split(b));
    }
  }

  /** One step of `Split` commutes with appending the pieces of another path. */
  lemma SplitConsConcat(c: char, ra: seq<string>, rb: seq<string>)
    requires |ra| > 0
    ensures var rest := ra + rb;
      (if c == '/' then [""] + rest else [[c] + rest[0]] + rest[1..])
        == (if c == '/' then [""] + ra else [[c] + ra[0]] + ra[1..]) + rb
  {
    var rest := ra + rb;
    if c != '/' {
      assert rest[0] == ra[0];
      assert rest[1..] == ra[1..] + rb;
    }
  }

  /** Joining the pieces of a split gives the original path back. */
  lemma {:induction false} JoinSplit(p: string)
    ensures JoinSegs(Split(p)) == p
  {
    if p != [] {
      JoinSplit(p[1..]);
      var rest := Split(p[1..]);
      if p[0] == '/' {
        assert [""] + rest != [] && ([""] + rest)[1..] == rest;
        assert p == "" + "/" + p[1..];
      } else if |rest| == 1 {
        assert p == [p[0]] + p[1..];
      } else {
        assert JoinSegs(rest) == rest[0] + "/" + JoinSegs(rest[1..]);
        var r := [[p[0]] + rest[0]] + rest[1..];
        assert r[1..] == rest[1..];
        assert p == [p[0]] + p[1..];
      }
    }
  }

  /** Splitting a join of slash-free segments gives the segments back. */
  lemma {:induction false} SplitJoin(segs: seq<string>)
    requires segs != [] && NoSlash(segs)
    ensures Split(JoinSegs(segs)) == segs
  {
    SplitNoSlashIsSingleton(segs[0]);
    if |segs| > 1 {
      SplitJoin(segs[1..]);
      SplitConcat(segs[0], JoinSegs(segs[1..]));
      assert segs == [segs[0]] + segs[1..];
    }
  }

  lemma {:induction false} JoinSegsConcat(a: seq<string>, b: seq<string>)
    requires a != [] && b != []
    ensures JoinSegs(a + b) == JoinSegs(a) + "/" + JoinSegs(b)
  {
    if |a| == 1 {
      assert (a + b)[1..] == b;
    } else {
      assert (a + b)[1..] == a[1..] + b;
      JoinSegsConcat(a[1..], b);
    }
  }

  /** The last segment of a path ending in `/` is empty. */
  lemma {:induction false} SplitTrailingSlash(p: string)
    requires p != [] && p[|p| - 1] == '/'
    ensures Split(p)[|Split(p)| - 1] == ""
  {
    assert p == p[..|p| - 1] + "/" + "";
    SplitConcat(p[..|p| - 1], "");
  }

  // ---------------------------------------------------------------------------
  // Lemmas about resolution

  /** Resolving two lists of segments one after the other is resolving their concatenation. */
  lemma {:induction false} ResolveConcat(stack: seq<string>, s1: seq<string>, s2: seq<string>, aboveRoot: bool)
    ensures Resolve(stack, s1 + s2, aboveRoot) == Resolve(Resolve(stack, s1, aboveRoot), s2, aboveRoot)
    decreases |s1|
  {
    if s1 == [] {
      assert s1 + s2 == s2;
    } else {
      assert (s1 + s2)[0] == s1[0];
      assert (s1 + s2)[1..] == s1[1..] + s2;
      ResolveConcat(Step(stack, s1[0], aboveRoot), s1[1..], s2, aboveRoot);
    }
  }

  /** Names are pushed as they come. */
  lemma {:induction false} ResolveNames(stack: seq<string>, names: seq<string>, aboveRoot: bool)
    requires AllNames(names)
    ensures Resolve(stack, names, aboveRoot) == stack + names
    decreases |names|
  {
    if names == [] {
      assert stack + names == stack;
    } else {
      ResolveNames(stack + [names[0]], names[1..], aboveRoot);
      assert stack + [names[0]] + names[1..] == stack + names;
    }
  }

  /** The segments `Normalize` keeps for an absolute path, read back from its result. */
  lemma NormalizedAbsoluteSegments(p: string)
    requires IsAbsolute(p)
    ensures var segs := Resolve([], Split(p), false);
      Normalize(p) == "/" + JoinSegs(segs) + (if p[|p| - 1] == '/' && segs != [] then "/" else "")
  {
    var segs := Resolve([], Split(p), false);
    var body := JoinSegs(segs);
    assert Normalize(p) == if body == "" then "/" else "/" + body + (if p[|p| - 1] == '/' then "/" else "");
    ResolvedNames(p);
    assert segs != [] ==> segs[0] != "";
    assert segs != [] <==> body != "";
  }

  /** An absolute path resolves to names only. */
  lemma ResolvedNames(p: string)
    ensures AllNames(Resolve([], Split(p), false))
  {
    var sp := Split(p);
    assert NoSlash(sp);
    var empty: seq<string> := [];
    assert AllNames(empty);
    var r := Resolve(empty, sp, false);
    assert AllNames(r);
  }

  /** A clean absolute path is its own `Normalize` form, written from its segments. */
  lemma {:induction false} CleanAbsoluteSegments(p: string)
    requires IsCleanAbsolute(p)
    ensures Resolve([], Split(p), false) == Split(p[1..])
    ensures p == "/" + JoinSegs(Split(p[1..]))
  {
    assert p == "" + "/" + p[1..];
    SplitConcat("", p[1..]);
    ResolveNames([], Split(p[1..]), false);
    JoinSplit(p[1..]);
  }

  /** The clean path rebuilt from its segments. */
  lemma CleanAbsoluteFromNames(segs: seq<string>)
    requires segs != [] && AllNames(segs)
    ensures IsCleanAbsolute("/" + JoinSegs(segs))
    ensures ("/" + JoinSegs(segs))[1..] == JoinSegs(segs)
  {
    SplitJoin(segs);
  }

  // ---------------------------------------------------------------------------
  // The facts the server relies on

  /**
    Stripping a clean absolute root off a path below it: `relative(root, root + "/" + rest)`
    is `rest` whenever `rest` is a clean relative path.
  */
  lemma {:induction false} RelativeBelowRoot(root: string, rest: string)
    requires IsCleanAbsolute(root) && IsCleanRelative(rest)
    ensures Relative(root, root + "/" + rest) == rest
  {
    CleanAbsoluteSegments(root);
    var f := Split(root[1..]);
    assert root + "/" + rest == "" + "/" + (root[1..] + "/" + rest);
    SplitConcat("", root[1..] + "/" + rest);
    SplitConcat(root[1..], rest);
    assert Split(root + "/" + rest) == [""] + (f + Split(rest));
    ResolveNames([], f + Split(rest), false);
    var t := f + Split(rest);
    assert Resolve([], Split(root + "/" + rest), false) == t;
    assert f != t by { assert |t| > |f|; }
    var c := CommonPrefix(f, t);
    assert c == |f| by {
      assert t[..|f|] == f;
    }
    assert Ups(0) + t[c..] == Split(rest);
    JoinSplit(rest);
  }

  /** A path with a clean relative tail below a clean absolute root is clean absolute. */
  lemma {:induction false} CleanAbsoluteExtend(root: string, rest: string)
    requires IsCleanAbsolute(root) && IsCleanRelative(rest)
    ensures IsCleanAbsolute(root + "/" + rest)
  {
    var p := root + "/" + rest;
    assert p[1..] == root[1..] + "/" + rest;
    SplitConcat(root[1..], rest);
  }

  lemma {:induction false} NonEmptyKeepsPresent(parts: seq<string>)
    requires forall i :: 0 <= i < |parts| ==> parts[i] != ""
    ensures NonEmpty(parts) == parts
  {
    if parts != [] {
      NonEmptyKeepsPresent(parts[1..]);
      assert parts == [parts[0]] + parts[1..];
    }
  }

  /** Joining three non-empty parts is normalising them written with slashes. */
  lemma JoinAllThree(a: string, b: string, c: string)
    requires a != "" && b != "" && c != ""
    ensures JoinAll([a, b, c]) == Normalize(a + "/" + b + "/" + c)
  {
    NonEmptyKeepsPresent([a, b, c]);
    assert [a, b, c][1..] == [b, c] && [b, c][1..] == [c];
    assert JoinSegs([b, c]) == b + "/" + c;
    assert JoinSegs([a, b, c]) == a + "/" + JoinSegs([b, c]);
    assert a + "/" + (b + "/" + c) == a + "/" + b + "/" + c;
  }

  lemma JoinAllTwo(a: string, b: string)
    requires a != "" && b != ""
    ensures JoinAll([a, b]) == Normalize(a + "/" + b)
  {
    NonEmptyKeepsPresent([a, b]);
    assert [a, b][1..] == [b];
    assert JoinSegs([a, b]) == a + "/" + b;
  }

  // ---------------------------------------------------------------------------
  // Joining below a parent directory

  /** `Normalize` depends only on whether the path is absolute, its trailing slash and its resolved segments. */
  lemma NormalizeByParts(p: string, q: string)
    requires p != [] && q != []
    requires (p[0] == '/') == (q[0] == '/')
    requires (p[|p| - 1] == '/') == (q[|q| - 1] == '/')
    requires Resolve([], Split(p), p[0] != '/') == Resolve([], Split(q), q[0] != '/')
    ensures Normalize(p) == Normalize(q)
  {
  }

  /** A path that ends in a name does not end in a slash. */
  lemma LastNameNoTrailingSlash(p: string)
    requires IsName(Split(p)[|Split(p)| - 1])
    ensures p != [] && p[|p| - 1] != '/'
  {
    if p != [] && p[|p| - 1] == '/' {
      SplitTrailingSlash(p);
    }
  }

  /** Slash-free segments stay slash-free when more are appended. */
  lemma NoSlashConcat(a: seq<string>, b: seq<string>)
    requires NoSlash(a) && NoSlash(b)
    ensures NoSlash(a + b)
  {
    assert forall i :: 0 <= i < |a + b| ==> (a + b)[i] == if i < |a| then a[i] else b[i - |a|];
  }

  /** The segments of `dir/..`. */
  lemma {:induction false} SplitParent(dir: string)
    ensures Split(dir + "/" + "..") == Split(dir) + [".."]
  {
    SplitNoSlashIsSingleton("..");
    SplitConcat(dir, "..");
  }

  /** `dir/..` resolved, and the same segments read back from `join(dir, '..')`. */
  lemma {:induction false} ParentSegments(dir: string)
    requires IsAbsolute(dir)
    ensures var up := Resolve([], Split(dir) + [".."], false);
      AllNames(up) && JoinAll([dir, ".."]) == "/" + JoinSegs(up)
  {
    var up := Resolve([], Split(dir) + [".."], false);
    NoSlashConcat(Split(dir), [".."]);
    JoinAllTwo(dir, "..");
    SplitParent(dir);
    var p := dir + "/" + "..";
    assert p[0] == '/' && p[|p| - 1] == '.';
    NormalizedAbsoluteSegments(p);
  }

  /** The segments of a path of the form `/` + a join of names. */
  lemma {:induction false} RootedSegments(segs: seq<string>)
    requires AllNames(segs)
    ensures Resolve([], Split("/" + JoinSegs(segs)), false) == segs
  {
    assert "/" + JoinSegs(segs) == "" + "/" + JoinSegs(segs);
    SplitConcat("", JoinSegs(segs));
    if segs == [] {
      assert Split("/" + JoinSegs(segs)) == ["", ""];
      assert ["", ""][1..] == [""];
      assert Resolve([], [""], false) == [];
    } else {
      SplitJoin(segs);
      assert Split("/" + JoinSegs(segs)) == [""] + segs;
      assert ([""] + segs)[1..] == segs;
      ResolveNames([], segs, false);
    }
  }

  /** An absolute path resolves like its text after the leading slash. */
  lemma {:induction false} AbsoluteSegments(stack: seq<string>, from: string)
    requires IsAbsolute(from)
    ensures Resolve(stack, Split(from), false) == Resolve(stack, Split(from[1..]), false)
  {
    assert from == "" + "/" + from[1..];
    SplitConcat("", from[1..]);
    assert Split(from) == [""] + Split(from[1..]);
  }

  /** The segments of `join(dir, '..') + "/" + from`. */
  lemma {:induction false} RepoJoinSegments(dir: string, from: string)
    requires IsAbsolute(dir) && IsAbsolute(from)
    ensures var up := Resolve([], Split(dir) + [".."], false);
      Resolve([], Split(JoinAll([dir, ".."]) + "/" + from), false) == Resolve(up, Split(from[1..]), false)
  {
    ParentSegments(dir);
    var up := Resolve([], Split(dir) + [".."], false);
    var repo := JoinAll([dir, ".."]);
    SplitConcat(repo, from);
    RootedSegments(up);
    ResolveConcat([], Split(repo), Split(from), false);
    AbsoluteSegments(up, from);
  }

  /** The segments of `dir + "/../" + tail`. */
  lemma {:induction false} ParentTailSegments(dir: string, tail: string)
    ensures var up := Resolve([], Split(dir) + [".."], false);
      Resolve([], Split(dir + "/" + ".." + "/" + tail), false) == Resolve(up, Split(tail), false)
  {
    SplitConcat(dir + "/" + "..", tail);
    SplitParent(dir);
    ResolveConcat([], Split(dir) + [".."], Split(tail), false);
  }

  /**
    Joining the parent of `dir` with an absolute path `from` is joining `dir`,
    `..` and `from` without its leading slash: the two ways the server turns a
    root-relative URL into a file name agree.
  */
  lemma {:induction false} JoinParentAbsolute(dir: string, from: string)
    requires IsAbsolute(dir) && IsAbsolute(from) && |from| > 1
    ensures JoinAll([JoinAll([dir, ".."]), from]) == JoinAll([dir, "..", from[1..]])
  {
    var repo := JoinAll([dir, ".."]);
    var tail := from[1..];
    var p := repo + "/" + from;
    var q := dir + "/" + ".." + "/" + tail;
    assert JoinAll([repo, from]) == Normalize(p) by {
      ParentSegments(dir);
      JoinAllTwo(repo, from);
    }
    assert JoinAll([dir, "..", tail]) == Normalize(q) by {
      JoinAllThree(dir, "..", tail);
    }
    assert Resolve([], Split(p), false) == Resolve([], Split(q), false) by {
      RepoJoinSegments(dir, from);
      ParentTailSegments(dir, tail);
    }
    assert p[0] == '/' && q[0] == '/' by {
      ParentSegments(dir);
    }
    assert p[|p| - 1] == from[|from| - 1] == q[|q| - 1];
    NormalizeByParts(p, q);
  }

  /** Appending slash-free text to a path extends its last segment. */
  lemma {:induction false} SplitAppend(p: string, x: string)
    requires '/' !in x
    ensures var sp := Split(p);
      Split(p + x) == sp[..|sp| - 1] + [sp[|sp| - 1] + x]
  {
    if p == [] {
      SplitNoSlashIsSingleton(x);
      assert p + x == x;
    } else {
      var sp := Split(p);
      var rest := Split(p[1..]);
      assert (p + x)[0] == p[0];
      assert (p + x)[1..] == p[1..] + x;
      SplitAppend(p[1..], x);
      if p[0] == '/' {
        assert sp == [""] + rest;
      } else {
        SplitAppendCons(p[0], rest, Split(p[1..] + x), x);
      }
    }
  }

  /** The list step of `SplitAppend` for a first character that is not `/`. */
  lemma SplitAppendCons(c: char, rest: seq<string>, r: seq<string>, x: string)
    requires rest != [] && r == rest[..|rest| - 1] + [rest[|rest| - 1] + x]
    ensures var sp := [[c] + rest[0]] + rest[1..];
      [[c] + r[0]] + r[1..] == sp[..|sp| - 1] + [sp[|sp| - 1] + x]
  {
    var sp := [[c] + rest[0]] + rest[1..];
    if |rest| == 1 {
      assert r == [rest[0] + x];
      assert [c] + (rest[0] + x) == [c] + rest[0] + x;
    } else {
      assert r[0] == rest[0] && r[1..] == rest[1..|rest| - 1] + [rest[|rest| - 1] + x];
      assert sp[..|sp| - 1] == [[c] + rest[0]] + rest[1..|rest| - 1];
    }
  }

  lemma {:induction false} JoinSegsAppendLast(segs: seq<string>, x: string)
    requires segs != []
    ensures JoinSegs(segs[..|segs| - 1] + [segs[|segs| - 1] + x]) == JoinSegs(segs) + x
  {
    var t := segs[..|segs| - 1] + [segs[|segs| - 1] + x];
    if |segs| > 1 {
      assert t[1..] == segs[1..][..|segs| - 2] + [segs[1..][|segs| - 2] + x];
      JoinSegsAppendLast(segs[1..], x);
    }
  }

  /** Resolving a list that ends in a name pushes that name last. */
  lemma {:induction false} ResolveEndingInName(init: seq<string>, last: string, aboveRoot: bool)
    requires IsName(last)
    ensures Resolve([], init + [last], aboveRoot) == Resolve([], init, aboveRoot) + [last]
  {
    ResolveConcat([], init, [last], aboveRoot);
  }

  /** The resolved segments of `p + x` are those of `p` with `x` added to the last. */
  lemma {:induction false} AppendSegments(p: string, x: string, aboveRoot: bool)
    requires '/' !in x
    requires var sp := Split(p); IsName(sp[|sp| - 1]) && IsName(sp[|sp| - 1] + x)
    ensures var sp := Split(p); var pre := Resolve([], sp[..|sp| - 1], aboveRoot);
      Resolve([], sp, aboveRoot) == pre + [sp[|sp| - 1]] &&
      Resolve([], Split(p + x), aboveRoot) == pre + [sp[|sp| - 1] + x]
  {
    var sp := Split(p);
    SplitAppend(p, x);
    assert sp == sp[..|sp| - 1] + [sp[|sp| - 1]];
    ResolveEndingInName(sp[..|sp| - 1], sp[|sp| - 1], aboveRoot);
    ResolveEndingInName(sp[..|sp| - 1], sp[|sp| - 1] + x, aboveRoot);
  }

  /** Joining a list that ends in `last + x` is joining the one ending in `last`, then `x`. */
  lemma JoinSegsExtendLast(pre: seq<string>, last: string, x: string)
    ensures JoinSegs(pre + [last + x]) == JoinSegs(pre + [last]) + x
  {
    JoinSegsAppendLast(pre + [last], x);
    assert (pre + [last])[..|pre|] == pre;
  }

  /** `Normalize` of a path without a trailing slash whose resolved segments join to non-empty text. */
  lemma NormalizeUntrailed(p: string)
    requires p != [] && p[|p| - 1] != '/'
    requires JoinSegs(Resolve([], Split(p), p[0] != '/')) != ""
    ensures Normalize(p) == (if p[0] == '/' then "/" else "") + JoinSegs(Resolve([], Split(p), p[0] != '/'))
  {
  }

  /**
    Appending text to a path whose last segment stays a name appends it to the
    normalised path: `normalize(p + ".js") == normalize(p) + ".js"`.
  */
  lemma {:induction false} NormalizeAppend(p: string, x: string)
    requires '/' !in x && x != []
    requires var sp := Split(p); IsName(sp[|sp| - 1]) && IsName(sp[|sp| - 1] + x)
    ensures Normalize(p + x) == Normalize(p) + x
  {
    var sp := Split(p);
    var last := sp[|sp| - 1];
    LastNameNoTrailingSlash(p);
    var above := p[0] != '/';
    var px := p + x;
    assert px[0] == p[0];
    assert px[|px| - 1] == x[|x| - 1];
    AppendSegments(p, x, above);
    var pre := Resolve([], sp[..|sp| - 1], above);
    JoinSegsExtendLast(pre, last, x);
    assert JoinSegs(pre + [last]) != "" by {
      if pre != [] {
        JoinSegsConcat(pre, [last]);
      }
    }
    var segsX := Resolve([], Split(px), px[0] != '/');
    assert segsX == pre + [last + x];
    assert JoinSegs(segsX) == JoinSegs(pre + [last]) + x;
    NormalizeUntrailed(p);
    NormalizeUntrailed(px);
    var j := JoinSegs(pre + [last]);
    var pref := if p[0] == '/' then "/" else "";
    assert Normalize(p) == pref + j;
    assert Normalize(px) == pref + (j + x);
    Text.ConcatAssoc(pref, j, x);
  }

  /** The segments of the sibling directory `dir/../name`. */
  function SiblingSegments(dir: string, name: string): seq<string> {
    Resolve([], Split(dir) + ["..", name], false)
  }

  /** The sibling's segments are names and end in `name`. */
  lemma SiblingSegmentsEnd(dir: string, name: string)
    requires IsName(name) && '/' !in name
    ensures var t := SiblingSegments(dir, name);
      t != [] && t[|t| - 1] == name && AllNames(t) && IsName(t[0])
  {
    var d := Split(dir);
    assert d + ["..", name] == (d + [".."]) + [name];
    ResolveEndingInName(d + [".."], name, false);
    NoSlashConcat(d, ["..", name]);
    var t := SiblingSegments(dir, name);
    var empty: seq<string> := [];
    assert AllNames(empty);
    assert AllNames(t);
  }

  /** `../name` splits into `..` and `name`. */
  lemma SplitSibling(name: string)
    requires '/' !in name
    ensures Split("../" + name) == ["..", name]
  {
    SplitNoSlashIsSingleton("..");
    SplitNoSlashIsSingleton(name);
    assert "../" + name == ".." + "/" + name;
    SplitConcat("..", name);
  }

  /** `join(dir, '../' + name)` is `/` followed by the sibling's segments, which end in `name`. */
  lemma {:induction false} SiblingRoot(dir: string, name: string)
    requires IsAbsolute(dir) && IsName(name) && '/' !in name
    ensures var t := SiblingSegments(dir, name);
      t != [] && t[|t| - 1] == name && AllNames(t) &&
      JoinAll([dir, "../" + name]) == "/" + JoinSegs(t)
  {
    var t := SiblingSegments(dir, name);
    SiblingSegmentsEnd(dir, name);
    var up := "../" + name;
    SplitSibling(name);
    JoinAllTwo(dir, up);
    SplitConcat(dir, up);
    var q := dir + "/" + up;
    assert q[|q| - 1] == name[|name| - 1];
    assert IsName(t[0]);
    NormalizeUntrailed(q);
  }

  /** The segments of `dir/../name/rest` (or with `//` after `name`). */
  lemma SplitNameThen(name: string, rest: string, doubled: bool)
    requires '/' !in name
    ensures Split(name + (if doubled then "//" else "/") + rest)
      == [name] + (if doubled then [""] + Split(rest) else Split(rest))
  {
    SplitNoSlashIsSingleton(name);
    var x := name + (if doubled then "//" else "/") + rest;
    if doubled {
      assert x == name + "/" + ("" + "/" + rest);
      SplitConcat("", rest);
      SplitConcat(name, "" + "/" + rest);
    } else {
      SplitConcat(name, rest);
    }
  }

  lemma {:induction false} SiblingFileSegments(dir: string, name: string, rest: string, doubled: bool)
    requires IsName(name) && '/' !in name && IsCleanRelative(rest)
    ensures var x := name + (if doubled then "//" else "/") + rest;
      Resolve([], Split(dir + "/" + ".." + "/" + x), false) == SiblingSegments(dir, name) + Split(rest)
  {
    var d := Split(dir);
    var sr := Split(rest);
    var x := name + (if doubled then "//" else "/") + rest;
    var q := dir + "/" + ".." + "/" + x;
    SplitNoSlashIsSingleton("..");
    SplitConcat(dir + "/" + "..", x);
    SplitConcat(dir, "..");
    var tail: seq<string> := if doubled then [""] + sr else sr;
    SplitNameThen(name, rest, doubled);
    assert Split(q) == (d + ["..", name]) + tail;
    ResolveConcat([], d + ["..", name], tail, false);
    ResolveNames(SiblingSegments(dir, name), sr, false);
    if doubled {
      assert tail[1..] == sr;
    }
  }

  /**
    A path below a name next to `dir`, reached through `..`: joining `dir`,
    `..` and `name/rest` (or `name//rest`) is the join of `dir` and `../name`,
    then `/rest`.
  */
  lemma {:induction false} JoinBelowSibling(dir: string, name: string, rest: string, doubled: bool)
    requires IsAbsolute(dir) && IsName(name) && '/' !in name && IsCleanRelative(rest)
    ensures var root := JoinAll([dir, "../" + name]);
      IsCleanAbsolute(root) &&
      JoinAll([dir, "..", name + (if doubled then "//" else "/") + rest]) == root + "/" + rest
  {
    var t := SiblingSegments(dir, name);
    var sr := Split(rest);
    SiblingRoot(dir, name);
    CleanAbsoluteFromNames(t);
    var x := name + (if doubled then "//" else "/") + rest;
    JoinAllThree(dir, "..", x);
    var q := dir + "/" + ".." + "/" + x;
    SiblingFileSegments(dir, name, rest, doubled);
    LastNameNoTrailingSlash(rest);
    assert q[|q| - 1] == rest[|rest| - 1];
    JoinSegsConcat(t, sr);
    JoinSplit(rest);
    assert JoinSegs(t + sr) != "";
    NormalizeUntrailed(q);
    var a := JoinSegs(t);
    assert Normalize(q) == "/" + (a + "/" + rest);
    Text.ConcatAssoc4("/", a, "/", rest);
  }
  /**
    Joining a clean absolute root with a rooted path: `join(root, "/" + x)` is
    `x` below `root`, the doubled slash collapsed.
  */
  lemma {:induction false} JoinRootAbsolute(root: string, x: string)
    requires IsCleanAbsolute(root) && IsCleanRelative(x)
    ensures Join(root, "/" + x) == root + "/" + x
  {
    var p := root + "/" + ("/" + x);
    JoinAllTwo(root, "/" + x);
    var s1 := Split(root[1..]);
    var s2 := Split(x);
    RootSlashResolve(root, x);
    LastNameNoTrailingSlash(x);
    assert p[|p| - 1] == x[|x| - 1];
    JoinSegsConcat(s1, s2);
    JoinSplit(root[1..]);
    JoinSplit(x);
    assert JoinSegs(s1 + s2) != "";
    NormalizeUntrailed(p);
    assert root == "/" + root[1..];
    Text.ConcatAssoc4("/", root[1..], "/", x);
  }
  /** The segments `root + "//" + x` resolves to: those of the root, then those of `x`. */
  lemma {:induction false} RootSlashResolve(root: string, x: string)
    requires IsCleanAbsolute(root) && IsCleanRelative(x)
    ensures Resolve([], Split(root + "/" + ("/" + x)), false) == Split(root[1..]) + Split(x)
  {
    var p := root + "/" + ("/" + x);
    SplitConcat(root, "/" + x);
    assert "/" + x == "" + "/" + x;
    SplitConcat("", x);
    var s1 := Split(root[1..]);
    var s2 := Split(x);
    CleanAbsoluteSegments(root);
    assert Split(p) == Split(root) + ([""] + s2);
    ResolveConcat([], Split(root), [""] + s2, false);
    ResolveConcat(s1, [""], s2, false);
    assert Resolve(s1, [""], false) == s1;
    ResolveNames(s1, s2, false);
  }

  /** Appending to a last segment that stays a name commutes with joining below the parent directory. */
  lemma {:induction false} JoinParentAppend(dir: string, t: string, x: string)
    requires dir != "" && t != "" && '/' !in x && x != []
    requires var st := Split(t); IsName(st[|st| - 1]) && IsName(st[|st| - 1] + x)
    ensures JoinAll([dir, "..", t + x]) == JoinAll([dir, "..", t]) + x
  {
    var p := dir + "/" + ".." + "/" + t;
    JoinAllThree(dir, "..", t);
    JoinAllThree(dir, "..", t + x);
    ParentPathLast(dir, t);
    NormalizeAppend(p, x);
    Text.ConcatAssoc(dir + "/" + ".." + "/", t, x);
  }

  lemma ParentPathLast(dir: string, t: string)
    ensures var sp := Split(dir + "/" + ".." + "/" + t); var st := Split(t);
      sp[|sp| - 1] == st[|st| - 1]
  {
    var a := dir + "/" + "..";
    SplitConcat(a, t);
    LastOfConcat(Split(a), Split(t));
  }

  lemma LastOfConcat(a: seq<string>, b: seq<string>)
    requires b != []
    ensures (a + b)[|a + b| - 1] == b[|b| - 1]
  {
  }

  // ---------------------------------------------------------------------------
  // Last segments and extensions

  lemma StripUntrailed(p: string)
    requires p != [] && p[|p| - 1] != '/'
    ensures StripTrailingSlashes(p) == p
  {
    var r := StripTrailingSlashes(p);
    assert |r| == |p|;
  }

  /** The last `c` is determined by where it is and that none follows. */
  lemma LastIndexAt(s: string, c: char, v: nat)
    requires v < |s| && s[v] == c
    requires forall j :: v < j < |s| ==> s[j] != c
    ensures LastIndexOfChar(s, c) == Some(v)
  {
  }

  /**
    The last segment of a path below `a` is the last segment of the part
    below it: `basename(a + "/" + b)` is `basename(b)` for `b` without a
    trailing slash.
  */
  lemma BasenameBelow(a: string, b: string)
    requires b != [] && b[|b| - 1] != '/'
    ensures Basename(a + "/" + b) == Basename(b)
  {
    var p := a + "/" + b;
    StripUntrailed(p);
    StripUntrailed(b);
    match LastIndexOfChar(b, '/')
    case Some(k) =>
      assert p[|a| + 1 + k] == b[k];
      forall j | |a| + 1 + k < j < |p| ensures p[j] != '/' {
        assert p[j] == b[j - |a| - 1];
      }
      LastIndexAt(p, '/', |a| + 1 + k);
      assert p[|a| + 1 + k + 1..] == b[k + 1..];
    case None =>
      forall j | |a| < j < |p| ensures p[j] != '/' {
        assert p[j] == b[j - |a| - 1];
      }
      LastIndexAt(p, '/', |a|);
      assert p[|a| + 1..] == b;
  }

  /**
    The directory of a path below `a` is `a`: `dirname(a + "/" + b)` is `a`
    for a last segment `b` and an `a` of two characters or more.
  */
  lemma DirnameBelow(a: string, b: string)
    requires |a| >= 2 && b != []
    requires forall i :: 0 <= i < |b| ==> b[i] != '/'
    ensures Dirname(a + "/" + b) == a
  {
    var p := a + "/" + b;
    assert p[|p| - 1] == b[|b| - 1];
    StripUntrailed(p);
    forall j | |a| < j < |p| ensures p[j] != '/' {
      assert p[j] == b[j - |a| - 1];
    }
    LastIndexAt(p, '/', |a|);
    assert p[..|a|] == a;
  }

  /** A path without a trailing slash ends with its extension. */
  lemma ExtnameEnds(p: string)
    requires p != [] && p[|p| - 1] != '/'
    ensures EndsWith(p, Extname(p))
  {
    StripUntrailed(p);
    var base := Basename(p);
    assert EndsWith(p, base) by {
      match LastIndexOfChar(p, '/')
      case Some(k) => assert p[|p| - |base|..] == p[k + 1..];
      case None =>
    }
    match LastIndexOfChar(base, '.')
    case None =>
    case Some(d) =>
      if d != 0 && base != ".." {
        assert p[|p| - |base| + d..] == base[d..];
      }
  }
}
