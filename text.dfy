/**
  The JavaScript string operations the dev server relies on, over `seq<char>`:
  `startsWith`, `endsWith`, the first-occurrence `replace`, `trim`, the global
  single-character `replace(/x/g, '')`, and the decimal rendering of a number
  in a template literal.
*/
module Text {
  import opened Wrappers

  predicate StartsWith(s: string, prefix: string) {
    prefix <= s
  }

  predicate EndsWith(s: string, suffix: string) {
    |suffix| <= |s| && s[|s| - |suffix|..] == suffix
  }

  lemma ConcatAssoc(a: string, b: string, c: string)
    ensures a + (b + c) == a + b + c
  {
  }

  lemma ConcatAssoc4(a: string, b: string, c: string, d: string)
    ensures a + (b + c + d) == a + b + c + d
  {
  }

  lemma DropConcat(a: string, b: string, k: nat)
    requires k <= |a|
    ensures (a + b)[k..] == a[k..] + b
  {
  }

  lemma StartsWithConcat(a: string, b: string)
    ensures StartsWith(a + b, a)
  {
    assert (a + b)[..|a|] == a;
  }

  lemma StartsWithShorter(s: string, a: string, b: string)
    ensures StartsWith(s, a + b) ==> StartsWith(s, a)
  {
    if StartsWith(s, a + b) {
      assert (a + b)[..|a|] == a;
      assert s[..|a|] == (a + b)[..|a|];
    }
  }

  lemma DropPrefix(a: string, b: string, k: nat)
    requires k <= |b|
    ensures (a + b)[|a| + k..] == b[k..]
  {
  }

  /** `pat` occurs in `s` starting at index `k`. */
  predicate OccursAt(s: string, pat: string, k: nat) {
    k + |pat| <= |s| && s[k..k + |pat|] == pat
  }

  /** The leftmost occurrence of `pat` at or after index `i` (String.prototype.indexOf). */
  function IndexFrom(s: string, pat: string, i: nat): (r: Option<nat>)
    requires i <= |s|
    ensures r.Some? ==> i <= r.value && OccursAt(s, pat, r.value)
    ensures r.Some? ==> forall j: nat :: i <= j < r.value ==> !OccursAt(s, pat, j)
    ensures r.None? ==> forall j: nat :: i <= j ==> !OccursAt(s, pat, j)
    decreases |s| - i
  {
    if OccursAt(s, pat, i) then Some(i)
    else if i == |s| then None
    else IndexFrom(s, pat, i + 1)
  }

  function IndexOf(s: string, pat: string): (r: Option<nat>)
    ensures r.Some? ==> OccursAt(s, pat, r.value)
    ensures r.Some? ==> forall j: nat :: j < r.value ==> !OccursAt(s, pat, j)
    ensures r.None? ==> forall j: nat :: !OccursAt(s, pat, j)
  {
    IndexFrom(s, pat, 0)
  }

  /** With no `c` in `p`, the first `c` of `p + q` is the one `q` starts with. */
  lemma IndexOfCharAt(p: string, q: string, c: char)
    requires c !in p && q != [] && q[0] == c
    ensures IndexOf(p + q, [c]) == Some(|p|)
  {
    var s := p + q;
    assert OccursAt(s, [c], |p|) by {
      assert s[|p|..|p| + 1] == [q[0]];
    }
    forall j: nat | j < |p| ensures !OccursAt(s, [c], j) {
      assert s[j..j + 1] == [p[j]];
    }
  }

  /** A character that does not occur is not found. */
  lemma IndexOfCharAbsent(s: string, c: char)
    requires c !in s
    ensures IndexOf(s, [c]) == None
  {
    forall j: nat | j + 1 <= |s| ensures !OccursAt(s, [c], j) {
      assert s[j..j + 1] == [s[j]];
    }
  }

  /** `s.replace(pat, rep)` with a string pattern. */
  function ReplaceFirst(s: string, pat: string, rep: string): string {
    match IndexOf(s, pat)
    case None => s
    case Some(k) => s[..k] + rep + s[k + |pat|..]
  }

  /**
    Only the first occurrence of `pat` is replaced, and a string without an
    occurrence comes back unchanged.
  */
  lemma ReplaceFirstSpec(s: string, pat: string, rep: string)
    ensures (forall j: nat :: !OccursAt(s, pat, j)) ==> ReplaceFirst(s, pat, rep) == s
    ensures forall k: nat ::
      OccursAt(s, pat, k) && (forall j: nat :: j < k ==> !OccursAt(s, pat, j)) ==>
        ReplaceFirst(s, pat, rep) == s[..k] + rep + s[k + |pat|..]
  {
    forall k: nat | OccursAt(s, pat, k) && (forall j: nat :: j < k ==> !OccursAt(s, pat, j))
      ensures ReplaceFirst(s, pat, rep) == s[..k] + rep + s[k + |pat|..]
    {
      var first := IndexOf(s, pat);
      assert first.Some?;
    }
  }

  /** The characters String.prototype.trim removes: WhiteSpace and LineTerminator of ECMA-262. */
  predicate IsSpace(c: char) {
    || c == '\t' || c == '\n' || c == '\U{B}' || c == '\U{C}' || c == '\r' || c == ' '
    || c == '\U{A0}' || c == '\U{1680}' || ('\U{2000}' <= c <= '\U{200A}')
    || c == '\U{2028}' || c == '\U{2029}' || c == '\U{202F}' || c == '\U{205F}'
    || c == '\U{3000}' || c == '\U{FEFF}'
  }

  /** Every character of `s` from index `lo` up to `hi` is white space. */
  predicate SpaceRun(s: string, lo: nat, hi: nat)
    requires lo <= hi <= |s|
  {
    forall i :: lo <= i < hi ==> IsSpace(s[i])
  }

  /** The number of white-space characters (`\s`) at the front of `s`. */
  function LeadingSpaces(s: string): (n: nat)
    ensures n <= |s| && SpaceRun(s, 0, n)
    ensures n < |s| ==> !IsSpace(s[n])
  {
    if s != [] && IsSpace(s[0]) then
      var n := LeadingSpaces(s[1..]);
      SpaceRunCons(s, n);
      n + 1
    else 0
  }

  lemma SpaceRunCons(s: string, n: nat)
    requires s != [] && IsSpace(s[0]) && n <= |s| - 1 && SpaceRun(s[1..], 0, n)
    ensures SpaceRun(s, 0, n + 1)
  {
    forall i | 0 < i < n + 1 ensures IsSpace(s[i]) {
      assert s[i] == s[1..][i - 1];
    }
  }

  /** The number of white-space characters at the end of `s`. */
  function TrailingSpaces(s: string): (n: nat)
    ensures n <= |s| && SpaceRun(s, |s| - n, |s|)
    ensures n < |s| ==> !IsSpace(s[|s| - 1 - n])
  {
    if s != [] && IsSpace(s[|s| - 1]) then
      var init := s[..|s| - 1];
      var n := TrailingSpaces(init);
      SpaceRunSnoc(s, n);
      assert n + 1 < |s| ==> s[|s| - 1 - (n + 1)] == init[|init| - 1 - n];
      n + 1
    else 0
  }

  lemma SpaceRunSnoc(s: string, n: nat)
    requires s != [] && IsSpace(s[|s| - 1]) && n <= |s| - 1
    requires var init := s[..|s| - 1]; SpaceRun(init, |init| - n, |init|)
    ensures SpaceRun(s, |s| - (n + 1), |s|)
  {
    var init := s[..|s| - 1];
    forall i | |s| - (n + 1) <= i < |s| - 1 ensures IsSpace(s[i]) {
      assert s[i] == init[i];
    }
  }

  /** A run found in the tail of `s` after `a` characters is a run of `s` itself. */
  lemma SpaceRunShift(s: string, a: nat, lo: nat, hi: nat)
    requires a <= |s| && lo <= hi <= |s| - a && SpaceRun(s[a..], lo, hi)
    ensures SpaceRun(s, a + lo, a + hi)
  {
    forall i | a + lo <= i < a + hi ensures IsSpace(s[i]) {
      assert s[i] == s[a..][i - a];
    }
  }

  /**
    `s.trim()`: `s` with its run of white space removed at each end. The result
    begins and ends with a non-space character, and a string that already does
    is left as it is.
  */
  function Trim(s: string): (r: string)
    ensures r == [] || (!IsSpace(r[0]) && !IsSpace(r[|r| - 1]))
    ensures exists a: nat :: a + |r| <= |s| && s[a..a + |r|] == r && SpaceRun(s, 0, a) && SpaceRun(s, a + |r|, |s|)
    ensures (s == [] || (!IsSpace(s[0]) && !IsSpace(s[|s| - 1]))) ==> r == s
  {
    TrimmedEnds(s);
    TrimmedCut(s);
    TrimmedUnchanged(s);
    Trimmed(s)
  }

  /** `s` without its leading spaces and then without its trailing ones. */
  function Trimmed(s: string): string {
    var t := s[LeadingSpaces(s)..];
    t[..|t| - TrailingSpaces(t)]
  }

  lemma TrimmedEnds(s: string)
    ensures var r := Trimmed(s); r == [] || (!IsSpace(r[0]) && !IsSpace(r[|r| - 1]))
  {
    var a := LeadingSpaces(s);
    var t := s[a..];
    var b := TrailingSpaces(t);
    var r := t[..|t| - b];
    if r != [] {
      assert r[0] == s[a];
      assert r[|r| - 1] == t[|t| - 1 - b];
    }
  }

  lemma TrimmedCut(s: string)
    ensures var r := Trimmed(s);
      exists a: nat :: a + |r| <= |s| && s[a..a + |r|] == r && SpaceRun(s, 0, a) && SpaceRun(s, a + |r|, |s|)
  {
    var a := LeadingSpaces(s);
    var t := s[a..];
    CutRuns(s, a, TrailingSpaces(t));
    var r := Trimmed(s);
    assert a + |r| <= |s| && s[a..a + |r|] == r && SpaceRun(s, 0, a) && SpaceRun(s, a + |r|, |s|);
  }

  /** Cutting `a` characters from the front of `s`, then a run of `b` spaces from the back of the rest. */
  lemma CutRuns(s: string, a: nat, b: nat)
    requires a <= |s| && b <= |s| - a
    requires SpaceRun(s[a..], |s| - a - b, |s| - a)
    ensures var r := s[a..][..|s| - a - b];
      a + |r| <= |s| && s[a..a + |r|] == r && SpaceRun(s, a + |r|, |s|)
  {
    var t := s[a..];
    assert s[a..a + (|t| - b)] == t[..|t| - b];
    SpaceRunShift(s, a, |t| - b, |t|);
  }

  lemma TrimmedUnchanged(s: string)
    ensures (s == [] || (!IsSpace(s[0]) && !IsSpace(s[|s| - 1]))) ==> Trimmed(s) == s
  {
    if s == [] || (!IsSpace(s[0]) && !IsSpace(s[|s| - 1])) {
      assert LeadingSpaces(s) == 0;
      assert s[0..] == s;
      assert TrailingSpaces(s) == 0;
    }
  }

  /** `s.replace(/c/g, '')` for a single character `c`. */
  function RemoveAll(s: string, c: char): (r: string)
    ensures |r| <= |s|
    ensures forall i :: 0 <= i < |r| ==> r[i] != c
  {
    if s == [] then []
    else if s[0] == c then RemoveAll(s[1..], c)
    else [s[0]] + RemoveAll(s[1..], c)
  }

  /** Removing a character distributes over concatenation. */
  lemma {:induction false} RemoveAllConcat(a: string, b: string, c: char)
    ensures RemoveAll(a + b, c) == RemoveAll(a, c) + RemoveAll(b, c)
  {
    if a != [] {
      assert (a + b)[0] == a[0];
      assert (a + b)[1..] == a[1..] + b;
      RemoveAllConcat(a[1..], b, c);
    } else {
      assert a + b == b;
    }
  }

  /** A string without `c` is left unchanged; so removing twice is removing once. */
  lemma {:induction false} RemoveAllAbsent(s: string, c: char)
    requires forall i :: 0 <= i < |s| ==> s[i] != c
    ensures RemoveAll(s, c) == s
  {
    if s != [] {
      RemoveAllAbsent(s[1..], c);
    }
  }

  predicate IsDigit(c: char) {
    '0' <= c <= '9'
  }

  function DigitChar(d: nat): (c: char)
    requires d < 10
    ensures IsDigit(c) && (c as int) - ('0' as int) == d
  {
    ('0' as int + d) as char
  }

  /** The decimal rendering of a non-negative integer, as `${n}` and JSON.stringify produce it. */
  function NatToString(n: nat): (r: string)
    ensures |r| > 0
    ensures forall i :: 0 <= i < |r| ==> IsDigit(r[i])
    ensures r[0] == '0' ==> n == 0
    decreases n
  {
    if n < 10 then [DigitChar(n)] else NatToString(n / 10) + [DigitChar(n % 10)]
  }

  /** The value of a string of decimal digits. */
  function DigitsValue(s: string): int
    requires forall i :: 0 <= i < |s| ==> IsDigit(s[i])
  {
    if s == [] then 0 else 10 * DigitsValue(s[..|s| - 1]) + ((s[|s| - 1] as int) - ('0' as int))
  }

  /** Reading the rendered digits back gives the number. */
  lemma {:induction false} NatToStringValue(n: nat)
    ensures DigitsValue(NatToString(n)) == n
    decreases n
  {
    if n >= 10 {
      var s := NatToString(n);
      assert s[..|s| - 1] == NatToString(n / 10);
      NatToStringValue(n / 10);
    }
  }

  /** Different numbers render differently, so a timestamp embedded in a URL identifies it. */
  lemma NatToStringInjective(m: nat, n: nat)
    requires NatToString(m) == NatToString(n)
    ensures m == n
  {
    NatToStringValue(m);
    NatToStringValue(n);
  }

  /** A stretch that begins and ends with a non-space character survives `Trim`. */
  lemma TrimKeepsInner(s: string, lo: nat, hi: nat) returns (j: nat)
    requires lo < hi <= |s| && !IsSpace(s[lo]) && !IsSpace(s[hi - 1])
    ensures OccursAt(Trim(s), s[lo..hi], j)
  {
    j := TrimmedKeepsInner(s, lo, hi);
  }

  lemma TrimmedKeepsInner(s: string, lo: nat, hi: nat) returns (j: nat)
    requires lo < hi <= |s| && !IsSpace(s[lo]) && !IsSpace(s[hi - 1])
    ensures OccursAt(Trimmed(s), s[lo..hi], j)
  {
    var a := LeadingSpaces(s);
    var t := s[a..];
    var e := |t| - TrailingSpaces(t);
    assert Trimmed(s) == t[..e];
    LeadingBound(s, lo);
    InnerBound(s, a, hi - 1);
    TrailingBound(t, hi - 1 - a);
    j := lo - a;
    SliceOfSlices(s, a, e, lo, hi);
  }

  lemma InnerBound(s: string, a: nat, k: nat)
    requires a <= k < |s|
    ensures s[a..][k - a] == s[k]
  {
  }

  /** The leading spaces stop at or before the first non-space character. */
  lemma LeadingBound(s: string, k: nat)
    requires k < |s| && !IsSpace(s[k])
    ensures LeadingSpaces(s) <= k
  {
  }

  /** The trailing spaces stop after the last non-space character. */
  lemma TrailingBound(t: string, k: nat)
    requires k < |t| && !IsSpace(t[k])
    ensures k < |t| - TrailingSpaces(t)
  {
  }

  lemma SliceOfSlices(s: string, a: nat, e: nat, lo: nat, hi: nat)
    requires a <= lo < hi <= a + e <= |s|
    ensures OccursAt(s[a..][..e], s[lo..hi], lo - a)
  {
    assert s[a..][..e][lo - a..hi - a] == s[lo..hi];
  }
}
