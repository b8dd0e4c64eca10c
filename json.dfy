/**
  The part of JSON the HMR messages use: `JSON.stringify` of strings and of
  non-negative integers, and reading them back as `JSON.parse` does.
*/
module Json {
  import opened Wrappers
  import opened Text

  function HexDigit(d: nat): (c: char)
    requires d < 16
  {
    if d < 10 then ('0' as int + d) as char else ('a' as int + d - 10) as char
  }

  /** The value of a hexadecimal digit of either case. */
  function HexValue(c: char): Option<nat> {
    if '0' <= c <= '9' then Some(c as int - '0' as int)
    else if 'a' <= c <= 'f' then Some(c as int - 'a' as int + 10)
    else if 'A' <= c <= 'F' then Some(c as int - 'A' as int + 10)
    else None
  }

  lemma HexDigitValue(d: nat)
    requires d < 16
    ensures HexValue(HexDigit(d)) == Some(d)
  {
  }

  /** How `JSON.stringify` writes one character inside a string. */
  function EscapeChar(c: char): (r: string)
    ensures |r| > 0
  {
    if c == '"' then "\\\""
    else if c == '\\' then "\\\\"
    else if c == '\U{8}' then "\\b"
    else if c == '\U{C}' then "\\f"
    else if c == '\n' then "\\n"
    else if c == '\r' then "\\r"
    else if c == '\t' then "\\t"
    else if (c as int) < 0x20 then "\\u00" + [HexDigit((c as int) / 16), HexDigit((c as int) % 16)]
    else [c]
  }

  function EscapeString(s: string): string {
    if s == [] then "" else EscapeChar(s[0]) + EscapeString(s[1..])
  }

  /** `JSON.stringify` of a string. */
  function Quote(s: string): (r: string)
    ensures |r| >= 2 && r[0] == '"'
  {
    "\"" + EscapeString(s) + "\""
  }

  /** The character a two-character escape `\e` denotes in JSON. */
  function ShortEscape(e: char): Option<char> {
    if e == '"' then Some('"')
    else if e == '\\' then Some('\\')
    else if e == '/' then Some('/')
    else if e == 'b' then Some('\U{8}')
    else if e == 'f' then Some('\U{C}')
    else if e == 'n' then Some('\n')
    else if e == 'r' then Some('\r')
    else if e == 't' then Some('\t')
    else None
  }

  /** The code unit a `\uXXXX` escape denotes, read from four hexadecimal digits. */
  function Hex4(t: string): Option<nat>
    requires |t| == 4
  {
    match (HexValue(t[0]), HexValue(t[1]), HexValue(t[2]), HexValue(t[3]))
    case (Some(a), Some(b), Some(c), Some(d)) => Some(((a * 16 + b) * 16 + c) * 16 + d)
    case _ => None
  }

  /**
    Reads the rest of a JSON string after its opening quote: the value and the
    text after the closing quote. `None` for an unterminated string, a raw
    control character, an unknown escape, or a `\u` escape that denotes half of
    a surrogate pair.
  */
  function ReadStringBody(t: string): (r: Option<(string, string)>)
    ensures r.Some? ==> |r.value.1| < |t|
  {
    if t == [] then None
    else if t[0] == '"' then Some(("", t[1..]))
    else if (t[0] as int) < 0x20 then None
    else if t[0] == '\\' then
      if |t| < 2 then None
      else if t[1] == 'u' then
        if |t| < 6 then None
        else match Hex4(t[2..6])
          case None => None
          case Some(n) =>
            if 0xD800 <= n < 0xE000 then None
            else match ReadStringBody(t[6..])
              case None => None
              case Some(p) => Some(([n as char] + p.0, p.1))
      else match ShortEscape(t[1])
        case None => None
        case Some(c) =>
          match ReadStringBody(t[2..])
          case None => None
          case Some(p) => Some(([c] + p.0, p.1))
    else
      match ReadStringBody(t[1..])
      case None => None
      case Some(p) => Some(([t[0]] + p.0, p.1))
  }

  /** Reads a JSON string from the front of `t`. */
  function ReadString(t: string): (r: Option<(string, string)>)
    ensures r.Some? ==> |r.value.1| < |t|
  {
    if t != [] && t[0] == '"' then ReadStringBody(t[1..]) else None
  }

  lemma ReadEscapedChar(c: char, t: string, v: string, rest: string)
    requires ReadStringBody(t) == Some((v, rest))
    ensures ReadStringBody(EscapeChar(c) + t) == Some(([c] + v, rest))
  {
    var e := EscapeChar(c);
    var u := e + t;
    if c == '"' || c == '\\' || c == '\U{8}' || c == '\U{C}' || c == '\n' || c == '\r' || c == '\t' {
      assert u[0] == '\\' && u[2..] == t;
      assert ShortEscape(u[1]) == Some(c);
    } else if (c as int) < 0x20 {
      ReadUnicodeEscape(c, t);
    } else {
      assert u[0] == c && u[1..] == t;
    }
  }

  lemma ReadUnicodeEscape(c: char, t: string)
    requires (c as int) < 0x20
    requires ReadStringBody(t).Some?
    ensures var u := "\\u00" + [HexDigit((c as int) / 16), HexDigit((c as int) % 16)] + t;
      ReadStringBody(u) == Some(([c] + ReadStringBody(t).value.0, ReadStringBody(t).value.1))
  {
    var hi := (c as int) / 16;
    var lo := (c as int) % 16;
    var u := "\\u00" + [HexDigit(hi), HexDigit(lo)] + t;
    assert u[0] == '\\' && u[1] == 'u' && u[6..] == t;
    assert u[2..6] == ['0', '0', HexDigit(hi), HexDigit(lo)];
    HexDigitValue(hi);
    HexDigitValue(lo);
    assert Hex4(u[2..6]) == Some(c as int);
    assert (c as int) as char == c;
  }

  /** What `JSON.stringify` writes for a string reads back as that string, and reading stops right after it. */
  lemma {:induction false} ReadQuoted(s: string, rest: string)
    ensures ReadString(Quote(s) + rest) == Some((s, rest))
  {
    var q := Quote(s) + rest;
    assert q[0] == '"';
    assert q[1..] == EscapeString(s) + ("\"" + rest);
    ReadEscaped(s, rest);
  }

  lemma {:induction false} ReadEscaped(s: string, rest: string)
    ensures ReadStringBody(EscapeString(s) + ("\"" + rest)) == Some((s, rest))
  {
    var close := "\"" + rest;
    if s == [] {
      assert EscapeString(s) + close == close;
      assert close[1..] == rest;
    } else {
      var tail := EscapeString(s[1..]);
      ReadEscaped(s[1..], rest);
      ReadEscapedChar(s[0], tail + close, s[1..], rest);
      assert EscapeString(s) == EscapeChar(s[0]) + tail;
      ConcatAssoc(EscapeChar(s[0]), tail, close);
      assert [s[0]] + s[1..] == s;
    }
  }

  /** A character `JSON.stringify` writes as it is. */
  predicate IsPlain(c: char) {
    (c as int) >= 0x20 && c != '"' && c != '\\'
  }

  /** A string of plain characters is written between the quotes unchanged. */
  lemma {:induction false} EscapePlain(s: string)
    requires forall i :: 0 <= i < |s| ==> IsPlain(s[i])
    ensures EscapeString(s) == s
  {
    if s != [] {
      EscapePlain(s[1..]);
      assert [s[0]] + s[1..] == s;
    }
  }

  /** Two strings with the same JSON text are the same string. */
  lemma QuoteInjective(s: string, t: string)
    requires Quote(s) == Quote(t)
    ensures s == t
  {
    ReadQuoted(s, "");
    ReadQuoted(t, "");
    assert Quote(s) + "" == Quote(s);
    assert Quote(t) + "" == Quote(t);
  }

  // ---------------------------------------------------------------------------
  // Numbers

  /** The length of the run of decimal digits at the front of `t`. */
  function DigitRun(t: string): (n: nat)
    ensures n <= |t|
    ensures forall i :: 0 <= i < n ==> IsDigit(t[i])
    ensures n < |t| ==> !IsDigit(t[n])
  {
    if t != [] && IsDigit(t[0]) then 1 + DigitRun(t[1..]) else 0
  }

  /** Reads a non-negative integer written without a leading zero (or `0` itself) from the front of `t`. */
  function ReadNat(t: string): (r: Option<(nat, string)>)
    ensures r.Some? ==> |r.value.1| < |t|
  {
    var n := DigitRun(t);
    if n == 0 || (t[0] == '0' && n > 1) then None
    else
      var v := DigitsValue(t[..n]);
      DigitsValueNonNegative(t[..n]);
      Some((v, t[n..]))
  }

  lemma {:induction false} DigitsValueNonNegative(s: string)
    requires forall i :: 0 <= i < |s| ==> IsDigit(s[i])
    ensures DigitsValue(s) >= 0
  {
    if s != [] {
      DigitsValueNonNegative(s[..|s| - 1]);
    }
  }

  lemma {:induction false} DigitRunOf(s: string, rest: string)
    requires forall i :: 0 <= i < |s| ==> IsDigit(s[i])
    requires rest == [] || !IsDigit(rest[0])
    ensures DigitRun(s + rest) == |s|
  {
    if s != [] {
      assert (s + rest)[1..] == s[1..] + rest;
      DigitRunOf(s[1..], rest);
    } else {
      assert s + rest == rest;
    }
  }

  /** The decimal text of a number reads back as that number when a non-digit follows it. */
  lemma ReadNatToString(n: nat, rest: string)
    requires rest == [] || !IsDigit(rest[0])
    ensures ReadNat(NatToString(n) + rest) == Some((n, rest))
  {
    var s := NatToString(n);
    DigitRunOf(s, rest);
    assert (s + rest)[..|s|] == s;
    assert (s + rest)[|s|..] == rest;
    NatToStringValue(n);
    if n >= 10 {
      assert s[0] != '0';
    }
    assert (s + rest)[0] == s[0];
  }
}
