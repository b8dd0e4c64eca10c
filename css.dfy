/**
  `transformCss`: a stylesheet becomes a module that inserts a `<style>`
  element holding it and exports the stylesheet text as its default export.
  The stylesheet is embedded in a double-quoted string literal.
*/
module Css {
  import opened Wrappers
  import opened Text

  /** The module text up to and including the literal's opening quote. */
  const Prefix: string :=
    "\n    var insertStyle = function(content) {\n"
    + "        let style = document.createElement('style');\n"
    + "        style.setAttribute('type', 'text/css');\n"
    + "        style.innerHTML = content;\n"
    + "        document.head.appendChild(style);\n"
    + "    }\n"
    + "    const css = \""

  /** The module text from the literal's closing quote on. */
  const Suffix: string :=
    "\"" + ";\n    insertStyle(css);\n    insertStyle = null;\n    export default css;\n    "

  /**
    `transformCss` as written: the literal's body is the stylesheet with every
    `\n` removed and nothing else changed.
  */
  function TransformCssAsWritten(code: string): (r: string)
    ensures StartsWith(r, Prefix) && EndsWith(r, Suffix)
  {
    Prefix + RemoveAll(code, '\n') + Suffix
  }

  /** A stylesheet with nothing the literal would need escaped: no `"`, `\` or `\r`. */
  predicate LiteralSafe(code: string) {
    forall i :: 0 <= i < |code| ==> code[i] != '"' && code[i] != '\\' && code[i] != '\r'
  }

  /** How one stylesheet character is written inside the literal. */
  function EscapeChar(c: char): string {
    if c == '\n' then ""
    else if c == '\\' then "\\\\"
    else if c == '"' then "\\\""
    else if c == '\r' then "\\r"
    else [c]
  }

  /**
    The literal's body as intended: `\n` is still dropped, and the characters
    that would end the literal or start an escape are escaped.
  */
  function EscapeCss(code: string): string {
    if code == [] then "" else EscapeChar(code[0]) + EscapeCss(code[1..])
  }

  /** `transformCss` with the stylesheet escaped before it is embedded. */
  function TransformCss(code: string): (r: string)
    ensures StartsWith(r, Prefix) && EndsWith(r, Suffix)
  {
    Prefix + EscapeCss(code) + Suffix
  }

  // ---------------------------------------------------------------------------
  // Reading a double-quoted JavaScript string literal back

  /**
    Reads the body of a double-quoted string literal from the start of `t`:
    the value it denotes and the number of characters up to and including the
    closing quote. `None` when the literal is a syntax error: it reaches a line
    terminator or the end of the text unclosed. The hexadecimal, Unicode and
    digit escapes and line continuations are not read (the escaped form never
    contains them) and also give `None`.
  */
  function ReadLiteral(t: string): (r: Option<(string, nat)>)
    ensures r.Some? ==> 0 < r.value.1 <= |t| && t[r.value.1 - 1] == '"'
  {
    if t == [] then None
    else if t[0] == '"' then Some(("", 1))
    else if t[0] == '\n' || t[0] == '\r' then None
    else if t[0] == '\\' then
      if |t| < 2 then None
      else
        match EscapeValue(t[1])
        case None => None
        case Some(c) =>
          match ReadLiteral(t[2..])
          case None => None
          case Some(p) => Some(([c] + p.0, p.1 + 2))
    else
      match ReadLiteral(t[1..])
      case None => None
      case Some(p) => Some(([t[0]] + p.0, p.1 + 1))
  }

  /** The character a single-character escape `\e` denotes. */
  function EscapeValue(e: char): Option<char> {
    if e == 'n' then Some('\n')
    else if e == 'r' then Some('\r')
    else if e == 't' then Some('\t')
    else if e == 'b' then Some('\U{8}')
    else if e == 'f' then Some('\U{C}')
    else if e == 'v' then Some('\U{B}')
    else if e == 'x' || e == 'u' || '0' <= e <= '9' || e == '\n' || e == '\r' || e == '\U{2028}' || e == '\U{2029}' then None
    else Some(e)
  }

  /** One escaped character is read back as itself, or as nothing for a dropped `\n`. */
  lemma ReadEscapedChar(c: char, t: string, v: string, n: nat)
    requires ReadLiteral(t) == Some((v, n))
    ensures ReadLiteral(EscapeChar(c) + t) == Some((RemoveAll([c], '\n') + v, |EscapeChar(c)| + n))
  {
    assert [c][1..] == [];
    if c == '\n' {
      assert RemoveAll([c], '\n') + v == v;
      assert EscapeChar(c) + t == t;
    } else {
      assert RemoveAll([c], '\n') == [c];
      if c == '\\' || c == '"' || c == '\r' {
        ReadEscapePair(c, t);
      } else {
        ReadPlainChar(c, t);
      }
    }
  }

  lemma ReadEscapePair(c: char, t: string)
    requires c == '\\' || c == '"' || c == '\r'
    requires ReadLiteral(t).Some?
    ensures var p := ReadLiteral(t).value;
      ReadLiteral(EscapeChar(c) + t) == Some(([c] + p.0, 2 + p.1))
  {
    var u := EscapeChar(c) + t;
    assert u[0] == '\\' && u[2..] == t;
    assert EscapeValue(u[1]) == Some(c);
  }

  lemma ReadPlainChar(c: char, t: string)
    requires c != '\n' && c != '\\' && c != '"' && c != '\r'
    requires ReadLiteral(t).Some?
    ensures var p := ReadLiteral(t).value;
      ReadLiteral(EscapeChar(c) + t) == Some(([c] + p.0, 1 + p.1))
  {
    var u := EscapeChar(c) + t;
    assert u[0] == c && u[1..] == t;
  }

  /**
    The escaped body read from the front of `body + rest` ends exactly at the
    first character of `rest`, when that is a double quote, and denotes the
    stylesheet with `\n` removed.
  */
  lemma {:induction false} ReadEscaped(code: string, rest: string)
    requires rest != [] && rest[0] == '"'
    ensures ReadLiteral(EscapeCss(code) + rest) == Some((RemoveAll(code, '\n'), |EscapeCss(code)| + 1))
  {
    if code == [] {
      assert EscapeCss(code) + rest == rest;
    } else {
      ReadEscaped(code[1..], rest);
      RemoveAllCons(code);
      ReadEscapedStep(code[0], EscapeCss(code[1..]), rest, RemoveAll(code[1..], '\n'), EscapeCss(code), RemoveAll(code, '\n'));
    }
  }

  /** The step of `ReadEscaped`: one more escaped character in front of a literal body read back. */
  lemma ReadEscapedStep(c: char, tail: string, rest: string, v: string, whole: string, value: string)
    requires ReadLiteral(tail + rest) == Some((v, |tail| + 1))
    requires whole == EscapeChar(c) + tail && value == RemoveAll([c], '\n') + v
    ensures ReadLiteral(whole + rest) == Some((value, |whole| + 1))
  {
    ReadEscapedChar(c, tail + rest, v, |tail| + 1);
    ConcatAssoc(EscapeChar(c), tail, rest);
  }

  lemma RemoveAllCons(code: string)
    requires code != []
    ensures RemoveAll(code, '\n') == RemoveAll([code[0]], '\n') + RemoveAll(code[1..], '\n')
  {
    assert code == [code[0]] + code[1..];
    RemoveAllConcat([code[0]], code[1..], '\n');
  }

  /**
    In the module `TransformCss` builds, the literal after `const css = ` ends
    at the closing quote the template supplies, and its value, the module's
    default export, is the stylesheet with every `\n` removed.
  */
  lemma ExportedValue(code: string)
    ensures var out := TransformCss(code);
      var body := out[|Prefix|..];
      ReadLiteral(body) == Some((RemoveAll(code, '\n'), |EscapeCss(code)| + 1))
      && body[|EscapeCss(code)| + 1..] == Suffix[1..]
  {
    var e := EscapeCss(code);
    ConcatAssoc(Prefix, e, Suffix);
    DropPrefix(Prefix, e + Suffix, 0);
    DropPrefix(e, Suffix, 1);
    ReadEscaped(code, Suffix);
  }

  /** For a safe stylesheet, escaping only removes the line feeds. */
  lemma {:induction false} EscapeSafe(code: string)
    requires LiteralSafe(code)
    ensures EscapeCss(code) == RemoveAll(code, '\n')
  {
    if code != [] {
      EscapeSafe(code[1..]);
      RemoveAllCons(code);
      assert RemoveAll([code[0]], '\n') == EscapeChar(code[0]) by {
        assert [code[0]][1..] == [];
      }
    }
  }

  /** For a safe stylesheet, the template as written builds the module the escaping one does. */
  lemma AsWrittenAgreesWhenSafe(code: string)
    requires LiteralSafe(code)
    ensures TransformCssAsWritten(code) == TransformCss(code)
  {
    EscapeSafe(code);
  }

  /**
    In the module `transformCss` builds for a stylesheet with no `"`, `\` or
    `\r`, the literal ends at the template's closing quote and its value, the
    default export, is the stylesheet with every `\n` removed.
  */
  lemma AsWrittenExportedValue(code: string)
    requires LiteralSafe(code)
    ensures var body := TransformCssAsWritten(code)[|Prefix|..];
      ReadLiteral(body) == Some((RemoveAll(code, '\n'), |RemoveAll(code, '\n')| + 1))
      && body[|RemoveAll(code, '\n')| + 1..] == Suffix[1..]
  {
    var v := RemoveAll(code, '\n');
    EscapeSafe(code);
    ConcatAssoc(Prefix, v, Suffix);
    DropPrefix(Prefix, v + Suffix, 0);
    DropPrefix(v, Suffix, 1);
    ReadEscaped(code, Suffix);
  }

  /**
    As written, a stylesheet holding a double quote ends the literal early: for
    `"` the literal is read as the empty string, closed one character in,
    and the template's own quote then follows it.
  */
  lemma AsWrittenQuoteEndsLiteral()
    ensures var out := TransformCssAsWritten("\"");
      var body := out[|Prefix|..];
      ReadLiteral(body) == Some(("", 1)) && body[1] == '"'
      && ReadLiteral(body) != Some((RemoveAll("\"", '\n'), 2))
  {
    var body := "\"" + Suffix;
    assert RemoveAll("\"", '\n') == "\"";
    ConcatAssoc(Prefix, "\"", Suffix);
    DropPrefix(Prefix, body, 0);
    assert body[0] == '"' && body[1] == '"';
  }

  /** As written, a carriage return (a CRLF stylesheet) leaves the literal unterminated. */
  lemma AsWrittenCarriageReturnBreaksLiteral()
    ensures ReadLiteral(TransformCssAsWritten("a\r\n")[|Prefix|..]).None?
  {
    var body := "a\r" + Suffix;
    assert RemoveAll("a\r\n", '\n') == "a\r" by {
      assert "a\r\n" == "a\r" + "\n";
      RemoveAllConcat("a\r", "\n", '\n');
      assert "\n"[1..] == [];
    }
    ConcatAssoc(Prefix, "a\r", Suffix);
    DropPrefix(Prefix, body, 0);
    CarriageReturnUnclosed(Suffix);
  }

  /** A literal body `a` followed by a bare carriage return is unterminated, whatever follows. */
  lemma CarriageReturnUnclosed(rest: string)
    ensures ReadLiteral("a\r" + rest).None?
  {
    var t := "a\r" + rest;
    assert t[0] == 'a' && t[1..] == "\r" + rest;
    assert ("\r" + rest)[0] == '\r';
  }
}
