/** JSON string literals (internal/chefjson/chefjson.go:396-429; string grammar: section 7 of RFC 8259). A literal is
    represented by its body, the text between its quotes. */
module JsonString {
  import opened Prelude

  function HexDigit(n: nat): (c: char)
    requires n < 16
    ensures HexValue(c) == Some(n)
  {
    if n < 10 then '0' + n as char else 'A' + (n - 10) as char
  }

  function HexValue(c: char): (r: Option<nat>)
    ensures r.Some? ==> r.value < 16
  {
    if '0' <= c <= '9' then Some((c - '0') as nat)
    else if 'A' <= c <= 'F' then Some((c - 'A') as nat + 10)
    else if 'a' <= c <= 'f' then Some((c - 'a') as nat + 10)
    else None
  }

  /** Whether a character is written as it is. */
  predicate IsPlain(c: char) {
    c >= ' ' && c != '\"' && c != '\\'
  }

  /** The text that stands for one character: itself, a short escape, or \u00XX with upper-case digits. */
  function EscapeChar(c: char): string {
    if c == '\"' || c == '\\' then ['\\', c]
    else if c == '\U{8}' then "\\b"
    else if c == '\U{c}' then "\\f"
    else if c == '\n' then "\\n"
    else if c == '\r' then "\\r"
    else if c == '\t' then "\\t"
    else if c < ' ' then ['\\', 'u', '0', '0', HexDigit(c as int / 16), HexDigit(c as int % 16)]
    else [c]
  }

  function Escape(s: string): string {
    if s == "" then "" else EscapeChar(s[0]) + Escape(s[1..])
  }

  /** A control character without a short escape is written with four hexadecimal digits, in upper case. */
  lemma ControlIsUpperHex(c: char)
    requires c < ' ' && c !in {'\U{8}', '\U{c}', '\n', '\r', '\t'}
    ensures exists hi, lo :: 0 <= hi < 16 && 0 <= lo < 16 && c as int == 16 * hi + lo
                             && EscapeChar(c) == "\\u00" + ["0123456789ABCDEF"[hi], "0123456789ABCDEF"[lo]]
  {
    var hi, lo := c as int / 16, c as int % 16;
    assert HexDigit(hi) == "0123456789ABCDEF"[hi] && HexDigit(lo) == "0123456789ABCDEF"[lo];
    assert ['\\', 'u', '0', '0', HexDigit(hi), HexDigit(lo)] == "\\u00" + ["0123456789ABCDEF"[hi], "0123456789ABCDEF"[lo]];
  }

  function Quote(s: string): string {
    "\"" + Escape(s) + "\""
  }

  /** Four hexadecimal digits at the front of a text. */
  function Hex4(s: string): (r: Option<nat>)
    ensures r.Some? ==> r.value < 0x10000 && |s| >= 4
  {
    if |s| < 4 || HexValue(s[0]).None? || HexValue(s[1]).None? || HexValue(s[2]).None? || HexValue(s[3]).None? then None
    else Some(((HexValue(s[0]).value * 16 + HexValue(s[1]).value) * 16 + HexValue(s[2]).value) * 16 + HexValue(s[3]).value)
  }

  function ShortEscape(c: char): Option<char> {
    if c == '\"' || c == '\\' || c == '/' then Some(c)
    else if c == 'b' then Some('\U{8}')
    else if c == 'f' then Some('\U{c}')
    else if c == 'n' then Some('\n')
    else if c == 'r' then Some('\r')
    else if c == 't' then Some('\t')
    else None
  }

  function Cons(c: char, r: Option<string>): Option<string> {
    if r.None? then None else Some([c] + r.value)
  }

  /** What a literal denotes; None when it is not a literal: a raw control character or quote, an unknown escape, or an
      unpaired surrogate. */
  function Unquote(body: string): Option<string>
    decreases |body|
  {
    if body == "" then Some("")
    else if body[0] != '\\' then
      if IsPlain(body[0]) then Cons(body[0], Unquote(body[1..])) else None
    else if |body| == 1 then None
    else if body[1] == 'u' then UnquoteHex(body)
    else
      match ShortEscape(body[1])
      case None => None
      case Some(c) => Cons(c, Unquote(body[2..]))
  }

  function UnquoteHex(body: string): Option<string>
    requires |body| >= 2
    decreases |body|, 0
  {
    match Hex4(body[2..])
    case None => None
    case Some(n) =>
      if 0xDC00 <= n < 0xE000 then None
      else if n < 0xD800 || 0xE000 <= n then Cons(n as char, Unquote(body[6..]))
      else if |body| < 12 || body[6] != '\\' || body[7] != 'u' then None
      else
        match Hex4(body[8..])
        case None => None
        case Some(low) =>
          if 0xDC00 <= low < 0xE000
          then Cons((0x10000 + (n - 0xD800) * 0x400 + (low - 0xDC00)) as char, Unquote(body[12..]))
          else None
  }

  lemma UnquoteEscapeChar(c: char, rest: string)
    ensures Unquote(EscapeChar(c) + rest) == Cons(c, Unquote(rest))
  {
    var body := EscapeChar(c) + rest;
    if IsPlain(c) {
      assert body[1..] == rest;
    } else if |EscapeChar(c)| == 2 {
      assert body[2..] == rest;
    } else {
      UnquoteControl(c, rest);
    }
  }

  lemma HexOfControl(c: char, hex: string)
    requires c < ' ' && |hex| >= 4
    requires hex[0] == '0' && hex[1] == '0' && hex[2] == HexDigit(c as int / 16) && hex[3] == HexDigit(c as int % 16)
    ensures Hex4(hex) == Some(c as int)
  {
  }

  lemma UnquoteControl(c: char, rest: string)
    requires |EscapeChar(c)| == 6
    ensures Unquote(EscapeChar(c) + rest) == Cons(c, Unquote(rest))
  {
    var body := EscapeChar(c) + rest;
    var hex := body[2..];
    assert hex[0] == '0' && hex[1] == '0' && hex[2] == HexDigit(c as int / 16) && hex[3] == HexDigit(c as int % 16);
    HexOfControl(c, hex);
    assert body[6..] == rest;
  }

  /** Reading back what was written gives the string, for every string. */
  lemma {:induction false} UnquoteEscape(s: string)
    ensures Unquote(Escape(s)) == Some(s)
  {
    if s != "" {
      UnquoteEscape(s[1..]);
      UnquoteEscapeChar(s[0], Escape(s[1..]));
      assert [s[0]] + s[1..] == s;
    }
  }

  /** A literal without escapes is already in the form that is written, so it may be copied through. */
  lemma {:induction false} CopyThrough(body: string)
    requires Unquote(body).Some? && '\\' !in body
    ensures Unquote(body) == Some(body) && Escape(body) == body
  {
    ReadsPlain(body);
    EscapePlain(body);
  }

  lemma {:induction false} ReadsPlain(body: string)
    requires Unquote(body).Some? && '\\' !in body
    ensures Unquote(body) == Some(body) && forall c :: c in body ==> IsPlain(c)
  {
    if body != "" {
      ReadsPlain(body[1..]);
      assert [body[0]] + body[1..] == body;
    }
  }

  /** The literal Normalize writes for a literal it reads: copied when it has no escape, decoded and re-escaped
      otherwise. */
  function NormalizeBody(body: string): Option<string> {
    if '\\' !in body then Some(body)
    else
      match Unquote(body)
      case None => None
      case Some(s) => Some(Escape(s))
  }

  /** Both ways are the one encoding of the string the literal denotes, and that encoding is stable. */
  lemma NormalizeBodyIsEscape(body: string)
    requires Unquote(body).Some?
    ensures NormalizeBody(body) == Some(Escape(Unquote(body).value))
    ensures NormalizeBody(Escape(Unquote(body).value)) == NormalizeBody(body)
  {
    var s := Unquote(body).value;
    UnquoteEscape(s);
    if '\\' !in body {
      CopyThrough(body);
    }
  }

  /** A text for each character, one after the other. */
  function Each(f: char -> string, s: string): string {
    if s == "" then "" else f(s[0]) + Each(f, s[1..])
  }

  lemma {:induction false} EachCons(f: char -> string, c: char, s: string)
    ensures Each(f, [c] + s) == f(c) + Each(f, s)
  {
    assert ([c] + s)[1..] == s;
  }

  lemma {:induction false} Associate(a: string, b: string, c: string)
    ensures a + b + c == a + (b + c)
  {
  }

  lemma {:induction false} HeadTail(a: string, b: string)
    requires a != ""
    ensures a == [a[0]] + a[1..] && a + b == [a[0]] + (a[1..] + b)
  {
  }

  lemma {:induction false} EachConcat(f: char -> string, a: string, b: string)
    ensures Each(f, a + b) == Each(f, a) + Each(f, b)
  {
    if a == "" {
      assert a + b == b && Each(f, a) + Each(f, b) == Each(f, b);
    } else {
      var c, s := a[0], a[1..];
      EachConcat(f, s, b);
      HeadTail(a, b);
      EachCons(f, c, s);
      EachCons(f, c, s + b);
      Associate(f(c), Each(f, s), Each(f, b));
    }
  }

  lemma {:induction false} EscapeIsEach(s: string)
    ensures Escape(s) == Each(EscapeChar, s)
  {
    if s != "" {
      EscapeIsEach(s[1..]);
    }
  }

  lemma {:induction false} EscapeConcat(a: string, b: string)
    ensures Escape(a + b) == Escape(a) + Escape(b)
  {
    EscapeIsEach(a);
    EscapeIsEach(b);
    EscapeIsEach(a + b);
    EachConcat(EscapeChar, a, b);
  }

  lemma {:induction false} EscapeOne(c: char)
    ensures Escape([c]) == EscapeChar(c)
  {
    assert [c][1..] == "";
    assert EscapeChar(c) + "" == EscapeChar(c);
  }

  lemma {:induction false} EscapePlain(s: string)
    requires forall c :: c in s ==> IsPlain(c)
    ensures Escape(s) == s
  {
    if s != "" {
      assert IsPlain(s[0]) && EscapeChar(s[0]) == [s[0]];
      EscapePlain(s[1..]);
      assert [s[0]] + s[1..] == s;
    }
  }

  /** A run of plain characters. */
  lemma {:induction false} EscapeRun(s: string, start: nat, i: nat)
    requires start <= i <= |s| && forall c :: c in s[start..i] ==> IsPlain(c)
    ensures Escape(s[..i]) == Escape(s[..start]) + s[start..i]
  {
    var before, run := s[..start], s[start..i];
    EscapePlain(run);
    EscapeConcat(before, run);
    assert before + run == s[..i];
  }

  /** A run and the character after it. */
  lemma {:induction false} EscapeThrough(s: string, start: nat, i: nat)
    requires start <= i < |s| && forall c :: c in s[start..i] ==> IsPlain(c)
    ensures Escape(s[..i + 1]) == Escape(s[..start]) + s[start..i] + EscapeChar(s[i])
  {
    EscapeRun(s, start, i);
    EscapeConcat(s[..i], [s[i]]);
    assert s[..i] + [s[i]] == s[..i + 1];
    EscapeOne(s[i]);
  }

  lemma Quoted(dst: string, body: string)
    ensures dst + "\"" + body + "\"" == dst + ("\"" + body + "\"")
  {
  }

  /** appendString: copy the runs of plain characters and escape what lies between them. */
  method AppendString(dst: string, s: string) returns (out: string)
    ensures out == dst + Quote(s)
  {
    out := "";
    var start := 0;
    for i := 0 to |s|
      invariant 0 <= start <= i
      invariant out == Escape(s[..start])
      invariant forall c :: c in s[start..i] ==> IsPlain(c)
    {
      if IsPlain(s[i]) {
        assert s[start..i + 1] == s[start..i] + [s[i]];
      } else {
        EscapeThrough(s, start, i);
        out := out + s[start..i] + EscapeChar(s[i]);
        start := i + 1;
      }
    }
    EscapeRun(s, start, |s|);
    assert s[..|s|] == s && s[start..] == s[start..|s|];
    out := out + s[start..];
    Quoted(dst, out);
    out := dst + "\"" + out + "\"";
  }
}
