/** The lexer of the query language (internal/search/query.go:228-354). */
module QueryLexer {
  import opened Prelude

  datatype Token =
    | EOF
    | LParen
    | RParen
    | AndTok
    | OrTok
    | NotTok
    | Colon
    // a word with its escapes resolved, the same word with only `\*`, `\?` and `\\` still escaped, and whether an
    // unescaped '-' leads it
    | Word(text: string, glob: string, negate: bool)
    | Phrase(text: string)
    | Range(lo: string, hi: string, incLo: bool, incHi: bool)

  datatype Error =
    | UnterminatedPhrase
    | UnterminatedRange
    | MalformedRange(inner: string)
    | EndsWithEscape
    | UnexpectedChar(c: char)
    | UnexpectedToken(tok: Token)
    | MissingParen
    | ExpectedValue

  predicate IsBlank(c: char) {
    c == ' ' || c == '\t' || c == '\n' || c == '\r'
  }

  predicate IsDelimiter(c: char) {
    IsBlank(c) || c == '(' || c == ')' || c == '[' || c == ']' || c == '{' || c == '}' || c == '\"' || c == ':'
  }

  predicate IsSpecial(c: char) {
    c == '*' || c == '?' || c == '\\'
  }

  /** strings.Cut: the text around the first occurrence of a separator. */
  function Cut(s: string, sep: string): (r: Option<(string, string)>)
    ensures r.Some? ==> s == r.value.0 + sep + r.value.1
  {
    if sep <= s then Some(("", s[|sep|..]))
    else if s == "" then None
    else
      match Cut(s[1..], sep)
      case None => None
      case Some((before, after)) => Some(([s[0]] + before, after))
  }

  /** A scanned word: its two readings and how many characters of the input it took. */
  datatype Scanned = Scanned(text: string, glob: string, n: nat)

  /** The word loop: up to the next delimiter, a backslash making the character after it literal. */
  function ScanWord(s: string): (r: Result<Scanned, Error>)
    ensures r.Ok? ==> r.value.n <= |s| && (r.value.n > 0 ==> r.value.text != "" && r.value.glob != "")
    ensures s != "" && !IsDelimiter(s[0]) && r.Ok? ==> r.value.n > 0
    ensures r.Ok? && r.value.n > 1 && s[0] != '\\' ==>
              |r.value.text| > 1 && |r.value.glob| > 1 && r.value.text[0] == s[0] && r.value.glob[0] == s[0]
  {
    if s == "" || IsDelimiter(s[0]) then Ok(Scanned("", "", 0))
    else if s[0] != '\\' then
      match ScanWord(s[1..])
      case Err(e) => Err(e)
      case Ok(w) => Ok(Scanned([s[0]] + w.text, [s[0]] + w.glob, 1 + w.n))
    else if |s| == 1 then Err(EndsWithEscape)
    else
      match ScanWord(s[2..])
      case Err(e) => Err(e)
      case Ok(w) =>
        Ok(Scanned([s[1]] + w.text, (if IsSpecial(s[1]) then "\\" else "") + [s[1]] + w.glob, 2 + w.n))
  }

  function Prepend(toks: seq<Token>, r: Result<seq<Token>, Error>): Result<seq<Token>, Error> {
    match r
    case Err(e) => Err(e)
    case Ok(more) => Ok(toks + more)
  }

  /** One token read from the front of the input, and how many characters it took; blanks give no token. */
  datatype Lexed = Lexed(toks: seq<Token>, n: nat)

  function WordToken(word: string, w: Scanned): Token {
    if word == "AND" then AndTok
    else if word == "OR" then OrTok
    else if word == "NOT" then NotTok
    else Word(w.text, w.glob, |word| > 1 && word[0] == '-')
  }

  function LexRange(lc: char -> char, s: string): (r: Result<Lexed, Error>)
    requires s != "" && (s[0] == '[' || s[0] == '{')
    ensures r.Ok? ==> 0 < r.value.n <= |s| && |r.value.toks| == 1 && r.value.toks[0].Range?
  {
    match IndexOf(s[1..], if s[0] == '{' then '}' else ']')
    case None => Err(UnterminatedRange)
    case Some(end) =>
      var inner := s[1..1 + end];
      match Cut(inner, " TO ")
      case None => Err(MalformedRange(inner))
      case Some((lo, hi)) =>
        Ok(Lexed([Range(Lower(lc, TrimSpace(lo)), Lower(lc, TrimSpace(hi)), s[0] == '[', s[0] == '[')], end + 2))
  }

  /** What the parser may rely on: a word is never empty, and a negated one has something after its '-'. */
  predicate TokenOk(t: Token) {
    t.Word? ==> t.text != "" && t.glob != "" && (t.negate ==> |t.text| > 1 && |t.glob| > 1)
  }

  /** One turn of the lexer's loop. */
  function LexOne(lc: char -> char, s: string): (r: Result<Lexed, Error>)
    requires s != ""
    ensures r.Ok? ==> 0 < r.value.n <= |s| && forall t :: t in r.value.toks ==> TokenOk(t) && !t.EOF?
  {
    var c := s[0];
    if IsBlank(c) then Ok(Lexed([], 1))
    else if c == '(' then Ok(Lexed([LParen], 1))
    else if c == ')' then Ok(Lexed([RParen], 1))
    else if c == ':' then Ok(Lexed([Colon], 1))
    else if c == '\"' then
      match IndexOf(s[1..], '\"')
      case None => Err(UnterminatedPhrase)
      case Some(end) => Ok(Lexed([Phrase(s[1..1 + end])], end + 2))
    else if c == '[' || c == '{' then LexRange(lc, s)
    else
      match ScanWord(s)
      case Err(e) => Err(e)
      case Ok(w) => if w.n == 0 then Err(UnexpectedChar(c)) else Ok(Lexed([WordToken(s[..w.n], w)], w.n))
  }

  /** The tokens of a query, with the end marker last. */
  function Tokens(lc: char -> char, s: string): (r: Result<seq<Token>, Error>)
    ensures r.Ok? ==> TokensOk(r.value)
    decreases |s|
  {
    if s == "" then Ok([EOF])
    else
      match LexOne(lc, s)
      case Err(e) => Err(e)
      case Ok(l) => Prepend(l.toks, Tokens(lc, s[l.n..]))
  }

  lemma TokensStep(lc: char -> char, s: string, l: Lexed)
    requires s != "" && LexOne(lc, s) == Ok(l)
    ensures Tokens(lc, s) == Prepend(l.toks, Tokens(lc, s[l.n..]))
  {
  }

  predicate TokensOk(toks: seq<Token>) {
    toks != [] && toks[|toks| - 1].EOF? && forall t :: t in toks ==> TokenOk(t)
  }

  /** lex: the loop over the input, which ends on every input and stays within it. */
  method Lex(lc: char -> char, s: string) returns (r: Result<seq<Token>, Error>)
    ensures r == Tokens(lc, s)
  {
    var toks: seq<Token> := [];
    var i := 0;
    ghost var whole := Tokens(lc, s);
    assert s[0..] == s;
    PrependNothing(whole);
    while i < |s|
      invariant 0 <= i <= |s|
      invariant LeftToLex(lc, s, i, toks, whole)
    {
      var l := LexNext(lc, s, i, toks, whole);
      if l.Err? {
        return Err(l.error);
      }
      toks := toks + l.value.toks;
      i := i + l.value.n;
    }
    LexEnds(lc, s, toks, whole);
    return Ok(toks + [EOF]);
  }

  /** One turn of the loop. */
  method LexNext(lc: char -> char, s: string, i: nat, ghost toks: seq<Token>, ghost whole: Result<seq<Token>, Error>)
    returns (l: Result<Lexed, Error>)
    requires i < |s| && LeftToLex(lc, s, i, toks, whole)
    ensures l.Err? ==> whole == Err(l.error)
    ensures l.Ok? ==> 0 < l.value.n <= |s| - i && LeftToLex(lc, s, i + l.value.n, toks + l.value.toks, whole)
  {
    var rest := s[i..];
    l := LexOne(lc, rest);
    LexResult(lc, s, i, toks, whole, rest, l);
  }

  lemma {:induction false} LexResult(lc: char -> char, s: string, i: nat, toks: seq<Token>, whole: Result<seq<Token>, Error>,
                                     rest: string, l: Result<Lexed, Error>)
    requires i < |s| && rest == s[i..] && l == LexOne(lc, rest) && LeftToLex(lc, s, i, toks, whole)
    ensures l.Err? ==> whole == Err(l.error)
    ensures l.Ok? ==> 0 < l.value.n <= |s| - i && LeftToLex(lc, s, i + l.value.n, toks + l.value.toks, whole)
  {
    if l.Err? {
      LexFails(lc, s, i, toks, whole, l.error);
    } else {
      LexTurn(lc, s, i, toks, whole, l.value);
    }
  }

  /** The result is the tokens so far before those of what is left. */
  ghost predicate LeftToLex(lc: char -> char, s: string, i: nat, toks: seq<Token>, whole: Result<seq<Token>, Error>)
    requires i <= |s|
  {
    whole == Prepend(toks, Tokens(lc, s[i..]))
  }

  lemma {:induction false} LexFails(lc: char -> char, s: string, i: nat, toks: seq<Token>, whole: Result<seq<Token>, Error>, e: Error)
    requires i < |s| && LexOne(lc, s[i..]) == Err(e) && LeftToLex(lc, s, i, toks, whole)
    ensures whole == Err(e)
  {
  }

  lemma {:induction false} LexEnds(lc: char -> char, s: string, toks: seq<Token>, whole: Result<seq<Token>, Error>)
    requires LeftToLex(lc, s, |s|, toks, whole)
    ensures whole == Ok(toks + [EOF])
  {
    assert s[|s|..] == "";
  }

  lemma {:induction false} LexTurn(lc: char -> char, s: string, i: nat, toks: seq<Token>, whole: Result<seq<Token>, Error>, l: Lexed)
    requires i < |s| && LexOne(lc, s[i..]) == Ok(l) && LeftToLex(lc, s, i, toks, whole)
    ensures i + l.n <= |s| && LeftToLex(lc, s, i + l.n, toks + l.toks, whole)
  {
    var rest := s[i + l.n..];
    TokensStep(lc, s[i..], l);
    assert s[i..][l.n..] == rest;
    PrependTwice(toks, l.toks, Tokens(lc, rest));
  }

  lemma PrependNothing(r: Result<seq<Token>, Error>)
    ensures Prepend([], r) == r
  {
    if r.Ok? {
      assert [] + r.value == r.value;
    }
  }

  lemma PrependTwice(a: seq<Token>, b: seq<Token>, r: Result<seq<Token>, Error>)
    ensures Prepend(a, Prepend(b, r)) == Prepend(a + b, r)
  {
    if r.Ok? {
      assert a + (b + r.value) == (a + b) + r.value;
    }
  }

  // What a word means

  /** A pattern with its escapes resolved. */
  function Unescape(glob: string): string {
    if glob == "" then ""
    else if glob[0] == '\\' then
      if |glob| == 1 then "" else [glob[1]] + Unescape(glob[2..])
    else [glob[0]] + Unescape(glob[1..])
  }

  /** The two readings of every word agree: the text is the pattern with its escapes resolved. */
  lemma {:induction false} TextIsUnescapedGlob(s: string)
    ensures ScanWord(s).Ok? ==> Unescape(ScanWord(s).value.glob) == ScanWord(s).value.text
  {
    if s != "" && !IsDelimiter(s[0]) {
      if s[0] != '\\' {
        TextIsUnescapedGlob(s[1..]);
        if ScanWord(s[1..]).Ok? {
          var w := ScanWord(s[1..]).value;
          assert ([s[0]] + w.glob)[1..] == w.glob;
        }
      } else if |s| > 1 {
        TextIsUnescapedGlob(s[2..]);
        if ScanWord(s[2..]).Ok? {
          var w := ScanWord(s[2..]).value;
          if IsSpecial(s[1]) {
            assert ("\\" + [s[1]] + w.glob)[2..] == w.glob;
          } else {
            assert "" + [s[1]] + w.glob == [s[1]] + w.glob;
            assert ([s[1]] + w.glob)[1..] == w.glob;
          }
        }
      }
    }
  }

  /** A text with a backslash before each of its characters. */
  function EscapeAll(w: string): string {
    if w == "" then "" else ['\\', w[0]] + EscapeAll(w[1..])
  }

  /** The pattern that text is read as: only the wildcard characters and the backslash stay escaped. */
  function LiteralGlob(w: string): string {
    if w == "" then "" else (if IsSpecial(w[0]) then ['\\', w[0]] else [w[0]]) + LiteralGlob(w[1..])
  }

  lemma {:induction false} ScanEscaped(w: string)
    ensures ScanWord(EscapeAll(w)) == Ok(Scanned(w, LiteralGlob(w), |EscapeAll(w)|))
  {
    if w != "" {
      ScanEscaped(w[1..]);
      assert EscapeAll(w)[2..] == EscapeAll(w[1..]);
      assert [w[0]] + w[1..] == w;
      assert (if IsSpecial(w[0]) then "\\" else "") + [w[0]] == if IsSpecial(w[0]) then ['\\', w[0]] else [w[0]];
    }
  }

  /** A word of ordinary characters only. */
  predicate IsPlain(f: string) {
    f != "" && forall c :: c in f ==> !IsDelimiter(c) && c != '\\'
  }

  lemma {:induction false} ScanPlain(f: string, rest: string)
    requires forall c :: c in f ==> !IsDelimiter(c) && c != '\\'
    requires rest == "" || IsDelimiter(rest[0])
    ensures ScanWord(f + rest) == Ok(Scanned(f, f, |f|))
  {
    if f == "" {
      assert f + rest == rest;
    } else {
      assert (f + rest)[1..] == f[1..] + rest;
      ScanPlain(f[1..], rest);
      assert [f[0]] + f[1..] == f;
    }
  }
}
