/** What parsed words mean: escapes are literal, and skipping the regular expression changes nothing. */
module QueryMeaning {
  import opened Prelude
  import opened SearchIndex
  import opened Query
  import opened QueryLexer
  import opened QueryParser

  /** Lower-casing leaves the three special characters alone and turns nothing else into one. */
  ghost predicate KeepsSpecials(lc: char -> char) {
    forall c {:trigger lc(c)} :: (IsSpecial(c) ==> lc(c) == c) && (IsSpecial(lc(c)) ==> lc(c) == c)
  }

  // Words without wildcards

  /** A pattern without wildcards matches one value: itself with its escapes resolved. */
  lemma {:induction false} NoWildcardMatchesItself(glob: string, v: string)
    requires !HasWildcard(glob)
    ensures GlobMatches(glob, v) <==> v == Unescape(glob)
    decreases |glob|
  {
    if glob != "" {
      if glob[0] == '\\' {
        if |glob| > 1 {
          if v != "" {
            NoWildcardMatchesItself(glob[2..], v[1..]);
            assert v == [v[0]] + v[1..];
          }
        }
      } else if v != "" {
        NoWildcardMatchesItself(glob[1..], v[1..]);
        assert v == [v[0]] + v[1..];
      }
    }
  }

  lemma {:induction false} LowerUnescape(lc: char -> char, glob: string)
    requires KeepsSpecials(lc)
    ensures Lower(lc, Unescape(glob)) == Unescape(Lower(lc, glob))
  {
    if glob != "" {
      var lowered := Lower(lc, glob);
      assert lowered[0] == lc(glob[0]) && (lowered[0] == '\\' <==> glob[0] == '\\');
      if glob[0] == '\\' {
        if |glob| > 1 {
          LowerUnescape(lc, glob[2..]);
          assert lowered[2..] == Lower(lc, glob[2..]);
          LowerCons(lc, glob[1], Unescape(glob[2..]));
        }
      } else {
        LowerUnescape(lc, glob[1..]);
        assert lowered[1..] == Lower(lc, glob[1..]);
        LowerCons(lc, glob[0], Unescape(glob[1..]));
      }
    }
  }

  lemma LowerCons(lc: char -> char, c: char, s: string)
    ensures Lower(lc, [c] + s) == [lc(c)] + Lower(lc, s)
  {
  }

  /** For every word, the leaf matches a value exactly when the word's own pattern does: comparing with the literal
      value instead, when the pattern has nothing to expand, is only faster. */
  lemma LiteralTermIsItsPattern(lc: char -> char, field: string, s: string, v: string)
    requires KeepsSpecials(lc) && ScanWord(s).Ok?
    requires BuildTerm(lc, field, ScanWord(s).value.text, ScanWord(s).value.glob, false).TermQ?
    ensures var w := ScanWord(s).value;
            MatchVal(BuildTerm(lc, field, w.text, w.glob, false), v) <==> GlobMatches(Lower(lc, w.glob), v)
  {
    var w := ScanWord(s).value;
    if !HasWildcard(Lower(lc, w.glob)) {
      TextIsUnescapedGlob(s);
      LowerUnescape(lc, w.glob);
      NoWildcardMatchesItself(Lower(lc, w.glob), v);
    }
  }

  // Escaped words

  lemma {:induction false} LiteralGlobHasNoWildcard(w: string)
    ensures !HasWildcard(LiteralGlob(w)) && LiteralGlob(w) != "*"
  {
    if w != "" {
      LiteralGlobHasNoWildcard(w[1..]);
      var glob, rest := LiteralGlob(w), LiteralGlob(w[1..]);
      if IsSpecial(w[0]) {
        assert glob[0] == '\\' && glob[2..] == rest;
      } else {
        assert glob[0] == w[0] && glob[1..] == rest;
      }
    }
  }

  function Quoted(c: char): string {
    if IsSpecial(c) then ['\\', c] else [c]
  }

  lemma LowerQuoted(lc: char -> char, c: char)
    requires KeepsSpecials(lc)
    ensures Lower(lc, Quoted(c)) == Quoted(lc(c))
  {
    assert IsSpecial('\\');
    assert lc('\\') == '\\';
  }

  lemma LowerConcat(lc: char -> char, a: string, b: string)
    ensures Lower(lc, a + b) == Lower(lc, a) + Lower(lc, b)
  {
  }

  lemma LiteralGlobCons(c: char, w: string)
    ensures LiteralGlob([c] + w) == Quoted(c) + LiteralGlob(w)
  {
    assert ([c] + w)[1..] == w;
  }

  lemma {:induction false} LowerLiteralGlob(lc: char -> char, w: string)
    requires KeepsSpecials(lc)
    ensures Lower(lc, LiteralGlob(w)) == LiteralGlob(Lower(lc, w))
  {
    if w != "" {
      var c, rest := w[0], w[1..];
      LowerLiteralGlob(lc, rest);
      assert w == [c] + rest;
      LiteralGlobCons(c, rest);
      LowerConcat(lc, Quoted(c), LiteralGlob(rest));
      LowerQuoted(lc, c);
      LowerCons(lc, c, rest);
      LiteralGlobCons(lc(c), Lower(lc, rest));
    }
  }

  /** A word the lexer reads as it stands: not a keyword, and not negated. */
  predicate IsFieldName(f: string) {
    IsPlain(f) && f != "AND" && f != "OR" && f != "NOT" && (f[0] != '-' || |f| == 1)
  }

  /** A token at the front of the input is the first of its tokens. */
  lemma FirstToken(lc: char -> char, s: string, t: Token, rest: string, toks: seq<Token>)
    requires s != "" && |rest| < |s| && LexOne(lc, s) == Ok(Lexed([t], |s| - |rest|))
    requires s[|s| - |rest|..] == rest && Tokens(lc, rest) == Ok(toks)
    ensures Tokens(lc, s) == Ok([t] + toks)
  {
    var l := Lexed([t], |s| - |rest|);
    TokensStep(lc, s, l);
    assert s[l.n..] == rest;
    assert Prepend(l.toks, Ok(toks)) == Ok([t] + toks);
  }

  lemma TokensOfEscaped(lc: char -> char, w: string)
    requires w != ""
    ensures Tokens(lc, EscapeAll(w)) == Ok([Word(w, LiteralGlob(w), false), EOF])
  {
    var s := EscapeAll(w);
    ScanEscaped(w);
    assert s[0] == '\\' && s[..|s|] == s && s[|s|..] == "";
    assert LexOne(lc, s) == Ok(Lexed([Word(w, LiteralGlob(w), false)], |s|));
    FirstToken(lc, s, Word(w, LiteralGlob(w), false), "", [EOF]);
    assert [Word(w, LiteralGlob(w), false)] + [EOF] == [Word(w, LiteralGlob(w), false), EOF];
  }

  lemma LexFieldName(lc: char -> char, f: string, rest: string)
    requires IsFieldName(f) && rest != "" && IsDelimiter(rest[0])
    ensures LexOne(lc, f + rest) == Ok(Lexed([Word(f, f, false)], |f|))
  {
    var s := f + rest;
    ScanPlain(f, rest);
    assert s[0] == f[0] && s[..|f|] == f;
    assert !IsDelimiter(s[0]);
  }

  lemma TokensOfColon(lc: char -> char, rest: string, toks: seq<Token>)
    requires Tokens(lc, rest) == Ok(toks)
    ensures Tokens(lc, ":" + rest) == Ok([Colon] + toks)
  {
    var s := ":" + rest;
    assert s[1..] == rest;
    FirstToken(lc, s, Colon, rest, toks);
  }

  lemma TokensOfField(lc: char -> char, f: string, rest: string, toks: seq<Token>)
    requires IsFieldName(f) && rest != "" && IsDelimiter(rest[0]) && Tokens(lc, rest) == Ok(toks)
    ensures Tokens(lc, f + rest) == Ok([Word(f, f, false)] + toks)
  {
    var s := f + rest;
    assert s[|f|..] == rest;
    LexFieldName(lc, f, rest);
    FirstToken(lc, s, Word(f, f, false), rest, toks);
  }

  lemma TokensOfEscapedClause(lc: char -> char, f: string, w: string)
    requires IsFieldName(f) && w != ""
    ensures Tokens(lc, f + ":" + EscapeAll(w)) ==
            Ok([Word(f, f, false), Colon, Word(w, LiteralGlob(w), false), EOF])
  {
    var word := Word(w, LiteralGlob(w), false);
    TokensOfEscaped(lc, w);
    TokensOfColon(lc, EscapeAll(w), [word, EOF]);
    TokensOfField(lc, f, ":" + EscapeAll(w), [Colon] + [word, EOF]);
    assert f + (":" + EscapeAll(w)) == f + ":" + EscapeAll(w);
    assert [Word(f, f, false)] + ([Colon] + [word, EOF]) == [Word(f, f, false), Colon, word, EOF];
  }

  /** The tree of `field:value` on its own is the leaf of the value. */
  lemma ClauseAlone(lc: char -> char, f: string, v: Token)
    requires TokenOk(v) && v.Word? && f != ""
    ensures OrExpr(lc, [Word(f, f, false), Colon, v, EOF], 0) ==
            Ok(Parsed(BuildTerm(lc, f, v.text, v.glob, false), 3))
  {
    var toks := [Word(f, f, false), Colon, v, EOF];
    assert TokensOk(toks);
    assert Clause(lc, toks, 0) == Ok(Parsed(BuildTerm(lc, f, v.text, v.glob, false), 3));
    assert Unary(lc, toks, 0) == Clause(lc, toks, 0);
    assert AndExpr(lc, toks, 0) == Clause(lc, toks, 0);
  }

  lemma EscapedTerm(lc: char -> char, f: string, w: string)
    requires KeepsSpecials(lc) && IsFieldName(f) && w != ""
    ensures BuildTerm(lc, f, w, LiteralGlob(w), false) == TermQ(Lower(lc, f), Lower(lc, w), false, None)
  {
    LowerLiteralGlob(lc, w);
    LiteralGlobHasNoWildcard(w);
    LiteralGlobHasNoWildcard(Lower(lc, w));
  }

  lemma EscapedClause(lc: char -> char, f: string, w: string)
    requires KeepsSpecials(lc) && IsFieldName(f) && w != ""
    ensures ParseSpec(lc, f + ":" + EscapeAll(w)) == Ok(TermQ(Lower(lc, f), Lower(lc, w), false, None))
  {
    TokensOfEscapedClause(lc, f, w);
    ClauseAlone(lc, f, Word(w, LiteralGlob(w), false));
    EscapedTerm(lc, f, w);
  }

  /** Escapes are literal: for a plain field name and any non-empty text, `field:` followed by the text with every
      character escaped selects exactly the documents that carry the lower-cased text under the lower-cased field. */
  lemma EscapesAreLiteral(lc: char -> char, num: string -> Option<Float>, f: string, w: string, doc: Fields)
    requires KeepsSpecials(lc) && IsFieldName(f) && w != ""
    ensures var q := ParseSpec(lc, f + ":" + EscapeAll(w));
            q.Ok? && (Matches(num, q.value, doc) <==> Lower(lc, w) in ValuesAt(doc, Lower(lc, f)))
  {
    EscapedClause(lc, f, w);
  }
}
