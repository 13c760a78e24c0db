/** What ranges, wildcards and the shortest clauses select (internal/search/query.go:66-226 and 450-480). */
module QueryLaws {
  import opened Prelude
  import opened StringOrder
  import opened SearchIndex
  import opened Query
  import opened QueryLexer
  import opened QueryParser
  import opened QueryMeaning
  import QueryGrammar

  // Ranges

  /** A range open at both ends is existence. */
  lemma OpenRangeIsExistence(num: string -> Option<Float>, field: string, incLo: bool, incHi: bool, doc: Fields)
    ensures Matches(num, RangeQ(field, "*", "*", incLo, incHi), doc) <==> ValuesAt(doc, field) != []
  {
    var q := RangeQ(field, "*", "*", incLo, incHi);
    if ValuesAt(doc, field) != [] {
      assert ValuesAt(doc, field)[0] in ValuesAt(doc, field) && InRange(num, q, ValuesAt(doc, field)[0]);
    }
  }

  predicate IsFinite(num: string -> Option<Float>, s: string) {
    num(s).Some? && num(s).value.Finite?
  }

  /** Among numbers a range is the interval its brackets say. */
  lemma NumericRange(num: string -> Option<Float>, field: string, lo: string, hi: string, incLo: bool, incHi: bool, v: string)
    requires IsFinite(num, lo) && IsFinite(num, hi) && IsFinite(num, v) && lo != "*" && hi != "*"
    ensures var a, x, b := num(lo).value.r, num(v).value.r, num(hi).value.r;
            InRange(num, RangeQ(field, lo, hi, incLo, incHi), v) <==>
            (if incLo then a <= x else a < x) && (if incHi then x <= b else x < b)
  {
  }

  /** A value that is no number is compared as text, byte by byte. */
  lemma TextRange(num: string -> Option<Float>, field: string, lo: string, hi: string, incLo: bool, incHi: bool, v: string)
    requires num(v).None? && lo != "*" && hi != "*"
    ensures InRange(num, RangeQ(field, lo, hi, incLo, incHi), v) <==>
            (Less(lo, v) || (incLo && v == lo)) && (Less(v, hi) || (incHi && v == hi))
  {
    LessIsTotal(v, lo);
    LessIsTotal(hi, v);
    LessIsTotal(v, hi);
  }

  /** A value at one of the bounds. */
  predicate AtBound(num: string -> Option<Float>, lo: string, hi: string, v: string) {
    if num(v).Some? && (lo == "*" || num(lo).Some?) && (hi == "*" || num(hi).Some?) then
      (lo != "*" && FloatEqual(num(v).value, num(lo).value)) || (hi != "*" && FloatEqual(num(v).value, num(hi).value))
    else (lo != "*" && v == lo) || (hi != "*" && v == hi)
  }

  /** The exclusive range is the inclusive one without the values at its bounds. */
  lemma ExclusiveRange(num: string -> Option<Float>, field: string, lo: string, hi: string, v: string)
    ensures InRange(num, RangeQ(field, lo, hi, false, false), v) <==>
            InRange(num, RangeQ(field, lo, hi, true, true), v) && !AtBound(num, lo, hi, v)
  {
  }

  /** A range of numbers splits at any number between its bounds. */
  lemma RangeSplits(num: string -> Option<Float>, field: string, lo: string, mid: string, hi: string, v: string)
    requires IsFinite(num, lo) && IsFinite(num, mid) && IsFinite(num, hi) && IsFinite(num, v)
    requires lo != "*" && mid != "*" && hi != "*" && num(lo).value.r <= num(mid).value.r <= num(hi).value.r
    ensures InRange(num, RangeQ(field, lo, hi, true, true), v) <==>
            InRange(num, RangeQ(field, lo, mid, true, false), v) || InRange(num, RangeQ(field, mid, hi, true, true), v)
    ensures !(InRange(num, RangeQ(field, lo, mid, true, false), v) && InRange(num, RangeQ(field, mid, hi, true, true), v))
  {
  }

  // Wildcards

  predicate NoSpecials(s: string) {
    forall c :: c in s ==> !IsSpecial(c)
  }

  lemma {:induction false} PlainMatchesItself(u: string, s: string)
    requires NoSpecials(u)
    ensures GlobMatches(u, s) <==> s == u
  {
    if u != "" {
      assert u[0] in u;
      if s != "" {
        PlainMatchesItself(u[1..], s[1..]);
        assert s == [s[0]] + s[1..] && u == [u[0]] + u[1..];
      }
    }
  }

  /** Plain text at the front of a pattern is matched by itself. */
  lemma {:induction false} FrontMatches(u: string, rest: string, s: string)
    requires NoSpecials(u)
    ensures GlobMatches(u + rest, s) <==> u <= s && GlobMatches(rest, s[|u|..])
    decreases |u|
  {
    var glob := u + rest;
    if u == "" {
      assert glob == rest && s[0..] == s;
    } else {
      assert u[0] in u && glob[0] == u[0] && glob[1..] == u[1..] + rest;
      if s != "" {
        FrontMatches(u[1..], rest, s[1..]);
        assert s[0] == u[0] ==> (u <= s <==> u[1..] <= s[1..]);
        assert |u| <= |s| ==> s[1..][|u| - 1..] == s[|u|..];
      }
    }
  }

  /** `s` is a run without newlines followed by `v`. */
  predicate RunThen(v: string, s: string) {
    |v| <= |s| && s[|s| - |v|..] == v && '\n' !in s[..|s| - |v|]
  }

  lemma {:induction false} StarThen(v: string, s: string)
    requires NoSpecials(v)
    ensures GlobMatches("*" + v, s) <==> RunThen(v, s)
  {
    var glob := "*" + v;
    assert glob[1..] == v;
    PlainMatchesItself(v, s);
    if s == v {
      assert s[..0] == "" && s[0..] == v;
    }
    if s != "" {
      StarThen(v, s[1..]);
      if |s| > |v| {
        assert s[1..][|s| - 1 - |v|..] == s[|s| - |v|..];
        assert s[..|s| - |v|] == [s[0]] + s[1..][..|s| - 1 - |v|];
      }
    }
  }

  /** A pattern u*v matches exactly u, a run without newlines, then v. */
  lemma StarMatches(u: string, v: string, s: string)
    requires NoSpecials(u) && NoSpecials(v)
    ensures GlobMatches(u + "*" + v, s) <==> u <= s && RunThen(v, s[|u|..])
  {
    assert u + "*" + v == u + ("*" + v);
    FrontMatches(u, "*" + v, s);
    if u <= s {
      StarThen(v, s[|u|..]);
    }
  }

  /** A pattern u?v matches exactly u, one character other than a newline, then v. */
  lemma QuestionMatches(u: string, v: string, s: string)
    requires NoSpecials(u) && NoSpecials(v)
    ensures GlobMatches(u + "?" + v, s) <==> u <= s && |s| > |u| && s[|u|] != '\n' && s[|u| + 1..] == v
  {
    var glob := "?" + v;
    assert u + "?" + v == u + glob && glob[1..] == v;
    FrontMatches(u, glob, s);
    if u <= s && |s| > |u| {
      PlainMatchesItself(v, s[|u|..][1..]);
      assert s[|u|..][1..] == s[|u| + 1..];
    }
  }

  // Clauses

  lemma TokensOfStar(lc: char -> char)
    ensures Tokens(lc, "*") == Ok([Word("*", "*", false), EOF])
  {
    var s := "*";
    assert s[1..] == "" && s[..1] == s && s + "" == s;
    ScanPlain(s, "");
    FirstToken(lc, s, Word("*", "*", false), "", [EOF]);
    assert [Word("*", "*", false)] + [EOF] == [Word("*", "*", false), EOF];
  }

  /** The tokens of a field, a colon and a word. */
  lemma TokensOfClause(lc: char -> char, f: string, w: string, v: Token)
    requires IsFieldName(f) && Tokens(lc, w) == Ok([v, EOF])
    ensures Tokens(lc, f + ":" + w) == Ok([Word(f, f, false), Colon, v, EOF])
  {
    TokensOfColon(lc, w, [v, EOF]);
    TokensOfField(lc, f, ":" + w, [Colon] + [v, EOF]);
    assert f + (":" + w) == f + ":" + w;
    assert [Word(f, f, false)] + ([Colon] + [v, EOF]) == [Word(f, f, false), Colon, v, EOF];
  }

  lemma LowerStar(lc: char -> char, f: string)
    requires KeepsSpecials(lc)
    ensures Lower(lc, f) == "*" <==> f == "*"
  {
    assert IsSpecial('*') && lc('*') == '*';
    if Lower(lc, f) == "*" {
      assert |f| == 1 && Lower(lc, f)[0] == lc(f[0]);
    }
  }

  lemma StarClause(lc: char -> char, f: string)
    requires KeepsSpecials(lc) && IsFieldName(f)
    ensures ParseSpec(lc, f + ":*") == Ok(if f == "*" then MatchAll else ExistsQ(Lower(lc, f)))
  {
    TokensOfStar(lc);
    TokensOfClause(lc, f, "*", Word("*", "*", false));
    assert f + ":" + "*" == f + ":*";
    ClauseAlone(lc, f, Word("*", "*", false));
    LowerStar(lc, "*");
    LowerStar(lc, f);
  }

  /** `f:*` selects exactly the documents that have the field, and `*:*` every document. */
  lemma StarSelectsExistence(lc: char -> char, num: string -> Option<Float>, f: string, doc: Fields)
    requires KeepsSpecials(lc) && IsFieldName(f)
    ensures var q := ParseSpec(lc, f + ":*");
            q.Ok? && (Matches(num, q.value, doc) <==> f == "*" || ValuesAt(doc, Lower(lc, f)) != [])
  {
    StarClause(lc, f);
  }

  lemma LexNegated(lc: char -> char, f: string, g: string, rest: string)
    requires IsPlain(f) && g == "-" + f && rest != "" && IsDelimiter(rest[0])
    ensures LexOne(lc, g + rest) == Ok(Lexed([Word(g, g, true)], |g|))
  {
    var s := g + rest;
    ScanPlain(g, rest);
    assert s[0] == '-' && s[..|g|] == g && g[0] == '-';
  }

  lemma TokensOfNegated(lc: char -> char, f: string, w: string, v: Token)
    requires IsPlain(f) && Tokens(lc, w) == Ok([v, EOF])
    ensures Tokens(lc, "-" + f + ":" + w) == Ok([Word("-" + f, "-" + f, true), Colon, v, EOF])
  {
    var g, rest := "-" + f, ":" + w;
    var s, t := g + rest, Word(g, g, true);
    TokensOfColon(lc, w, [v, EOF]);
    LexNegated(lc, f, g, rest);
    assert s[|g|..] == rest;
    FirstToken(lc, s, t, rest, [Colon] + [v, EOF]);
    assert g + rest == "-" + f + ":" + w;
    assert [t] + ([Colon] + [v, EOF]) == [t, Colon, v, EOF];
  }

  lemma NegatedAlone(lc: char -> char, f: string, v: Token)
    requires TokenOk(v) && v.Word? && f != ""
    ensures OrExpr(lc, [Word("-" + f, "-" + f, true), Colon, v, EOF], 0) ==
            Ok(Parsed(Not(BuildTerm(lc, f, v.text, v.glob, false)), 3))
  {
    var toks := [Word("-" + f, "-" + f, true), Colon, v, EOF];
    assert ("-" + f)[1..] == f;
    assert TokensOk(toks);
    assert Clause(lc, toks, 0) == Ok(Parsed(Not(BuildTerm(lc, f, v.text, v.glob, false)), 3));
    assert Unary(lc, toks, 0) == Clause(lc, toks, 0);
    assert AndExpr(lc, toks, 0) == Clause(lc, toks, 0);
  }

  /** `-f:w` selects exactly the documents `f:w` does not, whatever the word. */
  lemma MinusIsComplement(lc: char -> char, num: string -> Option<Float>, f: string, w: string, v: Token, doc: Fields)
    requires IsFieldName(f) && Tokens(lc, w) == Ok([v, EOF]) && v.Word? && TokenOk(v)
    ensures var q, neg := ParseSpec(lc, f + ":" + w), ParseSpec(lc, "-" + f + ":" + w);
            q.Ok? && neg.Ok? && (Matches(num, neg.value, doc) <==> !Matches(num, q.value, doc))
  {
    TokensOfClause(lc, f, w, v);
    ClauseAlone(lc, f, v);
    TokensOfNegated(lc, f, w, v);
    NegatedAlone(lc, f, v);
  }

  lemma WordAlone(lc: char -> char, v: Token)
    requires TokenOk(v) && v.Word? && !v.negate
    ensures OrExpr(lc, [v, EOF], 0) == Ok(Parsed(BuildTerm(lc, "", v.text, v.glob, false), 1))
  {
    var toks := [v, EOF];
    assert TokensOk(toks);
    assert Clause(lc, toks, 0) == Ok(Parsed(BuildTerm(lc, "", v.text, v.glob, false), 1));
    assert Unary(lc, toks, 0) == Clause(lc, toks, 0);
    assert AndExpr(lc, toks, 0) == Clause(lc, toks, 0);
  }

  lemma BareWordParses(lc: char -> char, w: string)
    requires KeepsSpecials(lc) && w != ""
    ensures ParseSpec(lc, EscapeAll(w)) == Ok(TermQ("", Lower(lc, w), false, None))
  {
    TokensOfEscaped(lc, w);
    WordAlone(lc, Word(w, LiteralGlob(w), false));
    LowerLiteralGlob(lc, w);
    LiteralGlobHasNoWildcard(w);
    LiteralGlobHasNoWildcard(Lower(lc, w));
    assert Lower(lc, "") == "";
  }

  /** Escaped text on its own selects the documents that carry it under any field. */
  lemma BareWordIsAnyField(lc: char -> char, num: string -> Option<Float>, w: string, doc: Fields)
    requires KeepsSpecials(lc) && w != ""
    ensures var q := ParseSpec(lc, EscapeAll(w));
            q.Ok? && (Matches(num, q.value, doc) <==> exists field :: field in doc && Lower(lc, w) in doc[field])
  {
    BareWordParses(lc, w);
    var q, v := TermQ("", Lower(lc, w), false, None), Lower(lc, w);
    assert MatchVal(q, v);
    if field :| field in doc && v in doc[field] {
      assert Matches(num, q, doc);
    }
    if Matches(num, q, doc) {
      var field, u :| field in doc && u in doc[field] && MatchVal(q, u);
      assert u == v;
    }
  }

  /** A phrase is literal: whatever is in it but a lone star, it selects the documents that carry it under the field. */
  lemma PhraseIsLiteral(lc: char -> char, num: string -> Option<Float>, f: string, text: string, doc: Fields)
    requires KeepsSpecials(lc) && IsFieldName(f) && '\"' !in text && text != "*"
    ensures QueryGrammar.AtomOk(QueryGrammar.FieldQuoted(f, text))
    ensures Matches(num, QueryGrammar.AtomMeaning(lc, QueryGrammar.FieldQuoted(f, text)), doc) <==>
            Lower(lc, text) in ValuesAt(doc, Lower(lc, f))
  {
    FieldIsWord(f);
    LowerStar(lc, text);
    assert QueryGrammar.AtomMeaning(lc, QueryGrammar.FieldQuoted(f, text)) == BuildTerm(lc, f, text, text, true);
  }

  lemma FieldIsWord(f: string)
    requires IsFieldName(f)
    ensures QueryGrammar.IsWord(f) && QueryGrammar.WordTok(f) == Word(f, f, false)
  {
    ScanPlain(f, "");
    assert f + "" == f && f[0] in f;
  }

  /** AND, written or left out, selects what both sides do, OR what either does, and NOT what its side does not; with
      the round trip of the grammar, of every query text. */
  lemma ConnectivesSelect(lc: char -> char, num: string -> Option<Float>, l: QueryGrammar.Expr, r: QueryGrammar.Expr,
                          spelled: bool, doc: Fields)
    requires QueryGrammar.ExprOk(l) && QueryGrammar.ExprOk(r)
    ensures Selects(lc, num, QueryGrammar.AndE(l, r, spelled), doc) <==> Selects(lc, num, l, doc) && Selects(lc, num, r, doc)
    ensures Selects(lc, num, QueryGrammar.OrE(l, r), doc) <==> Selects(lc, num, l, doc) || Selects(lc, num, r, doc)
    ensures Selects(lc, num, QueryGrammar.NotE(l), doc) <==> !Selects(lc, num, l, doc)
  {
    SelectsMeaning(lc, num, l, doc);
    SelectsMeaning(lc, num, r, doc);
    SelectsMeaning(lc, num, QueryGrammar.AndE(l, r, spelled), doc);
    SelectsMeaning(lc, num, QueryGrammar.OrE(l, r), doc);
    SelectsMeaning(lc, num, QueryGrammar.NotE(l), doc);
  }

  lemma SelectsMeaning(lc: char -> char, num: string -> Option<Float>, e: QueryGrammar.Expr, doc: Fields)
    requires QueryGrammar.ExprOk(e)
    ensures Selects(lc, num, e, doc) <==> Matches(num, QueryGrammar.Meaning(lc, e), doc)
  {
    QueryGrammar.ParsesBack(lc, e);
  }

  /** Whether the text of an expression parses and matches a document. */
  predicate Selects(lc: char -> char, num: string -> Option<Float>, e: QueryGrammar.Expr, doc: Fields)
    requires QueryGrammar.ExprOk(e)
  {
    var q := ParseSpec(lc, QueryGrammar.Text(QueryGrammar.Pieces(lc, e, 0)));
    q.Ok? && Matches(num, q.value, doc)
  }
}
