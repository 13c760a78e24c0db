/** Which tree a query text stands for, independently of how it is parsed: expressions written out with parentheses only
    where the precedence NOT over AND over OR and association to the left demand them, and a conjunction spelled or left
    implicit, parse back to the tree they were written from (internal/search/query.go:228-480). */
module QueryGrammar {
  import opened Prelude
  import opened Query
  import opened QueryLexer
  import opened QueryParser

  // Expressions

  /** A word as typed, a phrase, or a field with a word, a phrase or a range. */
  datatype Atom =
    | Bare(word: string)
    | Quoted(text: string)
    | FieldWord(field: string, word: string)
    | FieldQuoted(field: string, text: string)
    | FieldRange(field: string, inclusive: bool, lo: string, hi: string)

  datatype Expr =
    | Leaf(atom: Atom)
    | NotE(e: Expr)
    | AndE(l: Expr, r: Expr, spelled: bool)
    | OrE(l: Expr, r: Expr)

  /** A word the lexer reads whole, and that is no keyword. */
  predicate IsWord(raw: string) {
    && raw != "" && !IsDelimiter(raw[0]) && ScanWord(raw).Ok? && ScanWord(raw).value.n == |raw|
    && raw != "AND" && raw != "OR" && raw != "NOT"
  }

  function WordTok(raw: string): (t: Token)
    requires IsWord(raw)
    ensures t.Word? && TokenOk(t)
  {
    WordToken(raw, ScanWord(raw).value)
  }

  predicate AtomOk(a: Atom) {
    match a
    case Bare(word) => IsWord(word)
    case Quoted(text) => '\"' !in text
    case FieldWord(field, word) => IsWord(field) && IsWord(word)
    case FieldQuoted(field, text) => IsWord(field) && '\"' !in text
    case FieldRange(field, inclusive, lo, hi) =>
      IsWord(field) && (if inclusive then ']' else '}') !in lo + " TO " + hi && Cut(lo + " TO " + hi, " TO ") == Some((lo, hi))
  }

  predicate ExprOk(e: Expr) {
    match e
    case Leaf(a) => AtomOk(a)
    case NotE(x) => ExprOk(x)
    case AndE(l, r, _) => ExprOk(l) && ExprOk(r)
    case OrE(l, r) => ExprOk(l) && ExprOk(r)
  }

  // What they mean

  function Negated(t: Token, q: Query): Query
    requires t.Word?
  {
    if t.negate then Not(q) else q
  }

  /** The name of a field, without the '-' that negates its clause. */
  function FieldName(t: Token): string
    requires t.Word? && TokenOk(t)
  {
    if t.negate then t.text[1..] else t.text
  }

  function AtomMeaning(lc: char -> char, a: Atom): (q: Query)
    requires AtomOk(a)
    ensures NoBareExists(q)
  {
    match a
    case Bare(word) =>
      var t := WordTok(word);
      Negated(t, BuildTerm(lc, "", FieldName(t), if t.negate then t.glob[1..] else t.glob, false))
    case Quoted(text) => BuildTerm(lc, "", text, text, true)
    case FieldWord(field, word) =>
      var (f, t) := (WordTok(field), WordTok(word));
      Negated(f, BuildTerm(lc, FieldName(f), t.text, t.glob, false))
    case FieldQuoted(field, text) => Negated(WordTok(field), BuildTerm(lc, FieldName(WordTok(field)), text, text, true))
    case FieldRange(field, inclusive, lo, hi) =>
      Negated(WordTok(field), RangeQ(Lower(lc, FieldName(WordTok(field))), Lower(lc, TrimSpace(lo)), Lower(lc, TrimSpace(hi)),
                                     inclusive, inclusive))
  }

  function Meaning(lc: char -> char, e: Expr): (q: Query)
    requires ExprOk(e)
    ensures NoBareExists(q)
  {
    match e
    case Leaf(a) => AtomMeaning(lc, a)
    case NotE(x) => Not(Meaning(lc, x))
    case AndE(l, r, _) => And(Meaning(lc, l), Meaning(lc, r))
    case OrE(l, r) => Or(Meaning(lc, l), Meaning(lc, r))
  }

  // How they are written

  /** A token and a text it is read from. */
  datatype Piece = Piece(tok: Token, text: string)

  function RangeText(inclusive: bool, lo: string, hi: string): string {
    (if inclusive then "[" else "{") + (lo + " TO " + hi) + (if inclusive then "]" else "}")
  }

  function RangeTok(lc: char -> char, inclusive: bool, lo: string, hi: string): Token {
    Range(Lower(lc, TrimSpace(lo)), Lower(lc, TrimSpace(hi)), inclusive, inclusive)
  }

  const COLON := Piece(Colon, ":")
  const OPEN := Piece(LParen, "(")
  const CLOSE := Piece(RParen, ")")

  function PhrasePiece(text: string): Piece {
    Piece(Phrase(text), "\"" + text + "\"")
  }

  function AtomPieces(lc: char -> char, a: Atom): (ps: seq<Piece>)
    requires AtomOk(a)
    ensures ps != [] && StartsClause(ps[0].tok)
  {
    match a
    case Bare(word) => [Piece(WordTok(word), word)]
    case Quoted(text) => [PhrasePiece(text)]
    case FieldWord(field, word) => [Piece(WordTok(field), field), COLON, Piece(WordTok(word), word)]
    case FieldQuoted(field, text) => [Piece(WordTok(field), field), COLON, PhrasePiece(text)]
    case FieldRange(field, inclusive, lo, hi) =>
      [Piece(WordTok(field), field), COLON, Piece(RangeTok(lc, inclusive, lo, hi), RangeText(inclusive, lo, hi))]
  }

  /** 0 for OR, 1 for AND, 2 for what binds tighter. */
  function Binding(e: Expr): (b: nat)
    ensures b <= 2
  {
    if e.OrE? then 0 else if e.AndE? then 1 else 2
  }

  /** The expression where something that binds at least as tightly as `level` is expected. */
  function Pieces(lc: char -> char, e: Expr, level: nat): (ps: seq<Piece>)
    requires ExprOk(e)
    ensures ps != [] && StartsClause(ps[0].tok)
    decreases e, 1
  {
    if Binding(e) < level then [OPEN] + Inside(lc, e) + [CLOSE] else Inside(lc, e)
  }

  function Inside(lc: char -> char, e: Expr): (ps: seq<Piece>)
    requires ExprOk(e)
    ensures ps != [] && StartsClause(ps[0].tok)
    decreases e, 0
  {
    match e
    case Leaf(a) => AtomPieces(lc, a)
    case NotE(x) => [Piece(NotTok, "NOT")] + Pieces(lc, x, 2)
    case AndE(l, r, spelled) =>
      Pieces(lc, l, 1) + ((if spelled then [Piece(AndTok, "AND")] else []) + Pieces(lc, r, 2))
    case OrE(l, r) => Pieces(lc, l, 0) + ([Piece(OrTok, "OR")] + Pieces(lc, r, 1))
  }

  function ToksOf(ps: seq<Piece>): (toks: seq<Token>)
    ensures |toks| == |ps| && forall i :: 0 <= i < |ps| ==> toks[i] == ps[i].tok
  {
    seq(|ps|, i requires 0 <= i < |ps| => ps[i].tok)
  }

  /** The pieces, each followed by a space. */
  function Text(ps: seq<Piece>): string {
    if ps == [] then "" else ps[0].text + " " + Text(ps[1..])
  }

  // The tokens parse back

  /** The tokens of the pieces stand at a position, with something after them that is no colon. */
  predicate Here(toks: seq<Token>, pos: nat, ps: seq<Piece>) {
    && pos + |ps| < |toks|
    && (forall i :: 0 <= i < |ps| ==> toks[pos + i] == ps[i].tok)
    && !toks[pos + |ps|].Colon?
  }

  lemma HereSplit(toks: seq<Token>, pos: nat, a: seq<Piece>, b: seq<Piece>)
    requires Here(toks, pos, a + b) && (b != [] ==> !b[0].tok.Colon?)
    ensures Here(toks, pos, a) && Here(toks, pos + |a|, b)
    ensures b != [] ==> toks[pos + |a|] == b[0].tok
  {
    assert forall i :: 0 <= i < |a| ==> (a + b)[i] == a[i];
    assert forall i :: 0 <= i < |b| ==> (a + b)[|a| + i] == b[i] && toks[pos + (|a| + i)] == (a + b)[|a| + i].tok;
    if b != [] {
      assert toks[pos + |a| + 0] == b[0].tok;
    }
  }

  lemma {:induction false} BareParses(lc: char -> char, toks: seq<Token>, pos: nat, t: Token)
    requires TokensOk(toks) && pos + 1 < |toks| && toks[pos] == t && t.Word? && TokenOk(t) && !toks[pos + 1].Colon?
    ensures Unary(lc, toks, pos) ==
            Ok(Parsed(Negated(t, BuildTerm(lc, "", FieldName(t), if t.negate then t.glob[1..] else t.glob, false)), pos + 1))
  {
  }

  lemma {:induction false} FieldParses(lc: char -> char, toks: seq<Token>, pos: nat, f: Token, v: Token)
    requires TokensOk(toks) && pos + 3 < |toks| && toks[pos] == f && f.Word? && TokenOk(f)
    requires toks[pos + 1].Colon? && toks[pos + 2] == v && Value(lc, FieldName(f), v).Ok?
    ensures Unary(lc, toks, pos) == Ok(Parsed(Negated(f, Value(lc, FieldName(f), v).value), pos + 3))
  {
  }

  lemma {:induction false} AtomParses(lc: char -> char, toks: seq<Token>, pos: nat, a: Atom)
    requires TokensOk(toks) && AtomOk(a) && Here(toks, pos, AtomPieces(lc, a))
    ensures Unary(lc, toks, pos) == Ok(Parsed(AtomMeaning(lc, a), pos + |AtomPieces(lc, a)|))
  {
    var ps := AtomPieces(lc, a);
    assert toks[pos + 0] == ps[0].tok;
    if a.Bare? {
      BareParses(lc, toks, pos, WordTok(a.word));
    } else if !a.Quoted? {
      assert toks[pos + 1] == ps[1].tok && toks[pos + 2] == ps[2].tok;
      FieldParses(lc, toks, pos, WordTok(a.field), ps[2].tok);
    }
  }

  predicate ClosesAnd(t: Token) {
    !t.AndTok? && !StartsClause(t)
  }

  lemma {:induction false} NotStep(lc: char -> char, toks: seq<Token>, pos: nat, q: Query, end: nat)
    requires TokensOk(toks) && pos + 1 < |toks| && toks[pos].NotTok?
    requires Unary(lc, toks, pos + 1) == Ok(Parsed(q, end))
    ensures Unary(lc, toks, pos) == Ok(Parsed(Not(q), end))
  {
  }

  lemma {:induction false} ParenStep(lc: char -> char, toks: seq<Token>, pos: nat, q: Query, end: nat)
    requires TokensOk(toks) && pos + 1 < |toks| && toks[pos].LParen? && end + 1 < |toks| && toks[end].RParen?
    requires NoBareExists(q) && OrExpr(lc, toks, pos + 1) == OrRest(lc, toks, Parsed(q, end))
    ensures Unary(lc, toks, pos) == Ok(Parsed(q, end + 1))
  {
  }

  lemma {:induction false} AndStep(lc: char -> char, toks: seq<Token>, left: Parsed, right: Parsed, start: nat)
    requires TokensOk(toks) && left.pos < |toks| && right.pos < |toks| && NoBareExists(left.q) && NoBareExists(right.q)
    requires (toks[left.pos].AndTok? && start == left.pos + 1 < |toks|) || (StartsClause(toks[left.pos]) && start == left.pos)
    requires Unary(lc, toks, start) == Ok(right)
    ensures AndRest(lc, toks, left) == AndRest(lc, toks, Parsed(And(left.q, right.q), right.pos))
  {
  }

  lemma {:induction false} AndEnd(lc: char -> char, toks: seq<Token>, left: Parsed)
    requires TokensOk(toks) && left.pos < |toks| && NoBareExists(left.q) && ClosesAnd(toks[left.pos])
    ensures AndRest(lc, toks, left) == Ok(left)
  {
  }

  lemma {:induction false} OrStep(lc: char -> char, toks: seq<Token>, left: Parsed, right: Parsed)
    requires TokensOk(toks) && left.pos + 1 < |toks| && right.pos < |toks| && NoBareExists(left.q) && NoBareExists(right.q)
    requires toks[left.pos].OrTok? && AndExpr(lc, toks, left.pos + 1) == Ok(right)
    ensures OrRest(lc, toks, left) == OrRest(lc, toks, Parsed(Or(left.q, right.q), right.pos))
  {
  }

  lemma {:induction false} OrStart(lc: char -> char, toks: seq<Token>, pos: nat, p: Parsed)
    requires TokensOk(toks) && pos < |toks| && p.pos < |toks| && NoBareExists(p.q) && AndExpr(lc, toks, pos) == Ok(p)
    ensures OrExpr(lc, toks, pos) == OrRest(lc, toks, p)
  {
  }

  lemma {:induction false} AndStart(lc: char -> char, toks: seq<Token>, pos: nat, p: Parsed)
    requires TokensOk(toks) && pos < |toks| && p.pos < |toks| && NoBareExists(p.q) && Unary(lc, toks, pos) == Ok(p)
    ensures AndExpr(lc, toks, pos) == AndRest(lc, toks, p)
  {
  }

  lemma {:induction false} OrJoin(lc: char -> char, toks: seq<Token>, pos: nat, l: Parsed, start: nat, r: Parsed, p: Parsed)
    requires TokensOk(toks) && pos < |toks| && start == l.pos + 1 < |toks| && r.pos < |toks|
    requires NoBareExists(l.q) && NoBareExists(r.q) && toks[l.pos].OrTok? && ClosesAnd(toks[r.pos])
    requires OrExpr(lc, toks, pos) == OrRest(lc, toks, l) && AndExpr(lc, toks, start) == AndRest(lc, toks, r)
    requires p == Parsed(Or(l.q, r.q), r.pos)
    ensures OrExpr(lc, toks, pos) == OrRest(lc, toks, p)
  {
    AndEnd(lc, toks, r);
    OrStep(lc, toks, l, r);
  }

  lemma {:induction false} OrAlone(lc: char -> char, toks: seq<Token>, pos: nat, p: Parsed)
    requires TokensOk(toks) && pos < |toks| && p.pos < |toks| && NoBareExists(p.q) && ClosesAnd(toks[p.pos])
    requires AndExpr(lc, toks, pos) == AndRest(lc, toks, p)
    ensures OrExpr(lc, toks, pos) == OrRest(lc, toks, p)
  {
    AndEnd(lc, toks, p);
    OrStart(lc, toks, pos, p);
  }

  /** The right operand of a conjunction starts after the sign, or where the left one ends if the sign is left out. */
  predicate OperandStarts(toks: seq<Token>, middle: nat, start: nat) {
    && middle < |toks| && start < |toks|
    && start == (if toks[middle].AndTok? then middle + 1 else middle)
    && (toks[middle].AndTok? || StartsClause(toks[middle]))
  }

  lemma {:induction false} AndJoin(lc: char -> char, toks: seq<Token>, pos: nat, l: Parsed, start: nat, r: Parsed, p: Parsed)
    requires TokensOk(toks) && pos < |toks| && l.pos < |toks| && r.pos < |toks| && NoBareExists(l.q) && NoBareExists(r.q)
    requires OperandStarts(toks, l.pos, start)
    requires AndExpr(lc, toks, pos) == AndRest(lc, toks, l) && Unary(lc, toks, start) == Ok(r)
    requires p == Parsed(And(l.q, r.q), r.pos)
    ensures AndExpr(lc, toks, pos) == AndRest(lc, toks, p)
  {
    AndStep(lc, toks, l, r, start);
  }

  // Where the parts of an expression stand

  predicate Spans(lc: char -> char, toks: seq<Token>, pos: nat, e: Expr, level: nat, end: nat)
    requires ExprOk(e)
  {
    Here(toks, pos, Pieces(lc, e, level)) && end == pos + |Pieces(lc, e, level)|
  }

  function Sign(e: Expr): seq<Piece> {
    if e.OrE? then [Piece(OrTok, "OR")] else if e.AndE? && e.spelled then [Piece(AndTok, "AND")] else []
  }

  lemma {:induction false} InfixPieces(lc: char -> char, e: Expr)
    requires ExprOk(e)
    ensures e.AndE? ==> Pieces(lc, e, 1) == Pieces(lc, e.l, 1) + (Sign(e) + Pieces(lc, e.r, 2))
    ensures e.OrE? ==> Pieces(lc, e, 0) == Pieces(lc, e.l, 0) + (Sign(e) + Pieces(lc, e.r, 1))
  {
  }

  lemma {:induction false} SameSpan(lc: char -> char, toks: seq<Token>, pos: nat, e: Expr, end: nat)
    requires ExprOk(e)
    ensures !e.OrE? ==> (Spans(lc, toks, pos, e, 0, end) <==> Spans(lc, toks, pos, e, 1, end))
    ensures !e.AndE? ==> (Spans(lc, toks, pos, e, 1, end) <==> Spans(lc, toks, pos, e, 2, end))
  {
  }

  /** Two operands around a sign, which may be left out. */
  lemma {:induction false} HereInfix(toks: seq<Token>, pos: nat, left: seq<Piece>, sign: seq<Piece>, right: seq<Piece>,
                                     whole: seq<Piece>) returns (middle: nat, start: nat)
    requires Here(toks, pos, whole) && whole == left + (sign + right) && right != [] && !right[0].tok.Colon?
    requires |sign| <= 1 && (sign != [] ==> !sign[0].tok.Colon?)
    ensures middle == pos + |left| && start == middle + |sign| < |toks| && start + |right| == pos + |whole|
    ensures Here(toks, pos, left) && Here(toks, start, right)
    ensures toks[middle] == if sign != [] then sign[0].tok else right[0].tok
  {
    HereSplit(toks, pos, left, sign + right);
    HereSplit(toks, pos + |left|, sign, right);
    middle, start := pos + |left|, pos + |left| + |sign|;
  }

  lemma {:induction false} AndPlaces(lc: char -> char, toks: seq<Token>, pos: nat, e: Expr, end: nat)
    returns (middle: nat, start: nat)
    requires ExprOk(e) && e.AndE? && Spans(lc, toks, pos, e, 1, end)
    ensures Spans(lc, toks, pos, e.l, 1, middle) && Spans(lc, toks, start, e.r, 2, end) && OperandStarts(toks, middle, start)
  {
    InfixPieces(lc, e);
    middle, start := HereInfix(toks, pos, Pieces(lc, e.l, 1), Sign(e), Pieces(lc, e.r, 2), Pieces(lc, e, 1));
  }

  lemma {:induction false} OrPlaces(lc: char -> char, toks: seq<Token>, pos: nat, e: Expr, end: nat)
    returns (middle: nat, start: nat)
    requires ExprOk(e) && e.OrE? && Spans(lc, toks, pos, e, 0, end)
    ensures Spans(lc, toks, pos, e.l, 0, middle) && Spans(lc, toks, start, e.r, 1, end)
    ensures start == middle + 1 < |toks| && toks[middle].OrTok?
  {
    InfixPieces(lc, e);
    middle, start := HereInfix(toks, pos, Pieces(lc, e.l, 0), Sign(e), Pieces(lc, e.r, 1), Pieces(lc, e, 0));
  }

  lemma {:induction false} NotPlaces(lc: char -> char, toks: seq<Token>, pos: nat, e: Expr, end: nat)
    requires ExprOk(e) && e.NotE? && Spans(lc, toks, pos, e, 2, end)
    ensures toks[pos].NotTok? && Spans(lc, toks, pos + 1, e.e, 2, end)
  {
    var more := Pieces(lc, e.e, 2);
    assert Pieces(lc, e, 2) == [Piece(NotTok, "NOT")] + more;
    HereSplit(toks, pos, [Piece(NotTok, "NOT")], more);
    assert toks[pos + 0] == NotTok;
  }

  lemma {:induction false} ParenPlaces(lc: char -> char, toks: seq<Token>, pos: nat, e: Expr, end: nat)
    requires ExprOk(e) && Binding(e) < 2 && Spans(lc, toks, pos, e, 2, end)
    ensures 0 < end < |toks| && toks[pos].LParen? && Spans(lc, toks, pos + 1, e, 0, end - 1) && toks[end - 1].RParen?
  {
    var inner := Inside(lc, e);
    assert Pieces(lc, e, 2) == [OPEN] + (inner + [CLOSE]) && Pieces(lc, e, 0) == inner;
    HereSplit(toks, pos, [OPEN], inner + [CLOSE]);
    HereSplit(toks, pos + 1, inner, [CLOSE]);
    assert toks[pos + 0] == LParen;
  }

  lemma {:induction false} LeafPlaces(lc: char -> char, toks: seq<Token>, pos: nat, e: Expr, end: nat)
    requires ExprOk(e) && e.Leaf? && Spans(lc, toks, pos, e, 2, end)
    ensures Here(toks, pos, AtomPieces(lc, e.atom)) && end == pos + |AtomPieces(lc, e.atom)|
  {
    assert Pieces(lc, e, 2) == AtomPieces(lc, e.atom);
  }

  // The induction

  lemma {:induction false} UnaryParses(lc: char -> char, toks: seq<Token>, pos: nat, e: Expr, end: nat)
    requires TokensOk(toks) && ExprOk(e) && Spans(lc, toks, pos, e, 2, end)
    ensures Unary(lc, toks, pos) == Ok(Parsed(Meaning(lc, e), end))
    decreases e, (Binding(e) + 1) % 3, 1
  {
    match e {
      case Leaf(a) =>
        LeafPlaces(lc, toks, pos, e, end);
        AtomParses(lc, toks, pos, a);
      case NotE(x) =>
        NotPlaces(lc, toks, pos, e, end);
        UnaryParses(lc, toks, pos + 1, x, end);
        NotStep(lc, toks, pos, Meaning(lc, x), end);
      case _ =>
        ParenParses(lc, toks, pos, e, end);
    }
  }

  lemma {:induction false} ParenParses(lc: char -> char, toks: seq<Token>, pos: nat, e: Expr, end: nat)
    requires TokensOk(toks) && ExprOk(e) && Binding(e) < 2 && Spans(lc, toks, pos, e, 2, end)
    ensures Unary(lc, toks, pos) == Ok(Parsed(Meaning(lc, e), end))
    decreases e, (Binding(e) + 1) % 3, 0
  {
    ParenPlaces(lc, toks, pos, e, end);
    OrParses(lc, toks, pos + 1, e, end - 1);
    ParenStep(lc, toks, pos, Meaning(lc, e), end - 1);
  }

  lemma {:induction false} AndParses(lc: char -> char, toks: seq<Token>, pos: nat, e: Expr, end: nat)
    requires TokensOk(toks) && ExprOk(e) && Spans(lc, toks, pos, e, 1, end)
    ensures AndExpr(lc, toks, pos) == AndRest(lc, toks, Parsed(Meaning(lc, e), end))
    decreases e, (Binding(e) + 2) % 3, 1
  {
    if e.AndE? {
      AndInfix(lc, toks, pos, e, end);
    } else {
      SameSpan(lc, toks, pos, e, end);
      UnaryParses(lc, toks, pos, e, end);
      AndStart(lc, toks, pos, Parsed(Meaning(lc, e), end));
    }
  }

  lemma {:induction false} AndInfix(lc: char -> char, toks: seq<Token>, pos: nat, e: Expr, end: nat)
    requires TokensOk(toks) && ExprOk(e) && e.AndE? && Spans(lc, toks, pos, e, 1, end)
    ensures AndExpr(lc, toks, pos) == AndRest(lc, toks, Parsed(Meaning(lc, e), end))
    decreases e, (Binding(e) + 2) % 3, 0
  {
    var middle, start := AndPlaces(lc, toks, pos, e, end);
    AndParses(lc, toks, pos, e.l, middle);
    UnaryParses(lc, toks, start, e.r, end);
    AndJoin(lc, toks, pos, Parsed(Meaning(lc, e.l), middle), start, Parsed(Meaning(lc, e.r), end), Parsed(Meaning(lc, e), end));
  }

  lemma {:induction false} OrParses(lc: char -> char, toks: seq<Token>, pos: nat, e: Expr, end: nat)
    requires TokensOk(toks) && ExprOk(e) && Spans(lc, toks, pos, e, 0, end) && ClosesAnd(toks[end])
    ensures OrExpr(lc, toks, pos) == OrRest(lc, toks, Parsed(Meaning(lc, e), end))
    decreases e, Binding(e), 1
  {
    if e.OrE? {
      OrInfix(lc, toks, pos, e, end);
    } else {
      SameSpan(lc, toks, pos, e, end);
      OrSingle(lc, toks, pos, e, end);
    }
  }

  lemma {:induction false} OrSingle(lc: char -> char, toks: seq<Token>, pos: nat, e: Expr, end: nat)
    requires TokensOk(toks) && ExprOk(e) && !e.OrE? && Spans(lc, toks, pos, e, 1, end) && ClosesAnd(toks[end])
    ensures OrExpr(lc, toks, pos) == OrRest(lc, toks, Parsed(Meaning(lc, e), end))
    decreases e, Binding(e), 0
  {
    AndParses(lc, toks, pos, e, end);
    OrAlone(lc, toks, pos, Parsed(Meaning(lc, e), end));
  }

  lemma {:induction false} OrInfix(lc: char -> char, toks: seq<Token>, pos: nat, e: Expr, end: nat)
    requires TokensOk(toks) && ExprOk(e) && e.OrE? && Spans(lc, toks, pos, e, 0, end) && ClosesAnd(toks[end])
    ensures OrExpr(lc, toks, pos) == OrRest(lc, toks, Parsed(Meaning(lc, e), end))
    decreases e, Binding(e), 0
  {
    var middle, start := OrPlaces(lc, toks, pos, e, end);
    OrParses(lc, toks, pos, e.l, middle);
    AndParses(lc, toks, start, e.r, end);
    OrJoin(lc, toks, pos, Parsed(Meaning(lc, e.l), middle), start, Parsed(Meaning(lc, e.r), end), Parsed(Meaning(lc, e), end));
  }

  // The text lexes back

  /** A piece is read from its text whatever follows the space after it. */
  ghost predicate Lexes(lc: char -> char, p: Piece) {
    p.text != "" && TokenOk(p.tok) && forall rest: string :: LexesBefore(lc, p, rest)
  }

  predicate LexesBefore(lc: char -> char, p: Piece, rest: string)
    requires p.text != ""
  {
    LexOne(lc, p.text + (" " + rest)) == Ok(Lexed([p.tok], |p.text|))
  }

  lemma {:induction false} SkipsBlank(lc: char -> char, rest: string)
    ensures Tokens(lc, " " + rest) == Tokens(lc, rest)
  {
    var s := " " + rest;
    assert s[1..] == rest;
    TokensStep(lc, s, Lexed([], 1));
    PrependNothing(Tokens(lc, rest));
  }

  lemma {:induction false} PieceLexes(lc: char -> char, p: Piece, rest: string, toks: seq<Token>)
    requires Lexes(lc, p) && Tokens(lc, rest) == Ok(toks)
    ensures Tokens(lc, p.text + " " + rest) == Ok([p.tok] + toks)
  {
    var s, after := p.text + (" " + rest), " " + rest;
    assert LexesBefore(lc, p, rest);
    assert s == p.text + " " + rest && s[|p.text|..] == after;
    TokensStep(lc, s, Lexed([p.tok], |p.text|));
    SkipsBlank(lc, rest);
  }

  lemma {:induction false} TextCons(p: Piece, ps: seq<Piece>)
    ensures Text([p] + ps) == p.text + " " + Text(ps) && ToksOf([p] + ps) + [EOF] == [p.tok] + (ToksOf(ps) + [EOF])
  {
    assert ([p] + ps)[1..] == ps;
  }

  lemma {:induction false} TextLexes(lc: char -> char, ps: seq<Piece>)
    requires LexAll(lc, ps)
    ensures Tokens(lc, Text(ps)) == Ok(ToksOf(ps) + [EOF])
  {
    if ps == [] {
      assert ToksOf(ps) + [EOF] == [EOF];
    } else {
      var p, rest := ps[0], ps[1..];
      assert ps == [p] + rest;
      TextLexes(lc, rest);
      PieceLexes(lc, p, Text(rest), ToksOf(rest) + [EOF]);
      TextCons(p, rest);
    }
  }

  /** A word read whole is read the same with a space and anything after it. */
  lemma {:induction false} ScanStops(raw: string, more: string)
    requires ScanWord(raw).Ok? && ScanWord(raw).value.n == |raw| && more != "" && IsDelimiter(more[0])
    ensures ScanWord(raw + more) == ScanWord(raw)
  {
    var s := raw + more;
    if raw == "" {
      assert s == more;
    } else {
      var skip := if raw[0] == '\\' then 2 else 1;
      assert s[0] == raw[0] && s[skip..] == raw[skip..] + more;
      assert skip == 2 ==> s[1] == raw[1];
      ScanStops(raw[skip..], more);
    }
  }

  lemma {:induction false} WordLexes(lc: char -> char, raw: string)
    requires IsWord(raw)
    ensures Lexes(lc, Piece(WordTok(raw), raw))
  {
    forall rest: string ensures LexesBefore(lc, Piece(WordTok(raw), raw), rest) {
      var s := raw + (" " + rest);
      ScanStops(raw, " " + rest);
      assert s[0] == raw[0] && s[..|raw|] == raw;
    }
  }

  /** A keyword, or any other word without delimiters and backslashes. */
  lemma {:induction false} KeywordLexes(lc: char -> char, word: string)
    requires word == "AND" || word == "OR" || word == "NOT"
    ensures Lexes(lc, Piece(WordToken(word, Scanned(word, word, |word|)), word))
  {
    forall rest: string ensures LexesBefore(lc, Piece(WordToken(word, Scanned(word, word, |word|)), word), rest) {
      var s := word + (" " + rest);
      ScanPlain(word, " " + rest);
      assert s[0] == word[0] && s[..|word|] == word;
    }
  }

  lemma {:induction false} PhraseLexes(lc: char -> char, text: string)
    requires '\"' !in text
    ensures Lexes(lc, PhrasePiece(text))
  {
    forall rest: string ensures LexesBefore(lc, PhrasePiece(text), rest) {
      var s := "\"" + text + "\"" + (" " + rest);
      assert s[0] == '\"' && s[1..] == text + ['\"'] + (" " + rest);
      IndexOfFirst(text, '\"', " " + rest);
      assert s[1..1 + |text|] == text;
    }
  }

  lemma {:induction false} MarkLexes(lc: char -> char, p: Piece)
    requires p == COLON || p == OPEN || p == CLOSE
    ensures Lexes(lc, p)
  {
    forall rest: string ensures LexesBefore(lc, p, rest) {
      assert (p.text + (" " + rest))[0] == p.text[0];
    }
  }

  /** A bracket, an inner text without the closing one, and the closing one. */
  lemma {:induction false} BracketLexes(lc: char -> char, inclusive: bool, inner: string, lo: string, hi: string, s: string, rest: string)
    requires s == [if inclusive then '[' else '{'] + (inner + [if inclusive then ']' else '}'] + rest)
    requires (if inclusive then ']' else '}') !in inner && Cut(inner, " TO ") == Some((lo, hi))
    ensures LexOne(lc, s) == Ok(Lexed([RangeTok(lc, inclusive, lo, hi)], |inner| + 2))
  {
    var close := if inclusive then ']' else '}';
    assert s[1..] == inner + [close] + rest;
    IndexOfFirst(inner, close, rest);
    assert s[1..1 + |inner|] == inner;
  }

  lemma {:induction false} RangeTextIs(inclusive: bool, inner: string, rest: string)
    ensures (if inclusive then "[" else "{") + inner + (if inclusive then "]" else "}") + rest
            == [if inclusive then '[' else '{'] + (inner + [if inclusive then ']' else '}'] + rest)
  {
  }

  lemma {:induction false} RangeLexes(lc: char -> char, inclusive: bool, lo: string, hi: string)
    requires (if inclusive then ']' else '}') !in lo + " TO " + hi && Cut(lo + " TO " + hi, " TO ") == Some((lo, hi))
    ensures Lexes(lc, Piece(RangeTok(lc, inclusive, lo, hi), RangeText(inclusive, lo, hi)))
  {
    var p := Piece(RangeTok(lc, inclusive, lo, hi), RangeText(inclusive, lo, hi));
    var inner := lo + " TO " + hi;
    forall rest: string ensures LexesBefore(lc, p, rest) {
      var s := p.text + (" " + rest);
      RangeTextIs(inclusive, inner, " " + rest);
      BracketLexes(lc, inclusive, inner, lo, hi, s, " " + rest);
    }
  }

  ghost predicate LexAll(lc: char -> char, ps: seq<Piece>) {
    forall i :: 0 <= i < |ps| ==> Lexes(lc, ps[i])
  }

  lemma {:induction false} AtomLexes(lc: char -> char, a: Atom)
    requires AtomOk(a)
    ensures LexAll(lc, AtomPieces(lc, a))
  {
    MarkLexes(lc, COLON);
    match a {
      case Bare(word) => WordLexes(lc, word);
      case Quoted(text) => PhraseLexes(lc, text);
      case FieldWord(field, word) =>
        WordLexes(lc, field);
        WordLexes(lc, word);
      case FieldQuoted(field, text) =>
        WordLexes(lc, field);
        PhraseLexes(lc, text);
      case FieldRange(field, inclusive, lo, hi) =>
        WordLexes(lc, field);
        RangeLexes(lc, inclusive, lo, hi);
    }
  }

  lemma {:induction false} ExprLexes(lc: char -> char, e: Expr, level: nat)
    requires ExprOk(e)
    ensures LexAll(lc, Pieces(lc, e, level))
    decreases e, 1
  {
    MarkLexes(lc, OPEN);
    MarkLexes(lc, CLOSE);
    InsideLexes(lc, e);
  }

  lemma {:induction false} InsideLexes(lc: char -> char, e: Expr)
    requires ExprOk(e)
    ensures LexAll(lc, Inside(lc, e))
    decreases e, 0
  {
    match e {
      case Leaf(a) => AtomLexes(lc, a);
      case NotE(x) =>
        KeywordLexes(lc, "NOT");
        ExprLexes(lc, x, 2);
      case AndE(l, r, spelled) =>
        KeywordLexes(lc, "AND");
        ExprLexes(lc, l, 1);
        ExprLexes(lc, r, 2);
      case OrE(l, r) =>
        KeywordLexes(lc, "OR");
        ExprLexes(lc, l, 0);
        ExprLexes(lc, r, 1);
    }
  }

  /** Every expression, written out, parses to the tree it was written from. */
  lemma {:induction false} ParsesBack(lc: char -> char, e: Expr)
    requires ExprOk(e)
    ensures ParseSpec(lc, Text(Pieces(lc, e, 0))) == Ok(Meaning(lc, e))
  {
    var ps := Pieces(lc, e, 0);
    var toks := ToksOf(ps) + [EOF];
    ExprLexes(lc, e, 0);
    TextLexes(lc, ps);
    OrParses(lc, toks, 0, e, |ps|);
    assert toks[|ps|] == EOF;
  }
}
