/** The recursive-descent parser of the query language (internal/search/query.go:24-38, 193-226, 356-480).
    Precedence: NOT over AND over OR, and juxtaposition is AND. */
module QueryParser {
  import opened Prelude
  import opened Query
  import opened QueryLexer

  datatype Parsed = Parsed(q: Query, pos: nat)

  type Outcome = Result<Parsed, Error>

  /** hasWildcard: an unescaped `*` or `?`. */
  predicate HasWildcard(glob: string) {
    if glob == "" then false
    else if glob[0] == '\\' then |glob| > 1 && HasWildcard(glob[2..])
    else glob[0] == '*' || glob[0] == '?' || HasWildcard(glob[1..])
  }

  /** buildTerm: the leaf for a field and a value. */
  function BuildTerm(lc: char -> char, field: string, value: string, glob: string, phrase: bool): (q: Query)
    ensures NoBareExists(q)
  {
    var f, v, g := Lower(lc, field), Lower(lc, value), Lower(lc, glob);
    if g == "*" then
      if f == "" || f == "*" then MatchAll else ExistsQ(f)
    else TermQ(f, v, phrase, if !phrase && HasWildcard(g) then Some(g) else None)
  }

  // The grammar

  function Next(toks: seq<Token>, pos: nat): (r: nat)
    requires pos < |toks|
    ensures r < |toks| && pos <= r
    ensures pos < |toks| - 1 ==> r == pos + 1
  {
    if pos < |toks| - 1 then pos + 1 else pos
  }

  /** Every successful parse consumes a token and stays on the list. */
  predicate Advances(toks: seq<Token>, pos: nat, r: Outcome) {
    r.Ok? ==> pos < r.value.pos < |toks| && NoBareExists(r.value.q)
  }

  function OrExpr(lc: char -> char, toks: seq<Token>, pos: nat): (r: Outcome)
    requires TokensOk(toks) && pos < |toks|
    ensures Advances(toks, pos, r)
    decreases |toks| - pos, 4
  {
    match AndExpr(lc, toks, pos)
    case Err(e) => Err(e)
    case Ok(left) => OrRest(lc, toks, left)
  }

  function OrRest(lc: char -> char, toks: seq<Token>, left: Parsed): (r: Outcome)
    requires TokensOk(toks) && left.pos < |toks| && NoBareExists(left.q)
    ensures r.Ok? ==> left.pos <= r.value.pos < |toks| && NoBareExists(r.value.q)
    decreases |toks| - left.pos, 5
  {
    if !toks[left.pos].OrTok? then Ok(left)
    else
      match AndExpr(lc, toks, Next(toks, left.pos))
      case Err(e) => Err(e)
      case Ok(right) => OrRest(lc, toks, Parsed(Or(left.q, right.q), right.pos))
  }

  function AndExpr(lc: char -> char, toks: seq<Token>, pos: nat): (r: Outcome)
    requires TokensOk(toks) && pos < |toks|
    ensures Advances(toks, pos, r)
    decreases |toks| - pos, 3
  {
    match Unary(lc, toks, pos)
    case Err(e) => Err(e)
    case Ok(left) => AndRest(lc, toks, left)
  }

  predicate StartsClause(t: Token) {
    t.Word? || t.Phrase? || t.LParen? || t.NotTok?
  }

  function AndRest(lc: char -> char, toks: seq<Token>, left: Parsed): (r: Outcome)
    requires TokensOk(toks) && left.pos < |toks| && NoBareExists(left.q)
    ensures r.Ok? ==> left.pos <= r.value.pos < |toks| && NoBareExists(r.value.q)
    decreases |toks| - left.pos, 3
  {
    var t := toks[left.pos];
    if !t.AndTok? && !StartsClause(t) then Ok(left)
    else
      match Unary(lc, toks, if t.AndTok? then Next(toks, left.pos) else left.pos)
      case Err(e) => Err(e)
      case Ok(right) => AndRest(lc, toks, Parsed(And(left.q, right.q), right.pos))
  }

  function Unary(lc: char -> char, toks: seq<Token>, pos: nat): (r: Outcome)
    requires TokensOk(toks) && pos < |toks|
    ensures Advances(toks, pos, r)
    decreases |toks| - pos, 2
  {
    if toks[pos].NotTok? then
      match Unary(lc, toks, Next(toks, pos))
      case Err(e) => Err(e)
      case Ok(p) => Ok(Parsed(Not(p.q), p.pos))
    else Primary(lc, toks, pos)
  }

  function Primary(lc: char -> char, toks: seq<Token>, pos: nat): (r: Outcome)
    requires TokensOk(toks) && pos < |toks|
    ensures Advances(toks, pos, r)
    decreases |toks| - pos, 1
  {
    var t := toks[pos];
    if t.LParen? then
      match OrExpr(lc, toks, Next(toks, pos))
      case Err(e) => Err(e)
      case Ok(p) => if !toks[p.pos].RParen? then Err(MissingParen) else Ok(Parsed(p.q, Next(toks, p.pos)))
    else if t.Phrase? then Ok(Parsed(BuildTerm(lc, "", t.text, t.text, true), Next(toks, pos)))
    else if t.Word? then Clause(lc, toks, pos)
    else Err(UnexpectedToken(t))
  }

  /** What follows a field and its colon. */
  function Value(lc: char -> char, field: string, v: Token): (r: Result<Query, Error>)
    ensures r.Ok? ==> NoBareExists(r.value) && !v.EOF?
  {
    match v
    case Word(text, glob, _) => Ok(BuildTerm(lc, field, text, glob, false))
    case Phrase(text) => Ok(BuildTerm(lc, field, text, text, true))
    case Range(lo, hi, incLo, incHi) => Ok(RangeQ(Lower(lc, field), lo, hi, incLo, incHi))
    case _ => Err(ExpectedValue)
  }

  function Clause(lc: char -> char, toks: seq<Token>, pos: nat): (r: Outcome)
    requires TokensOk(toks) && pos < |toks| && toks[pos].Word?
    ensures Advances(toks, pos, r)
    decreases |toks| - pos, 0
  {
    var f := toks[pos];
    assert TokenOk(f);
    var field := if f.negate then f.text[1..] else f.text;
    var glob := if f.negate then f.glob[1..] else f.glob;
    var after := Next(toks, pos);
    if toks[after].Colon? then
      var at := Next(toks, after);
      match Value(lc, field, toks[at])
      case Err(e) => Err(e)
      case Ok(q) => Ok(Parsed(if f.negate then Not(q) else q, Next(toks, at)))
    else
      var q := BuildTerm(lc, "", field, glob, false);
      Ok(Parsed(if f.negate then Not(q) else q, after))
  }

  /** What Parse returns. */
  function ParseSpec(lc: char -> char, s: string): (r: Result<Query, Error>)
    ensures r.Ok? ==> NoBareExists(r.value)
  {
    match Tokens(lc, s)
    case Err(e) => Err(e)
    case Ok(toks) =>
      match OrExpr(lc, toks, 0)
      case Err(e) => Err(e)
      case Ok(p) => if !toks[p.pos].EOF? then Err(UnexpectedToken(toks[p.pos])) else Ok(p.q)
  }

  // The parser

  class Parser {
    const lc: char -> char
    const toks: seq<Token>
    var pos: nat

    constructor (lc: char -> char, toks: seq<Token>)
      requires TokensOk(toks)
      ensures this.lc == lc && this.toks == toks && pos == 0
    {
      this.lc, this.toks, pos := lc, toks, 0;
    }

    predicate Valid()
      reads this
    {
      TokensOk(toks) && pos < |toks|
    }

    /** The outcome of a method that started at `start`: the tree, and the position it leaves the parser at. */
    predicate Did(r: Result<Query, Error>, spec: Outcome)
      reads this
    {
      && Valid()
      && (spec.Err? ==> r == Err(spec.error))
      && (spec.Ok? ==> r == Ok(spec.value.q) && pos == spec.value.pos)
    }

    method Advance() returns (t: Token)
      requires Valid()
      modifies this
      ensures Valid() && t == toks[old(pos)] && pos == Next(toks, old(pos))
    {
      t := toks[pos];
      if pos < |toks| - 1 {
        pos := pos + 1;
      }
    }

    method ParseOr() returns (r: Result<Query, Error>)
      requires Valid()
      modifies this
      ensures Did(r, OrExpr(lc, toks, old(pos)))
      decreases |toks| - pos, 4
    {
      ghost var start := pos;
      var left := ParseAnd();
      if left.Err? {
        return left;
      }
      var q := left.value;
      while toks[pos].OrTok?
        invariant Valid() && start < pos && NoBareExists(q)
        invariant OrExpr(lc, toks, start) == OrRest(lc, toks, Parsed(q, pos))
        decreases |toks| - pos
      {
        var _ := Advance();
        var right := ParseAnd();
        if right.Err? {
          return right;
        }
        q := Or(q, right.value);
      }
      return Ok(q);
    }

    method ParseAnd() returns (r: Result<Query, Error>)
      requires Valid()
      modifies this
      ensures Did(r, AndExpr(lc, toks, old(pos)))
      decreases |toks| - pos, 3
    {
      ghost var start := pos;
      var left := ParseUnary();
      if left.Err? {
        return left;
      }
      var q := left.value;
      while toks[pos].AndTok? || StartsClause(toks[pos])
        invariant Valid() && start < pos && NoBareExists(q)
        invariant AndExpr(lc, toks, start) == AndRest(lc, toks, Parsed(q, pos))
        decreases |toks| - pos
      {
        if toks[pos].AndTok? {
          var _ := Advance();
        }
        var right := ParseUnary();
        if right.Err? {
          return right;
        }
        q := And(q, right.value);
      }
      return Ok(q);
    }

    method ParseUnary() returns (r: Result<Query, Error>)
      requires Valid()
      modifies this
      ensures Did(r, Unary(lc, toks, old(pos)))
      decreases |toks| - pos, 2
    {
      if toks[pos].NotTok? {
        var _ := Advance();
        var inner := ParseUnary();
        if inner.Err? {
          return inner;
        }
        return Ok(Not(inner.value));
      }
      r := ParsePrimary();
    }

    method ParsePrimary() returns (r: Result<Query, Error>)
      requires Valid()
      modifies this
      ensures Did(r, Primary(lc, toks, old(pos)))
      decreases |toks| - pos, 1
    {
      var t := toks[pos];
      if t.LParen? {
        var _ := Advance();
        r := ParseOr();
        if r.Ok? {
          if !toks[pos].RParen? {
            return Err(MissingParen);
          }
          var _ := Advance();
        }
      } else if t.Phrase? {
        var _ := Advance();
        r := Ok(BuildTerm(lc, "", t.text, t.text, true));
      } else if t.Word? {
        r := ParseClause();
      } else {
        r := Err(UnexpectedToken(t));
      }
    }

    method ParseClause() returns (r: Result<Query, Error>)
      requires Valid() && toks[pos].Word?
      modifies this
      ensures Did(r, Clause(lc, toks, old(pos)))
      decreases |toks| - pos, 0
    {
      assert TokenOk(toks[pos]);
      var f := Advance();
      var field, glob := f.text, f.glob;
      if f.negate {
        field, glob := field[1..], glob[1..];
      }
      if toks[pos].Colon? {
        var _ := Advance();
        var v := Advance();
        r := Value(lc, field, v);
        if r.Err? {
          return;
        }
      } else {
        r := Ok(BuildTerm(lc, "", field, glob, false));
      }
      if f.negate {
        r := Ok(Not(r.value));
      }
    }
  }

  /** Parse: total on every input; whatever it accepts holds no existence test without a field. */
  method Parse(lc: char -> char, s: string) returns (r: Result<Query, Error>)
    ensures r == ParseSpec(lc, s)
    ensures r.Ok? ==> NoBareExists(r.value)
  {
    var toks := Lex(lc, s);
    if toks.Err? {
      return Err(toks.error);
    }
    var p := new Parser(lc, toks.value);
    r := p.ParseOr();
    if r.Ok? && !p.toks[p.pos].EOF? {
      r := Err(UnexpectedToken(p.toks[p.pos]));
    }
  }
}
