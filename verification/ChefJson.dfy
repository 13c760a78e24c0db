/** Reading and writing JSON the way the server stores it (internal/chefjson/chefjson.go): a streaming re-encoder, and the
    tree form it must equal. The tokenizer is the library's; a valid document is the tree of its literals, and its token
    stream is that tree written out. */
module ChefJson {
  import opened Prelude
  import opened Json
  import opened JsonString
  import opened FloatLayout

  type WFDouble = d: Double | WellFormed(d) witness Zero

  /** strconv.ParseFloat on a literal with a fraction or an exponent; None when it is beyond the range of a double. */
  type FloatParser = string -> Option<WFDouble>

  datatype Token =
    | BeginObj
    | EndObj
    | BeginArr
    | EndArr
    | StrTok(body: string)
    | NumTok(lit: string)
    | BoolTok(b: bool)
    | NullTok

  /** A document by its literals: strings by their bodies as sent, numbers as sent. */
  datatype Doc =
    | DNull
    | DBool(b: bool)
    | DNum(lit: string)
    | DStr(body: string)
    | DArr(elems: seq<Doc>)
    | DObj(members: seq<DMember>)

  datatype DMember = DMember(key: string, value: Doc)

  /** The token stream of a document. */
  function Toks(d: Doc): (toks: seq<Token>)
    ensures toks != []
  {
    match d
    case DNull => [NullTok]
    case DBool(b) => [BoolTok(b)]
    case DNum(lit) => [NumTok(lit)]
    case DStr(body) => [StrTok(body)]
    case DArr(elems) => [BeginArr] + ElemToks(elems) + [EndArr]
    case DObj(members) => [BeginObj] + MemberToks(members) + [EndObj]
  }

  function ElemToks(elems: seq<Doc>): seq<Token> {
    if elems == [] then [] else ElemToks(elems[..|elems| - 1]) + Toks(elems[|elems| - 1])
  }

  function MemberToks(members: seq<DMember>): seq<Token> {
    if members == [] then []
    else
      var m := members[|members| - 1];
      MemberToks(members[..|members| - 1]) + ([StrTok(m.key)] + Toks(m.value))
  }

  /** Every string literal is one: what the tokenizer has checked. */
  predicate Lexical(d: Doc) {
    match d
    case DStr(body) => Unquote(body).Some?
    case DArr(elems) => forall i :: 0 <= i < |elems| ==> Lexical(elems[i])
    case DObj(members) => forall i :: 0 <= i < |members| ==> Unquote(members[i].key).Some? && Lexical(members[i].value)
    case _ => true
  }

  function Decoded(body: string): string {
    match Unquote(body)
    case None => ""
    case Some(s) => s
  }

  /** The tree of a document: strings decoded, numbers kept as their literals. */
  function Tree(d: Doc): Json {
    match d
    case DNull => Null
    case DBool(b) => Bool(b)
    case DNum(lit) => Num(lit)
    case DStr(body) => Str(Decoded(body))
    case DArr(elems) => Arr(Trees(elems))
    case DObj(members) => Obj(MemberTrees(members))
  }

  function Trees(elems: seq<Doc>): (ts: seq<Json>)
    ensures |ts| == |elems|
  {
    if elems == [] then [] else Trees(elems[..|elems| - 1]) + [Tree(elems[|elems| - 1])]
  }

  function MemberTrees(members: seq<DMember>): (ms: seq<Member>)
    ensures |ms| == |members|
  {
    if members == [] then []
    else
      var m := members[|members| - 1];
      MemberTrees(members[..|members| - 1]) + [Member(Decoded(m.key), Tree(m.value))]
  }

  // Numbers

  /** appendNumber: an integer exactly (minus zero as zero), anything with a fraction or exponent as a double. */
  function NormalizeNumber(parse: FloatParser, lit: string): Option<string> {
    if !IsFloatLiteral(lit) then Some(if lit == "-0" then "0" else lit)
    else
      match parse(lit)
      case None => None
      case Some(d) => Some(Layout(d))
  }

  /** Parsing depends only on the number denoted: a literal that denotes the digits of a double reads as that double, and
      one that denotes zero as zero. */
  ghost predicate Faithful(parse: FloatParser) {
    && (forall lit, lit' {:trigger parse(lit), parse(lit')} ::
          parse(lit).Some? && Denotes(lit') == Some(Value(parse(lit).value)) ==> parse(lit') == parse(lit))
    && (forall lit {:trigger parse(lit)} :: Denotes(lit) == Some(0.0) ==> parse(lit) == Some(Zero))
  }

  /** What is written for a double is written for it again, even where it denotes zero instead. */
  lemma FloatIsStable(parse: FloatParser, lit: string)
    requires Faithful(parse) && parse(lit).Some?
    ensures var out := Layout(parse(lit).value); parse(out).Some? && Layout(parse(out).value) == out
  {
    var d := parse(lit).value;
    if TooSmall(d) {
      TooSmallIsZero(d);
      assert parse(Layout(d)) == Some(Zero);
    } else {
      NormalDenotes(d);
      assert parse(Layout(d)) == parse(lit);
    }
  }

  /** A number once normalized stays as it is. */
  lemma NumberIsStable(parse: FloatParser, lit: string)
    requires Faithful(parse) && NormalizeNumber(parse, lit).Some?
    ensures var out := NormalizeNumber(parse, lit).value;
            NormalizeNumber(parse, out) == Some(out)
  {
    if IsFloatLiteral(lit) {
      FloatIsStable(parse, lit);
      LayoutIsFloat(parse(lit).value);
    }
  }

  /** Every number of the document is within range. */
  predicate InRange(parse: FloatParser, d: Doc) {
    match d
    case DNum(lit) => NormalizeNumber(parse, lit).Some?
    case DArr(elems) => ElemsInRange(parse, elems)
    case DObj(members) => MembersInRange(parse, members)
    case _ => true
  }

  predicate ElemsInRange(parse: FloatParser, elems: seq<Doc>) {
    elems == [] || (ElemsInRange(parse, elems[..|elems| - 1]) && InRange(parse, elems[|elems| - 1]))
  }

  predicate MembersInRange(parse: FloatParser, members: seq<DMember>) {
    members == [] || (MembersInRange(parse, members[..|members| - 1]) && InRange(parse, members[|members| - 1].value))
  }

  // The tree form

  /** Marshal: a tree as it is stored; a number out of range is written as it came. */
  function Marshal(parse: FloatParser, v: Json): string {
    match v
    case Null => "null"
    case Bool(b) => if b then "true" else "false"
    case Num(lit) => (match NormalizeNumber(parse, lit) case Some(out) => out case None => lit)
    case Str(s) => Quote(s)
    case Arr(elems) => "[" + MarshalElems(parse, elems) + "]"
    case Obj(members) => "{" + MarshalMembers(parse, members) + "}"
  }

  function MarshalElems(parse: FloatParser, elems: seq<Json>): string {
    if elems == [] then ""
    else
      var n := |elems| - 1;
      MarshalElems(parse, elems[..n]) + (if n > 0 then "," else "") + Marshal(parse, elems[n])
  }

  function MarshalMembers(parse: FloatParser, members: seq<Member>): string {
    if members == [] then ""
    else
      var n := |members| - 1;
      MarshalMembers(parse, members[..n]) + (if n > 0 then "," else "")
      + Quote(members[n].name) + ":" + Marshal(parse, members[n].value)
  }

  /** decode: one value from the front of the stream, and what is left of it. */
  function Decode(toks: seq<Token>): (r: Option<(Json, seq<Token>)>)
    ensures r.Some? ==> |r.value.1| < |toks|
    decreases |toks|, 0
  {
    if toks == [] then None
    else
      var rest := toks[1..];
      match toks[0]
      case BeginObj => DecodeMembers(rest, [])
      case BeginArr => DecodeElems(rest, [])
      case StrTok(body) => Some((Str(Decoded(body)), rest))
      case NumTok(lit) => Some((Num(lit), rest))
      case BoolTok(b) => Some((Bool(b), rest))
      case NullTok => Some((Null, rest))
      case _ => None
  }

  function DecodeMembers(toks: seq<Token>, acc: seq<Member>): (r: Option<(Json, seq<Token>)>)
    ensures r.Some? ==> |r.value.1| < |toks|
    decreases |toks|, 1
  {
    if toks == [] then None
    else if toks[0].EndObj? then Some((Obj(acc), toks[1..]))
    else if !toks[0].StrTok? then None
    else
      match Decode(toks[1..])
      case None => None
      case Some((v, rest)) => DecodeMembers(rest, acc + [Member(Decoded(toks[0].body), v)])
  }

  function DecodeElems(toks: seq<Token>, acc: seq<Json>): (r: Option<(Json, seq<Token>)>)
    ensures r.Some? ==> |r.value.1| < |toks|
    decreases |toks|, 1
  {
    if toks == [] then None
    else if toks[0].EndArr? then Some((Arr(acc), toks[1..]))
    else
      match Decode(toks)
      case None => None
      case Some((v, rest)) => DecodeElems(rest, acc + [v])
  }

  /** Parse: exactly one value. */
  function Parse(toks: seq<Token>): Option<Json> {
    match Decode(toks)
    case None => None
    case Some((v, rest)) => if rest == [] then Some(v) else None
  }

  /** Decoding the stream of a document gives its tree and consumes exactly its tokens. */
  lemma {:induction false} DecodeToks(d: Doc, rest: seq<Token>)
    ensures Decode(Toks(d) + rest) == Some((Tree(d), rest))
    decreases d, 0
  {
    var toks := Toks(d) + rest;
    match d
    case DArr(elems) =>
      assert toks[1..] == ElemToks(elems) + ([EndArr] + rest);
      DecodeElemToks(elems, [EndArr] + rest, []);
      assert [] + Trees(elems) == Trees(elems) && ([EndArr] + rest)[1..] == rest;
    case DObj(members) =>
      assert toks[1..] == MemberToks(members) + ([EndObj] + rest);
      DecodeMemberToks(members, [EndObj] + rest, []);
      assert [] + MemberTrees(members) == MemberTrees(members) && ([EndObj] + rest)[1..] == rest;
    case _ =>
      assert toks[1..] == rest;
  }

  lemma {:induction false} DecodeElemToks(elems: seq<Doc>, rest: seq<Token>, acc: seq<Json>)
    ensures DecodeElems(ElemToks(elems) + rest, acc) == DecodeElems(rest, acc + Trees(elems))
    decreases elems, 1
  {
    if elems == [] {
      assert ElemToks(elems) + rest == rest && acc + Trees(elems) == acc;
    } else {
      var n := |elems| - 1;
      var last := elems[n];
      var tail := Toks(last) + rest;
      assert ElemToks(elems) + rest == ElemToks(elems[..n]) + tail;
      DecodeElemToks(elems[..n], tail, acc);
      DecodeToks(last, rest);
      StartsValue(last);
      assert tail[0] == Toks(last)[0];
      assert acc + Trees(elems) == acc + Trees(elems[..n]) + [Tree(last)];
    }
  }

  /** No value starts with the end of an array or object. */
  lemma StartsValue(d: Doc)
    ensures !Toks(d)[0].EndArr? && !Toks(d)[0].EndObj?
  {
  }

  lemma {:induction false} DecodeMemberToks(members: seq<DMember>, rest: seq<Token>, acc: seq<Member>)
    ensures DecodeMembers(MemberToks(members) + rest, acc) == DecodeMembers(rest, acc + MemberTrees(members))
    decreases members, 1
  {
    if members == [] {
      assert MemberToks(members) + rest == rest && acc + MemberTrees(members) == acc;
    } else {
      var n := |members| - 1;
      var m := members[n];
      var tail := [StrTok(m.key)] + (Toks(m.value) + rest);
      assert MemberToks(members) + rest == MemberToks(members[..n]) + tail;
      DecodeMemberToks(members[..n], tail, acc);
      assert tail[1..] == Toks(m.value) + rest;
      DecodeToks(m.value, rest);
      assert acc + MemberTrees(members) == acc + MemberTrees(members[..n]) + [Member(Decoded(m.key), Tree(m.value))];
    }
  }

  // The stack machine

  /** How string and number literals are re-encoded; None refuses the document. */
  datatype Encoder = Encoder(str: string -> Option<string>, num: string -> Option<string>)

  /** A string literal as Normalize writes it. */
  function StringText(body: string): Option<string> {
    match NormalizeBody(body)
    case None => None
    case Some(out) => Some("\"" + out + "\"")
  }

  function StoredForm(parse: FloatParser): Encoder {
    Encoder(StringText, lit => NormalizeNumber(parse, lit))
  }

  /** One open container: whether it is an object, and how many tokens it has held. */
  datatype Frame = Frame(isObject: bool, n: nat)

  /** What is written before the next token of the innermost container. */
  function Sep(stack: seq<Frame>): string {
    if stack == [] then ""
    else
      var top := stack[|stack| - 1];
      if top.isObject && top.n % 2 == 1 then ":" else if top.n > 0 then "," else ""
  }

  function Bump(stack: seq<Frame>): seq<Frame> {
    if stack == [] then []
    else
      var last := |stack| - 1;
      stack[..last] + [stack[last].(n := stack[last].n + 1)]
  }

  /** The text of a token that is a value by itself. */
  function ScalarText(enc: Encoder, t: Token): Option<string> {
    match t
    case StrTok(body) => enc.str(body)
    case NumTok(lit) => enc.num(lit)
    case BoolTok(b) => Some(if b then "true" else "false")
    case NullTok => Some("null")
    case _ => None
  }

  /** The rest of a run: done when no container is open, which must be at the end of the input. */
  function Continue(enc: Encoder, toks: seq<Token>, stack: seq<Frame>, out: string): Option<string>
    decreases |toks|, 1
  {
    if stack != [] then Machine(enc, toks, stack, out) else if toks == [] then Some(out) else None
  }

  /** Normalize's loop from a given stack and output. */
  function Machine(enc: Encoder, toks: seq<Token>, stack: seq<Frame>, out: string): Option<string>
    decreases |toks|, 0
  {
    if toks == [] then None
    else
      var t, rest := toks[0], toks[1..];
      if t.EndObj? || t.EndArr? then
        if stack == [] then None
        else Continue(enc, rest, stack[..|stack| - 1], out + (if t.EndObj? then "}" else "]"))
      else if t.BeginObj? || t.BeginArr? then
        Continue(enc, rest, Bump(stack) + [Frame(t.BeginObj?, 0)], out + Sep(stack) + (if t.BeginObj? then "{" else "["))
      else
        match ScalarText(enc, t)
        case None => None
        case Some(text) => Continue(enc, rest, Bump(stack), out + Sep(stack) + text)
  }

  /** Normalize: the loop itself, over a token stream, a stack and an output buffer. */
  method Normalize(parse: FloatParser, toks: seq<Token>) returns (r: Option<string>)
    ensures r == Machine(StoredForm(parse), toks, [], "")
  {
    var enc := StoredForm(parse);
    var stack: seq<Frame> := [];
    var out := "";
    var i := 0;
    assert toks[0..] == toks;
    while true
      invariant 0 <= i <= |toks|
      invariant Machine(enc, toks, [], "") == Machine(enc, toks[i..], stack, out)
      decreases |toks| - i
    {
      if i == |toks| {
        return None;
      }
      var t := toks[i];
      assert toks[i..][1..] == toks[i + 1..];
      i := i + 1;
      if t.EndObj? || t.EndArr? {
        if stack == [] {
          return None;
        }
        stack := stack[..|stack| - 1];
        out := out + (if t.EndObj? then "}" else "]");
      } else {
        out := out + Sep(stack);
        stack := Bump(stack);
        if t.BeginObj? || t.BeginArr? {
          out := out + (if t.BeginObj? then "{" else "[");
          stack := stack + [Frame(t.BeginObj?, 0)];
        } else {
          var text := ScalarText(enc, t);
          if text.None? {
            return None;
          }
          out := out + text.value;
        }
      }
      if stack == [] {
        break;
      }
    }
    return if i == |toks| then Some(out) else None;
  }
}
