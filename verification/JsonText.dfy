/** Normalisation on text: a reader for JSON texts (RFC 8259), and idempotence. */
module JsonText {
  import opened Prelude
  import opened Decimal
  import opened Json
  import opened JsonString
  import opened FloatLayout
  import opened ChefJson
  import opened Normalization

  // The reader

  predicate IsNumberChar(c: char) {
    IsDigit(c) || c == '-' || c == '+' || c == '.' || c == 'e' || c == 'E'
  }

  predicate NumberChars(s: string) {
    forall c :: c in s ==> IsNumberChar(c)
  }

  /** A number (section 6 of RFC 8259): no leading zero, and no point without a fraction. */
  predicate IsNumber(lit: string) {
    && NumberChars(lit)
    && ReadParts(lit).Some?
    && var p := ReadParts(lit).value;
    && (|p.whole| == 1 || p.whole[0] != '0')
    && (p.frac == "" ==> '.' !in lit)
  }

  /** The first quote that no backslash escapes. */
  function StringEnd(s: string): (r: Option<nat>)
    ensures r.Some? ==> r.value < |s|
  {
    if s == "" then None
    else if s[0] == '\"' then Some(0)
    else
      var skip := if s[0] == '\\' then 2 else 1;
      if |s| < skip then None
      else
        match StringEnd(s[skip..])
        case None => None
        case Some(i) => Some(i + skip)
  }

  function NumberEnd(s: string): (n: nat)
    ensures n <= |s|
  {
    if s == "" || !IsNumberChar(s[0]) then 0 else 1 + NumberEnd(s[1..])
  }

  predicate IsBlank(c: char) {
    c == ' ' || c == '\t' || c == '\n' || c == '\r'
  }

  function Skip(s: string): (r: string)
    ensures |r| <= |s|
  {
    if s != "" && IsBlank(s[0]) then Skip(s[1..]) else s
  }

  /** Every literal is one: what a reader checks. */
  predicate WellRead(d: Doc) {
    match d
    case DNum(lit) => IsNumber(lit)
    case DStr(body) => Unquote(body).Some?
    case DArr(elems) => forall i :: 0 <= i < |elems| ==> WellRead(elems[i])
    case DObj(members) => forall i :: 0 <= i < |members| ==> Unquote(members[i].key).Some? && WellRead(members[i].value)
    case _ => true
  }

  /** A string literal at the front of the text. */
  function ReadString(s: string): (r: Option<(string, string)>)
    ensures r.Some? ==> |r.value.1| < |s| && Unquote(r.value.0).Some?
  {
    if s == "" || s[0] != '\"' then None
    else
      match StringEnd(s[1..])
      case None => None
      case Some(e) => if Unquote(s[1..1 + e]).None? then None else Some((s[1..1 + e], s[e + 2..]))
  }

  function ReadWord(s: string): (r: Option<(Doc, string)>)
    ensures r.Some? ==> |r.value.1| < |s| && WellRead(r.value.0)
  {
    if "true" <= s then Some((DBool(true), s[4..]))
    else if "false" <= s then Some((DBool(false), s[5..]))
    else if "null" <= s then Some((DNull, s[4..]))
    else
      var n := NumberEnd(s);
      if n == 0 || !IsNumber(s[..n]) then None else Some((DNum(s[..n]), s[n..]))
  }

  /** One value at the front of the text, and what is left of it. */
  function ReadValue(s: string): (r: Option<(Doc, string)>)
    ensures r.Some? ==> |r.value.1| < |s| && WellRead(r.value.0)
    decreases |s|, 0
  {
    var t := Skip(s);
    if t == "" then None
    else if t[0] == '[' then
      var u := Skip(t[1..]);
      if u != "" && u[0] == ']' then Some((DArr([]), u[1..])) else ReadElems(u, [])
    else if t[0] == '{' then
      var u := Skip(t[1..]);
      if u != "" && u[0] == '}' then Some((DObj([]), u[1..])) else ReadMembers(u, [])
    else if t[0] == '\"' then
      match ReadString(t)
      case None => None
      case Some((body, rest)) => Some((DStr(body), rest))
    else ReadWord(t)
  }

  /** A value, then a comma and more of them or the end of the array. */
  function ReadElems(s: string, acc: seq<Doc>): (r: Option<(Doc, string)>)
    requires forall i :: 0 <= i < |acc| ==> WellRead(acc[i])
    ensures r.Some? ==> |r.value.1| < |s| && WellRead(r.value.0)
    decreases |s|, 1
  {
    match ReadValue(s)
    case None => None
    case Some((d, rest)) =>
      var t := Skip(rest);
      if t == "" then None
      else if t[0] == ',' then ReadElems(t[1..], acc + [d])
      else if t[0] == ']' then Some((DArr(acc + [d]), t[1..]))
      else None
  }

  /** A name, a colon and a value. */
  function ReadMember(s: string): (r: Option<(DMember, string)>)
    ensures r.Some? ==> |r.value.1| < |s| && Unquote(r.value.0.key).Some? && WellRead(r.value.0.value)
    decreases |s|, 1
  {
    match ReadString(Skip(s))
    case None => None
    case Some((key, rest)) =>
      var t := Skip(rest);
      if t == "" || t[0] != ':' then None
      else
        match ReadValue(t[1..])
        case None => None
        case Some((d, left)) => Some((DMember(key, d), left))
  }

  function ReadMembers(s: string, acc: seq<DMember>): (r: Option<(Doc, string)>)
    requires forall i :: 0 <= i < |acc| ==> Unquote(acc[i].key).Some? && WellRead(acc[i].value)
    ensures r.Some? ==> |r.value.1| < |s| && WellRead(r.value.0)
    decreases |s|, 2
  {
    match ReadMember(s)
    case None => None
    case Some((m, rest)) =>
      var t := Skip(rest);
      if t == "" then None
      else if t[0] == ',' then ReadMembers(t[1..], acc + [m])
      else if t[0] == '}' then Some((DObj(acc + [m]), t[1..]))
      else None
  }

  /** The document a text is, if it is one: a value with nothing but blanks around it. */
  function ReadText(s: string): (r: Option<Doc>)
    ensures r.Some? ==> WellRead(r.value)
  {
    match ReadValue(s)
    case None => None
    case Some((d, rest)) => if Skip(rest) == "" then Some(d) else None
  }

  // Printed documents

  /** Literals printed as they stand. */
  function RawString(body: string): Option<string> {
    Some("\"" + body + "\"")
  }

  function RawNumber(lit: string): Option<string> {
    Some(lit)
  }

  const RAW := Encoder(RawString, RawNumber)

  /** No quote is unescaped, and no backslash is last. */
  predicate Closed(body: string) {
    if body == "" then true
    else if body[0] == '\\' then |body| > 1 && Closed(body[2..])
    else body[0] != '\"' && Closed(body[1..])
  }

  predicate IsString(body: string) {
    Closed(body) && Unquote(body).Some?
  }

  /** Every literal of the document reads back as itself. */
  predicate WellText(d: Doc) {
    match d
    case DNum(lit) => IsNumber(lit)
    case DStr(body) => IsString(body)
    case DArr(elems) => forall i :: 0 <= i < |elems| ==> WellText(elems[i])
    case DObj(members) => forall i :: 0 <= i < |members| ==> IsString(members[i].key) && WellText(members[i].value)
    case _ => true
  }

  /** What may follow a value: nothing, or something that is not part of a number. */
  predicate Ends(rest: string) {
    rest == "" || !IsNumberChar(rest[0])
  }

  lemma {:induction false} StringEndsAtQuote(body: string, rest: string)
    requires Closed(body)
    ensures StringEnd(body + "\"" + rest) == Some(|body|)
    decreases |body|
  {
    var s := body + "\"" + rest;
    if body == "" {
      assert s[0] == '\"';
    } else {
      var skip := if body[0] == '\\' then 2 else 1;
      assert s[0] == body[0] && s[skip..] == body[skip..] + "\"" + rest;
      StringEndsAtQuote(body[skip..], rest);
    }
  }

  lemma ReadStringPrinted(body: string, rest: string)
    requires IsString(body)
    ensures ReadString("\"" + body + "\"" + rest) == Some((body, rest))
  {
    var s := "\"" + body + "\"" + rest;
    assert s[0] == '\"' && s[1..] == body + "\"" + rest;
    StringEndsAtQuote(body, rest);
    assert s[1..1 + |body|] == body && s[|body| + 2..] == rest;
  }

  lemma {:induction false} NumberEndsWhere(lit: string, rest: string)
    requires (forall c :: c in lit ==> IsNumberChar(c)) && Ends(rest)
    ensures NumberEnd(lit + rest) == |lit|
  {
    if lit == "" {
      assert lit + rest == rest;
    } else {
      assert (lit + rest)[1..] == lit[1..] + rest;
      NumberEndsWhere(lit[1..], rest);
    }
  }

  lemma {:induction false} NumberStart(lit: string)
    requires ReadParts(lit).Some?
    ensures lit != "" && (lit[0] == '-' || IsDigit(lit[0]))
  {
    var whole := ReadParts(lit).value.whole;
    assert whole[0] in whole;
    if lit != "" && lit[0] != '-' {
      var mantissa := CutExponent(lit).value.0;
      assert mantissa <= lit && whole <= mantissa;
    }
  }

  lemma ReadWordNumber(lit: string, rest: string)
    requires IsNumber(lit) && Ends(rest)
    ensures ReadWord(lit + rest) == Some((DNum(lit), rest))
  {
    var s := lit + rest;
    NumberStart(lit);
    NumberEndsWhere(lit, rest);
    assert s[0] == lit[0] && s[..|lit|] == lit && s[|lit|..] == rest;
    assert !("true" <= s) && !("false" <= s) && !("null" <= s);
  }

  lemma ReadWordPrinted(d: Doc, rest: string)
    requires d.DNull? || d.DBool?
    ensures ReadWord(Print(RAW, d) + rest) == Some((d, rest))
  {
    var word := Print(RAW, d);
    var s := word + rest;
    assert s[|word|..] == rest && word <= s && s[0] == word[0];
    assert "true" <= s ==> s[0] == 't';
    assert "false" <= s ==> s[0] == 'f';
  }

  // Documents

  lemma SkipNothing(s: string)
    requires s == "" || !IsBlank(s[0])
    ensures Skip(s) == s
  {
  }

  /** The first character of a printed value: no blank, no separator, no end. */
  lemma {:induction false} PrintStarts(d: Doc)
    requires WellText(d)
    ensures var p := Print(RAW, d); p != "" && !IsBlank(p[0]) && p[0] != ']' && p[0] != '}'
    ensures var p := Print(RAW, d);
            && (p[0] == '[' <==> d.DArr?) && (p[0] == '{' <==> d.DObj?) && (p[0] == '\"' <==> d.DStr?)
  {
    if d.DNum? {
      NumberStart(d.lit);
    }
  }

  /** Reading the printed text of a document, and whatever follows it, gives the document back and leaves what follows. */
  lemma {:induction false} ReadPrinted(d: Doc, rest: string)
    requires WellText(d) && Ends(rest)
    ensures ReadValue(Print(RAW, d) + rest) == Some((d, rest))
    decreases d, 0
  {
    var s := Print(RAW, d) + rest;
    PrintStarts(d);
    assert s[0] == Print(RAW, d)[0];
    SkipNothing(s);
    match d
    case DNum(lit) => ReadWordNumber(lit, rest);
    case DStr(body) => ReadStringPrinted(body, rest);
    case DArr(elems) => ReadArray(elems, rest);
    case DObj(members) => ReadObject(members, rest);
    case _ => ReadWordPrinted(d, rest);
  }

  /** The text of the elements from the k-th on, each after a comma but the first. */
  function ElemsFrom(elems: seq<Doc>, k: nat): string
    requires k <= |elems|
    decreases |elems| - k
  {
    if k == |elems| then "" else (if k > 0 then "," else "") + Print(RAW, elems[k]) + ElemsFrom(elems, k + 1)
  }

  lemma {:induction false} ElemsFromPrints(elems: seq<Doc>, k: nat)
    requires k <= |elems|
    ensures PrintElems(RAW, elems[..k]) + ElemsFrom(elems, k) == PrintElems(RAW, elems)
    decreases |elems| - k
  {
    if k == |elems| {
      assert elems[..k] == elems;
    } else {
      ElemsFromPrints(elems, k + 1);
      assert elems[..k + 1][..k] == elems[..k];
      Reassociate(PrintElems(RAW, elems[..k]), if k > 0 then "," else "", Print(RAW, elems[k]), ElemsFrom(elems, k + 1));
    }
  }

  lemma Reassociate(a: string, b: string, c: string, d: string)
    ensures a + (b + c + d) == a + b + c + d
  {
  }

  /** The opening of an array or object, which is not closed at once. */
  lemma {:induction false} ReadOpen(open: char, u: string)
    requires u != "" && !IsBlank(u[0]) && ((open == '[' && u[0] != ']') || (open == '{' && u[0] != '}'))
    ensures ReadValue([open] + u) == if open == '[' then ReadElems(u, []) else ReadMembers(u, [])
  {
    var s := [open] + u;
    assert s[0] == open && s[1..] == u;
    SkipNothing(s);
    SkipNothing(u);
  }

  lemma {:induction false} ReadEmpty(open: char, close: char, rest: string)
    requires (open, close) == ('[', ']') || (open, close) == ('{', '}')
    ensures ReadValue([open] + ([close] + rest)) == Some((if open == '[' then DArr([]) else DObj([]), rest))
  {
    var u := [close] + rest;
    var s := [open] + u;
    assert s[0] == open && s[1..] == u && u[0] == close && u[1..] == rest;
    SkipNothing(s);
    SkipNothing(u);
  }

  lemma {:induction false} ReadArray(elems: seq<Doc>, rest: string)
    requires WellText(DArr(elems))
    ensures ReadValue(Print(RAW, DArr(elems)) + rest) == Some((DArr(elems), rest))
    decreases elems, |elems| + 1
  {
    var end := "]" + rest;
    Enclosed("[", PrintElems(RAW, elems), "]", rest);
    if elems == [] {
      assert PrintElems(RAW, elems) + end == end;
      ReadEmpty('[', ']', rest);
    } else {
      ArrayText(elems, end);
      ArrayOpens(elems, end);
      ReadElemsFrom(elems, 0, rest);
      assert elems[..0] == [];
    }
  }

  lemma {:induction false} ArrayOpens(elems: seq<Doc>, end: string)
    requires elems != [] && WellText(elems[0])
    ensures var u := Print(RAW, elems[0]) + (ElemsFrom(elems, 1) + end); ReadValue("[" + u) == ReadElems(u, [])
  {
    var u := Print(RAW, elems[0]) + (ElemsFrom(elems, 1) + end);
    PrintStarts(elems[0]);
    assert u[0] == Print(RAW, elems[0])[0];
    ReadOpen('[', u);
  }

  lemma {:induction false} Enclosed(open: string, text: string, close: string, rest: string)
    ensures open + text + close + rest == open + (text + (close + rest))
  {
  }

  lemma {:induction false} ArrayText(elems: seq<Doc>, end: string)
    requires elems != []
    ensures PrintElems(RAW, elems) + end == Print(RAW, elems[0]) + (ElemsFrom(elems, 1) + end)
  {
    ElemsFromPrints(elems, 0);
    var first, more := Print(RAW, elems[0]), ElemsFrom(elems, 1);
    assert "" + ("" + first + more) == first + more;
    assert PrintElems(RAW, elems) == first + more;
    Appended(first, more, end);
  }

  lemma {:induction false} ReadElemsStep(s: string, acc: seq<Doc>, d: Doc, t: string)
    requires (forall i :: 0 <= i < |acc| ==> WellRead(acc[i])) && ReadValue(s) == Some((d, t))
    requires t != "" && (t[0] == ',' || t[0] == ']')
    ensures ReadElems(s, acc) == if t[0] == ',' then ReadElems(t[1..], acc + [d]) else Some((DArr(acc + [d]), t[1..]))
  {
    SkipNothing(t);
  }

  lemma {:induction false} NextElem(elems: seq<Doc>, k: nat, end: string)
    requires k + 1 < |elems|
    ensures ElemsFrom(elems, k + 1) + end == "," + (Print(RAW, elems[k + 1]) + (ElemsFrom(elems, k + 2) + end))
  {
    Enclosed(",", Print(RAW, elems[k + 1]), ElemsFrom(elems, k + 2), end);
  }

  /** Reading the elements from the k-th on, the ones before it having been read. */
  lemma {:induction false} ReadElemsFrom(elems: seq<Doc>, k: nat, rest: string)
    requires WellText(DArr(elems)) && k < |elems|
    ensures (forall i :: 0 <= i < k ==> WellRead(elems[..k][i]))
    ensures ReadElems(Print(RAW, elems[k]) + (ElemsFrom(elems, k + 1) + ("]" + rest)), elems[..k]) == Some((DArr(elems), rest))
    decreases elems, |elems| - k
  {
    WellTextIsRead(DArr(elems));
    var end := "]" + rest;
    var more := ElemsFrom(elems, k + 1) + end;
    assert elems[..k] + [elems[k]] == elems[..k + 1];
    if k + 1 == |elems| {
      assert more == end && end[1..] == rest && elems[..k + 1] == elems;
    } else {
      NextElem(elems, k, end);
      assert more[1..] == Print(RAW, elems[k + 1]) + (ElemsFrom(elems, k + 2) + end);
      ReadElemsFrom(elems, k + 1, rest);
    }
    ReadPrinted(elems[k], more);
    ReadElemsStep(Print(RAW, elems[k]) + more, elems[..k], elems[k], more);
  }

  lemma {:induction false} WellTextIsRead(d: Doc)
    requires WellText(d)
    ensures WellRead(d)
  {
    match d
    case DArr(elems) => forall i | 0 <= i < |elems| ensures WellRead(elems[i]) { WellTextIsRead(elems[i]); }
    case DObj(members) => forall i | 0 <= i < |members| ensures WellRead(members[i].value) { WellTextIsRead(members[i].value); }
    case _ =>
  }

  function MembersFrom(members: seq<DMember>, k: nat): string
    requires k <= |members|
    decreases |members| - k
  {
    if k == |members| then "" else MemberText(RAW, members[k], k) + MembersFrom(members, k + 1)
  }

  lemma {:induction false} MembersFromPrints(members: seq<DMember>, k: nat)
    requires k <= |members|
    ensures PrintMembers(RAW, members[..k]) + MembersFrom(members, k) == PrintMembers(RAW, members)
    decreases |members| - k
  {
    if k == |members| {
      assert members[..k] == members;
    } else {
      MembersFromPrints(members, k + 1);
      assert members[..k + 1][..k] == members[..k];
      Appended(PrintMembers(RAW, members[..k]), MemberText(RAW, members[k], k), MembersFrom(members, k + 1));
    }
  }

  /** The text of a member without the comma before it. */
  function BareMember(m: DMember): string {
    "\"" + m.key + "\"" + (":" + Print(RAW, m.value))
  }

  lemma {:induction false} MemberTextIs(m: DMember, n: nat)
    ensures MemberText(RAW, m, n) == (if n > 0 then "," else "") + BareMember(m)
  {
    Reassociate(if n > 0 then "," else "", "\"" + m.key + "\"", ":", Print(RAW, m.value));
    Appended("\"" + m.key + "\"", ":", Print(RAW, m.value));
  }

  lemma {:induction false} ReadMemberPrinted(m: DMember, rest: string)
    requires IsString(m.key) && WellText(m.value) && Ends(rest)
    ensures ReadMember(BareMember(m) + rest) == Some((m, rest))
    decreases m, 1
  {
    var value := Print(RAW, m.value) + rest;
    var s, t := BareMember(m) + rest, ":" + value;
    assert s == "\"" + m.key + "\"" + t;
    assert s[0] == '\"' && t[0] == ':' && t[1..] == value;
    SkipNothing(s);
    ReadStringPrinted(m.key, t);
    SkipNothing(t);
    ReadPrinted(m.value, rest);
  }

  lemma {:induction false} ReadObject(members: seq<DMember>, rest: string)
    requires WellText(DObj(members))
    ensures ReadValue(Print(RAW, DObj(members)) + rest) == Some((DObj(members), rest))
    decreases members, |members| + 1
  {
    var end := "}" + rest;
    Enclosed("{", PrintMembers(RAW, members), "}", rest);
    if members == [] {
      assert PrintMembers(RAW, members) + end == end;
      ReadEmpty('{', '}', rest);
    } else {
      ObjectText(members, end);
      ObjectOpens(members, end);
      ReadMembersFrom(members, 0, rest);
      assert members[..0] == [];
    }
  }

  lemma {:induction false} ObjectOpens(members: seq<DMember>, end: string)
    requires members != []
    ensures var u := BareMember(members[0]) + (MembersFrom(members, 1) + end); ReadValue("{" + u) == ReadMembers(u, [])
  {
    var u := BareMember(members[0]) + (MembersFrom(members, 1) + end);
    assert u[0] == '\"';
    ReadOpen('{', u);
  }

  lemma {:induction false} ObjectText(members: seq<DMember>, end: string)
    requires members != []
    ensures PrintMembers(RAW, members) + end == BareMember(members[0]) + (MembersFrom(members, 1) + end)
  {
    MembersFromPrints(members, 0);
    MemberTextIs(members[0], 0);
    var first, more := BareMember(members[0]), MembersFrom(members, 1);
    assert "" + (("" + first) + more) == first + more;
    assert PrintMembers(RAW, members) == first + more;
    Appended(first, more, end);
  }

  lemma {:induction false} ReadMembersStep(s: string, acc: seq<DMember>, m: DMember, t: string)
    requires forall i :: 0 <= i < |acc| ==> Unquote(acc[i].key).Some? && WellRead(acc[i].value)
    requires ReadMember(s) == Some((m, t)) && t != "" && (t[0] == ',' || t[0] == '}')
    ensures ReadMembers(s, acc) == if t[0] == ',' then ReadMembers(t[1..], acc + [m]) else Some((DObj(acc + [m]), t[1..]))
  {
    SkipNothing(t);
  }

  lemma {:induction false} NextMember(members: seq<DMember>, k: nat, end: string)
    requires k + 1 < |members|
    ensures MembersFrom(members, k + 1) + end == "," + (BareMember(members[k + 1]) + (MembersFrom(members, k + 2) + end))
  {
    MemberTextIs(members[k + 1], k + 1);
    Enclosed(",", BareMember(members[k + 1]), MembersFrom(members, k + 2), end);
  }

  lemma {:induction false} ReadMembersFrom(members: seq<DMember>, k: nat, rest: string)
    requires WellText(DObj(members)) && k < |members|
    ensures (forall i :: 0 <= i < k ==> Unquote(members[..k][i].key).Some? && WellRead(members[..k][i].value))
    ensures ReadMembers(BareMember(members[k]) + (MembersFrom(members, k + 1) + ("}" + rest)), members[..k])
            == Some((DObj(members), rest))
    decreases members, |members| - k
  {
    WellTextIsRead(DObj(members));
    var end := "}" + rest;
    var more := MembersFrom(members, k + 1) + end;
    assert members[..k] + [members[k]] == members[..k + 1];
    if k + 1 == |members| {
      assert more == end && end[1..] == rest && members[..k + 1] == members;
    } else {
      NextMember(members, k, end);
      assert more[1..] == BareMember(members[k + 1]) + (MembersFrom(members, k + 2) + end);
      ReadMembersFrom(members, k + 1, rest);
    }
    ReadMemberPrinted(members[k], more);
    ReadMembersStep(BareMember(members[k]) + more, members[..k], members[k], more);
  }

  /** The text of a document reads back as the document. */
  lemma ReadTextPrinted(d: Doc)
    requires WellText(d)
    ensures ReadText(Print(RAW, d)) == Some(d)
  {
    assert Print(RAW, d) + "" == Print(RAW, d);
    ReadPrinted(d, "");
  }

  // Stored documents

  /** A document with each literal in the form it is stored in. */
  function Stored(parse: FloatParser, d: Doc): Doc {
    match d
    case DNum(lit) => DNum(LeafText(l => NormalizeNumber(parse, l), lit))
    case DStr(body) => DStr(Escape(Decoded(body)))
    case DArr(elems) => DArr(StoredElems(parse, elems))
    case DObj(members) => DObj(StoredMembers(parse, members))
    case _ => d
  }

  function StoredElems(parse: FloatParser, elems: seq<Doc>): (r: seq<Doc>)
    ensures |r| == |elems|
  {
    if elems == [] then [] else StoredElems(parse, elems[..|elems| - 1]) + [Stored(parse, elems[|elems| - 1])]
  }

  function StoredMembers(parse: FloatParser, members: seq<DMember>): (r: seq<DMember>)
    ensures |r| == |members|
  {
    if members == [] then []
    else
      var m := members[|members| - 1];
      StoredMembers(parse, members[..|members| - 1]) + [DMember(Escape(Decoded(m.key)), Stored(parse, m.value))]
  }

  lemma {:induction false} EscapeIsClosed(s: string)
    ensures Closed(Escape(s))
  {
    if s != "" {
      EscapeIsClosed(s[1..]);
      ClosedAfter(EscapeChar(s[0]), Escape(s[1..]));
    }
  }

  /** The text of one character leaves what follows it as closed as it was. */
  lemma ClosedAfter(e: string, rest: string)
    requires exists c :: e == EscapeChar(c)
    requires Closed(rest)
    ensures Closed(e + rest)
  {
    var c :| e == EscapeChar(c);
    var s := e + rest;
    if |e| == 1 {
      assert s[1..] == rest;
    } else if |e| == 2 {
      assert s[2..] == rest;
    } else {
      ClosedCons(e[5], rest);
      ClosedCons(e[4], [e[5]] + rest);
      ClosedCons('0', [e[4]] + ([e[5]] + rest));
      ClosedCons('0', ['0'] + ([e[4]] + ([e[5]] + rest)));
      assert s[2..] == ['0'] + (['0'] + ([e[4]] + ([e[5]] + rest)));
    }
  }

  lemma ClosedCons(c: char, rest: string)
    requires c != '\"' && c != '\\' && Closed(rest)
    ensures Closed([c] + rest)
  {
    assert ([c] + rest)[1..] == rest;
  }

  lemma {:induction false} PlainIsNumber(whole: string, frac: string)
    requires whole != "" && frac != "" && AllDigits(whole) && AllDigits(frac) && (|whole| == 1 || whole[0] != '0')
    ensures IsNumber(whole + "." + frac)
  {
    ReadPlain(whole, frac);
  }

  lemma {:induction false} CharsConcat(a: string, b: string)
    requires NumberChars(a) && NumberChars(b)
    ensures NumberChars(a + b)
  {
  }

  lemma {:induction false} ItoaChars(n: int)
    ensures NumberChars(Itoa(n)) && '.' !in Itoa(n)
  {
    assert forall c :: c in Itoa(n) ==> IsDigit(c) || c == '-';
  }

  lemma {:induction false} ScientificChars(first: char, frac: string, exp: int)
    requires IsDigit(first) && AllDigits(frac)
    ensures NumberChars(Scientific(first, frac, exp)) && (frac == "" ==> '.' !in Scientific(first, frac, exp))
  {
    var (mantissa, sign) := (Mantissa(first, frac), if exp > 0 then "+" else "");
    ItoaChars(exp);
    assert NumberChars(mantissa) && NumberChars("e") && NumberChars(sign);
    CharsConcat(mantissa, "e");
    CharsConcat(mantissa + "e", sign);
    CharsConcat(mantissa + "e" + sign, Itoa(exp));
  }

  lemma {:induction false} ScientificIsNumber(first: char, frac: string, exp: int)
    requires IsDigit(first) && AllDigits(frac)
    ensures IsNumber(Scientific(first, frac, exp))
  {
    ReadScientific(first, frac, exp);
    ScientificChars(first, frac, exp);
  }

  lemma {:induction false} IntegralIsNumber(digits: string, n: int)
    requires digits != "" && AllDigits(digits) && digits[0] != '0' && |digits| <= n <= 21
    ensures IsNumber(Magnitude(digits, n))
  {
    var whole := digits + Zeros(n - |digits|);
    assert whole[0] == digits[0] && AllDigits(whole);
    PlainIsNumber(whole, "0");
    assert Magnitude(digits, n) == whole + "." + "0";
  }

  lemma {:induction false} SmallIsNumber(digits: string, n: int)
    requires digits != "" && AllDigits(digits) && -6 < n <= 0
    ensures IsNumber(Magnitude(digits, n))
  {
    SmallText(digits, n);
    assert AllDigits(Zeros(-n) + digits);
    PlainIsNumber("0", Zeros(-n) + digits);
  }

  lemma {:induction false} PointInsideIsNumber(digits: string, n: int)
    requires AllDigits(digits) && 0 < n < |digits| && digits[0] != '0' && n <= 21
    ensures IsNumber(Magnitude(digits, n))
  {
    PlainIsNumber(digits[..n], digits[n..]);
  }

  lemma {:induction false} ExponentIsNumber(digits: string, n: int)
    requires digits != "" && AllDigits(digits) && !IsPlainLayout(n)
    ensures IsNumber(Magnitude(digits, n))
  {
    ScientificIsNumber(digits[0], digits[1..], n - 1);
  }

  lemma {:induction false} MagnitudeIsNumber(digits: string, n: int)
    requires digits != "" && AllDigits(digits) && digits[0] != '0'
    ensures IsNumber(Magnitude(digits, n))
  {
    if |digits| <= n <= 21 {
      IntegralIsNumber(digits, n);
    } else if 0 < n <= 21 {
      PointInsideIsNumber(digits, n);
    } else if -6 < n <= 0 {
      SmallIsNumber(digits, n);
    } else {
      ExponentIsNumber(digits, n);
    }
  }

  lemma {:induction false} SignedIsNumber(m: string)
    requires IsNumber(m) && m[0] != '-'
    ensures IsNumber("-" + m)
  {
    ReadNegative(m);
  }

  lemma {:induction false} WrittenIsNumber(lit: string, neg: bool, digits: string, n: int, m: string)
    requires digits != "" && AllDigits(digits) && digits[0] != '0' && m == Magnitude(digits, n)
    requires lit == if neg then "-" + m else m
    ensures IsNumber(lit)
  {
    MagnitudeIsNumber(digits, n);
    MagnitudeStartsWithDigit(digits, n);
    if neg {
      SignedIsNumber(m);
    }
  }

  lemma {:induction false} ZeroTextIsNumber(lit: string, zero: string)
    requires zero == "0" && lit == zero + "." + zero
    ensures IsNumber(lit)
  {
    PlainIsNumber(zero, zero);
  }

  lemma {:induction false} NormalIsNumber(d: Double)
    requires WellFormed(d) && !TooSmall(d)
    ensures IsNumber(Layout(d))
  {
    NormalLayout(d);
    WrittenIsNumber(Layout(d), d.neg, d.digits, d.exp + 1, Magnitude(d.digits, d.exp + 1));
  }

  /** What is written for a double is a number. */
  lemma {:induction false} LayoutIsNumber(d: Double)
    requires WellFormed(d)
    ensures IsNumber(Layout(d))
  {
    if TooSmall(d) {
      ZeroTextIsNumber(Layout(d), "0");
    } else {
      NormalIsNumber(d);
    }
  }

  lemma ZeroIsNumber()
    ensures IsNumber("0")
  {
    CutPlainFraction("0", "");
    NoExponent("0");
    ReadFrom("0", "0", "0", "", 0);
  }

  lemma {:induction false} FloatStays(parse: FloatParser, lit: string, d: Double, out: string)
    requires IsFloatLiteral(lit) && WellFormed(d) && parse(lit) == Some(d) && out == Layout(d)
    ensures IsNumber(out)
  {
    LayoutIsNumber(d);
  }

  lemma {:induction false} IntegerStays(lit: string, out: string)
    requires IsNumber(lit) && out == (if lit == "-0" then "0" else lit)
    ensures IsNumber(out)
  {
    ZeroIsNumber();
  }

  lemma {:induction false} NumberStays(parse: FloatParser, lit: string)
    requires IsNumber(lit) && NormalizeNumber(parse, lit).Some?
    ensures IsNumber(NormalizeNumber(parse, lit).value)
  {
    var out := NormalizeNumber(parse, lit).value;
    if IsFloatLiteral(lit) {
      FloatStays(parse, lit, parse(lit).value, out);
    } else {
      IntegerStays(lit, out);
    }
  }

  /** A literal in the form it is stored in: re-encoding it gives it back, and it reads as one literal. */
  predicate StringFixed(body: string) {
    StringText(body) == RawString(body) && IsString(body)
  }

  predicate NumberFixed(parse: FloatParser, lit: string) {
    NormalizeNumber(parse, lit) == Some(lit) && IsNumber(lit)
  }

  predicate Fixed(parse: FloatParser, d: Doc) {
    match d
    case DNum(lit) => NumberFixed(parse, lit)
    case DStr(body) => StringFixed(body)
    case DArr(elems) => ElemsFixed(parse, elems)
    case DObj(members) => MembersFixed(parse, members)
    case _ => true
  }

  predicate ElemsFixed(parse: FloatParser, elems: seq<Doc>) {
    elems == [] || (ElemsFixed(parse, elems[..|elems| - 1]) && Fixed(parse, elems[|elems| - 1]))
  }

  predicate MembersFixed(parse: FloatParser, members: seq<DMember>) {
    members == [] ||
    var m := members[|members| - 1];
    MembersFixed(parse, members[..|members| - 1]) && StringFixed(m.key) && Fixed(parse, m.value)
  }

  lemma EscapeIsFixed(s: string)
    ensures StringFixed(Escape(s))
  {
    EscapeIsClosed(s);
    UnquoteEscape(s);
    NormalizeBodyIsEscape(Escape(s));
  }

  lemma StoredNumberIsFixed(parse: FloatParser, lit: string)
    requires Faithful(parse) && IsNumber(lit) && NormalizeNumber(parse, lit).Some?
    ensures NumberFixed(parse, NormalizeNumber(parse, lit).value)
  {
    NumberIsStable(parse, lit);
    NumberStays(parse, lit);
  }

  /** Every literal of a stored document is in stored form. */
  lemma {:induction false} StoredIsFixed(parse: FloatParser, d: Doc)
    requires Faithful(parse) && WellRead(d) && InRange(parse, d)
    ensures Fixed(parse, Stored(parse, d))
    decreases d, 0
  {
    match d
    case DNum(lit) => StoredNumberIsFixed(parse, lit);
    case DStr(body) => EscapeIsFixed(Decoded(body));
    case DArr(elems) => StoredElemsFixed(parse, elems);
    case DObj(members) => StoredMembersFixed(parse, members);
    case _ =>
  }

  lemma {:induction false} StoredElemsFixed(parse: FloatParser, elems: seq<Doc>)
    requires Faithful(parse) && ElemsInRange(parse, elems) && forall i :: 0 <= i < |elems| ==> WellRead(elems[i])
    ensures ElemsFixed(parse, StoredElems(parse, elems))
    decreases elems, 1
  {
    if elems != [] {
      var n := |elems| - 1;
      StoredElemsFixed(parse, elems[..n]);
      StoredIsFixed(parse, elems[n]);
      assert StoredElems(parse, elems)[..n] == StoredElems(parse, elems[..n]);
    }
  }

  lemma {:induction false} StoredMembersFixed(parse: FloatParser, members: seq<DMember>)
    requires Faithful(parse) && MembersInRange(parse, members)
    requires forall i :: 0 <= i < |members| ==> WellRead(members[i].value)
    ensures MembersFixed(parse, StoredMembers(parse, members))
    decreases members, 1
  {
    if members != [] {
      var n := |members| - 1;
      var m := members[n];
      StoredMembersFixed(parse, members[..n]);
      StoredIsFixed(parse, m.value);
      assert StoredMembers(parse, members)[..n] == StoredMembers(parse, members[..n]);
      EscapeIsFixed(Decoded(m.key));
    }
  }

  /** A stored document is written as it stands, whole and without refusal. */
  lemma {:induction false} FixedPrints(parse: FloatParser, d: Doc)
    requires Fixed(parse, d)
    ensures AllEncode(StoredForm(parse), d) && Print(StoredForm(parse), d) == Print(RAW, d) && WellText(d)
    decreases d, 0
  {
    match d
    case DArr(elems) => FixedElemsPrint(parse, elems);
    case DObj(members) => FixedMembersPrint(parse, members);
    case _ =>
  }

  lemma {:induction false} FixedElemsPrint(parse: FloatParser, elems: seq<Doc>)
    requires ElemsFixed(parse, elems)
    ensures ElemsEncode(StoredForm(parse), elems) && PrintElems(StoredForm(parse), elems) == PrintElems(RAW, elems)
    ensures forall i :: 0 <= i < |elems| ==> WellText(elems[i])
    decreases elems, 1
  {
    if elems != [] {
      var n := |elems| - 1;
      FixedElemsPrint(parse, elems[..n]);
      FixedPrints(parse, elems[n]);
      FixedSnoc(parse, elems, elems[..n], elems[n]);
    }
  }

  lemma {:induction false} FixedSnoc(parse: FloatParser, elems: seq<Doc>, front: seq<Doc>, last: Doc)
    requires elems != [] && front == elems[..|elems| - 1] && last == elems[|elems| - 1]
    requires ElemsEncode(StoredForm(parse), front) && PrintElems(StoredForm(parse), front) == PrintElems(RAW, front)
    requires AllEncode(StoredForm(parse), last) && Print(StoredForm(parse), last) == Print(RAW, last) && WellText(last)
    requires forall i :: 0 <= i < |front| ==> WellText(front[i])
    ensures ElemsEncode(StoredForm(parse), elems) && PrintElems(StoredForm(parse), elems) == PrintElems(RAW, elems)
    ensures forall i :: 0 <= i < |elems| ==> WellText(elems[i])
  {
    assert forall i :: 0 <= i < |front| ==> front[i] == elems[i];
  }

  lemma {:induction false} FixedMembersPrint(parse: FloatParser, members: seq<DMember>)
    requires MembersFixed(parse, members)
    ensures MembersEncode(StoredForm(parse), members) && PrintMembers(StoredForm(parse), members) == PrintMembers(RAW, members)
    ensures forall i :: 0 <= i < |members| ==> IsString(members[i].key) && WellText(members[i].value)
    decreases members, 1
  {
    if members != [] {
      var n := |members| - 1;
      FixedMembersPrint(parse, members[..n]);
      FixedPrints(parse, members[n].value);
      assert forall i :: 0 <= i < n ==> members[..n][i] == members[i];
    }
  }

  /** The text of the stored document is what is written for the document as sent. */
  lemma {:induction false} StoredPrints(parse: FloatParser, d: Doc)
    requires Lexical(d)
    requires AllEncode(StoredForm(parse), d)
    ensures Print(RAW, Stored(parse, d)) == Print(StoredForm(parse), d)
    decreases d, 0
  {
    match d
    case DStr(body) => NormalizeBodyIsEscape(body);
    case DArr(elems) => StoredElemsPrint(parse, elems);
    case DObj(members) => StoredMembersPrint(parse, members);
    case _ =>
  }

  lemma {:induction false} StoredElemsPrint(parse: FloatParser, elems: seq<Doc>)
    requires (forall i :: 0 <= i < |elems| ==> Lexical(elems[i])) && ElemsEncode(StoredForm(parse), elems)
    ensures PrintElems(RAW, StoredElems(parse, elems)) == PrintElems(StoredForm(parse), elems)
    decreases elems, 1
  {
    if elems != [] {
      var n := |elems| - 1;
      StoredElemsPrint(parse, elems[..n]);
      StoredPrints(parse, elems[n]);
      assert StoredElems(parse, elems)[..n] == StoredElems(parse, elems[..n]);
    }
  }

  lemma {:induction false} StoredMembersPrint(parse: FloatParser, members: seq<DMember>)
    requires forall i :: 0 <= i < |members| ==> Unquote(members[i].key).Some? && Lexical(members[i].value)
    requires MembersEncode(StoredForm(parse), members)
    ensures PrintMembers(RAW, StoredMembers(parse, members)) == PrintMembers(StoredForm(parse), members)
    decreases members, 1
  {
    if members != [] {
      var n := |members| - 1;
      StoredMembersPrint(parse, members[..n]);
      StoredPrints(parse, members[n].value);
      NormalizeBodyIsEscape(members[n].key);
      assert StoredMembers(parse, members)[..n] == StoredMembers(parse, members[..n]);
    }
  }

  lemma {:induction false} WellReadIsLexical(d: Doc)
    requires WellRead(d)
    ensures Lexical(d)
  {
    match d
    case DArr(elems) => forall i | 0 <= i < |elems| ensures Lexical(elems[i]) { WellReadIsLexical(elems[i]); }
    case DObj(members) => forall i | 0 <= i < |members| ensures Lexical(members[i].value) { WellReadIsLexical(members[i].value); }
    case _ =>
  }

  /** Normalize on text: None when the text is no document, or holds a number out of range. */
  function NormalizeText(parse: FloatParser, s: string): Option<string> {
    match ReadText(s)
    case None => None
    case Some(d) => Machine(StoredForm(parse), Toks(d), [], "")
  }

  /** For every text, Normalize is Marshal after Parse, with the same refusals. */
  lemma TextIsMarshalParse(parse: FloatParser, s: string)
    ensures NormalizeText(parse, s) ==
            match ReadText(s)
            case None => None
            case Some(d) => if InRange(parse, d) then Some(Marshal(parse, Tree(d))) else None
    ensures ReadText(s).Some? ==> ChefJson.Parse(Toks(ReadText(s).value)) == Some(Tree(ReadText(s).value))
  {
    if ReadText(s).Some? {
      var d := ReadText(s).value;
      WellReadIsLexical(d);
      NormalizeIsMarshalParse(parse, d, []);
      assert Toks(d) + [] == Toks(d);
    }
  }

  /** What is written for a document is the text of its stored form, and reads back as that. */
  lemma {:induction false} NormalizedReads(parse: FloatParser, d: Doc)
    requires Faithful(parse) && WellRead(d) && Machine(StoredForm(parse), Toks(d), [], "").Some?
    ensures var e := Stored(parse, d);
            Machine(StoredForm(parse), Toks(d), [], "") == Some(Print(RAW, e)) && ReadText(Print(RAW, e)) == Some(e) && Fixed(parse, e)
  {
    var enc := StoredForm(parse);
    WellReadIsLexical(d);
    RunDoc(enc, d, [], [], "");
    assert Toks(d) + [] == Toks(d) && "" + Sep([]) + Print(enc, d) == Print(enc, d);
    PrintIsMarshal(parse, d);
    StoredIsFixed(parse, d);
    StoredPrints(parse, d);
    FixedPrints(parse, Stored(parse, d));
    ReadTextPrinted(Stored(parse, d));
  }

  /** Normalize is idempotent: for every text, what it writes is a document that normalizes to itself. */
  lemma {:induction false} NormalizeIsIdempotent(parse: FloatParser, s: string)
    requires Faithful(parse) && NormalizeText(parse, s).Some?
    ensures var out := NormalizeText(parse, s).value; NormalizeText(parse, out) == Some(out)
  {
    var d := ReadText(s).value;
    var e, enc := Stored(parse, d), StoredForm(parse);
    NormalizedReads(parse, d);
    FixedPrints(parse, e);
    RunDoc(enc, e, [], [], "");
    assert Toks(e) + [] == Toks(e) && "" + Sep([]) + Print(enc, e) == Print(enc, e);
  }

  // Writing a tree and reading it back

  /** The document that is written for a tree whose numbers are in stored form. */
  function DocOf(v: Json): Doc {
    match v
    case Null => DNull
    case Bool(b) => DBool(b)
    case Num(lit) => DNum(lit)
    case Str(s) => DStr(Escape(s))
    case Arr(elems) => DArr(DocsOf(elems))
    case Obj(members) => DObj(MembersOf(members))
  }

  function DocsOf(elems: seq<Json>): (ds: seq<Doc>)
    ensures |ds| == |elems|
  {
    if elems == [] then [] else DocsOf(elems[..|elems| - 1]) + [DocOf(elems[|elems| - 1])]
  }

  function MembersOf(members: seq<Member>): (ds: seq<DMember>)
    ensures |ds| == |members|
  {
    if members == [] then []
    else
      var m := members[|members| - 1];
      MembersOf(members[..|members| - 1]) + [DMember(Escape(m.name), DocOf(m.value))]
  }

  /** Every number of a tree is in stored form. */
  predicate NumbersFixed(parse: FloatParser, v: Json) {
    match v
    case Num(lit) => NumberFixed(parse, lit)
    case Arr(elems) => forall i :: 0 <= i < |elems| ==> NumbersFixed(parse, elems[i])
    case Obj(members) => forall i :: 0 <= i < |members| ==> NumbersFixed(parse, members[i].value)
    case _ => true
  }

  lemma {:induction false} DocOfIsTree(v: Json)
    ensures Tree(DocOf(v)) == v
    decreases v, 0
  {
    match v
    case Str(s) => UnquoteEscape(s);
    case Arr(elems) => DocsOfAreTrees(elems);
    case Obj(members) => MembersOfAreTrees(members);
    case _ =>
  }

  lemma {:induction false} DocsOfAreTrees(elems: seq<Json>)
    ensures Trees(DocsOf(elems)) == elems
    decreases elems, 1
  {
    if elems != [] {
      var n := |elems| - 1;
      DocsOfAreTrees(elems[..n]);
      DocOfIsTree(elems[n]);
      assert DocsOf(elems)[..n] == DocsOf(elems[..n]) && elems[..n] + [elems[n]] == elems;
    }
  }

  lemma {:induction false} MembersOfAreTrees(members: seq<Member>)
    ensures MemberTrees(MembersOf(members)) == members
    decreases members, 1
  {
    if members != [] {
      var n := |members| - 1;
      var m := members[n];
      var d := DMember(Escape(m.name), DocOf(m.value));
      MembersOfAreTrees(members[..n]);
      DocOfIsTree(m.value);
      KeyIsName(m, d);
      MemberTreesSnoc(MembersOf(members[..n]), d);
      assert members[..n] + [m] == members;
    }
  }

  lemma {:induction false} KeyIsName(m: Member, d: DMember)
    requires d.key == Escape(m.name) && Tree(d.value) == m.value
    ensures Member(Decoded(d.key), Tree(d.value)) == m
  {
    UnquoteEscape(m.name);
  }

  lemma {:induction false} MemberTreesSnoc(ds: seq<DMember>, d: DMember)
    ensures MemberTrees(ds + [d]) == MemberTrees(ds) + [Member(Decoded(d.key), Tree(d.value))]
  {
    assert (ds + [d])[..|ds|] == ds;
  }

  lemma {:induction false} DocOfIsFixed(parse: FloatParser, v: Json)
    requires NumbersFixed(parse, v)
    ensures Fixed(parse, DocOf(v))
    decreases v, 0
  {
    match v
    case Str(s) => EscapeIsFixed(s);
    case Arr(elems) => DocsOfAreFixed(parse, elems);
    case Obj(members) => MembersOfAreFixed(parse, members);
    case _ =>
  }

  lemma {:induction false} DocsOfAreFixed(parse: FloatParser, elems: seq<Json>)
    requires forall i :: 0 <= i < |elems| ==> NumbersFixed(parse, elems[i])
    ensures ElemsFixed(parse, DocsOf(elems))
    decreases elems, 1
  {
    if elems != [] {
      var n := |elems| - 1;
      DocsOfAreFixed(parse, elems[..n]);
      DocOfIsFixed(parse, elems[n]);
      assert DocsOf(elems)[..n] == DocsOf(elems[..n]);
    }
  }

  lemma {:induction false} MembersOfAreFixed(parse: FloatParser, members: seq<Member>)
    requires forall i :: 0 <= i < |members| ==> NumbersFixed(parse, members[i].value)
    ensures MembersFixed(parse, MembersOf(members))
    decreases members, 1
  {
    if members != [] {
      var n := |members| - 1;
      MembersOfAreFixed(parse, members[..n]);
      DocOfIsFixed(parse, members[n].value);
      EscapeIsFixed(members[n].name);
      assert MembersOf(members)[..n] == MembersOf(members[..n]);
    }
  }

  /** The numbers of a stored document are in stored form. */
  lemma {:induction false} FixedNumbers(parse: FloatParser, d: Doc)
    requires Fixed(parse, d)
    ensures NumbersFixed(parse, Tree(d))
    decreases d, 0
  {
    match d
    case DArr(elems) => FixedElemNumbers(parse, elems);
    case DObj(members) => FixedMemberNumbers(parse, members);
    case _ =>
  }

  lemma {:induction false} FixedElemNumbers(parse: FloatParser, elems: seq<Doc>)
    requires ElemsFixed(parse, elems)
    ensures forall i :: 0 <= i < |elems| ==> NumbersFixed(parse, Trees(elems)[i])
    decreases elems, 1
  {
    if elems != [] {
      var n := |elems| - 1;
      FixedElemNumbers(parse, elems[..n]);
      FixedNumbers(parse, elems[n]);
    }
  }

  lemma {:induction false} FixedMemberNumbers(parse: FloatParser, members: seq<DMember>)
    requires MembersFixed(parse, members)
    ensures forall i :: 0 <= i < |members| ==> NumbersFixed(parse, MemberTrees(members)[i].value)
    decreases members, 1
  {
    if members != [] {
      var n := |members| - 1;
      FixedMemberNumbers(parse, members[..n]);
      FixedNumbers(parse, members[n].value);
    }
  }

  /** Marshal and Parse are inverse: what is written for a tree with stored numbers reads back as that tree, and
      normalizes to itself. */
  lemma MarshalReads(parse: FloatParser, v: Json)
    requires NumbersFixed(parse, v)
    ensures var out := Marshal(parse, v);
            ReadText(out).Some? && Tree(ReadText(out).value) == v && NormalizeText(parse, out) == Some(out)
  {
    var d := DocOf(v);
    DocOfIsTree(v);
    DocOfIsFixed(parse, v);
    FixedPrints(parse, d);
    ReadTextPrinted(d);
    WellReadIsLexical(d);
    PrintIsMarshal(parse, d);
    TextIsMarshalParse(parse, Marshal(parse, v));
  }

  /** The tree of a text that normalizes to itself has its numbers in stored form. */
  lemma StoredTextNumbers(parse: FloatParser, s: string)
    requires Faithful(parse) && NormalizeText(parse, s) == Some(s)
    ensures NumbersFixed(parse, Tree(ReadText(s).value))
  {
    var d := ReadText(s).value;
    NormalizedReads(parse, d);
    FixedNumbers(parse, d);
  }
}
