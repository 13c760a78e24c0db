/** Streaming normalisation equals the tree form. */
module Normalization {
  import opened Prelude
  import opened JsonString
  import opened ChefJson

  // A document printed by the same encoder

  function LeafText(f: string -> Option<string>, lit: string): string {
    match f(lit)
    case None => ""
    case Some(text) => text
  }

  /** A document written compactly, each literal re-encoded. */
  function Print(enc: Encoder, d: Doc): string {
    match d
    case DNull => "null"
    case DBool(b) => if b then "true" else "false"
    case DNum(lit) => LeafText(enc.num, lit)
    case DStr(body) => LeafText(enc.str, body)
    case DArr(elems) => "[" + PrintElems(enc, elems) + "]"
    case DObj(members) => "{" + PrintMembers(enc, members) + "}"
  }

  function PrintElems(enc: Encoder, elems: seq<Doc>): string {
    if elems == [] then ""
    else
      var n := |elems| - 1;
      PrintElems(enc, elems[..n]) + (if n > 0 then "," else "") + Print(enc, elems[n])
  }

  function PrintMembers(enc: Encoder, members: seq<DMember>): string {
    if members == [] then ""
    else
      var n := |members| - 1;
      PrintMembers(enc, members[..n]) + MemberText(enc, members[n], n)
  }

  /** The text of one member, with the comma before it unless it is the first. */
  function MemberText(enc: Encoder, m: DMember, n: nat): string {
    (if n > 0 then "," else "") + LeafText(enc.str, m.key) + ":" + Print(enc, m.value)
  }

  /** No literal of the document is refused. */
  predicate AllEncode(enc: Encoder, d: Doc) {
    match d
    case DNum(lit) => enc.num(lit).Some?
    case DStr(body) => enc.str(body).Some?
    case DArr(elems) => ElemsEncode(enc, elems)
    case DObj(members) => MembersEncode(enc, members)
    case _ => true
  }

  predicate ElemsEncode(enc: Encoder, elems: seq<Doc>) {
    elems == [] || (ElemsEncode(enc, elems[..|elems| - 1]) && AllEncode(enc, elems[|elems| - 1]))
  }

  predicate MembersEncode(enc: Encoder, members: seq<DMember>) {
    members == [] ||
    var m := members[|members| - 1];
    MembersEncode(enc, members[..|members| - 1]) && enc.str(m.key).Some? && AllEncode(enc, m.value)
  }

  // The machine prints

  /** One token that is a value by itself. */
  lemma StepScalar(enc: Encoder, t: Token, rest: seq<Token>, stack: seq<Frame>, out: string)
    requires !t.EndObj? && !t.EndArr? && !t.BeginObj? && !t.BeginArr?
    ensures Machine(enc, [t] + rest, stack, out) ==
            if ScalarText(enc, t).None? then None
            else Continue(enc, rest, Bump(stack), out + Sep(stack) + ScalarText(enc, t).value)
  {
    assert ([t] + rest)[1..] == rest;
  }

  lemma StepBegin(enc: Encoder, isObject: bool, rest: seq<Token>, stack: seq<Frame>, out: string)
    ensures Machine(enc, [if isObject then BeginObj else BeginArr] + rest, stack, out) ==
            Machine(enc, rest, Bump(stack) + [Frame(isObject, 0)], out + Sep(stack) + (if isObject then "{" else "["))
  {
    var t := if isObject then BeginObj else BeginArr;
    assert ([t] + rest)[1..] == rest;
  }

  lemma StepEnd(enc: Encoder, f: Frame, rest: seq<Token>, below: seq<Frame>, out: string)
    ensures Machine(enc, [if f.isObject then EndObj else EndArr] + rest, below + [f], out) ==
            Continue(enc, rest, below, out + (if f.isObject then "}" else "]"))
  {
    var t := if f.isObject then EndObj else EndArr;
    assert ([t] + rest)[1..] == rest && (below + [f])[..|below + [f]| - 1] == below;
  }

  lemma TopFrame(below: seq<Frame>, f: Frame)
    ensures Bump(below + [f]) == below + [f.(n := f.n + 1)]
    ensures Sep(below + [f]) == if f.isObject && f.n % 2 == 1 then ":" else if f.n > 0 then "," else ""
  {
    var stack := below + [f];
    assert stack[..|stack| - 1] == below && stack[|stack| - 1] == f;
  }

  lemma Wrapped(out: string, begin: string, text: string, end: string)
    ensures out + begin + text + end == out + (begin + text + end)
  {
  }

  /** Running the stream of a document from any state writes the document's tree after the separator, or fails when one
      of its numbers is out of range. */
  lemma {:induction false} RunDoc(enc: Encoder, d: Doc, rest: seq<Token>, stack: seq<Frame>, out: string)
    ensures Machine(enc, Toks(d) + rest, stack, out) ==
            if AllEncode(enc, d) then Continue(enc, rest, Bump(stack), out + Sep(stack) + Print(enc, d)) else None
    decreases d, 0
  {
    match d
    case DArr(elems) => RunArray(enc, elems, rest, stack, out);
    case DObj(members) => RunObject(enc, members, rest, stack, out);
    case _ => StepScalar(enc, Toks(d)[0], rest, stack, out);
  }

  lemma {:induction false} RunArray(enc: Encoder, elems: seq<Doc>, rest: seq<Token>, stack: seq<Frame>, out: string)
    ensures Machine(enc, Toks(DArr(elems)) + rest, stack, out) ==
            if ElemsEncode(enc, elems)
            then Continue(enc, rest, Bump(stack), out + Sep(stack) + Print(enc, DArr(elems))) else None
    decreases elems, 2
  {
    var after := [EndArr] + rest;
    var begun := out + Sep(stack) + "[";
    assert Toks(DArr(elems)) + rest == [BeginArr] + (ElemToks(elems) + after);
    StepBegin(enc, false, ElemToks(elems) + after, stack, out);
    RunElems(enc, elems, after, Bump(stack), begun);
    var text := PrintElems(enc, elems);
    StepEnd(enc, Frame(false, |elems|), rest, Bump(stack), begun + text);
    Wrapped(out + Sep(stack), "[", text, "]");
  }

  lemma {:induction false} PrintLastElem(enc: Encoder, elems: seq<Doc>, out: string)
    requires elems != []
    ensures var n := |elems| - 1;
            out + PrintElems(enc, elems[..n]) + (if n > 0 then "," else "") + Print(enc, elems[n]) == out + PrintElems(enc, elems)
  {
  }

  lemma {:induction false} RunElems(enc: Encoder, elems: seq<Doc>, rest: seq<Token>, below: seq<Frame>, out: string)
    ensures Machine(enc, ElemToks(elems) + rest, below + [Frame(false, 0)], out) ==
            if ElemsEncode(enc, elems)
            then Machine(enc, rest, below + [Frame(false, |elems|)], out + PrintElems(enc, elems)) else None
    decreases elems, 1
  {
    if elems == [] {
      assert ElemToks(elems) + rest == rest && out + PrintElems(enc, elems) == out;
    } else {
      var n := |elems| - 1;
      var prefix, last := elems[..n], elems[n];
      assert ElemToks(elems) + rest == ElemToks(prefix) + (Toks(last) + rest);
      RunElems(enc, prefix, Toks(last) + rest, below, out);
      if ElemsEncode(enc, prefix) {
        var sofar := out + PrintElems(enc, prefix);
        TopFrame(below, Frame(false, n));
        RunDoc(enc, last, rest, below + [Frame(false, n)], sofar);
        PrintLastElem(enc, elems, out);
      }
    }
  }

  lemma {:induction false} RunObject(enc: Encoder, members: seq<DMember>, rest: seq<Token>, stack: seq<Frame>, out: string)
    ensures Machine(enc, Toks(DObj(members)) + rest, stack, out) ==
            if MembersEncode(enc, members)
            then Continue(enc, rest, Bump(stack), out + Sep(stack) + Print(enc, DObj(members))) else None
    decreases members, 2
  {
    var after := [EndObj] + rest;
    var begun := out + Sep(stack) + "{";
    assert Toks(DObj(members)) + rest == [BeginObj] + (MemberToks(members) + after);
    StepBegin(enc, true, MemberToks(members) + after, stack, out);
    RunMembers(enc, members, after, Bump(stack), begun);
    var text := PrintMembers(enc, members);
    StepEnd(enc, Frame(true, 2 * |members|), rest, Bump(stack), begun + text);
    Wrapped(out + Sep(stack), "{", text, "}");
  }

  lemma {:induction false} RunMembers(enc: Encoder, members: seq<DMember>, rest: seq<Token>, below: seq<Frame>, out: string)
    ensures Machine(enc, MemberToks(members) + rest, below + [Frame(true, 0)], out) ==
            if MembersEncode(enc, members)
            then Machine(enc, rest, below + [Frame(true, 2 * |members|)], out + PrintMembers(enc, members))
            else None
    decreases members, 1
  {
    if members == [] {
      assert MemberToks(members) + rest == rest && out + PrintMembers(enc, members) == out;
    } else {
      var n := |members| - 1;
      var prefix, m := members[..n], members[n];
      var left := [StrTok(m.key)] + (Toks(m.value) + rest);
      LastMemberToks(members, rest);
      LastMember(enc, members, out);
      RunMembers(enc, prefix, left, below, out);
      if MembersEncode(enc, prefix) {
        RunLast(enc, m, n, rest, below, out + PrintMembers(enc, prefix), out + PrintMembers(enc, members), 2 * |members|);
      }
    }
  }

  /** The last member, from the state the ones before it leave. */
  lemma {:induction false} RunLast(enc: Encoder, m: DMember, n: nat, rest: seq<Token>, below: seq<Frame>, sofar: string,
                                   written: string, count: nat)
    requires written == sofar + MemberText(enc, m, n) && count == 2 * n + 2
    ensures Machine(enc, [StrTok(m.key)] + (Toks(m.value) + rest), below + [Frame(true, 2 * n)], sofar) ==
            if enc.str(m.key).Some? && AllEncode(enc, m.value) then Machine(enc, rest, below + [Frame(true, count)], written)
            else None
    decreases m, 2
  {
    RunMember(enc, m, n, rest, below, sofar);
  }

  lemma LastMemberToks(members: seq<DMember>, rest: seq<Token>)
    requires members != []
    ensures var n := |members| - 1;
            MemberToks(members) + rest ==
            MemberToks(members[..n]) + ([StrTok(members[n].key)] + (Toks(members[n].value) + rest))
  {
    var n := |members| - 1;
    var a, b, c := MemberToks(members[..n]), [StrTok(members[n].key)], Toks(members[n].value);
    assert a + (b + c) + rest == a + (b + (c + rest));
  }

  lemma Appended(a: string, b: string, c: string)
    ensures a + b + c == a + (b + c)
  {
  }

  lemma {:induction false} LastMember(enc: Encoder, members: seq<DMember>, out: string)
    requires members != []
    ensures var (n, m) := (|members| - 1, members[|members| - 1]);
            && out + PrintMembers(enc, members) == out + PrintMembers(enc, members[..n]) + MemberText(enc, m, n)
            && (MembersEncode(enc, members) <==>
                MembersEncode(enc, members[..n]) && enc.str(m.key).Some? && AllEncode(enc, m.value))
  {
    var n := |members| - 1;
    Appended(out, PrintMembers(enc, members[..n]), MemberText(enc, members[n], n));
  }

  lemma {:induction false} RunMember(enc: Encoder, m: DMember, n: nat, rest: seq<Token>, below: seq<Frame>, out: string)
    ensures Machine(enc, [StrTok(m.key)] + (Toks(m.value) + rest), below + [Frame(true, 2 * n)], out) ==
            if enc.str(m.key).Some? && AllEncode(enc, m.value)
            then Machine(enc, rest, below + [Frame(true, 2 * n + 2)], out + MemberText(enc, m, n)) else None
    decreases m, 1
  {
    var comma := if n > 0 then "," else "";
    var key := LeafText(enc.str, m.key);
    TopFrame(below, Frame(true, 2 * n));
    TopFrame(below, Frame(true, 2 * n + 1));
    StepScalar(enc, StrTok(m.key), Toks(m.value) + rest, below + [Frame(true, 2 * n)], out);
    if enc.str(m.key).Some? {
      RunDoc(enc, m.value, rest, below + [Frame(true, 2 * n + 1)], out + comma + key);
    }
    MemberTextAfter(out, comma, key, Print(enc, m.value));
  }

  lemma MemberTextAfter(out: string, comma: string, key: string, value: string)
    ensures out + comma + key + ":" + value == out + (comma + key + ":" + value)
  {
  }

  // The tree form prints

  /** In the stored form, printing the literals is marshalling the tree, and only numbers out of range are refused. */
  lemma {:induction false} PrintIsMarshal(parse: FloatParser, d: Doc)
    requires Lexical(d)
    ensures AllEncode(StoredForm(parse), d) <==> InRange(parse, d)
    ensures InRange(parse, d) ==> Print(StoredForm(parse), d) == Marshal(parse, Tree(d))
    decreases d, 0
  {
    match d
    case DArr(elems) => PrintArrayIsMarshal(parse, elems);
    case DObj(members) => PrintObjectIsMarshal(parse, members);
    case _ => PrintScalarIsMarshal(parse, d);
  }

  lemma {:induction false} PrintScalarIsMarshal(parse: FloatParser, d: Doc)
    requires Lexical(d) && !d.DArr? && !d.DObj?
    ensures AllEncode(StoredForm(parse), d) <==> InRange(parse, d)
    ensures InRange(parse, d) ==> Print(StoredForm(parse), d) == Marshal(parse, Tree(d))
  {
    if d.DStr? {
      NormalizeBodyIsEscape(d.body);
    }
  }

  lemma {:induction false} PrintArrayIsMarshal(parse: FloatParser, elems: seq<Doc>)
    requires Lexical(DArr(elems))
    ensures AllEncode(StoredForm(parse), DArr(elems)) <==> InRange(parse, DArr(elems))
    ensures InRange(parse, DArr(elems)) ==> Print(StoredForm(parse), DArr(elems)) == Marshal(parse, Tree(DArr(elems)))
    decreases elems, 2
  {
    PrintElemsIsMarshal(parse, elems);
  }

  lemma {:induction false} PrintObjectIsMarshal(parse: FloatParser, members: seq<DMember>)
    requires Lexical(DObj(members))
    ensures AllEncode(StoredForm(parse), DObj(members)) <==> InRange(parse, DObj(members))
    ensures InRange(parse, DObj(members)) ==> Print(StoredForm(parse), DObj(members)) == Marshal(parse, Tree(DObj(members)))
    decreases members, 2
  {
    PrintMembersIsMarshal(parse, members);
  }

  lemma {:induction false} PrintElemsIsMarshal(parse: FloatParser, elems: seq<Doc>)
    requires forall i :: 0 <= i < |elems| ==> Lexical(elems[i])
    ensures ElemsEncode(StoredForm(parse), elems) <==> ElemsInRange(parse, elems)
    ensures ElemsInRange(parse, elems) ==> PrintElems(StoredForm(parse), elems) == MarshalElems(parse, Trees(elems))
    decreases elems, 1
  {
    if elems != [] {
      var n := |elems| - 1;
      PrintElemsIsMarshal(parse, elems[..n]);
      PrintIsMarshal(parse, elems[n]);
      assert Trees(elems)[..n] == Trees(elems[..n]) && Trees(elems)[n] == Tree(elems[n]);
    }
  }

  lemma {:induction false} PrintMembersIsMarshal(parse: FloatParser, members: seq<DMember>)
    requires forall i :: 0 <= i < |members| ==> Unquote(members[i].key).Some? && Lexical(members[i].value)
    ensures MembersEncode(StoredForm(parse), members) <==> MembersInRange(parse, members)
    ensures MembersInRange(parse, members) ==>
              PrintMembers(StoredForm(parse), members) == MarshalMembers(parse, MemberTrees(members))
    decreases members, 1
  {
    if members != [] {
      var n := |members| - 1;
      var m := members[n];
      PrintMembersIsMarshal(parse, members[..n]);
      PrintIsMarshal(parse, m.value);
      NormalizeBodyIsEscape(m.key);
      if MembersInRange(parse, members) {
        var before, key := PrintMembers(StoredForm(parse), members[..n]), Quote(Decoded(m.key));
        assert MemberTrees(members)[..n] == MemberTrees(members[..n]);
        MemberTextAfter(before, if n > 0 then "," else "", key, Marshal(parse, Tree(m.value)));
      }
    }
  }

  /** For every document, and whatever follows it: Parse gives its tree exactly when nothing follows, and Normalize then
      writes exactly Marshal of that tree, unless a number is out of range, when it refuses. */
  lemma NormalizeIsMarshalParse(parse: FloatParser, d: Doc, extra: seq<Token>)
    requires Lexical(d)
    ensures ChefJson.Parse(Toks(d) + extra) == if extra == [] then Some(Tree(d)) else None
    ensures Machine(StoredForm(parse), Toks(d) + extra, [], "") ==
            if extra == [] && InRange(parse, d) then Some(Marshal(parse, Tree(d))) else None
  {
    DecodeToks(d, extra);
    RunDoc(StoredForm(parse), d, extra, [], "");
    PrintIsMarshal(parse, d);
    assert "" + Sep([]) + Print(StoredForm(parse), d) == Print(StoredForm(parse), d);
  }
}
