/** What normalizing a document keeps (internal/chefjson/chefjson.go:38-123 and 429-445): its structure and strings, every
    integer exactly, and of a float the value of its double wherever that double is zero or normal. */
module NumberMeaning {
  import opened Prelude
  import opened Json
  import opened JsonString
  import opened Decimal
  import opened FloatLayout
  import opened ChefJson
  import opened Normalization
  import opened JsonText

  // One number

  lemma {:induction false} ZeroDenotes(zero: string)
    requires zero == "0"
    ensures Denotes(zero) == Some(0.0) && Denotes("-" + zero) == Some(0.0)
  {
    IntegerDenotes(zero);
    DigitsOfZero(zero);
    ReadsAsZero(zero);
    NegativeReads(zero, 0.0);
  }

  lemma {:induction false} DigitsOfZero(zero: string)
    requires zero == "0"
    ensures AllDigits(zero) && DigitsValue(zero) == 0.0
  {
    assert zero[..0] == "" && DigitValue('0') == 0;
  }

  lemma {:induction false} ReadsAsZero(zero: string)
    requires zero == "0"
    ensures ReadsAs(zero, 0.0)
  {
    DigitsAreUnmarked(zero);
    NoExponent(zero);
    CutPlainFraction(zero, "");
    ReadFrom(zero, zero, zero, "", 0);
    assert zero + "" == zero;
    DigitsOfZero(zero);
    PartsValueIs(Parts(false, zero, "", 0), zero);
  }

  /** An integer is written as it came, but for minus zero, and denotes what it did. */
  lemma {:induction false} IntegerIsKept(parse: FloatParser, lit: string)
    requires IsNumber(lit) && !IsFloatLiteral(lit)
    ensures NormalizeNumber(parse, lit).Some? && Denotes(lit).Some?
    ensures var out := NormalizeNumber(parse, lit).value; Denotes(out) == Denotes(lit) && (out == lit || lit == "-0")
  {
    if lit == "-0" {
      ZeroDenotes("0");
      assert "-" + "0" == "-0";
    }
  }

  /** What becomes of a number literal: an integer denotes what it did, and is the same text unless it was minus zero; a
      float denotes its double exactly when that is zero or normal. */
  ghost predicate NumberKept(parse: FloatParser, lit: string, out: string) {
    if !IsFloatLiteral(lit) then Denotes(lit).Some? && Denotes(out) == Denotes(lit) && (out == lit || lit == "-0")
    else
      && parse(lit).Some?
      && var d := parse(lit).value;
         (Denotes(out) == Some(Value(d)) <==> Value(d) == 0.0 || Abs(d) >= SMALLEST_NORMAL)
  }

  lemma {:induction false} FloatIsKept(parse: FloatParser, lit: string, d: Double)
    requires IsFloatLiteral(lit) && WellFormed(d) && parse(lit) == Some(d)
    ensures NumberKept(parse, lit, Layout(d))
  {
    LayoutDenotesValue(d);
  }

  lemma {:induction false} NumberIsKept(parse: FloatParser, lit: string)
    requires IsNumber(lit) && NormalizeNumber(parse, lit).Some?
    ensures NumberKept(parse, lit, NormalizeNumber(parse, lit).value)
  {
    if IsFloatLiteral(lit) {
      FloatIsKept(parse, lit, parse(lit).value);
    } else {
      IntegerIsKept(parse, lit);
    }
  }

  // Documents

  /** The same document but for how its numbers are written. */
  ghost predicate SameDocument(parse: FloatParser, v: Json, w: Json) {
    match v
    case Num(lit) => w.Num? && NumberKept(parse, lit, w.lit)
    case Arr(elems) =>
      w.Arr? && |elems| == |w.elems| && forall i :: 0 <= i < |elems| ==> SameDocument(parse, elems[i], w.elems[i])
    case Obj(members) =>
      w.Obj? && |members| == |w.members| &&
      forall i :: 0 <= i < |members| ==>
        members[i].name == w.members[i].name && SameDocument(parse, members[i].value, w.members[i].value)
    case _ => v == w
  }

  lemma {:induction false} StoredIsSame(parse: FloatParser, d: Doc)
    requires WellRead(d) && InRange(parse, d)
    ensures SameDocument(parse, Tree(d), Tree(Stored(parse, d)))
    decreases d, 0
  {
    match d
    case DNum(lit) => NumberIsKept(parse, lit);
    case DStr(body) => UnquoteEscape(Decoded(body));
    case DArr(elems) => StoredElemsAreSame(parse, elems);
    case DObj(members) => StoredMembersAreSame(parse, members);
    case _ =>
  }

  lemma {:induction false} StoredElemsAreSame(parse: FloatParser, elems: seq<Doc>)
    requires ElemsInRange(parse, elems) && forall i :: 0 <= i < |elems| ==> WellRead(elems[i])
    ensures var (a, b) := (Trees(elems), Trees(StoredElems(parse, elems)));
            |a| == |b| && forall i :: 0 <= i < |a| ==> SameDocument(parse, a[i], b[i])
    decreases elems, 1
  {
    if elems != [] {
      var n := |elems| - 1;
      StoredElemsAreSame(parse, elems[..n]);
      StoredIsSame(parse, elems[n]);
      assert StoredElems(parse, elems)[..n] == StoredElems(parse, elems[..n]);
    }
  }

  lemma {:induction false} StoredMembersAreSame(parse: FloatParser, members: seq<DMember>)
    requires MembersInRange(parse, members) && forall i :: 0 <= i < |members| ==> WellRead(members[i].value)
    ensures var (a, b) := (MemberTrees(members), MemberTrees(StoredMembers(parse, members)));
            |a| == |b| && forall i :: 0 <= i < |a| ==> a[i].name == b[i].name && SameDocument(parse, a[i].value, b[i].value)
    decreases members, 1
  {
    if members != [] {
      var n := |members| - 1;
      StoredMembersAreSame(parse, members[..n]);
      StoredIsSame(parse, members[n].value);
      UnquoteEscape(Decoded(members[n].key));
      assert StoredMembers(parse, members)[..n] == StoredMembers(parse, members[..n]);
    }
  }

  /** For every text Normalize accepts, what it writes reads as the same document but for how numbers are written. */
  lemma NormalizeKeepsMeaning(parse: FloatParser, s: string)
    requires Faithful(parse) && NormalizeText(parse, s).Some?
    ensures var out := NormalizeText(parse, s).value;
            ReadText(out).Some? && SameDocument(parse, Tree(ReadText(s).value), Tree(ReadText(out).value))
  {
    var d := ReadText(s).value;
    TextIsMarshalParse(parse, s);
    NormalizedReads(parse, d);
    StoredIsSame(parse, d);
  }
}
