/** Version constraints and what they admit (internal/api/constraint.go, internal/api/constraint_valid.go). */
module Constraints {
  import opened Prelude
  import opened Decimal
  import opened Versions

  /** 64-bit increment. */
  function Successor(n: int): int {
    if n == MAX_INT64 then MIN_INT64 else n + 1
  }

  /** strconv.Atoi with its error dropped: zero for malformed text, the nearest bound for a value out of range. */
  function LenientAtoi(s: string): int {
    match SignedInt(s)
    case None => 0
    case Some(n) => if n < MIN_INT64 then MIN_INT64 else if n > MAX_INT64 then MAX_INT64 else n
  }

  /** The segments of the bound: the last is dropped if there are several, and the new last incremented. */
  function UpperParts(parts: seq<string>): (r: seq<string>)
    requires parts != []
    ensures r != []
  {
    var kept := if |parts| > 1 then parts[..|parts| - 1] else parts;
    kept[..|kept| - 1] + [Itoa(Successor(LenientAtoi(kept[|kept| - 1])))]
  }

  /** pessimisticUpper. */
  function PessimisticUpper(v: string): string {
    Join(UpperParts(Split(v, '.')), '.')
  }

  /** How many leading components a "~>" constraint fixes: all but the last, and an only one. */
  function Fixed(v: string): (m: nat)
    requires Valid(v)
    ensures 1 <= m <= |Components(v)|
  {
    if |Components(v)| > 1 then |Components(v)| - 1 else 1
  }

  // The bound's components

  lemma {:induction false} NumeralHasNoDot(n: nat)
    ensures '.' !in Numeral(n)
  {
  }

  lemma ItoaHasNoDot(n: int)
    ensures '.' !in Itoa(n)
  {
    NumeralHasNoDot(if n < 0 then -n else n);
  }

  lemma UpperSplit(v: string)
    ensures Split(PessimisticUpper(v), '.') == UpperParts(Split(v, '.'))
  {
    var parts := Split(v, '.');
    var kept := if |parts| > 1 then parts[..|parts| - 1] else parts;
    ItoaHasNoDot(Successor(LenientAtoi(kept[|kept| - 1])));
    SplitJoin(UpperParts(parts), '.');
  }

  /** The component that is incremented. */
  function Moved(v: string): (c: int)
    requires Valid(v)
    ensures 0 <= c <= MAX_INT64
  {
    Components(v)[Fixed(v) - 1]
  }

  /** The components of the bound: the fixed ones, with the last of them incremented. */
  function UpperComponents(v: string): (r: seq<int>)
    requires Valid(v)
    ensures |r| == Fixed(v)
  {
    Components(v)[..Fixed(v) - 1] + [Successor(Moved(v))]
  }

  lemma UpperPartsNumbers(parts: seq<string>)
    requires parts != [] && forall i :: 0 <= i < |parts| ==> Atoi(parts[i]).Some?
    ensures forall i :: 0 <= i < |UpperParts(parts)| ==> Atoi(UpperParts(parts)[i]).Some?
    ensures var m := if |parts| > 1 then |parts| - 1 else 1;
            Numbers(UpperParts(parts)) == Numbers(parts)[..m - 1] + [Successor(Numbers(parts)[m - 1])]
  {
    var m := if |parts| > 1 then |parts| - 1 else 1;
    var n := Numbers(parts)[m - 1];
    assert LenientAtoi(parts[m - 1]) == n;
    SignedItoa(Successor(n));
    assert UpperParts(parts) == parts[..m - 1] + [Itoa(Successor(n))];
  }

  lemma UpperNumbers(v: string)
    requires Valid(v)
    ensures var parts := Split(PessimisticUpper(v), '.');
            (forall i :: 0 <= i < |parts| ==> Atoi(parts[i]).Some?) && Numbers(parts) == UpperComponents(v)
  {
    UpperSplit(v);
    UpperPartsNumbers(Split(v, '.'));
  }

  lemma CompareUpper(x: string, v: string)
    requires Valid(x) && Valid(v)
    ensures Compare(x, PessimisticUpper(v)) < 0 <==> Below(Components(x), UpperComponents(v))
  {
    UpperNumbers(v);
    CompareIsLexFrom(Split(x, '.'), Split(PessimisticUpper(v), '.'), 0);
    Trichotomy(Components(x), UpperComponents(v));
    Trichotomy(UpperComponents(v), Components(x));
  }

  // What "~>" admits

  predicate Pessimistic(x: string, v: string) {
    Compare(x, v) >= 0 && Compare(x, PessimisticUpper(v)) < 0
  }

  /** The documented meaning: at least `v`, and the same on everything but the component allowed to move. */
  ghost predicate AgreesAndAtLeast(x: string, v: string)
    requires Valid(x) && Valid(v)
  {
    !Below(Components(x), Components(v)) && AgreeBefore(Components(x), Components(v), Fixed(v))
  }

  lemma BelowUpper(x: string, v: string)
    requires Valid(x) && Valid(v) && Moved(v) < MAX_INT64
    requires AgreeBefore(Components(x), Components(v), Fixed(v))
    ensures Below(Components(x), UpperComponents(v))
  {
    assert BelowAt(Components(x), UpperComponents(v), Fixed(v) - 1);
  }

  lemma AgreesBelowUpper(x: string, v: string, k: nat)
    requires Valid(x) && Valid(v) && !Below(Components(x), Components(v))
    requires BelowAt(Components(x), UpperComponents(v), k)
    ensures Moved(v) < MAX_INT64 && AgreeBefore(Components(x), Components(v), Fixed(v))
  {
    var xs, vs, us, m := Components(x), Components(v), UpperComponents(v), Fixed(v);
    assert k < |us|;
    assert AgreeBefore(xs, vs, k);
    assert !BelowAt(xs, vs, k);
    assert k == m - 1;
  }

  lemma AtLeastIsNotBelow(x: string, v: string)
    requires Valid(x) && Valid(v)
    ensures Compare(x, v) >= 0 <==> !Below(Components(x), Components(v))
  {
    CompareIsLex(x, v);
  }

  /** "~> v" admits exactly the versions at least `v` that agree with it on every component but the last, or on the
      only one, as long as the component it increments is not the largest 64-bit integer; then it admits nothing. */
  lemma PessimisticMeaning(x: string, v: string)
    requires Valid(x) && Valid(v)
    ensures Pessimistic(x, v) <==> Moved(v) < MAX_INT64 && AgreesAndAtLeast(x, v)
  {
    AtLeastIsNotBelow(x, v);
    CompareUpper(x, v);
    if Pessimistic(x, v) {
      var k: nat :| BelowAt(Components(x), UpperComponents(v), k);
      AgreesBelowUpper(x, v, k);
    } else if Moved(v) < MAX_INT64 && AgreesAndAtLeast(x, v) {
      BelowUpper(x, v);
    }
  }

  /** So the documented meaning holds of `v` exactly when the component it increments can be incremented. */
  lemma PessimisticExactly(v: string)
    requires Valid(v)
    ensures Moved(v) < MAX_INT64 <==> forall x :: Valid(x) ==> (Pessimistic(x, v) <==> AgreesAndAtLeast(x, v))
  {
    forall x | Valid(x) ensures Pessimistic(x, v) <==> Moved(v) < MAX_INT64 && AgreesAndAtLeast(x, v) {
      PessimisticMeaning(x, v);
    }
    assert AgreesAndAtLeast(v, v);
  }

  lemma LargestAdmitsNothing(v: string)
    requires Valid(v) && Moved(v) == MAX_INT64
    ensures AgreesAndAtLeast(v, v) && !Pessimistic(v, v)
  {
    PessimisticMeaning(v, v);
  }

  lemma LargestIsVersion(v: string)
    requires v == Itoa(MAX_INT64)
    ensures Valid(v) && Moved(v) == MAX_INT64
  {
    ItoaHasNoDot(MAX_INT64);
    SplitWhole(v, '.');
    OneNumber(v, MAX_INT64);
  }

  lemma OneNumber(v: string, n: int)
    requires v == Itoa(n) && 0 <= n <= MAX_INT64 && Split(v, '.') == [v]
    ensures Valid(v) && Components(v) == [n]
  {
    SignedItoa(n);
  }

  lemma NextDigit(n: nat, d: nat)
    requires 0 < n && d < 10
    ensures Numeral(n * 10 + d) == Numeral(n) + [DigitChar(d)]
  {
  }

  lemma LargestNumeral()
    ensures Itoa(MAX_INT64) == "9223372036854775807"
  {
    assert Numeral(9) == "9";
    NextDigit(9, 2);
    NextDigit(92, 2);
    NextDigit(922, 3);
    NextDigit(9223, 3);
    NextDigit(92233, 7);
    NextDigit(922337, 2);
    NextDigit(9223372, 0);
    NextDigit(92233720, 3);
    NextDigit(922337203, 6);
    assert Numeral(9223372036) == "9223372036";
    NextDigit(9223372036, 8);
    NextDigit(92233720368, 5);
    NextDigit(922337203685, 4);
    NextDigit(9223372036854, 7);
    NextDigit(92233720368547, 7);
    NextDigit(922337203685477, 5);
    NextDigit(9223372036854775, 8);
    NextDigit(92233720368547758, 0);
    NextDigit(922337203685477580, 7);
  }

  /** The failing input: "~> 9223372036854775807" does not admit its own version. */
  lemma LargestComponentFails()
    ensures var v := "9223372036854775807"; Valid(v) && AgreesAndAtLeast(v, v) && !Pessimistic(v, v)
  {
    LargestNumeral();
    LargestIsVersion("9223372036854775807");
    LargestAdmitsNothing("9223372036854775807");
  }

  // Constraint text

  datatype Operator = Bare | EqEq | Eq | Ne | Gt | Lt | Ge | Le | Approx {
    function Text(): string {
      match this
      case Bare => ""
      case EqEq => "=="
      case Eq => "="
      case Ne => "!="
      case Gt => ">"
      case Lt => "<"
      case Ge => ">="
      case Le => "<="
      case Approx => "~>"
    }
  }

  /** The operator a trimmed constraint starts with, two-character ones tried first. */
  function OperatorOf(c: string): (op: Operator)
    ensures op.Text() <= c
  {
    if "~>" <= c then Approx
    else if ">=" <= c then Ge
    else if "<=" <= c then Le
    else if "==" <= c then EqEq
    else if "!=" <= c then Ne
    else if "=" <= c then Eq
    else if ">" <= c then Gt
    else if "<" <= c then Lt
    else Bare
  }

  /** splitConstraint. */
  function SplitConstraint(c: string): (Operator, string) {
    var op := OperatorOf(c);
    (op, if op.Bare? then c else TrimSpace(c[|op.Text()|..]))
  }

  predicate Holds(op: Operator, x: string, v: string) {
    var cmp := Compare(x, v);
    match op
    case Bare => cmp == 0
    case EqEq => cmp == 0
    case Eq => cmp == 0
    case Ne => cmp != 0
    case Gt => cmp > 0
    case Lt => cmp < 0
    case Ge => cmp >= 0
    case Le => cmp <= 0
    case Approx => cmp >= 0 && Compare(x, PessimisticUpper(v)) < 0
  }

  /** satisfiesConstraint. */
  predicate Satisfies(x: string, constraint: string) {
    var c := TrimSpace(constraint);
    c == "" || var (op, v) := SplitConstraint(c); Holds(op, x, v)
  }

  /** What an operator means, in terms of the order on components. */
  ghost predicate Means(op: Operator, x: string, v: string)
    requires Valid(x) && Valid(v)
  {
    var (xs, vs) := (Components(x), Components(v));
    match op
    case Bare => Same(xs, vs)
    case EqEq => Same(xs, vs)
    case Eq => Same(xs, vs)
    case Ne => !Same(xs, vs)
    case Gt => Below(vs, xs)
    case Lt => Below(xs, vs)
    case Ge => !Below(xs, vs)
    case Le => !Below(vs, xs)
    case Approx => Moved(v) < MAX_INT64 && AgreesAndAtLeast(x, v)
  }

  lemma HoldsIsMeaning(op: Operator, x: string, v: string)
    requires Valid(x) && Valid(v)
    ensures Holds(op, x, v) <==> Means(op, x, v)
  {
    if op.Approx? {
      PessimisticMeaning(x, v);
    } else {
      CompareIsLex(x, v);
    }
  }

  // Trimming

  lemma {:induction false} TrimLeftOf(gap: string, s: string)
    requires AllSpace(gap) && s != "" && !IsSpace(s[0])
    ensures TrimLeft(gap + s) == s
  {
    if gap == "" {
      assert gap + s == s;
    } else {
      assert (gap + s)[1..] == gap[1..] + s;
      TrimLeftOf(gap[1..], s);
    }
  }

  lemma {:induction false} TrimRightOf(s: string, gap: string)
    requires AllSpace(gap) && s != "" && !IsSpace(s[|s| - 1])
    ensures TrimRight(s + gap) == s
  {
    if gap == "" {
      assert s + gap == s;
    } else {
      var n := |gap| - 1;
      assert (s + gap)[..|s + gap| - 1] == s + gap[..n];
      TrimRightOf(s, gap[..n]);
    }
  }

  lemma TrimAround(lead: string, s: string, trail: string)
    requires AllSpace(lead) && AllSpace(trail) && s != "" && !IsSpace(s[0]) && !IsSpace(s[|s| - 1])
    ensures TrimSpace(lead + s + trail) == s
  {
    assert lead + s + trail == lead + (s + trail) && (s + trail)[0] == s[0];
    TrimLeftOf(lead, s + trail);
    TrimRightOf(s, trail);
  }

  // A valid version starts with a sign or a digit and ends with a digit

  predicate Plain(c: char) {
    c == '+' || c == '-' || IsDigit(c)
  }

  lemma {:induction false} LastOfSplit(s: string)
    requires s != ""
    ensures var p := Split(s, '.')[|Split(s, '.')| - 1]; if p == "" then s[|s| - 1] == '.' else s[|s| - 1] == p[|p| - 1]
  {
    if |s| > 1 {
      LastOfSplit(s[1..]);
    }
  }

  lemma NumberEnds(p: string)
    requires Atoi(p).Some?
    ensures p != "" && Plain(p[0]) && IsDigit(p[|p| - 1])
  {
    assert p[|p| - 1] in p;
    assert p[0] in p;
    var digits := if p[0] == '-' || p[0] == '+' then p[1..] else p;
    assert digits[|digits| - 1] == p[|p| - 1];
  }

  lemma VersionEnds(v: string)
    requires Valid(v)
    ensures v != "" && Plain(v[0]) && IsDigit(v[|v| - 1])
  {
    var parts := Split(v, '.');
    NumberEnds(parts[0]);
    NumberEnds(parts[|parts| - 1]);
    LastOfSplit(v);
  }

  lemma OperatorIsFound(op: Operator, rest: string)
    requires rest != "" && (Plain(rest[0]) || (!op.Bare? && IsSpace(rest[0])))
    ensures OperatorOf(op.Text() + rest) == op
  {
    var text := op.Text();
    var c := text + rest;
    assert text <= c && c[|text|] == rest[0];
    assert forall p: string :: |p| == 2 && p <= c ==> p[0] == c[0] && p[1] == c[1];
    assert forall p: string :: |p| == 1 && p <= c ==> p[0] == c[0];
    assert |text| == 1 ==> text[0] == c[0];
  }

  /** A constraint written with an operator, or none, and any spacing admits exactly what the operator means. */
  lemma ConstraintMeaning(x: string, lead: string, op: Operator, gap: string, v: string, trail: string)
    requires Valid(x) && Valid(v) && AllSpace(lead) && AllSpace(gap) && AllSpace(trail)
    requires op.Bare? ==> gap == ""
    ensures Satisfies(x, lead + (op.Text() + (gap + v)) + trail) <==> Means(op, x, v)
  {
    VersionEnds(v);
    var rest := gap + v;
    assert rest[|rest| - 1] == v[|v| - 1] && (rest[0] == v[0] || rest[0] == gap[0]);
    TrimOperator(lead, op, rest, trail);
    OperatorIsFound(op, rest);
    TrimAround(gap, v, "");
    assert gap + v + "" == rest && (op.Text() + rest)[|op.Text()|..] == rest;
    HoldsIsMeaning(op, x, v);
  }

  lemma TrimOperator(lead: string, op: Operator, rest: string, trail: string)
    requires AllSpace(lead) && AllSpace(trail) && rest != "" && !IsSpace(rest[|rest| - 1])
    requires op.Bare? ==> !IsSpace(rest[0])
    ensures TrimSpace(lead + (op.Text() + rest) + trail) == op.Text() + rest
  {
    var c := op.Text() + rest;
    assert c[|c| - 1] == rest[|rest| - 1] && !IsSpace(c[0]);
    TrimAround(lead, c, trail);
  }

  predicate StartsWith(c: string, op: Operator) {
    op.Text() + " " <= c
  }

  /** validCookbookConstraint: what a document may hold. */
  predicate ValidConstraint(c: string) {
    var op := AcceptedOperator(c);
    Valid(if op.Bare? then c else c[|op.Text()| + 1..])
  }

  function AcceptedOperator(c: string): (op: Operator)
    ensures !op.Bare? ==> StartsWith(c, op)
  {
    if StartsWith(c, Lt) then Lt
    else if StartsWith(c, Gt) then Gt
    else if StartsWith(c, Le) then Le
    else if StartsWith(c, Ge) then Ge
    else if StartsWith(c, Approx) then Approx
    else if StartsWith(c, Eq) then Eq
    else Bare
  }

  /** Every constraint the server accepts in a document is an operator, a space and a version, or a bare version, and
      admits exactly what the operator means. */
  lemma AcceptedConstraint(x: string, c: string) returns (op: Operator, v: string)
    requires Valid(x) && ValidConstraint(c)
    ensures Valid(v) && c == op.Text() + ((if op.Bare? then "" else " ") + v)
    ensures Satisfies(x, c) <==> Means(op, x, v)
  {
    op := AcceptedOperator(c);
    var gap := if op.Bare? then "" else " ";
    v := if op.Bare? then c else c[|op.Text()| + 1..];
    assert c == op.Text() + (gap + v);
    assert c == "" + (op.Text() + (gap + v)) + "";
    ConstraintMeaning(x, "", op, gap, v, "");
  }
}
