/** The query language of search (internal/search/query.go): its syntax tree, and what it means for one document. */
module Query {
  import opened Prelude
  import opened SearchIndex
  import opened StringOrder

  /** What strconv.ParseFloat yields. */
  datatype Float = NaN | NegInf | Finite(r: real) | PosInf

  predicate FloatLess(a: Float, b: Float) {
    match (a, b)
    case (NaN, _) => false
    case (_, NaN) => false
    case (NegInf, _) => !b.NegInf?
    case (_, PosInf) => !a.PosInf?
    case (Finite(x), Finite(y)) => x < y
    case (_, _) => false
  }

  predicate FloatEqual(a: Float, b: Float) {
    a == b && !a.NaN?
  }

  datatype Query =
    | MatchAll
    | And(l: Query, r: Query)
    | Or(l: Query, r: Query)
    | Not(q: Query)
    // `glob` is the pattern the term's regular expression is compiled from, or None when there is nothing to expand
    | TermQ(field: string, value: string, phrase: bool, glob: Option<string>)
    | ExistsQ(field: string)
    | RangeQ(field: string, lo: string, hi: string, incLo: bool, incHi: bool)

  /** Whether the anchored regular expression built from a pattern matches a value: `*` stands for any run of
      characters and `?` for any one, newlines excepted, and a backslash makes the next character literal. */
  predicate GlobMatches(glob: string, v: string)
    decreases |glob| + |v|
  {
    if glob == "" then v == ""
    else if glob[0] == '\\' then
      if |glob| == 1 then v == "" else v != "" && v[0] == glob[1] && GlobMatches(glob[2..], v[1..])
    else if glob[0] == '*' then
      GlobMatches(glob[1..], v) || (v != "" && v[0] != '\n' && GlobMatches(glob, v[1..]))
    else if glob[0] == '?' then v != "" && v[0] != '\n' && GlobMatches(glob[1..], v[1..])
    else v != "" && v[0] == glob[0] && GlobMatches(glob[1..], v[1..])
  }

  predicate MatchVal(q: Query, v: string)
    requires q.TermQ?
  {
    match q.glob
    case None => v == q.value
    case Some(glob) => GlobMatches(glob, v)
  }

  /** inRange: numeric when the value and both bounds parse as numbers, lexical otherwise. */
  predicate InRange(num: string -> Option<Float>, q: Query, v: string)
    requires q.RangeQ?
  {
    var openLo, openHi := q.lo == "*", q.hi == "*";
    if num(v).Some? && (openLo || num(q.lo).Some?) && (openHi || num(q.hi).Some?) then
      && (openLo || !(FloatLess(num(v).value, num(q.lo).value) || (!q.incLo && FloatEqual(num(v).value, num(q.lo).value))))
      && (openHi || !(FloatLess(num(q.hi).value, num(v).value) || (!q.incHi && FloatEqual(num(v).value, num(q.hi).value))))
    else
      && (openLo || !(Less(v, q.lo) || (!q.incLo && v == q.lo)))
      && (openHi || !(Less(q.hi, v) || (!q.incHi && v == q.hi)))
  }

  function ValuesAt(f: Fields, field: string): seq<string> {
    if field in f then f[field] else []
  }

  /** Matches: the meaning of a query, one document at a time. */
  predicate Matches(num: string -> Option<Float>, q: Query, f: Fields) {
    match q
    case MatchAll => true
    case And(l, r) => Matches(num, l, f) && Matches(num, r, f)
    case Or(l, r) => Matches(num, l, f) || Matches(num, r, f)
    case Not(q') => !Matches(num, q', f)
    case TermQ(field, _, _, _) =>
      if field == "" then exists name, v :: name in f && v in f[name] && MatchVal(q, v)
      else exists v :: v in ValuesAt(f, field) && MatchVal(q, v)
    case ExistsQ(field) => if field == "" then f != map[] else ValuesAt(f, field) != []
    case RangeQ(field, _, _, _, _) => exists v :: v in ValuesAt(f, field) && InRange(num, q, v)
  }

  /** No existence test without a field occurs in the query: planning and matching part ways there, and the parser
      never builds one. */
  predicate NoBareExists(q: Query) {
    match q
    case And(l, r) => NoBareExists(l) && NoBareExists(r)
    case Or(l, r) => NoBareExists(l) && NoBareExists(r)
    case Not(q') => NoBareExists(q')
    case ExistsQ(field) => field != ""
    case _ => true
  }

  /** What planning takes a query to mean: the same, but for an existence test without a field, which it takes to hold of
      every document. */
  predicate PlannedAs(num: string -> Option<Float>, q: Query, f: Fields) {
    match q
    case And(l, r) => PlannedAs(num, l, f) && PlannedAs(num, r, f)
    case Or(l, r) => PlannedAs(num, l, f) || PlannedAs(num, r, f)
    case Not(q') => !PlannedAs(num, q', f)
    case ExistsQ(field) => field == "" || Matches(num, q, f)
    case _ => Matches(num, q, f)
  }

  /** Whether a query holds of a document without fields, given whether an existence test without a field does. */
  predicate OnEmpty(q: Query, bare: bool) {
    match q
    case MatchAll => true
    case And(l, r) => OnEmpty(l, bare) && OnEmpty(r, bare)
    case Or(l, r) => OnEmpty(l, bare) || OnEmpty(r, bare)
    case Not(q') => !OnEmpty(q', bare)
    case ExistsQ(field) => field == "" && bare
    case _ => false
  }

  /** The two readings agree on a document unless it has no fields and the query tells them apart there. */
  lemma {:induction false} PlannedIsMatched(num: string -> Option<Float>, q: Query, f: Fields)
    requires NoEmptyField(f)
    ensures f != map[] ==> PlannedAs(num, q, f) == Matches(num, q, f)
    ensures f == map[] ==> PlannedAs(num, q, f) == OnEmpty(q, true) && Matches(num, q, f) == OnEmpty(q, false)
  {
    match q {
      case And(l, r) =>
        PlannedIsMatched(num, l, f);
        PlannedIsMatched(num, r, f);
      case Or(l, r) =>
        PlannedIsMatched(num, l, f);
        PlannedIsMatched(num, r, f);
      case Not(q') =>
        PlannedIsMatched(num, q', f);
      case _ =>
    }
  }

  lemma {:induction false} NoBareExistsSettles(q: Query)
    requires NoBareExists(q)
    ensures OnEmpty(q, true) == OnEmpty(q, false)
  {
    match q {
      case And(l, r) =>
        NoBareExistsSettles(l);
        NoBareExistsSettles(r);
      case Or(l, r) =>
        NoBareExistsSettles(l);
        NoBareExistsSettles(r);
      case Not(q') =>
        NoBareExistsSettles(q');
      case _ =>
    }
  }

  /** The documents planning selects. */
  function PlannedSet(num: string -> Option<Float>, q: Query, docs: map<string, Fields>): set<string> {
    set id | id in docs && PlannedAs(num, q, docs[id])
  }

  /** When planning is exact: every document has a field, or the query does not tell the two readings apart. */
  predicate PlansExactly(q: Query, docs: map<string, Fields>) {
    (forall id :: id in docs ==> docs[id] != map[]) || OnEmpty(q, true) == OnEmpty(q, false)
  }

  lemma PlannedExactly(num: string -> Option<Float>, q: Query, docs: map<string, Fields>)
    requires forall id :: id in docs ==> NoEmptyField(docs[id])
    ensures PlannedSet(num, q, docs) == MatchSet(num, q, docs) <==> PlansExactly(q, docs)
  {
    forall id | id in docs
      ensures docs[id] != map[] ==> PlannedAs(num, q, docs[id]) == Matches(num, q, docs[id])
      ensures docs[id] == map[] ==>
                PlannedAs(num, q, docs[id]) == OnEmpty(q, true) && Matches(num, q, docs[id]) == OnEmpty(q, false)
    {
      PlannedIsMatched(num, q, docs[id]);
    }
    if !PlansExactly(q, docs) {
      var id :| id in docs && docs[id] == map[];
      assert id in PlannedSet(num, q, docs) <==> id !in MatchSet(num, q, docs);
    }
  }

  /** The documents a scan selects: the specification of planning. */
  function MatchSet(num: string -> Option<Float>, q: Query, docs: map<string, Fields>): set<string> {
    set id | id in docs && Matches(num, q, docs[id])
  }
}
