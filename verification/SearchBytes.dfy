/** Search answers in terms of the stored bytes alone. `Search` takes the flattening of a document as given; here it is
    the one putRaw does (internal/api/searchindex.go:51-65, internal/api/search.go:83-99), and which order it lists a
    field's values in is shown not to matter. */
module SearchBytes {
  import opened Prelude
  import opened SearchIndex
  import opened StringOrder
  import opened Flatten
  import opened SearchDoc
  import opened Query
  import opened Search

  // Matching by terms

  /** The meaning of a query by the terms of a document: what it carries, whatever the order. */
  predicate Holds(num: string -> Option<Float>, q: Query, terms: set<Term>) {
    match q
    case MatchAll => true
    case And(l, r) => Holds(num, l, terms) && Holds(num, r, terms)
    case Or(l, r) => Holds(num, l, terms) || Holds(num, r, terms)
    case Not(q') => !Holds(num, q', terms)
    case TermQ(field, _, _, _) => exists t :: t in terms && (field == "" || t.field == field) && MatchVal(q, t.value)
    case ExistsQ(field) => exists t :: t in terms && (field == "" || t.field == field)
    case RangeQ(field, _, _, _, _) => exists t :: t in terms && t.field == field && InRange(num, q, t.value)
  }

  lemma ValueIsTerm(f: Fields, field: string, v: string)
    ensures v in ValuesAt(f, field) <==> Term(field, v) in TermsOf(f)
  {
  }

  lemma TermHolds(num: string -> Option<Float>, q: Query, f: Fields)
    requires q.TermQ?
    ensures Matches(num, q, f) <==> Holds(num, q, TermsOf(f))
  {
    if Matches(num, q, f) {
      if q.field == "" {
        var name, v :| name in f && v in f[name] && MatchVal(q, v);
        assert Term(name, v) in TermsOf(f);
      } else {
        var v :| v in ValuesAt(f, q.field) && MatchVal(q, v);
        assert Term(q.field, v) in TermsOf(f);
      }
    }
  }

  lemma ExistenceHolds(num: string -> Option<Float>, q: Query, f: Fields)
    requires q.ExistsQ? && NoEmptyField(f)
    ensures Matches(num, q, f) <==> Holds(num, q, TermsOf(f))
  {
    if Matches(num, q, f) {
      var field :| field in f && (q.field == "" || field == q.field);
      assert f[field][0] in f[field];
      assert Term(field, f[field][0]) in TermsOf(f);
    }
  }

  lemma RangeHolds(num: string -> Option<Float>, q: Query, f: Fields)
    requires q.RangeQ?
    ensures Matches(num, q, f) <==> Holds(num, q, TermsOf(f))
  {
    if Matches(num, q, f) {
      var v :| v in ValuesAt(f, q.field) && InRange(num, q, v);
      ValueIsTerm(f, q.field, v);
    }
  }

  /** Whether a document matches depends on nothing but its terms. */
  lemma {:induction false} MatchesIsHolds(num: string -> Option<Float>, q: Query, f: Fields)
    requires NoEmptyField(f)
    ensures Matches(num, q, f) <==> Holds(num, q, TermsOf(f))
  {
    match q {
      case MatchAll =>
      case And(l, r) =>
        MatchesIsHolds(num, l, f);
        MatchesIsHolds(num, r, f);
      case Or(l, r) =>
        MatchesIsHolds(num, l, f);
        MatchesIsHolds(num, r, f);
      case Not(q') => MatchesIsHolds(num, q', f);
      case TermQ(_, _, _, _) => TermHolds(num, q, f);
      case ExistsQ(_) => ExistenceHolds(num, q, f);
      case RangeQ(_, _, _, _, _) => RangeHolds(num, q, f);
    }
  }

  // Flattenings

  /** The terms the bytes of a document are searched by; None when they do not decode. */
  function BytesTerms(lc: char -> char, merge: bool, raw: string): Option<set<Term>> {
    match Searchable(merge, raw)
    case None => None
    case Some(v) => Some(AllTerms(lc, Leaves(lc, [], v)))
  }

  /** A flattening putRaw could do: each document under exactly its terms. */
  ghost predicate Flattens(lc: char -> char, merge: bool, flat: Flattening) {
    forall raw :: FlattensTo(BytesTerms(lc, merge, raw), flat(raw))
  }

  predicate FlattensTo(terms: Option<set<Term>>, fields: Option<Fields>) {
    && (fields.Some? <==> terms.Some?)
    && (fields.Some? ==> NoEmptyField(fields.value) && TermsOf(fields.value) == terms.value)
  }

  lemma OneMoreTerm(f: Fields, t: Term)
    requires NoEmptyField(f)
    ensures var g := f[t.field := ValuesAt(f, t.field) + [t.value]]; NoEmptyField(g) && TermsOf(g) == TermsOf(f) + {t}
  {
    var g := f[t.field := ValuesAt(f, t.field) + [t.value]];
    forall x
      ensures x in TermsOf(g) <==> x in TermsOf(f) || x == t
    {
      ValueIsTerm(f, x.field, x.value);
      ValueIsTerm(g, x.field, x.value);
      assert x == Term(x.field, x.value);
    }
  }

  lemma {:induction false} FieldsWithTerms(terms: set<Term>) returns (f: Fields)
    ensures NoEmptyField(f) && TermsOf(f) == terms
  {
    if terms == {} {
      f := map[];
    } else {
      var t :| t in terms;
      var g := FieldsWithTerms(terms - {t});
      OneMoreTerm(g, t);
      f := g[t.field := ValuesAt(g, t.field) + [t.value]];
    }
  }

  ghost predicate Carries(f: Fields, terms: set<Term>) {
    NoEmptyField(f) && TermsOf(f) == terms
  }

  /** A field map with given terms. */
  ghost function SomeFields(terms: set<Term>): (f: Fields)
    ensures Carries(f, terms)
  {
    assert exists g :: Carries(g, terms) by {
      var g := FieldsWithTerms(terms);
      assert Carries(g, terms);
    }
    var g :| Carries(g, terms);
    g
  }

  /** There is one, for every lower-casing and whether levels are merged or not. */
  lemma FlatteningExists(lc: char -> char, merge: bool)
    ensures exists flat: Flattening :: Flattens(lc, merge, flat)
  {
    var flat: Flattening := raw =>
      match BytesTerms(lc, merge, raw)
      case None => None
      case Some(terms) => Some(SomeFields(terms));
    forall raw
      ensures FlattensTo(BytesTerms(lc, merge, raw), flat(raw))
    {
      if BytesTerms(lc, merge, raw).Some? {
        assert Carries(SomeFields(BytesTerms(lc, merge, raw).value), BytesTerms(lc, merge, raw).value);
      }
    }
    assert Flattens(lc, merge, flat);
  }

  // Answers

  /** The answer to a query by the bytes: the documents that decode to an object whose terms satisfy it, sorted by id. */
  predicate IsAnswerByBytes(lc: char -> char, merge: bool, num: string -> Option<Float>, q: Query,
                            coll: map<string, string>, r: seq<Match>) {
    Sorted(r) && Elems(r) == HitsByBytes(lc, merge, num, q, coll)
  }

  predicate IsHitByBytes(lc: char -> char, merge: bool, num: string -> Option<Float>, q: Query, raw: string) {
    BytesTerms(lc, merge, raw).Some? && Holds(num, q, BytesTerms(lc, merge, raw).value)
  }

  function HitsByBytes(lc: char -> char, merge: bool, num: string -> Option<Float>, q: Query,
                       coll: map<string, string>): set<Match> {
    set id | id in coll && IsHitByBytes(lc, merge, num, q, coll[id]) :: Match(id, coll[id])
  }

  /** When planning is exact, by the bytes: every document that decodes has a term, or the query does not tell the two
      readings of a bare existence test apart. */
  predicate PlansExactlyByBytes(lc: char -> char, merge: bool, q: Query, coll: map<string, string>) {
    || (forall id :: id in coll ==> BytesTerms(lc, merge, coll[id]) != Some({}))
    || OnEmpty(q, true) == OnEmpty(q, false)
  }

  lemma HitByBytes(lc: char -> char, merge: bool, flat: Flattening, num: string -> Option<Float>, q: Query, raw: string)
    requires Flattens(lc, merge, flat)
    ensures IsHit(flat, num, q, raw) <==> IsHitByBytes(lc, merge, num, q, raw)
    ensures flat(raw) == Some(map[]) <==> BytesTerms(lc, merge, raw) == Some({})
  {
    assert FlattensTo(BytesTerms(lc, merge, raw), flat(raw));
    if flat(raw).Some? {
      MatchesIsHolds(num, q, flat(raw).value);
      NoTermsNoFields(flat(raw).value);
    }
  }

  lemma NoTermsNoFields(f: Fields)
    requires NoEmptyField(f)
    ensures TermsOf(f) == {} <==> f == map[]
  {
    if f != map[] {
      var field :| field in f;
      ValueIsTerm(f, field, f[field][0]);
    }
  }

  lemma HitsAreByBytes(lc: char -> char, merge: bool, flat: Flattening, num: string -> Option<Float>, q: Query,
                       coll: map<string, string>)
    requires Flattens(lc, merge, flat)
    ensures Hits(flat, num, q, coll, coll.Keys) == HitsByBytes(lc, merge, num, q, coll)
  {
    forall id | id in coll
      ensures IsHit(flat, num, q, coll[id]) <==> IsHitByBytes(lc, merge, num, q, coll[id])
    {
      HitByBytes(lc, merge, flat, num, q, coll[id]);
    }
  }

  lemma EmptyByBytes(lc: char -> char, merge: bool, flat: Flattening, num: string -> Option<Float>,
                     coll: map<string, string>, id: string)
    requires Flattens(lc, merge, flat) && id in coll
    ensures id in Contents(flat, coll) && Contents(flat, coll)[id] == map[] <==> BytesTerms(lc, merge, coll[id]) == Some({})
  {
    HitByBytes(lc, merge, flat, num, MatchAll, coll[id]);
  }

  lemma PlanningIsByBytes(lc: char -> char, merge: bool, flat: Flattening, num: string -> Option<Float>, q: Query,
                          coll: map<string, string>)
    requires Flattens(lc, merge, flat)
    ensures PlansExactly(q, Contents(flat, coll)) <==> PlansExactlyByBytes(lc, merge, q, coll)
  {
    var docs := Contents(flat, coll);
    assert docs.Keys <= coll.Keys;
    forall id | id in coll
      ensures id in docs && docs[id] == map[] <==> BytesTerms(lc, merge, coll[id]) == Some({})
    {
      EmptyByBytes(lc, merge, flat, num, coll, id);
    }
  }

  /** Whatever flattening of the bytes is used, the answer is the one by the bytes, and planning is exact under the same
      condition on the bytes. So the scan and the planned answer agree though each flattens for itself. */
  lemma AnswerIsByBytes(lc: char -> char, merge: bool, flat: Flattening, num: string -> Option<Float>, q: Query,
                        coll: map<string, string>, r: seq<Match>)
    requires Flattens(lc, merge, flat)
    ensures IsAnswer(flat, num, q, coll, r) <==> IsAnswerByBytes(lc, merge, num, q, coll, r)
    ensures PlansExactly(q, Contents(flat, coll)) <==> PlansExactlyByBytes(lc, merge, q, coll)
  {
    HitsAreByBytes(lc, merge, flat, num, q, coll);
    PlanningIsByBytes(lc, merge, flat, num, q, coll);
  }
}
