/** Planning a query against an index (internal/search/plan.go and the postings view of internal/api/searchindex.go):
    an optimization of Matches, not a second definition. */
module Plan {
  import opened Prelude
  import opened SearchIndex
  import opened Query

  /** A set of document ids that its holder may change in place. */
  class DocIds {
    var ids: set<string>

    constructor (ids: set<string>)
      ensures this.ids == ids
    {
      this.ids := ids;
    }
  }

  /** intersect: keep the ids in both sets, iterating the smaller one. */
  method Intersect(a: DocIds, b: DocIds) returns (out: DocIds)
    ensures fresh(out) && out.ids == a.ids * b.ids
  {
    var small, large := a, b;
    if |b.ids| < |a.ids| {
      small, large := b, a;
    }
    out := new DocIds({});
    var todo := small.ids;
    while todo != {}
      invariant todo <= small.ids
      invariant out.ids == (small.ids - todo) * large.ids
    {
      var id :| id in todo;
      if id in large.ids {
        out.ids := out.ids + {id};
      }
      todo := todo - {id};
    }
  }

  /** union: grow the larger set in place and return it. */
  method Union(a: DocIds, b: DocIds) returns (out: DocIds)
    requires a != b
    modifies a, b
    ensures out == a || out == b
    ensures out.ids == old(a.ids) + old(b.ids)
  {
    var other := b;
    out := a;
    if |b.ids| > |a.ids| {
      out, other := b, a;
    }
    var todo := other.ids;
    while todo != {}
      invariant todo <= other.ids && other.ids == old(other.ids)
      invariant out.ids == old(out.ids) + (other.ids - todo)
    {
      var id :| id in todo;
      out.ids := out.ids + {id};
      todo := todo - {id};
    }
  }

  /** difference: remove the second set's ids from the first, in place. */
  method Difference(a: DocIds, b: DocIds) returns (out: DocIds)
    requires a != b
    modifies a
    ensures out == a && out.ids == old(a.ids) - b.ids
  {
    var todo := b.ids;
    while todo != {}
      invariant todo <= b.ids && b.ids == old(b.ids)
      invariant a.ids == old(a.ids) - (b.ids - todo)
    {
      var id :| id in todo;
      a.ids := a.ids - {id};
      todo := todo - {id};
    }
    out := a;
  }

  /** copySet: a set of its own with the same ids. */
  method CopySet(src: DocIds) returns (out: DocIds)
    ensures fresh(out) && out.ids == src.ids
  {
    out := new DocIds({});
    var todo := src.ids;
    while todo != {}
      invariant todo <= src.ids && fresh(out) && out.ids == src.ids - todo
    {
      var id :| id in todo;
      out.ids := out.ids + {id};
      todo := todo - {id};
    }
  }

  /** An index with the sets it holds as the shared objects they are: every document, the documents of each field, and
      those of each field and value. The planner changes sets in place, so it must only get copies of these. */
  class PostingsView {
    const c: CollIndex
    const all: DocIds
    const fieldDocs: map<string, DocIds>
    const postings: map<Term, DocIds>

    constructor (c: CollIndex)
      requires c.Valid()
      ensures this.c == c && Valid() && fresh(Sets())
    {
      var every := new DocIds(c.all);
      var byField := FieldSets(c);
      var byTerm := TermSets(c);
      this.c, all, fieldDocs, postings := c, every, byField, byTerm;
    }

    ghost function Sets(): set<DocIds> {
      {all} + fieldDocs.Values + postings.Values
    }

    /** The index is valid, and each set holds what the index says. */
    ghost predicate Valid()
      reads this, c, Sets()
    {
      && c.Valid() && all.ids == c.all
      && fieldDocs.Keys == c.fieldDocs.Keys && (forall f :: f in fieldDocs ==> fieldDocs[f].ids == c.fieldDocs[f])
      && (forall t :: t in postings <==> Posted(c, t))
      && (forall t :: t in postings ==> postings[t].ids == c.postings[t.field][t.value])
    }

    method All() returns (out: DocIds)
      requires Valid()
      ensures fresh(out) && out.ids == c.docs.Keys
    {
      out := CopySet(all);
    }

    /** Exact: the documents whose field holds exactly the value. */
    method Exact(field: string, value: string) returns (out: DocIds)
      requires Valid()
      ensures fresh(out)
      ensures forall id :: id in out.ids <==> id in c.docs && value in ValuesAt(c.docs[id], field)
    {
      if Term(field, value) in postings {
        out := CopySet(postings[Term(field, value)]);
      } else {
        out := new DocIds({});
      }
      forall id
        ensures id in out.ids <==> id in c.docs && value in ValuesAt(c.docs[id], field)
      {
        PostingIsExact(c, field, value, id);
        assert Term(field, value) in postings <==> Posted(c, Term(field, value));
      }
    }

    /** Exists: the documents that have a value for the field. */
    method Exists(field: string) returns (out: DocIds)
      requires Valid()
      ensures fresh(out)
      ensures forall id :: id in out.ids <==> id in c.docs && ValuesAt(c.docs[id], field) != []
    {
      if field in fieldDocs {
        out := CopySet(fieldDocs[field]);
      } else {
        out := new DocIds({});
      }
      forall id
        ensures id in out.ids <==> id in c.docs && ValuesAt(c.docs[id], field) != []
      {
        DocFieldsAt(c.docs, FieldEntry(field, id));
        assert id in out.ids <==> FieldEntry(field, id) in FieldEntries(c.fieldDocs);
      }
    }
  }

  predicate Posted(c: CollIndex, t: Term)
    reads c
  {
    t.field in c.postings && t.value in c.postings[t.field]
  }

  /** One set for each field of an index. */
  method FieldSets(c: CollIndex) returns (sets: map<string, DocIds>)
    ensures sets.Keys == c.fieldDocs.Keys && forall f :: f in sets ==> fresh(sets[f]) && sets[f].ids == c.fieldDocs[f]
  {
    sets := map[];
    var fields := c.fieldDocs.Keys;
    while fields != {}
      invariant fields <= c.fieldDocs.Keys && sets.Keys == c.fieldDocs.Keys - fields
      invariant forall f :: f in sets ==> fresh(sets[f]) && sets[f].ids == c.fieldDocs[f]
    {
      var f :| f in fields;
      var ids := new DocIds(c.fieldDocs[f]);
      sets := sets[f := ids];
      fields := fields - {f};
    }
  }

  /** One set for each field and value of an index. */
  method TermSets(c: CollIndex) returns (sets: map<Term, DocIds>)
    ensures forall t :: t in sets <==> Posted(c, t)
    ensures forall t :: t in sets ==> Posted(c, t) && fresh(sets[t]) && sets[t].ids == c.postings[t.field][t.value]
  {
    sets := map[];
    var terms := set f, v | f in c.postings && v in c.postings[f] :: Term(f, v);
    ghost var whole := terms;
    while terms != {}
      invariant terms <= whole && sets.Keys == whole - terms
      invariant forall t :: t in whole ==> Posted(c, t)
      invariant forall t :: t in sets ==> Posted(c, t) && fresh(sets[t]) && sets[t].ids == c.postings[t.field][t.value]
    {
      var t :| t in terms;
      var ids := new DocIds(c.postings[t.field][t.value]);
      sets := sets[t := ids];
      terms := terms - {t};
    }
  }

  /** A posting lists exactly the documents that carry its value. */
  lemma PostingIsExact(c: CollIndex, field: string, value: string, id: string)
    requires c.Valid()
    ensures field in c.postings && value in c.postings[field] && id in c.postings[field][value] <==>
            id in c.docs && value in ValuesAt(c.docs[id], field)
  {
    DocEntriesAt(c.docs, Entry(field, value, id));
    assert Entry(field, value, id) in Entries(c.postings) <==>
           field in c.postings && value in c.postings[field] && id in c.postings[field][value];
  }

  /** The body of Match: collect the ids of one field's values that satisfy the predicate. */
  method MatchValues(byValue: map<string, Ids>, pred: string -> bool, out: DocIds)
    modifies out
    ensures forall id :: id in out.ids <==> id in old(out.ids) || exists v :: v in byValue && pred(v) && id in byValue[v]
  {
    var todo := byValue.Keys;
    while todo != {}
      invariant todo <= byValue.Keys
      invariant forall id :: id in out.ids <==>
                  id in old(out.ids) || exists v :: v in byValue && v !in todo && pred(v) && id in byValue[v]
    {
      var value :| value in todo;
      if pred(value) {
        out.ids := out.ids + byValue[value];
      }
      todo := todo - {value};
    }
  }

  /** The field has a value satisfying the predicate. */
  predicate FieldValue(f: Fields, field: string, pred: string -> bool) {
    exists v :: v in ValuesAt(f, field) && pred(v)
  }

  /** Match: the documents with any value of the field satisfying the predicate. */
  method MatchField(c: CollIndex, field: string, pred: string -> bool) returns (out: DocIds)
    requires c.Valid()
    ensures fresh(out)
    ensures forall id :: id in out.ids <==> id in c.docs && FieldValue(c.docs[id], field, pred)
  {
    out := new DocIds({});
    var byValue := if field in c.postings then c.postings[field] else map[];
    MatchValues(byValue, pred, out);
    forall id
      ensures id in out.ids <==> id in c.docs && FieldValue(c.docs[id], field, pred)
    {
      FieldValueIsPosted(c, field, byValue, pred, id);
    }
  }

  lemma FieldValueIsPosted(c: CollIndex, field: string, byValue: map<string, Ids>, pred: string -> bool, id: string)
    requires c.Valid() && byValue == if field in c.postings then c.postings[field] else map[]
    ensures id in c.docs && FieldValue(c.docs[id], field, pred) <==>
            exists v :: v in byValue && pred(v) && id in byValue[v]
  {
    if id in c.docs && FieldValue(c.docs[id], field, pred) {
      var v :| v in ValuesAt(c.docs[id], field) && pred(v);
      PostingIsExact(c, field, v, id);
      assert v in byValue && pred(v) && id in byValue[v];
    }
    if exists v :: v in byValue && pred(v) && id in byValue[v] {
      var v :| v in byValue && pred(v) && id in byValue[v];
      PostingIsExact(c, field, v, id);
      assert v in ValuesAt(c.docs[id], field) && pred(v);
    }
  }

  /** Some field of the document has a value satisfying the predicate. */
  predicate AnyValue(f: Fields, pred: string -> bool) {
    exists name, v :: name in f && v in f[name] && pred(v)
  }

  /** MatchAny: the same across every field, for bare terms. */
  method MatchAny(c: CollIndex, pred: string -> bool) returns (out: DocIds)
    requires c.Valid()
    ensures fresh(out)
    ensures forall id :: id in out.ids <==> id in c.docs && AnyValue(c.docs[id], pred)
  {
    out := new DocIds({});
    var todo := c.postings.Keys;
    while todo != {}
      invariant fresh(out) && todo <= c.postings.Keys
      invariant forall id :: id in out.ids <==> Hit(c, todo, pred, id)
    {
      var field :| field in todo;
      ghost var before := out.ids;
      MatchValues(c.postings[field], pred, out);
      todo := todo - {field};
      forall id
        ensures id in out.ids <==> Hit(c, todo, pred, id)
      {
        HitGrows(c, todo, field, pred, id);
      }
    }
    forall id
      ensures id in out.ids <==> id in c.docs && AnyValue(c.docs[id], pred)
    {
      HitIsAnyValue(c, pred, id);
    }
  }

  /** Some field outside `left` has a posting that satisfies the predicate and lists the document. */
  ghost predicate Hit(c: CollIndex, left: set<string>, pred: string -> bool, id: string)
    reads c
  {
    exists f, v :: f in c.postings && f !in left && v in c.postings[f] && pred(v) && id in c.postings[f][v]
  }

  lemma HitGrows(c: CollIndex, left: set<string>, field: string, pred: string -> bool, id: string)
    requires field in c.postings && field !in left
    ensures Hit(c, left, pred, id) <==>
            Hit(c, left + {field}, pred, id) ||
            exists v :: v in c.postings[field] && pred(v) && id in c.postings[field][v]
  {
  }

  lemma HitIsAnyValue(c: CollIndex, pred: string -> bool, id: string)
    requires c.Valid()
    ensures Hit(c, {}, pred, id) <==> id in c.docs && AnyValue(c.docs[id], pred)
  {
    if Hit(c, {}, pred, id) {
      var f, v :| f in c.postings && v in c.postings[f] && pred(v) && id in c.postings[f][v];
      PostingIsExact(c, f, v, id);
      assert f in c.docs[id] && v in c.docs[id][f];
    }
    if id in c.docs && AnyValue(c.docs[id], pred) {
      var f, v :| f in c.docs[id] && v in c.docs[id][f] && pred(v);
      PostingIsExact(c, f, v, id);
    }
  }

  lemma BareTerm(num: string -> Option<Float>, q: Query, pred: string -> bool, f: Fields)
    requires q.TermQ? && q.field == "" && forall v :: pred(v) == MatchVal(q, v)
    ensures AnyValue(f, pred) <==> Matches(num, q, f)
  {
    if AnyValue(f, pred) {
      var name, v :| name in f && v in f[name] && pred(v);
      assert MatchVal(q, v);
    }
    if Matches(num, q, f) {
      var name, v :| name in f && v in f[name] && MatchVal(q, v);
      assert pred(v);
    }
  }

  /** A term: a posting when it has a field and nothing to expand, a pass over values otherwise. */
  method PlanTerm(num: string -> Option<Float>, q: Query, p: PostingsView) returns (out: DocIds)
    requires p.Valid() && q.TermQ?
    ensures fresh(out)
    ensures out.ids == MatchSet(num, q, p.c.docs)
  {
    var pred := v requires q.TermQ? => MatchVal(q, v);
    if q.field == "" {
      out := MatchAny(p.c, pred);
      forall f
        ensures AnyValue(f, pred) <==> Matches(num, q, f)
      {
        BareTerm(num, q, pred, f);
      }
    } else if q.glob.None? {
      out := p.Exact(q.field, q.value);
      assert forall f :: q.value in ValuesAt(f, q.field) <==> Matches(num, q, f);
    } else {
      out := MatchField(p.c, q.field, pred);
      assert forall f :: FieldValue(f, q.field, pred) <==> Matches(num, q, f);
    }
  }

  /** The recursion of Plan. Its unions and differences change sets in place, yet the result is a set of its own and,
      since nothing that existed before may be modified, none of the sets the index holds is changed. */
  method PlanIds(num: string -> Option<Float>, q: Query, p: PostingsView) returns (out: DocIds)
    requires p.Valid()
    ensures fresh(out)
    ensures out.ids == PlannedSet(num, q, p.c.docs)
    decreases q
  {
    match q {
      case MatchAll =>
        out := p.All();
      case TermQ(_, _, _, _) =>
        out := PlanTerm(num, q, p);
      case ExistsQ(field) =>
        if field == "" {
          out := p.All();
        } else {
          out := p.Exists(field);
        }
      case RangeQ(field, _, _, _, _) =>
        out := PlanRange(num, q, p);
      case And(l, r) =>
        var left := PlanIds(num, l, p);
        if left.ids == {} {
          return left;
        }
        var right := PlanIds(num, r, p);
        out := Intersect(left, right);
      case Or(l, r) =>
        var left := PlanIds(num, l, p);
        var right := PlanIds(num, r, p);
        out := Union(left, right);
      case Not(inner) =>
        var matched := PlanIds(num, inner, p);
        var all := p.All();
        out := Difference(all, matched);
    }
  }

  method PlanRange(num: string -> Option<Float>, q: Query, p: PostingsView) returns (out: DocIds)
    requires p.Valid() && q.RangeQ?
    ensures fresh(out)
    ensures out.ids == MatchSet(num, q, p.c.docs)
  {
    var pred := v requires q.RangeQ? => InRange(num, q, v);
    out := MatchField(p.c, q.field, pred);
    assert forall f :: FieldValue(f, q.field, pred) <==> Matches(num, q, f);
  }

  /** Plan: for every query and every valid index, the ids planned are exactly the ids of the documents that match, if
      and only if every document has a field or the query does not tell the readings of a bare existence test apart. */
  method Plan(num: string -> Option<Float>, q: Query, p: PostingsView) returns (out: DocIds)
    requires p.Valid()
    ensures fresh(out) && p.Valid() && out !in p.Sets()
    ensures out.ids == PlannedSet(num, q, p.c.docs)
    ensures out.ids == MatchSet(num, q, p.c.docs) <==> PlansExactly(q, p.c.docs)
    ensures NoBareExists(q) ==> out.ids == MatchSet(num, q, p.c.docs)
  {
    out := PlanIds(num, q, p);
    PlannedExactly(num, q, p.c.docs);
    if NoBareExists(q) {
      NoBareExistsSettles(q);
    }
  }

  /** Where planning and matching part ways: an existence test without a field, over one document without fields. */
  lemma BareExistsDiffers(num: string -> Option<Float>, id: string)
    ensures var (q, docs) := (ExistsQ(""), map[id := map[]]);
            PlannedSet(num, q, docs) == {id} && MatchSet(num, q, docs) == {} && !PlansExactly(q, docs)
  {
    var docs: map<string, Fields> := map[id := map[]];
    assert id in docs && docs[id] == map[];
  }
}
