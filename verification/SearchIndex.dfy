/** The inverted search index of one collection (internal/api/searchindex.go): field/value pairs mapped to the
    documents carrying them, patched in place as documents are written and removed. */
module SearchIndex {
  import opened Prelude

  /** A document as search sees it: each field with the values it carries. */
  type Fields = map<string, seq<string>>
  type Ids = set<string>
  type Postings = map<string, map<string, Ids>>

  datatype Term = Term(field: string, value: string)

  /** Document `id` carries `value` under `field`. */
  datatype Entry = Entry(field: string, value: string, id: string)

  /** Document `id` has `field`. */
  datatype FieldEntry = FieldEntry(field: string, id: string)

  // What the documents say

  /** A flattened document never holds a field without values (see Flatten). */
  predicate NoEmptyField(fields: Fields) {
    forall f :: f in fields ==> fields[f] != []
  }

  function FieldsEntries(id: string, fields: Fields): set<Entry> {
    set f, v | f in fields && v in fields[f] :: Entry(f, v, id)
  }

  function FieldsHad(id: string, fields: Fields): set<FieldEntry> {
    set f | f in fields :: FieldEntry(f, id)
  }

  function DocEntries(docs: map<string, Fields>): set<Entry> {
    set id, e | id in docs && e in FieldsEntries(id, docs[id]) :: e
  }

  function DocFields(docs: map<string, Fields>): set<FieldEntry> {
    set id, e | id in docs && e in FieldsHad(id, docs[id]) :: e
  }

  lemma DocEntriesAt(docs: map<string, Fields>, e: Entry)
    ensures e in DocEntries(docs) <==> e.id in docs && e in FieldsEntries(e.id, docs[e.id])
  {
  }

  lemma DocFieldsAt(docs: map<string, Fields>, e: FieldEntry)
    ensures e in DocFields(docs) <==> e.id in docs && e.field in docs[e.id]
  {
    if e.id in docs && e.field in docs[e.id] {
      assert e in FieldsHad(e.id, docs[e.id]);
    }
  }

  // What the index structures say

  function Entries(p: Postings): set<Entry> {
    set f, v, id | f in p && v in p[f] && id in p[f][v] :: Entry(f, v, id)
  }

  function FieldEntries(d: map<string, Ids>): set<FieldEntry> {
    set f, id | f in d && id in d[f] :: FieldEntry(f, id)
  }

  function TermEntries(id: string, terms: seq<Term>): set<Entry> {
    set t | t in terms :: Entry(t.field, t.value, id)
  }

  function TermFields(id: string, terms: seq<Term>): set<FieldEntry> {
    set t | t in terms :: FieldEntry(t.field, id)
  }

  predicate PrunedValues(byValue: map<string, Ids>) {
    forall v :: v in byValue ==> byValue[v] != {}
  }

  /** No posting is empty, at either level. */
  predicate Pruned(p: Postings) {
    forall f :: f in p ==> p[f] != map[] && PrunedValues(p[f])
  }

  /** A value's ids with one id removed, dropping the value when none is left. */
  function DropId(byValue: map<string, Ids>, v: string, id: string): map<string, Ids> {
    if v !in byValue then byValue
    else if byValue[v] - {id} == {} then byValue - {v}
    else byValue[v := byValue[v] - {id}]
  }

  /** Postings with one id removed from one term, pruning what becomes empty. */
  function Drop(p: Postings, t: Term, id: string): Postings {
    if t.field !in p then p
    else
      var kept := DropId(p[t.field], t.value, id);
      if kept == map[] then p - {t.field} else p[t.field := kept]
  }

  function AddId(byValue: map<string, Ids>, v: string, id: string): map<string, Ids> {
    byValue[v := (if v in byValue then byValue[v] else {}) + {id}]
  }

  lemma DropIdIsExact(byValue: map<string, Ids>, v: string, id: string)
    requires PrunedValues(byValue)
    ensures PrunedValues(DropId(byValue, v, id))
    ensures FieldEntries(DropId(byValue, v, id)) == FieldEntries(byValue) - {FieldEntry(v, id)}
  {
    var kept := DropId(byValue, v, id);
    forall e
      ensures e in FieldEntries(kept) <==> e in FieldEntries(byValue) - {FieldEntry(v, id)}
    {
      if e in FieldEntries(byValue) && e.field == v && e.id != id {
        assert e.id in byValue[v] - {id};
      }
    }
  }

  lemma AddIdIsExact(byValue: map<string, Ids>, v: string, id: string)
    ensures PrunedValues(byValue) ==> PrunedValues(AddId(byValue, v, id))
    ensures FieldEntries(AddId(byValue, v, id)) == FieldEntries(byValue) + {FieldEntry(v, id)}
  {
    var more := AddId(byValue, v, id);
    assert v in more && id in more[v];
  }

  /** The entries of one field's postings. */
  lemma EntriesAt(p: Postings, f: string, v: string, id: string)
    ensures Entry(f, v, id) in Entries(p) <==> f in p && FieldEntry(v, id) in FieldEntries(p[f])
  {
  }

  lemma DropIsExact(p: Postings, t: Term, id: string)
    requires Pruned(p)
    ensures Pruned(Drop(p, t, id))
    ensures Entries(Drop(p, t, id)) == Entries(p) - {Entry(t.field, t.value, id)}
  {
    if t.field in p {
      DropIdIsExact(p[t.field], t.value, id);
      DropAtField(p, t, id);
    } else {
      EntriesAt(p, t.field, t.value, id);
    }
  }

  lemma DropAtField(p: Postings, t: Term, id: string)
    requires t.field in p
    requires FieldEntries(DropId(p[t.field], t.value, id)) == FieldEntries(p[t.field]) - {FieldEntry(t.value, id)}
    ensures Entries(Drop(p, t, id)) == Entries(p) - {Entry(t.field, t.value, id)}
  {
    var p', kept := Drop(p, t, id), DropId(p[t.field], t.value, id);
    assert kept == map[] ==> FieldEntries(kept) == {};
    forall e
      ensures e in Entries(p') <==> e in Entries(p) && e != Entry(t.field, t.value, id)
    {
      EntriesAt(p, e.field, e.value, e.id);
      EntriesAt(p', e.field, e.value, e.id);
      assert FieldEntry(e.value, e.id) in FieldEntries(kept) <==>
             FieldEntry(e.value, e.id) in FieldEntries(p[t.field]) && !(e.value == t.value && e.id == id);
      assert e.field != t.field ==> (e.field in p' <==> e.field in p) && (e.field in p ==> p'[e.field] == p[e.field]);
    }
  }

  lemma FieldReplaced(p: Postings, field: string, byValue: map<string, Ids>, id: string, values: seq<string>)
    requires FieldEntries(byValue) ==
             FieldEntries(if field in p then p[field] else map[]) + (set v | v in values :: FieldEntry(v, id))
    ensures Entries(p[field := byValue]) == Entries(p) + FieldsEntries(id, map[field := values])
  {
    var p' := p[field := byValue];
    forall e
      ensures e in Entries(p') <==> e in Entries(p) + FieldsEntries(id, map[field := values])
    {
      EntriesAt(p, e.field, e.value, e.id);
      EntriesAt(p', e.field, e.value, e.id);
      assert e in FieldsEntries(id, map[field := values]) <==> e.field == field && e.id == id && e.value in values;
    }
  }

  class CollIndex {
    var postings: Postings
    var fieldDocs: map<string, Ids>
    var docTerms: map<string, seq<Term>>
    var all: Ids
    /** The documents indexed, by id: what the four structures above stand for. */
    ghost var docs: map<string, Fields>

    constructor ()
      ensures Valid() && docs == map[]
    {
      postings, fieldDocs, docTerms, all := map[], map[], map[], {};
      docs := map[];
    }

    /** An id is in a posting exactly when its document carries that value of that field, in a field's documents
        exactly when its document has the field, and no empty posting survives. */
    ghost predicate Valid()
      reads this
    {
      && all == docs.Keys == docTerms.Keys
      && Pruned(postings) && PrunedValues(fieldDocs)
      && Entries(postings) == DocEntries(docs)
      && FieldEntries(fieldDocs) == DocFields(docs)
      && forall id :: id in docs ==> NoEmptyField(docs[id]) && TermEntries(id, docTerms[id]) == FieldsEntries(id, docs[id])
    }

    /** retract: remove what a document contributed, term by term; a repeated term is met again and changes
        nothing. */
    method Retract(id: string)
      requires Valid()
      modifies this`postings, this`fieldDocs, this`docTerms
      ensures Pruned(postings) && PrunedValues(fieldDocs)
      ensures Entries(postings) == DocEntries(docs - {id})
      ensures FieldEntries(fieldDocs) == DocFields(docs - {id})
      ensures docTerms == old(docTerms)[id := []]
    {
      var terms := if id in docTerms then docTerms[id] else [];
      for i := 0 to |terms|
        invariant docTerms == old(docTerms)
        invariant Pruned(postings) && PrunedValues(fieldDocs)
        invariant Entries(postings) == DocEntries(docs) - TermEntries(id, terms[..i])
        invariant FieldEntries(fieldDocs) == DocFields(docs) - TermFields(id, terms[..i])
      {
        RetractTerm(id, terms[i]);
        TermsSnoc(id, terms, i);
      }
      assert terms[..|terms|] == terms;
      TermsAreAll(docs, id, terms);
      docTerms := docTerms[id := []];
    }

    /** One term of one document. */
    method RetractTerm(id: string, t: Term)
      requires Pruned(postings) && PrunedValues(fieldDocs)
      modifies this`postings, this`fieldDocs
      ensures Pruned(postings) && PrunedValues(fieldDocs)
      ensures Entries(postings) == old(Entries(postings)) - {Entry(t.field, t.value, id)}
      ensures FieldEntries(fieldDocs) == old(FieldEntries(fieldDocs)) - {FieldEntry(t.field, id)}
    {
      DropIsExact(postings, t, id);
      postings := Drop(postings, t, id);
      DropIdIsExact(fieldDocs, t.field, id);
      fieldDocs := DropId(fieldDocs, t.field, id);
    }

    /** put: replace a document's entry. */
    method Put(id: string, fields: Fields)
      requires Valid() && NoEmptyField(fields)
      modifies this
      ensures Valid() && docs == old(docs)[id := fields]
    {
      Retract(id);
      var terms := PutFields(id, fields);
      DocsReplaced(docs, id, fields);
      docTerms := docTerms[id := terms];
      all := all + {id};
      docs := docs[id := fields];
    }

    /** put's loop over the fields of one document. */
    method PutFields(id: string, fields: Fields) returns (terms: seq<Term>)
      requires Pruned(postings) && PrunedValues(fieldDocs) && NoEmptyField(fields)
      modifies this`postings, this`fieldDocs
      ensures Pruned(postings) && PrunedValues(fieldDocs)
      ensures Entries(postings) == old(Entries(postings)) + FieldsEntries(id, fields)
      ensures FieldEntries(fieldDocs) == old(FieldEntries(fieldDocs)) + FieldsHad(id, fields)
      ensures TermEntries(id, terms) == FieldsEntries(id, fields)
    {
      terms := [];
      var left := fields.Keys;
      while left != {}
        invariant left <= fields.Keys
        invariant Pruned(postings) && PrunedValues(fieldDocs)
        invariant Entries(postings) == old(Entries(postings)) + FieldsEntries(id, fields - left)
        invariant FieldEntries(fieldDocs) == old(FieldEntries(fieldDocs)) + FieldsHad(id, fields - left)
        invariant TermEntries(id, terms) == FieldsEntries(id, fields - left)
      {
        var field :| field in left;
        var more := PutField(id, field, fields[field]);
        FieldsGrow(id, fields, left, field);
        TermsAppend(id, terms, more);
        terms := terms + more;
        left := left - {field};
      }
      assert fields - {} == fields;
    }

    /** The body of put's loop: one field of one document. */
    method PutField(id: string, field: string, values: seq<string>) returns (terms: seq<Term>)
      requires values != [] && Pruned(postings) && PrunedValues(fieldDocs)
      modifies this`postings, this`fieldDocs
      ensures Pruned(postings) && PrunedValues(fieldDocs)
      ensures Entries(postings) == old(Entries(postings)) + FieldsEntries(id, map[field := values])
      ensures FieldEntries(fieldDocs) == old(FieldEntries(fieldDocs)) + {FieldEntry(field, id)}
      ensures TermEntries(id, terms) == FieldsEntries(id, map[field := values])
    {
      AddIdIsExact(fieldDocs, field, id);
      fieldDocs := AddId(fieldDocs, field, id);
      var byValue := if field in postings then postings[field] else map[];
      byValue, terms := PutValues(byValue, id, field, values);
      FieldReplaced(postings, field, byValue, id, values);
      postings := postings[field := byValue];
    }

    static method PutValues(before: map<string, Ids>, id: string, field: string, values: seq<string>)
      returns (byValue: map<string, Ids>, terms: seq<Term>)
      requires values != [] && PrunedValues(before)
      ensures PrunedValues(byValue) && byValue != map[]
      ensures FieldEntries(byValue) == FieldEntries(before) + (set v | v in values :: FieldEntry(v, id))
      ensures TermEntries(id, terms) == FieldsEntries(id, map[field := values])
    {
      byValue, terms := before, [];
      for i := 0 to |values|
        invariant PrunedValues(byValue) && (i > 0 ==> byValue != map[])
        invariant FieldEntries(byValue) == FieldEntries(before) + (set v | v in values[..i] :: FieldEntry(v, id))
        invariant TermEntries(id, terms) == FieldsEntries(id, map[field := values[..i]])
      {
        AddIdIsExact(byValue, values[i], id);
        byValue := AddId(byValue, values[i], id);
        assert values[..i + 1] == values[..i] + [values[i]];
        ValuesGrow(id, field, values[..i], values[i]);
        TermsAppend(id, terms, [Term(field, values[i])]);
        terms := terms + [Term(field, values[i])];
      }
      assert values[..|values|] == values;
    }

    /** remove: drop a document entirely. */
    method Remove(id: string)
      requires Valid()
      modifies this
      ensures Valid() && docs == old(docs) - {id}
    {
      Retract(id);
      docTerms := docTerms - {id};
      all := all - {id};
      docs := docs - {id};
    }

    /** Index a document from what its stored bytes flatten to; one that does not decode is removed. */
    method PutFlat(id: string, flat: Option<Fields>)
      requires Valid() && (flat.Some? ==> NoEmptyField(flat.value))
      modifies this
      ensures Valid() && docs == Indexed(old(docs), id, flat)
    {
      match flat {
        case None => Remove(id);
        case Some(fields) => Put(id, fields);
      }
    }

    /** The index holds nothing but what its documents determine: two valid indexes of the same documents are equal
        structure by structure, however each was reached. */
    lemma Canonical(other: CollIndex)
      requires Valid() && other.Valid() && docs == other.docs
      ensures postings == other.postings && fieldDocs == other.fieldDocs && all == other.all
    {
      SamePostings(postings, other.postings);
      SameValues(fieldDocs, other.fieldDocs);
    }
  }

  /** What writing or dropping one document does to the documents indexed. */
  function Indexed(docs: map<string, Fields>, id: string, flat: Option<Fields>): map<string, Fields> {
    if flat.Some? then docs[id := flat.value] else docs - {id}
  }

  /** A document's terms cover all it contributed, its fields included since none is without values. */
  lemma TermsAreAll(docs: map<string, Fields>, id: string, terms: seq<Term>)
    requires id in docs ==> NoEmptyField(docs[id]) && TermEntries(id, terms) == FieldsEntries(id, docs[id])
    requires id !in docs ==> terms == []
    ensures DocEntries(docs) - TermEntries(id, terms) == DocEntries(docs - {id})
    ensures DocFields(docs) - TermFields(id, terms) == DocFields(docs - {id})
  {
    forall e
      ensures e in DocEntries(docs) - TermEntries(id, terms) <==> e in DocEntries(docs - {id})
    {
      DocEntriesAt(docs, e);
      DocEntriesAt(docs - {id}, e);
    }
    forall e
      ensures e in DocFields(docs) - TermFields(id, terms) <==> e in DocFields(docs - {id})
    {
      DocFieldsAt(docs, e);
      DocFieldsAt(docs - {id}, e);
      if e.id == id && id in docs && e.field in docs[id] {
        assert Entry(e.field, docs[id][e.field][0], id) in TermEntries(id, terms);
      }
    }
  }

  lemma DocsReplaced(docs: map<string, Fields>, id: string, fields: Fields)
    ensures DocEntries(docs[id := fields]) == DocEntries(docs - {id}) + FieldsEntries(id, fields)
    ensures DocFields(docs[id := fields]) == DocFields(docs - {id}) + FieldsHad(id, fields)
  {
    var docs' := docs[id := fields];
    forall e
      ensures e in DocEntries(docs') <==> e in DocEntries(docs - {id}) + FieldsEntries(id, fields)
    {
      DocEntriesAt(docs', e);
      DocEntriesAt(docs - {id}, e);
    }
    forall e
      ensures e in DocFields(docs') <==> e in DocFields(docs - {id}) + FieldsHad(id, fields)
    {
      DocFieldsAt(docs', e);
      DocFieldsAt(docs - {id}, e);
    }
  }

  lemma FieldsGrow(id: string, fields: Fields, left: set<string>, field: string)
    requires field in left && left <= fields.Keys
    ensures FieldsEntries(id, fields - (left - {field})) ==
            FieldsEntries(id, fields - left) + FieldsEntries(id, map[field := fields[field]])
    ensures FieldsHad(id, fields - (left - {field})) == FieldsHad(id, fields - left) + {FieldEntry(field, id)}
  {
  }

  lemma ValuesGrow(id: string, field: string, values: seq<string>, v: string)
    ensures FieldsEntries(id, map[field := values + [v]]) ==
            FieldsEntries(id, map[field := values]) + {Entry(field, v, id)}
  {
    var more := map[field := values + [v]];
    assert field in more && v in more[field];
  }

  lemma TermsAppend(id: string, terms: seq<Term>, more: seq<Term>)
    ensures TermEntries(id, terms + more) == TermEntries(id, terms) + TermEntries(id, more)
  {
  }

  lemma TermsSnoc(id: string, terms: seq<Term>, i: nat)
    requires i < |terms|
    ensures TermEntries(id, terms[..i + 1]) == TermEntries(id, terms[..i]) + {Entry(terms[i].field, terms[i].value, id)}
    ensures TermFields(id, terms[..i + 1]) == TermFields(id, terms[..i]) + {FieldEntry(terms[i].field, id)}
  {
    assert terms[..i + 1] == terms[..i] + [terms[i]];
  }

  lemma SameValues(a: map<string, Ids>, b: map<string, Ids>)
    requires PrunedValues(a) && PrunedValues(b) && FieldEntries(a) == FieldEntries(b)
    ensures a == b
  {
    ValuesInside(a, b);
    ValuesInside(b, a);
    assert a.Keys == b.Keys;
    assert forall v :: v in a ==> a[v] == b[v];
  }

  lemma ValuesInside(a: map<string, Ids>, b: map<string, Ids>)
    requires PrunedValues(a) && FieldEntries(a) <= FieldEntries(b)
    ensures forall v :: v in a ==> v in b && a[v] <= b[v]
  {
    forall v, id | v in a && id in a[v]
      ensures v in b && id in b[v]
    {
      assert FieldEntry(v, id) in FieldEntries(a);
    }
    forall v | v in a
      ensures v in b
    {
      var id :| id in a[v];
    }
  }

  lemma SamePostings(p: Postings, q: Postings)
    requires Pruned(p) && Pruned(q) && Entries(p) == Entries(q)
    ensures p == q
  {
    PostingsInside(p, q);
    PostingsInside(q, p);
    forall f | f in p
      ensures p[f] == q[f]
    {
      SameValues(p[f], q[f]);
    }
  }

  lemma PostingsInside(p: Postings, q: Postings)
    requires Pruned(p) && Entries(p) <= Entries(q)
    ensures forall f :: f in p ==> f in q && FieldEntries(p[f]) <= FieldEntries(q[f])
  {
    forall f, e | f in p && e in FieldEntries(p[f])
      ensures f in q && e in FieldEntries(q[f])
    {
      EntriesAt(p, f, e.field, e.id);
      EntriesAt(q, f, e.field, e.id);
      assert Entry(f, e.field, e.id) in Entries(p);
    }
    forall f | f in p
      ensures f in q
    {
      var v :| v in p[f];
      var id :| id in p[f][v];
      assert FieldEntry(v, id) in FieldEntries(p[f]);
    }
  }
}
