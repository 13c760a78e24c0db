/** Answering a search over one collection (internal/api/search.go): by the inverted index, or by scanning with a cache
    of flattened documents. */
module Search {
  import opened Prelude
  import opened SearchIndex
  import opened StringOrder
  import opened Query
  import opened Plan

  /** What a stored document flattens to, after decoding and, for nodes, merging its attribute levels; None when it
      does not decode. */
  type Flattening = string -> Option<Fields>

  datatype CacheEntry = CacheEntry(raw: string, fields: Fields)

  const MAX_CACHE_ENTRIES := 16384

  predicate IsHit(flat: Flattening, num: string -> Option<Float>, q: Query, raw: string) {
    flat(raw).Some? && Matches(num, q, flat(raw).value)
  }

  /** The matches among the given ids. */
  function Hits(flat: Flattening, num: string -> Option<Float>, q: Query, coll: map<string, string>, ids: set<string>): set<Match> {
    set id | id in ids && id in coll && IsHit(flat, num, q, coll[id]) :: Match(id, coll[id])
  }

  /** The answer to a query: the stored documents that decode and match, sorted by id. */
  predicate IsAnswer(flat: Flattening, num: string -> Option<Float>, q: Query, coll: map<string, string>, r: seq<Match>) {
    Sorted(r) && Elems(r) == Hits(flat, num, q, coll, coll.Keys)
  }

  /** There is one answer, so two ways of answering that both give it give the same sequence. */
  lemma AnswerIsUnique(flat: Flattening, num: string -> Option<Float>, q: Query, coll: map<string, string>,
                       a: seq<Match>, b: seq<Match>)
    requires IsAnswer(flat, num, q, coll, a) && IsAnswer(flat, num, q, coll, b)
    ensures a == b
  {
    SortedIsUnique(a, b);
  }

  /** What an index of the collection holds. */
  function Contents(flat: Flattening, coll: map<string, string>): map<string, Fields> {
    map id | id in coll && flat(coll[id]).Some? :: flat(coll[id]).value
  }

  lemma ContentsGrow(flat: Flattening, coll: map<string, string>, todo: set<string>, id: string)
    requires todo <= coll.Keys && id in todo
    ensures Contents(flat, coll - (todo - {id})) == Indexed(Contents(flat, coll - todo), id, flat(coll[id]))
  {
  }

  predicate DistinctIds(ms: seq<Match>) {
    forall i, j :: 0 <= i < j < |ms| ==> ms[i].id != ms[j].id
  }

  lemma HitsGrow(flat: Flattening, num: string -> Option<Float>, q: Query, coll: map<string, string>, ids: set<string>, id: string)
    requires id in coll
    ensures Hits(flat, num, q, coll, ids + {id}) ==
            Hits(flat, num, q, coll, ids) + (if IsHit(flat, num, q, coll[id]) then {Match(id, coll[id])} else {})
  {
  }

  lemma AddMatch(ms: seq<Match>, m: Match)
    requires DistinctIds(ms) && forall x :: x in Elems(ms) ==> x.id != m.id
    ensures DistinctIds(ms + [m]) && Elems(ms + [m]) == Elems(ms) + {m}
  {
    forall i | 0 <= i < |ms|
      ensures ms[i].id != m.id
    {
      assert ms[i] in Elems(ms);
    }
  }

  /** One searchable collection, the index kept for it once searched, and the cache of flattened documents. */
  class Collection {
    const flat: Flattening
    const num: string -> Option<Float>
    var coll: map<string, string>
    var index: CollIndex?
    var cache: map<string, CacheEntry>
    var cached: nat

    constructor (flat: Flattening, num: string -> Option<Float>)
      requires forall raw :: flat(raw).Some? ==> NoEmptyField(flat(raw).value)
      ensures Valid() && coll == map[] && index == null
    {
      this.flat, this.num := flat, num;
      coll, index, cache, cached := map[], null, map[], 0;
    }

    /** The index, once built, is valid and holds the collection's contents; a cached flattening is that of the bytes
        it was cached for. */
    ghost predicate Valid()
      reads this, index
    {
      && (forall raw :: flat(raw).Some? ==> NoEmptyField(flat(raw).value))
      && (index != null ==> index.Valid() && index.docs == Contents(flat, coll))
      && (forall id :: id in cache ==> flat(cache[id].raw) == Some(cache[id].fields))
    }

    /** A write, and the event that patches the index. */
    method Put(id: string, raw: string)
      requires Valid()
      modifies this`coll, index
      ensures Valid() && coll == old(coll)[id := raw]
    {
      coll := coll[id := raw];
      if index != null {
        index.PutFlat(id, flat(raw));
        assert Contents(flat, coll) == Indexed(Contents(flat, old(coll)), id, flat(raw));
      }
    }

    method Delete(id: string)
      requires Valid()
      modifies this`coll, index
      ensures Valid() && coll == old(coll) - {id}
    {
      if id !in coll {
        return;
      }
      coll := coll - {id};
      if index != null {
        index.Remove(id);
        assert Contents(flat, coll) == Contents(flat, old(coll)) - {id};
      }
    }

    /** get: the index of the collection, built by a scan the first time. */
    method GetIndex()
      requires Valid()
      modifies this`index
      ensures Valid() && index != null
    {
      if index != null {
        return;
      }
      var built := new CollIndex();
      var todo := coll.Keys;
      while todo != {}
        invariant todo <= coll.Keys && fresh(built) && built.Valid()
        invariant built.docs == Contents(flat, coll - todo)
      {
        var id :| id in todo;
        built.PutFlat(id, flat(coll[id]));
        ContentsGrow(flat, coll, todo, id);
        todo := todo - {id};
      }
      assert coll - {} == coll;
      index := built;
    }

    /** searchCache.store: add an entry, dropping the whole cache first when it is full. */
    method Store(id: string, entry: CacheEntry)
      requires Valid() && flat(entry.raw) == Some(entry.fields)
      modifies this`cache, this`cached
      ensures Valid()
    {
      if cached >= MAX_CACHE_ENTRIES {
        cache, cached := map[], 0;
      }
      if id !in cache {
        cached := cached + 1;
      }
      cache := cache[id := entry];
    }

    /** searchDocCached: the cached flattening, when the stored bytes are those it was made from. */
    method SearchDocCached(id: string, raw: string) returns (fields: Option<Fields>)
      requires Valid()
      ensures fields.Some? ==> flat(raw) == fields
    {
      fields := None;
      if id in cache && cache[id].raw == raw {
        fields := Some(cache[id].fields);
      }
    }

    /** searchDoc: what a document flattens to, from the cache or computed and cached. */
    method SearchDoc(id: string, raw: string) returns (fields: Option<Fields>)
      requires Valid()
      modifies this`cache, this`cached
      ensures Valid() && fields == flat(raw)
    {
      fields := SearchDocCached(id, raw);
      if fields.None? {
        fields := flat(raw);
        if fields.Some? {
          Store(id, CacheEntry(raw, fields.value));
        }
      }
    }

    /** collectMatches: scan the collection, matching cached documents at once and the rest after flattening them. */
    method CollectMatches(q: Query) returns (r: seq<Match>)
      requires Valid()
      modifies this`cache, this`cached
      ensures Valid() && IsAnswer(flat, num, q, coll, r)
    {
      var matches, misses := ScanCached(q);
      ghost var done := coll.Keys - set id | id in misses;
      for i := 0 to |misses|
        invariant Valid() && DistinctIds(matches)
        invariant done == coll.Keys - set id | id in misses[i..]
        invariant Elems(matches) == Hits(flat, num, q, coll, done)
      {
        var id := misses[i];
        var fields := SearchDoc(id, coll[id]);
        assert misses[i..] == [id] + misses[i + 1..];
        HitsGrow(flat, num, q, coll, done, id);
        if fields.Some? && Matches(num, q, fields.value) {
          AddMatch(matches, Match(id, coll[id]));
          matches := matches + [Match(id, coll[id])];
        }
        done := done + {id};
      }
      assert done == coll.Keys;
      r := Sort(matches);
    }

    /** The scan itself: the cached documents that match, and the ids of those with no current cache entry. */
    method ScanCached(q: Query) returns (matches: seq<Match>, misses: seq<string>)
      requires Valid()
      ensures DistinctIds(matches) && (forall id :: id in misses ==> id in coll)
      ensures forall i, j :: 0 <= i < j < |misses| ==> misses[i] != misses[j]
      ensures Elems(matches) == Hits(flat, num, q, coll, coll.Keys - set id | id in misses)
    {
      matches, misses := [], [];
      ghost var done: set<string> := {};
      var todo := coll.Keys;
      while todo != {}
        invariant todo <= coll.Keys && DistinctIds(matches) && done <= coll.Keys - todo
        invariant done == coll.Keys - todo - set id | id in misses
        invariant forall id :: id in misses ==> id in coll && id !in todo
        invariant forall i, j :: 0 <= i < j < |misses| ==> misses[i] != misses[j]
        invariant Elems(matches) == Hits(flat, num, q, coll, done)
      {
        var id :| id in todo;
        var fields := SearchDocCached(id, coll[id]);
        if fields.Some? {
          HitsGrow(flat, num, q, coll, done, id);
          if Matches(num, q, fields.value) {
            AddMatch(matches, Match(id, coll[id]));
            matches := matches + [Match(id, coll[id])];
          }
          done := done + {id};
        } else {
          misses := misses + [id];
        }
        todo := todo - {id};
      }
      assert done == coll.Keys - set id | id in misses;
    }

    /** findMatches: plan the query against the index, then fetch the planned documents. It gives the answer exactly when
        planning is exact, as it is for whatever the parser accepts. */
    method FindMatches(q: Query) returns (r: seq<Match>)
      requires Valid()
      modifies this`index
      ensures Valid() && (IsAnswer(flat, num, q, coll, r) <==> PlansExactly(q, Contents(flat, coll)))
      ensures NoBareExists(q) ==> IsAnswer(flat, num, q, coll, r)
    {
      GetIndex();
      var view := new Plan.PostingsView(index);
      var ids := Plan.Plan(num, q, view);
      r := FetchMatches(ids.ids, |index.all|);
      PlannedAnswer(flat, num, q, coll, ids.ids);
      if NoBareExists(q) {
        NoBareExistsSettles(q);
      }
    }

    /** fetchMatches: scan when the planned ids are a large share of what is indexed, read one by one otherwise. */
    method FetchMatches(ids: set<string>, indexed: nat) returns (r: seq<Match>)
      ensures Sorted(r) && Elems(r) == set id | id in ids && id in coll :: Match(id, coll[id])
    {
      var matches: seq<Match> := [];
      var byScan := indexed > 0 && |ids| * 4 >= indexed;
      var todo := if byScan then coll.Keys else ids;
      ghost var start := todo;
      while todo != {}
        invariant todo <= start && DistinctIds(matches)
        invariant Elems(matches) == set id | id in ids && id in coll && id in start - todo :: Match(id, coll[id])
      {
        var id :| id in todo;
        if (byScan && id in ids) || (!byScan && id in coll) {
          AddMatch(matches, Match(id, coll[id]));
          matches := matches + [Match(id, coll[id])];
        }
        todo := todo - {id};
      }
      r := Sort(matches);
    }

    /** collectAll: the match-all path, which returns every stored document without decoding any. It is the answer a scan
        would give exactly when every stored document decodes. */
    method CollectAll() returns (r: seq<Match>)
      ensures Sorted(r) && Elems(r) == set id | id in coll :: Match(id, coll[id])
      ensures IsAnswer(flat, num, MatchAll, coll, r) <==> forall id :: id in coll ==> flat(coll[id]).Some?
    {
      r := FetchMatches(coll.Keys, |coll|);
      CollectAllAgrees(flat, num, coll);
    }
  }

  /** One stored document that does not decode is listed and is no answer. */
  lemma UndecodableIsListed(flat: Flattening, num: string -> Option<Float>, raw: string)
    requires flat(raw).None?
    ensures var coll := map["web1" := raw];
            (set id | id in coll :: Match(id, coll[id])) == {Match("web1", raw)} && Hits(flat, num, MatchAll, coll, coll.Keys) == {}
  {
    var coll := map["web1" := raw];
    assert "web1" in coll;
  }

  lemma PlannedAnswer(flat: Flattening, num: string -> Option<Float>, q: Query, coll: map<string, string>, ids: set<string>)
    requires ids <= Contents(flat, coll).Keys
    ensures (set id | id in ids && id in coll :: Match(id, coll[id])) == Hits(flat, num, q, coll, coll.Keys) <==>
            ids == MatchSet(num, q, Contents(flat, coll))
  {
    var docs := Contents(flat, coll);
    var found, hits := set id | id in ids && id in coll :: Match(id, coll[id]), Hits(flat, num, q, coll, coll.Keys);
    forall id
      ensures id in ids <==> id in coll && Match(id, coll[id]) in found
      ensures id in MatchSet(num, q, docs) <==> id in coll && Match(id, coll[id]) in hits
    {
      assert id in docs <==> id in coll && flat(coll[id]).Some?;
    }
    assert found == hits ==> ids == MatchSet(num, q, docs);
  }

  /** The match-all path gives the answer a scan would exactly when every stored document decodes. */
  lemma CollectAllAgrees(flat: Flattening, num: string -> Option<Float>, coll: map<string, string>)
    ensures (set id | id in coll :: Match(id, coll[id])) == Hits(flat, num, MatchAll, coll, coll.Keys) <==>
            forall id :: id in coll ==> flat(coll[id]).Some?
  {
    var all := set id | id in coll :: Match(id, coll[id]);
    if all == Hits(flat, num, MatchAll, coll, coll.Keys) {
      forall id | id in coll
        ensures flat(coll[id]).Some?
      {
        assert Match(id, coll[id]) in all;
      }
    }
  }
}
