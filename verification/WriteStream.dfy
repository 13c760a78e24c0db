/** The store's write stream (internal/store/store.go, watch.go) over the in-memory backend (internal/store/memory.go):
    every write that changed something is reported once, in order, and a transaction's writes only if it commits. */
module WriteStream {
  import opened Prelude

  datatype ObjKey = ObjKey(org: string, coll: string, key: string)

  type Data = map<string, map<string, map<string, string>>>
  type Objects = map<ObjKey, string>

  /** One committed write; an organization-wide drop is reported as a deletion with no collection. */
  datatype Event = Event(org: string, coll: string, key: string, value: string, deleted: bool)

  /** What a derived index makes of one event. */
  function Observe(m: Objects, ev: Event): Objects {
    if ev.deleted && ev.coll == "" then map k | k in m && k.org != ev.org :: m[k]
    else if ev.deleted then m - {ObjKey(ev.org, ev.coll, ev.key)}
    else m[ObjKey(ev.org, ev.coll, ev.key) := ev.value]
  }

  function Replay(m: Objects, events: seq<Event>): Objects
    decreases |events|
  {
    if events == [] then m else Replay(Observe(m, events[0]), events[1..])
  }

  lemma {:induction false} ReplayConcat(m: Objects, a: seq<Event>, b: seq<Event>)
    ensures Replay(m, a + b) == Replay(Replay(m, a), b)
    decreases |a|
  {
    if a == [] {
      assert a + b == b;
    } else {
      assert (a + b)[1..] == a[1..] + b;
      ReplayConcat(Observe(m, a[0]), a[1..], b);
    }
  }

  lemma ReplayOne(m: Objects, ev: Event)
    ensures Replay(m, [ev]) == Observe(m, ev)
  {
    assert [ev][1..] == [];
  }

  /** The stored objects, by their full keys. */
  function View(d: Data): Objects {
    map o, c, k | o in d && c in d[o] && k in d[o][c] :: ObjKey(o, c, k) := d[o][c][k]
  }

  predicate Stored(d: Data, x: ObjKey) {
    x.org in d && x.coll in d[x.org] && x.key in d[x.org][x.coll]
  }

  lemma ViewAt(d: Data, x: ObjKey)
    ensures x in View(d) <==> Stored(d, x)
    ensures Stored(d, x) ==> View(d)[x] == d[x.org][x.coll][x.key]
  {
  }

  /** The view is the one map with these entries. */
  lemma ViewIs(d: Data, m: Objects)
    requires forall x :: x in m <==> Stored(d, x)
    requires forall x :: x in m ==> Stored(d, x) && m[x] == d[x.org][x.coll][x.key]
    ensures View(d) == m
  {
    forall x
      ensures x in View(d) <==> x in m
      ensures x in m ==> View(d)[x] == m[x]
    {
      ViewAt(d, x);
    }
  }

  function SetAt(d: Data, o: string, c: string, k: string, v: string): Data {
    var colls := if o in d then d[o] else map[];
    var keys := if c in colls then colls[c] else map[];
    d[o := colls[c := keys[k := v]]]
  }

  lemma StoredAfterSet(d: Data, o: string, c: string, k: string, v: string, x: ObjKey)
    ensures Stored(SetAt(d, o, c, k, v), x) <==> x == ObjKey(o, c, k) || Stored(d, x)
    ensures Stored(SetAt(d, o, c, k, v), x) ==>
              SetAt(d, o, c, k, v)[x.org][x.coll][x.key] == if x == ObjKey(o, c, k) then v else d[x.org][x.coll][x.key]
  {
  }

  lemma SetIsUpdate(d: Data, o: string, c: string, k: string, v: string)
    ensures View(SetAt(d, o, c, k, v)) == View(d)[ObjKey(o, c, k) := v]
  {
    var d', m := SetAt(d, o, c, k, v), View(d)[ObjKey(o, c, k) := v];
    forall x
      ensures x in m <==> Stored(d', x)
      ensures x in m ==> m[x] == d'[x.org][x.coll][x.key]
    {
      ViewAt(d, x);
      StoredAfterSet(d, o, c, k, v, x);
    }
    ViewIs(d', m);
  }

  lemma DeleteIsRemoval(d: Data, o: string, c: string, k: string)
    requires Stored(d, ObjKey(o, c, k))
    ensures View(d[o := d[o][c := d[o][c] - {k}]]) == View(d) - {ObjKey(o, c, k)}
  {
    var d', m := d[o := d[o][c := d[o][c] - {k}]], View(d) - {ObjKey(o, c, k)};
    forall x
      ensures x in m <==> Stored(d', x)
      ensures x in m ==> m[x] == d'[x.org][x.coll][x.key]
    {
      ViewAt(d, x);
    }
    ViewIs(d', m);
  }

  /** What is left of the objects after an organization's deletion is read back. */
  lemma DropAt(m: Objects, o: string, x: ObjKey)
    ensures x in Observe(m, Event(o, "", "", "", true)) <==> x in m && x.org != o
    ensures x in m && x.org != o ==> Observe(m, Event(o, "", "", "", true))[x] == m[x]
  {
  }

  lemma StoredAfterDrop(d: Data, o: string, x: ObjKey)
    ensures Stored(d - {o}, x) <==> Stored(d, x) && x.org != o
    ensures Stored(d - {o}, x) ==> (d - {o})[x.org][x.coll][x.key] == d[x.org][x.coll][x.key]
  {
  }

  lemma DropIsOrgRemoval(d: Data, o: string)
    ensures View(d - {o}) == Observe(View(d), Event(o, "", "", "", true))
  {
    var d', m := d - {o}, Observe(View(d), Event(o, "", "", "", true));
    forall x
      ensures x in m <==> Stored(d', x)
      ensures x in m ==> m[x] == d'[x.org][x.coll][x.key]
    {
      ViewAt(d, x);
      DropAt(View(d), o, x);
      StoredAfterDrop(d, o, x);
    }
    ViewIs(d', m);
  }

  class MemoryBackend {
    var orgs: set<string>
    var data: Data

    constructor ()
      ensures orgs == {} && data == map[]
    {
      orgs, data := {}, map[];
    }
  }

  class Counter {
    var n: nat

    constructor ()
      ensures n == 0
    {
      n := 0;
    }
  }

  /** Where a store's writes are delivered: the observers, or a transaction's buffer. */
  class Emitter {
    var events: seq<Event>

    constructor ()
      ensures events == []
    {
      events := [];
    }

    method Emit(ev: Event)
      modifies this
      ensures events == old(events) + [ev]
    {
      events := events + [ev];
    }

    /** flushTo: replay the buffered events, in order. */
    method FlushTo(dst: Emitter)
      requires dst != this
      modifies this, dst
      ensures dst.events == old(dst.events) + old(events) && events == []
    {
      var buffered := events;
      events := [];
      for i := 0 to |buffered|
        invariant dst.events == old(dst.events) + buffered[..i] && events == []
      {
        dst.Emit(buffered[i]);
      }
    }
  }

  datatype Outcome = Done | Conflict | Absent

  /** One thing a caller does; a transaction runs its body and then commits or fails. */
  datatype Op =
    | Put(org: string, coll: string, key: string, value: string)
    | Create(org: string, coll: string, key: string, value: string)
    | Delete(org: string, coll: string, key: string)
    | CreateOrg(name: string)
    | DeleteOrg(name: string)
    | Tx(body: seq<Op>, commits: bool)

  /** No object is deleted from a collection with the empty name, which the stream could not tell from a drop. */
  predicate NoUnnamedDelete(ops: seq<Op>) {
    forall op :: op in ops ==> (op.Delete? ==> op.coll != "") && (op.Tx? ==> NoUnnamedDelete(op.body))
  }

  lemma NamedOne(ops: seq<Op>, i: nat)
    requires i < |ops| && NoUnnamedDelete(ops)
    ensures NoUnnamedDelete([ops[i]])
  {
    assert forall op :: op in [ops[i]] ==> op == ops[i] && op in ops;
  }

  const GROUPS_COLL := "groups"

  class Store {
    const backend: MemoryBackend
    const groupsGen: Counter
    const events: Emitter

    constructor (backend: MemoryBackend, groupsGen: Counter, events: Emitter)
      ensures this.backend == backend && this.groupsGen == groupsGen && this.events == events
    {
      this.backend, this.groupsGen, this.events := backend, groupsGen, events;
    }

    /** note: advance the groups generation for a groups write, then report. */
    method Note(ev: Event)
      modifies groupsGen, events
      ensures events.events == old(events.events) + [ev]
      ensures groupsGen.n == old(groupsGen.n) + if ev.coll == GROUPS_COLL then 1 else 0
    {
      if ev.coll == GROUPS_COLL {
        groupsGen.n := groupsGen.n + 1;
      }
      events.Emit(ev);
    }

    method Put(o: string, c: string, k: string, v: string)
      modifies backend, groupsGen, events
      ensures View(backend.data) == old(View(backend.data))[ObjKey(o, c, k) := v] && backend.orgs == old(backend.orgs)
      ensures events.events == old(events.events) + [Event(o, c, k, v, false)]
      ensures groupsGen.n == old(groupsGen.n) + if c == GROUPS_COLL then 1 else 0
    {
      SetIsUpdate(backend.data, o, c, k, v);
      backend.data := SetAt(backend.data, o, c, k, v);
      Note(Event(o, c, k, v, false));
    }

    method Create(o: string, c: string, k: string, v: string) returns (r: Outcome)
      modifies backend, groupsGen, events
      ensures r == if ObjKey(o, c, k) in old(View(backend.data)) then Conflict else Done
      ensures backend.orgs == old(backend.orgs)
      ensures r.Conflict? ==> View(backend.data) == old(View(backend.data)) && events.events == old(events.events)
      ensures r.Done? ==> View(backend.data) == old(View(backend.data))[ObjKey(o, c, k) := v]
                          && events.events == old(events.events) + [Event(o, c, k, v, false)]
    {
      ViewAt(backend.data, ObjKey(o, c, k));
      if o in backend.data && c in backend.data[o] && k in backend.data[o][c] {
        return Conflict;
      }
      Put(o, c, k, v);
      return Done;
    }

    /** Delete: also what was there. */
    method Delete(o: string, c: string, k: string) returns (r: Outcome, was: Option<string>)
      modifies backend, groupsGen, events
      ensures was == (if ObjKey(o, c, k) in old(View(backend.data)) then Some(old(View(backend.data))[ObjKey(o, c, k)]) else None)
      ensures r == if ObjKey(o, c, k) in old(View(backend.data)) then Done else Absent
      ensures View(backend.data) == old(View(backend.data)) - {ObjKey(o, c, k)} && backend.orgs == old(backend.orgs)
      ensures events.events == old(events.events) + if r.Done? then [Event(o, c, k, "", true)] else []
    {
      ViewAt(backend.data, ObjKey(o, c, k));
      if o !in backend.data || c !in backend.data[o] || k !in backend.data[o][c] {
        return Absent, None;
      }
      was := Some(backend.data[o][c][k]);
      DeleteIsRemoval(backend.data, o, c, k);
      backend.data := backend.data[o := backend.data[o][c := backend.data[o][c] - {k}]];
      Note(Event(o, c, k, "", true));
      r := Done;
    }

    method CreateOrg(name: string) returns (r: Outcome)
      modifies backend
      ensures backend.data == old(backend.data) && backend.orgs == old(backend.orgs) + {name}
      ensures r == if name in old(backend.orgs) then Conflict else Done
    {
      if name in backend.orgs {
        return Conflict;
      }
      backend.orgs := backend.orgs + {name};
      return Done;
    }

    method DeleteOrg(name: string) returns (existed: bool)
      modifies backend, events
      ensures existed == (name in old(backend.orgs)) && backend.orgs == old(backend.orgs) - {name}
      ensures !existed ==> backend.data == old(backend.data) && events.events == old(events.events)
      ensures existed ==> events.events == old(events.events) + [Event(name, "", "", "", true)]
                          && View(backend.data) == Observe(old(View(backend.data)), Event(name, "", "", "", true))
    {
      existed := name in backend.orgs;
      if existed {
        DropIsOrgRemoval(backend.data, name);
        backend.orgs := backend.orgs - {name};
        backend.data := backend.data - {name};
        events.Emit(Event(name, "", "", "", true));
      }
    }

    /** Tx: run the body against a store whose events are buffered; on failure restore the snapshot and report nothing,
        on success release the buffer. Bodies may nest transactions. */
    method Tx(body: seq<Op>, commits: bool) returns (ghost news: seq<Event>)
      modifies backend, groupsGen, events
      ensures events.events == old(events.events) + news
      ensures NoUnnamedDelete(body) ==> View(backend.data) == Replay(old(View(backend.data)), news)
      ensures !commits ==> news == [] && backend.data == old(backend.data) && backend.orgs == old(backend.orgs)
      decreases body, 1
    {
      var data, orgs := backend.data, backend.orgs;
      var buf := new Emitter();
      var tx := new Store(backend, groupsGen, buf);
      news := tx.Run(body);
      if !commits {
        backend.data, backend.orgs := data, orgs;
        news := [];
        return;
      }
      buf.FlushTo(events);
    }

    /** A sequence of operations: replaying the events it reports, from the objects it started with, gives the objects
        it leaves. */
    method Run(ops: seq<Op>) returns (ghost news: seq<Event>)
      modifies backend, groupsGen, events
      ensures events.events == old(events.events) + news
      ensures NoUnnamedDelete(ops) ==> View(backend.data) == Replay(old(View(backend.data)), news)
      decreases ops, 0
    {
      news := [];
      ghost var start, sent, named := View(backend.data), events.events, NoUnnamedDelete(ops);
      for i := 0 to |ops|
        invariant events.events == sent + news
        invariant named ==> View(backend.data) == Replay(start, news)
      {
        ghost var before := events.events;
        ghost var more := Step(ops[i]);
        ReplayConcat(start, news, more);
        if named {
          NamedOne(ops, i);
        }
        assert before + more == sent + (news + more);
        news := news + more;
      }
    }

    method Step(op: Op) returns (ghost news: seq<Event>)
      modifies backend, groupsGen, events
      ensures events.events == old(events.events) + news
      ensures NoUnnamedDelete([op]) ==> View(backend.data) == Replay(old(View(backend.data)), news)
      decreases op
    {
      ghost var before := View(backend.data);
      news := [];
      match op {
        case Put(o, c, k, v) =>
          Put(o, c, k, v);
          news := [Event(o, c, k, v, false)];
          ReplayOne(before, Event(o, c, k, v, false));
        case Create(o, c, k, v) =>
          var r := Create(o, c, k, v);
          news := if r.Done? then [Event(o, c, k, v, false)] else [];
          ReplayOne(before, Event(o, c, k, v, false));
        case Delete(o, c, k) =>
          var r, _ := Delete(o, c, k);
          news := if r.Done? then [Event(o, c, k, "", true)] else [];
          ReplayOne(before, Event(o, c, k, "", true));
          assert NoUnnamedDelete([op]) ==> op.coll != "";
        case CreateOrg(name) =>
          var _ := CreateOrg(name);
        case DeleteOrg(name) =>
          var existed := DeleteOrg(name);
          news := if existed then [Event(name, "", "", "", true)] else [];
          ReplayOne(before, Event(name, "", "", "", true));
        case Tx(body, commits) =>
          news := Tx(body, commits);
          assert NoUnnamedDelete([op]) ==> NoUnnamedDelete(body);
      }
    }
  }

  /** From an empty store: whatever is done, replaying the whole stream from nothing reproduces the objects stored. */
  method RunFromEmpty(ops: seq<Op>) returns (s: Store)
    ensures NoUnnamedDelete(ops) ==> View(s.backend.data) == Replay(map[], s.events.events)
  {
    var backend := new MemoryBackend();
    var gen := new Counter();
    var events := new Emitter();
    s := new Store(backend, gen, events);
    assert View(map[]) == map[];
    ghost var news := s.Run(ops);
    assert [] + news == news;
  }

  /** One deletion in the unnamed collection of an organization that also holds a node: read back, the node goes too. */
  lemma UnnamedDeleteTakesNode()
    ensures var m := map[ObjKey("acme", "", "k") := "v", ObjKey("acme", "nodes", "web1") := "w"];
            Observe(m, Event("acme", "", "k", "", true)) == map[] != m - {ObjKey("acme", "", "k")}
  {
    var m := map[ObjKey("acme", "", "k") := "v", ObjKey("acme", "nodes", "web1") := "w"];
    assert ObjKey("acme", "nodes", "web1") in m - {ObjKey("acme", "", "k")};
  }

  /** Why the condition is there, and exactly when it can be dropped: deleting an object of the unnamed collection reads
      back as that deletion if and only if the organization held nothing else. */
  lemma UnnamedDeleteReadsAsDrop(m: Objects, o: string, k: string)
    requires ObjKey(o, "", k) in m
    ensures Observe(m, Event(o, "", k, "", true)) == m - {ObjKey(o, "", k)} <==>
            forall x :: x in m && x.org == o ==> x == ObjKey(o, "", k)
  {
    var a, b := Observe(m, Event(o, "", k, "", true)), m - {ObjKey(o, "", k)};
    if a == b {
      forall x | x in m && x.org == o
        ensures x == ObjKey(o, "", k)
      {
        assert x !in a;
      }
    }
  }
}
