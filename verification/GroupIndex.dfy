/** The reverse index of group membership (internal/api/groupindex.go): which groups list an actor, and which
    groups nest a group. */
module GroupIndex {
  import opened Prelude
  import opened MemberKeys

  /** What indexMembers reads from a group document; an undecodable document reads as three empty lists. */
  datatype GroupDoc = GroupDoc(users: seq<string>, clients: seq<string>, groups: seq<string>)

  /** `group` lists `member` as one of its members of kind `kind`. */
  datatype Edge = Edge(kind: string, member: string, group: string)

  function ListEdges(kind: string, members: seq<string>, group: string): set<Edge> {
    set m | m in members :: Edge(kind, m, group)
  }

  function DocEdges(group: string, doc: GroupDoc): set<Edge> {
    ListEdges(USERS, doc.users, group) + ListEdges(CLIENTS, doc.clients, group) + ListEdges(GROUPS, doc.groups, group)
  }

  function AllDocEdges(docs: map<string, GroupDoc>): set<Edge> {
    set name, e | name in docs && e in DocEdges(name, docs[name]) :: e
  }

  predicate KnownKind(kind: string) {
    kind == USERS || kind == CLIENTS || kind == GROUPS
  }

  /** The edge a row stands for; a malformed key or an unknown kind stands for none. */
  function RowEdge(key: string): set<Edge> {
    match SplitMemberKey(key)
    case None => {}
    case Some(r) => if KnownKind(r.kind) then {Edge(r.kind, r.actor, r.group)} else {}
  }

  function AllRowEdges(rows: set<string>): set<Edge> {
    set key, e | key in rows && e in RowEdge(key) :: e
  }

  /** Effective membership: the union of what the documents record and what the rows add. This is what an index
      built from scratch holds. */
  function EdgesOf(docs: map<string, GroupDoc>, rows: set<string>): set<Edge> {
    AllDocEdges(docs) + AllRowEdges(rows)
  }

  /** The groups that list an actor of the given kind directly. */
  function Direct(edges: set<Edge>, kind: string, actor: string): set<string> {
    set e | e in edges && e.kind == kind && e.member == actor :: e.group
  }

  /** A group that nests a group of `s` is in `s`. */
  ghost predicate ClosedUnderNesting(edges: set<Edge>, s: set<string>) {
    forall e :: e in edges && e.kind == GROUPS && e.member in s ==> e.group in s
  }

  /** `r` is the least set that holds the actor's direct groups and is closed under nesting. */
  ghost predicate IsMembership(edges: set<Edge>, kind: string, actor: string, r: set<string>) {
    && Direct(edges, kind, actor) <= r
    && ClosedUnderNesting(edges, r)
    && Minimal(edges, kind, actor, r)
  }

  ghost predicate Minimal(edges: set<Edge>, kind: string, actor: string, r: set<string>) {
    forall s: set<string> :: Direct(edges, kind, actor) <= s && ClosedUnderNesting(edges, s) ==> r <= s
  }

  function Elements(names: seq<string>): set<string> {
    set n | n in names
  }

  /** A chain of groups: the first lists the actor, and each next one nests the one before it. */
  ghost predicate Chain(edges: set<Edge>, kind: string, actor: string, path: seq<string>) {
    && |path| > 0
    && path[0] in Direct(edges, kind, actor)
    && forall i :: 0 < i < |path| ==> Edge(GROUPS, path[i - 1], path[i]) in edges
  }

  ghost predicate Reachable(edges: set<Edge>, kind: string, actor: string, group: string) {
    exists path :: Chain(edges, kind, actor, path) && path[|path| - 1] == group
  }

  lemma {:induction false} ChainStaysInside(edges: set<Edge>, kind: string, actor: string, path: seq<string>, s: set<string>)
    requires Chain(edges, kind, actor, path)
    requires Direct(edges, kind, actor) <= s && ClosedUnderNesting(edges, s)
    ensures path[|path| - 1] in s
  {
    if |path| > 1 {
      var n := |path| - 1;
      ChainStaysInside(edges, kind, actor, path[..n], s);
      assert Edge(GROUPS, path[n - 1], path[n]) in edges;
    }
  }

  lemma ReachableIsClosed(edges: set<Edge>, kind: string, actor: string) returns (s: set<string>)
    ensures forall g :: g in s ==> Reachable(edges, kind, actor, g)
    ensures Direct(edges, kind, actor) <= s && ClosedUnderNesting(edges, s)
  {
    s := set e | e in edges && Reachable(edges, kind, actor, e.group) :: e.group;
    forall g | g in Direct(edges, kind, actor)
      ensures g in s
    {
      assert Chain(edges, kind, actor, [g]) && [g][|[g]| - 1] == g;
    }
    forall e | e in edges && e.kind == GROUPS && e.member in s
      ensures e.group in s
    {
      OneMoreNest(edges, kind, actor, e);
    }
  }

  lemma OneMoreNest(edges: set<Edge>, kind: string, actor: string, e: Edge)
    requires e in edges && e.kind == GROUPS && Reachable(edges, kind, actor, e.member)
    ensures Reachable(edges, kind, actor, e.group)
  {
    var path :| Chain(edges, kind, actor, path) && path[|path| - 1] == e.member;
    var longer := path + [e.group];
    assert forall i :: 0 <= i < |path| ==> longer[i] == path[i];
    assert e == Edge(GROUPS, e.member, e.group);
    assert Chain(edges, kind, actor, longer) && longer[|longer| - 1] == e.group;
  }

  /** The least closed set is exactly the set of groups reached by a chain, cycles included. */
  lemma MembershipIsReachability(edges: set<Edge>, kind: string, actor: string, r: set<string>, group: string)
    requires IsMembership(edges, kind, actor, r)
    ensures group in r <==> Reachable(edges, kind, actor, group)
  {
    var s := ReachableIsClosed(edges, kind, actor);
    assert r <= s;
    if Reachable(edges, kind, actor, group) {
      var path :| Chain(edges, kind, actor, path) && path[|path| - 1] == group;
      ChainStaysInside(edges, kind, actor, path, r);
    }
  }

  /** Membership depends only on the edges: two indexes that agree answer every actor alike. */
  lemma MembershipIsUnique(edges: set<Edge>, kind: string, actor: string, r: set<string>, r': set<string>)
    requires IsMembership(edges, kind, actor, r) && IsMembership(edges, kind, actor, r')
    ensures r == r'
  {
    assert r <= r' && r' <= r;
  }

  // Membership by the documents and rows themselves

  /** Some row says that `group` has `member` among its members of a kind. */
  predicate HasRow(rows: set<string>, group: string, kind: string, member: string) {
    exists key :: key in rows && SplitMemberKey(key) == Some(Row(group, kind, member))
  }

  /** A group has an actor among its members: its document lists it, or a row does. */
  predicate HasActor(docs: map<string, GroupDoc>, rows: set<string>, group: string, actor: string, isClient: bool) {
    || (group in docs && actor in if isClient then docs[group].clients else docs[group].users)
    || HasRow(rows, group, if isClient then "clients" else "users", actor)
  }

  predicate HasNested(docs: map<string, GroupDoc>, rows: set<string>, group: string, inner: string) {
    (group in docs && inner in docs[group].groups) || HasRow(rows, group, "groups", inner)
  }

  /** A chain of groups: the first has the actor, and each next one has the one before it. */
  ghost predicate Leads(docs: map<string, GroupDoc>, rows: set<string>, actor: string, isClient: bool, path: seq<string>) {
    && |path| > 0
    && HasActor(docs, rows, path[0], actor, isClient)
    && forall i :: 0 < i < |path| ==> HasNested(docs, rows, path[i], path[i - 1])
  }

  /** The actor is a member of the group, directly or through nested groups. */
  ghost predicate Belongs(docs: map<string, GroupDoc>, rows: set<string>, actor: string, isClient: bool, group: string) {
    exists path :: Leads(docs, rows, actor, isClient, path) && path[|path| - 1] == group
  }

  lemma DocEdgeIs(docs: map<string, GroupDoc>, e: Edge)
    ensures e in AllDocEdges(docs) <==> e.group in docs && e in DocEdges(e.group, docs[e.group])
  {
  }

  lemma RowEdgeIs(rows: set<string>, e: Edge)
    ensures e in AllRowEdges(rows) <==> KnownKind(e.kind) && HasRow(rows, e.group, e.kind, e.member)
  {
    if e in AllRowEdges(rows) {
      var key :| key in rows && e in RowEdge(key);
      assert SplitMemberKey(key) == Some(Row(e.group, e.kind, e.member));
    }
    if KnownKind(e.kind) && HasRow(rows, e.group, e.kind, e.member) {
      var key :| key in rows && SplitMemberKey(key) == Some(Row(e.group, e.kind, e.member));
      assert e in RowEdge(key);
    }
  }

  /** What an index built from scratch holds, read off the documents' lists and the rows. */
  lemma EdgesAreListed(docs: map<string, GroupDoc>, rows: set<string>, group: string, member: string)
    ensures Edge(USERS, member, group) in EdgesOf(docs, rows) <==> HasActor(docs, rows, group, member, false)
    ensures Edge(CLIENTS, member, group) in EdgesOf(docs, rows) <==> HasActor(docs, rows, group, member, true)
    ensures Edge(GROUPS, member, group) in EdgesOf(docs, rows) <==> HasNested(docs, rows, group, member)
  {
    EdgeIsListed(docs, rows, Edge(USERS, member, group));
    EdgeIsListed(docs, rows, Edge(CLIENTS, member, group));
    EdgeIsListed(docs, rows, Edge(GROUPS, member, group));
    KindsDiffer();
  }

  lemma KindsDiffer()
    ensures USERS != CLIENTS && USERS != GROUPS && CLIENTS != GROUPS
  {
    assert |USERS| == 5 && |CLIENTS| == 7 && |GROUPS| == 6;
  }

  lemma EdgeIsListed(docs: map<string, GroupDoc>, rows: set<string>, e: Edge)
    ensures e in EdgesOf(docs, rows) <==>
            || (e.group in docs && e in DocEdges(e.group, docs[e.group]))
            || (KnownKind(e.kind) && HasRow(rows, e.group, e.kind, e.member))
  {
    DocEdgeIs(docs, e);
    RowEdgeIs(rows, e);
  }

  lemma {:induction false} ChainIsLeading(docs: map<string, GroupDoc>, rows: set<string>, actor: string, isClient: bool,
                                          path: seq<string>)
    ensures Chain(EdgesOf(docs, rows), if isClient then CLIENTS else USERS, actor, path) <==>
            Leads(docs, rows, actor, isClient, path)
  {
    if |path| > 0 {
      var edges, kind := EdgesOf(docs, rows), if isClient then CLIENTS else USERS;
      EdgesAreListed(docs, rows, path[0], actor);
      assert path[0] in Direct(edges, kind, actor) <==> Edge(kind, actor, path[0]) in edges;
      forall i | 0 < i < |path|
        ensures Edge(GROUPS, path[i - 1], path[i]) in edges <==> HasNested(docs, rows, path[i], path[i - 1])
      {
        EdgesAreListed(docs, rows, path[i], path[i - 1]);
      }
    }
  }

  /** The membership an index built from scratch answers with is belonging. */
  lemma MembershipIsBelonging(docs: map<string, GroupDoc>, rows: set<string>, actor: string, isClient: bool, r: set<string>)
    requires IsMembership(EdgesOf(docs, rows), if isClient then CLIENTS else USERS, actor, r)
    ensures forall g :: g in r <==> Belongs(docs, rows, actor, isClient, g)
  {
    var edges, kind := EdgesOf(docs, rows), if isClient then CLIENTS else USERS;
    forall g
      ensures g in r <==> Belongs(docs, rows, actor, isClient, g)
    {
      MembershipIsReachability(edges, kind, actor, r, g);
      if Reachable(edges, kind, actor, g) {
        var path :| Chain(edges, kind, actor, path) && path[|path| - 1] == g;
        ChainIsLeading(docs, rows, actor, isClient, path);
      }
      if Belongs(docs, rows, actor, isClient, g) {
        var path :| Leads(docs, rows, actor, isClient, path) && path[|path| - 1] == g;
        ChainIsLeading(docs, rows, actor, isClient, path);
      }
    }
  }

  /** The groups an index map records for a name. */
  function At(m: map<string, seq<string>>, name: string): seq<string> {
    if name in m then m[name] else []
  }

  function Push(m: map<string, seq<string>>, name: string, group: string): map<string, seq<string>> {
    m[name := At(m, name) + [group]]
  }

  function MapEdges(kind: string, m: map<string, seq<string>>): set<Edge> {
    set name, g | name in m && g in m[name] :: Edge(kind, name, g)
  }

  lemma PushAddsEdge(kind: string, m: map<string, seq<string>>, name: string, group: string)
    ensures MapEdges(kind, Push(m, name, group)) == MapEdges(kind, m) + {Edge(kind, name, group)}
  {
    var m' := Push(m, name, group);
    forall e
      ensures e in MapEdges(kind, m') <==> e in MapEdges(kind, m) + {Edge(kind, name, group)}
    {
      assert m'[name] == At(m, name) + [group];
      if e == Edge(kind, name, group) {
        assert group in m'[name];
      }
    }
  }

  class GroupIndex {
    const gen: nat
    var users: map<string, seq<string>>
    var clients: map<string, seq<string>>
    var nests: map<string, seq<string>>

    constructor (gen: nat)
      ensures this.gen == gen && Edges() == {}
    {
      this.gen := gen;
      users, clients, nests := map[], map[], map[];
    }

    ghost function Edges(): set<Edge>
      reads this
    {
      MapEdges(USERS, users) + MapEdges(CLIENTS, clients) + MapEdges(GROUPS, nests)
    }

    /** addAll: record a group's members from its document. */
    method AddAll(group: string, doc: GroupDoc)
      modifies this
      ensures Edges() == old(Edges()) + DocEdges(group, doc)
    {
      users := PushAll(USERS, users, doc.users, group);
      clients := PushAll(CLIENTS, clients, doc.clients, group);
      nests := PushAll(GROUPS, nests, doc.groups, group);
    }

    static method PushAll(ghost kind: string, m: map<string, seq<string>>, members: seq<string>, group: string)
      returns (m': map<string, seq<string>>)
      ensures MapEdges(kind, m') == MapEdges(kind, m) + ListEdges(kind, members, group)
    {
      m' := m;
      for i := 0 to |members|
        invariant MapEdges(kind, m') == MapEdges(kind, m) + ListEdges(kind, members[..i], group)
      {
        PushAddsEdge(kind, m', members[i], group);
        m' := Push(m', members[i], group);
        assert members[..i + 1] == members[..i] + [members[i]];
      }
      assert members[..|members|] == members;
    }

    /** addOne: record a single row, skipping a duplicate of what is there already. */
    method AddOne(r: Row)
      modifies this
      ensures Edges() == old(Edges()) + (if KnownKind(r.kind) then {Edge(r.kind, r.actor, r.group)} else {})
    {
      if r.kind == USERS {
        if r.group !in At(users, r.actor) {
          PushAddsEdge(USERS, users, r.actor, r.group);
          users := Push(users, r.actor, r.group);
        }
      } else if r.kind == CLIENTS {
        if r.group !in At(clients, r.actor) {
          PushAddsEdge(CLIENTS, clients, r.actor, r.group);
          clients := Push(clients, r.actor, r.group);
        }
      } else if r.kind == GROUPS {
        if r.group !in At(nests, r.actor) {
          PushAddsEdge(GROUPS, nests, r.actor, r.group);
          nests := Push(nests, r.actor, r.group);
        }
      }
    }

    /** The edges of one kind that leave a name are what that kind's map lists for it. */
    lemma EdgesAt(kind: string, name: string, group: string)
      requires KnownKind(kind)
      ensures Edge(kind, name, group) in Edges() <==>
              group in At(if kind == USERS then users else if kind == CLIENTS then clients else nests, name)
    {
    }

    /** membership: a queue loop over the nesting edges. It terminates on cyclic nesting, since a group is queued
        once, and returns exactly the least set closed under nesting. */
    method Membership(actor: string, isClient: bool) returns (member: set<string>)
      ensures IsMembership(Edges(), if isClient then CLIENTS else USERS, actor, member)
    {
      ghost var kind := if isClient then CLIENTS else USERS;
      var start := At(if isClient then clients else users, actor);
      var queue: seq<string>;
      member, queue := Enqueue({}, [], start);
      ghost var all := set e | e in Edges() :: e.group;
      DirectIs(kind, actor);
      assert Direct(Edges(), kind, actor) == member;
      var i := 0;
      while i < |queue|
        invariant 0 <= i <= |queue|
        invariant Elements(queue) == member
        invariant Direct(Edges(), kind, actor) <= member <= all
        invariant Visited(queue, i, member)
        invariant Minimal(Edges(), kind, actor, member)
        decreases all - member, |queue| - i
      {
        ghost var before := member;
        assert queue[i] in Elements(queue);
        member, queue := Visit(kind, actor, member, queue, i);
        assert before < member ==> all - member < all - before;
        i := i + 1;
      }
      assert forall g :: g in member ==> g in queue;
      ClosedWhenDone(member);
    }

    /** The groups that nest each of the first `i` names are members. */
    ghost predicate Visited(queue: seq<string>, i: nat, member: set<string>)
      requires i <= |queue|
      reads this
    {
      forall j :: 0 <= j < i ==> Elements(At(nests, queue[j])) <= member
    }

    /** One turn of the loop: queue the groups that nest the i-th name. */
    method Visit(ghost kind: string, ghost actor: string, member: set<string>, queue: seq<string>, i: nat)
      returns (member': set<string>, queue': seq<string>)
      requires i < |queue| && Elements(queue) == member && Visited(queue, i, member)
      requires Minimal(Edges(), kind, actor, member) && member <= set e | e in Edges() :: e.group
      ensures member <= member' <= set e | e in Edges() :: e.group
      ensures Elements(queue') == member' && queue <= queue' && (member' == member ==> queue' == queue)
      ensures Visited(queue', i + 1, member') && Minimal(Edges(), kind, actor, member')
    {
      assert queue[i] in Elements(queue);
      NestsStayMinimal(kind, actor, member, queue[i]);
      member', queue' := Enqueue(member, queue, At(nests, queue[i]));
    }

    /** The closure of `add` over a list: queue each name not yet a member. */
    static method Enqueue(member: set<string>, queue: seq<string>, names: seq<string>)
      returns (member': set<string>, queue': seq<string>)
      requires Elements(queue) == member
      ensures member' == member + Elements(names)
      ensures Elements(queue') == member' && queue <= queue'
      ensures member' == member ==> queue' == queue
    {
      member', queue' := member, queue;
      for i := 0 to |names|
        invariant member' == member + Elements(names[..i])
        invariant Elements(queue') == member' && queue <= queue'
        invariant member' == member ==> queue' == queue
      {
        if names[i] !in member' {
          member' := member' + {names[i]};
          queue' := queue' + [names[i]];
        }
        assert names[..i + 1] == names[..i] + [names[i]];
      }
      assert names[..|names|] == names;
    }

    lemma DirectIs(kind: string, actor: string)
      requires kind == USERS || kind == CLIENTS
      ensures Direct(Edges(), kind, actor) == Elements(At(if kind == CLIENTS then clients else users, actor))
    {
      forall g
        ensures g in Direct(Edges(), kind, actor) <==> g in At(if kind == CLIENTS then clients else users, actor)
      {
        EdgesAt(kind, actor, g);
        assert g in Direct(Edges(), kind, actor) <==> Edge(kind, actor, g) in Edges();
      }
    }

    lemma NestsStayMinimal(kind: string, actor: string, member: set<string>, g: string)
      requires g in member && Minimal(Edges(), kind, actor, member)
      ensures Minimal(Edges(), kind, actor, member + Elements(At(nests, g)))
      ensures Elements(At(nests, g)) <= set e | e in Edges() :: e.group
    {
      forall outer | outer in At(nests, g)
        ensures Edge(GROUPS, g, outer) in Edges()
      {
        EdgesAt(GROUPS, g, outer);
      }
      forall outer | outer in At(nests, g)
        ensures outer in (set e | e in Edges() :: e.group)
      {
        assert Edge(GROUPS, g, outer).group == outer;
      }
    }

    lemma ClosedWhenDone(member: set<string>)
      requires forall g :: g in member ==> Elements(At(nests, g)) <= member
      ensures ClosedUnderNesting(Edges(), member)
    {
      forall e | e in Edges() && e.kind == GROUPS && e.member in member
        ensures e.group in member
      {
        EdgesAt(GROUPS, e.member, e.group);
      }
    }
  }

  /** buildGroupIndex: read every document, then every row, in whatever order the store lists them. */
  method BuildGroupIndex(gen: nat, docs: map<string, GroupDoc>, rows: set<string>) returns (idx: GroupIndex)
    ensures fresh(idx) && idx.gen == gen
    ensures idx.Edges() == EdgesOf(docs, rows)
  {
    idx := new GroupIndex(gen);
    AddDocs(idx, docs);
    AddRows(idx, rows);
  }

  method AddDocs(idx: GroupIndex, docs: map<string, GroupDoc>)
    modifies idx
    ensures idx.Edges() == old(idx.Edges()) + AllDocEdges(docs)
  {
    var names := docs.Keys;
    while names != {}
      invariant names <= docs.Keys
      invariant idx.Edges() == old(idx.Edges()) + AllDocEdges(docs - names)
    {
      var name :| name in names;
      DocsGrow(docs, names - {name}, name);
      assert names - {name} + {name} == names;
      idx.AddAll(name, docs[name]);
      names := names - {name};
    }
    assert docs - {} == docs;
  }

  method AddRows(idx: GroupIndex, rows: set<string>)
    modifies idx
    ensures idx.Edges() == old(idx.Edges()) + AllRowEdges(rows)
  {
    var keys := rows;
    while keys != {}
      invariant keys <= rows
      invariant idx.Edges() == old(idx.Edges()) + AllRowEdges(rows - keys)
    {
      var key :| key in keys;
      RowsGrow(rows, keys, key);
      var r := SplitMemberKey(key);
      if r.Some? {
        idx.AddOne(r.value);
      }
      keys := keys - {key};
    }
    assert rows - {} == rows;
  }

  lemma RowsGrow(rows: set<string>, left: set<string>, key: string)
    requires key in rows && key in left
    ensures AllRowEdges(rows - (left - {key})) == AllRowEdges(rows - left) + RowEdge(key)
  {
    assert rows - (left - {key}) == (rows - left) + {key};
  }

  lemma DocsGrow(docs: map<string, GroupDoc>, left: set<string>, name: string)
    requires name in docs && name !in left
    ensures AllDocEdges(docs - left) == AllDocEdges(docs - (left + {name})) + DocEdges(name, docs[name])
  {
    var more, less := docs - left, docs - (left + {name});
    forall e | e in AllDocEdges(more)
      ensures e in AllDocEdges(less) + DocEdges(name, docs[name])
    {
      var n :| n in more && e in DocEdges(n, more[n]);
      assert n != name ==> n in less && less[n] == more[n];
    }
    forall e | e in AllDocEdges(less) + DocEdges(name, docs[name])
      ensures e in AllDocEdges(more)
    {
      if e in DocEdges(name, docs[name]) {
        assert name in more && more[name] == docs[name];
      } else {
        var n :| n in less && e in DocEdges(n, less[n]);
        assert n in more && more[n] == less[n];
      }
    }
  }

  /** One write the store reports, as far as the group cache reads it. */
  datatype Event = Event(org: string, collection: string, key: string, deleted: bool)

  const MEMBERS_COLL := "group_members"

  /** groupIndexCache: the current index of each organization. */
  class GroupIndexCache {
    var m: map<string, GroupIndex>

    constructor ()
      ensures m == map[]
    {
      m := map[];
    }

    ghost predicate Valid()
      reads this
    {
      forall o, o' :: o in m && o' in m && o != o' ==> m[o] != m[o']
    }

    predicate Hit(org: string, gen: nat)
      reads this, m.Values
    {
      org in m && m[org].gen == gen
    }

    /** get: the installed index when its generation is the store's; otherwise one built from what is stored. */
    method Get(org: string, gen: nat, docs: map<string, GroupDoc>, rows: set<string>) returns (idx: GroupIndex)
      requires Valid()
      modifies this
      ensures Valid() && idx.gen == gen && org in m && m[org] == idx
      ensures old(Hit(org, gen)) ==> m == old(m) && idx.Edges() == old(m[org].Edges())
      ensures !old(Hit(org, gen)) ==> fresh(idx) && m == old(m)[org := idx] && idx.Edges() == EdgesOf(docs, rows)
    {
      if org in m && m[org].gen == gen {
        return m[org];
      }
      idx := BuildGroupIndex(gen, docs, rows);
      m := m[org := idx];
    }

    /** observe: fold an added row into the installed index in place, and drop the index when a row is deleted. */
    method Observe(ev: Event)
      requires Valid()
      modifies this, m.Values
      ensures Valid()
      ensures forall o :: o in m && o != ev.org ==> o in old(m) && m[o] == old(m[o]) && m[o].Edges() == old(m[o].Edges())
      ensures ev.collection != MEMBERS_COLL || SplitMemberKey(ev.key).None? ==>
                m == old(m) && forall o :: o in m ==> m[o].Edges() == old(m[o].Edges())
      ensures ev.collection == MEMBERS_COLL && SplitMemberKey(ev.key).Some? && ev.deleted ==> m == old(m) - {ev.org}
      ensures ev.collection == MEMBERS_COLL && SplitMemberKey(ev.key).Some? && !ev.deleted && ev.org in old(m) ==>
                m == old(m) && m[ev.org].Edges() == old(m[ev.org].Edges()) + RowEdge(ev.key)
    {
      if ev.collection != MEMBERS_COLL {
        return;
      }
      var r := SplitMemberKey(ev.key);
      if r.None? || ev.org !in m {
        return;
      }
      if ev.deleted {
        m := m - {ev.org};
        return;
      }
      m[ev.org].AddOne(r.value);
    }

    /** The cached actorGroups: membership by whichever index Get answers with. */
    method ActorGroups(org: string, gen: nat, docs: map<string, GroupDoc>, rows: set<string>, actor: string, isClient: bool)
      returns (member: set<string>)
      requires Valid()
      modifies this
      ensures Valid()
      ensures (old(Hit(org, gen)) ==> old(m[org].Edges()) == EdgesOf(docs, rows)) ==>
                && IsMembership(EdgesOf(docs, rows), if isClient then CLIENTS else USERS, actor, member)
                && forall g :: g in member <==> Belongs(docs, rows, actor, isClient, g)
    {
      var idx := Get(org, gen, docs, rows);
      member := idx.Membership(actor, isClient);
      if idx.Edges() == EdgesOf(docs, rows) {
        MembershipIsBelonging(docs, rows, actor, isClient, member);
      }
    }
  }

  /** The uncached actorGroups, the definition the cached one must agree with. */
  method ActorGroups(docs: map<string, GroupDoc>, rows: set<string>, actor: string, isClient: bool)
    returns (member: set<string>)
    ensures IsMembership(EdgesOf(docs, rows), if isClient then CLIENTS else USERS, actor, member)
    ensures forall g :: g in member <==> Belongs(docs, rows, actor, isClient, g)
  {
    var idx := BuildGroupIndex(0, docs, rows);
    member := idx.Membership(actor, isClient);
    MembershipIsBelonging(docs, rows, actor, isClient, member);
  }
}
