/** What the writes of the SQLite backend mean, in two ways that do not name their model: by the answers of any truthful
    log, and by the in-memory backend (internal/store/sqlite/sqlite.go:312-330 and 493-700, internal/store/memory.go). */
module CommitLaws {
  import opened Prelude
  import opened GroupCommit
  import WriteStream

  // By the answers alone

  /** The body a key holds after a log: the one last written with the answer nil, unless a deletion of the key or of its
      organization came after it. */
  function BodyAfter(s: Tables, log: seq<Record>, k: Key): Option<string> {
    if log == [] then (if k in s.objects then Some(s.objects[k]) else None)
    else
      var r, before := log[|log| - 1], BodyAfter(s, log[..|log| - 1], k);
      if r.answer != Nil then before
      else
        match r.op
        case Put(key, body) => if key == k then Some(body) else before
        case Create(key, body) => if key == k then Some(body) else before
        case Delete(key) => if key == k then None else before
        case DeleteOrg(name) => if name == k.org && r.captured == Existed(true) then None else before
        case _ => before
  }

  function BlobAfter(s: Tables, log: seq<Record>, b: BlobKey): Option<string> {
    if log == [] then (if b in s.blobs then Some(s.blobs[b]) else None)
    else
      var r, before := log[|log| - 1], BlobAfter(s, log[..|log| - 1], b);
      if r.answer != Nil then before
      else
        match r.op
        case PutBlob(blob, content) => if blob == b then Some(content) else before
        case DeleteBlob(blob) => if blob == b then None else before
        case DeleteOrg(name) => if name == b.org && r.captured == Existed(true) then None else before
        case _ => before
  }

  predicate OrgAfter(s: Tables, log: seq<Record>, org: string) {
    if log == [] then org in s.orgs
    else
      var r, before := log[|log| - 1], OrgAfter(s, log[..|log| - 1], org);
      if r.answer != Nil then before
      else
        match r.op
        case CreateOrg(name) => name == org || before
        case DeleteOrg(name) => name != org && before
        case _ => before
  }

  /** The tables a truthful log leaves hold, under every key, what its answers say. */
  lemma {:induction false} StoredIsLastWritten(s: Tables, log: seq<Record>, k: Key)
    requires Truthful(s, log)
    ensures BodyAfter(s, log, k) == if k in After(s, log).objects then Some(After(s, log).objects[k]) else None
  {
    if log != [] {
      StoredIsLastWritten(s, log[..|log| - 1], k);
    }
  }

  lemma {:induction false} BlobIsLastWritten(s: Tables, log: seq<Record>, b: BlobKey)
    requires Truthful(s, log)
    ensures BlobAfter(s, log, b) == if b in After(s, log).blobs then Some(After(s, log).blobs[b]) else None
  {
    if log != [] {
      BlobIsLastWritten(s, log[..|log| - 1], b);
    }
  }

  lemma {:induction false} OrgIsLastWritten(s: Tables, log: seq<Record>, org: string)
    requires Truthful(s, log)
    ensures OrgAfter(s, log, org) <==> org in After(s, log).orgs
  {
    if log != [] {
      OrgIsLastWritten(s, log[..|log| - 1], org);
    }
  }

  lemma {:induction false} PrefixIsTruthful(s: Tables, log: seq<Record>, n: nat)
    requires Truthful(s, log) && n < |log|
    ensures Truthful(s, log[..n]) && RecordHolds(After(s, log[..n]), log[n])
    decreases |log|
  {
    var m := |log| - 1;
    if n < m {
      PrefixIsTruthful(s, log[..m], n);
      assert log[..m][..n] == log[..n] && log[..m][n] == log[n];
    }
  }

  /** A record's answer is what the answers before it call for. */
  predicate Follows(s: Tables, before: seq<Record>, r: Record) {
    match r.op
    case Create(k, _) => r.answer == if BodyAfter(s, before, k).Some? then Conflict else Nil
    case Delete(k) => r.answer == Nil && r.captured == Old(BodyAfter(s, before, k))
    case CreateOrg(name) => r.answer == if OrgAfter(s, before, name) then Conflict else Nil
    case DeleteOrg(name) => r.answer == Nil && r.captured == Existed(OrgAfter(s, before, name))
    case _ => r.answer == Nil
  }

  /** Each answer is what the answers before it call for: a create conflicts exactly when its key is held, a deletion
      gives back what was held, and creating or deleting an organization says whether it was there. */
  lemma AnswersFollow(s: Tables, log: seq<Record>, n: nat)
    requires Truthful(s, log) && n < |log| && !log[n].answer.Failed?
    ensures Follows(s, log[..n], log[n])
  {
    PrefixIsTruthful(s, log, n);
    match log[n].op
    case Create(k, _) => StoredIsLastWritten(s, log[..n], k);
    case Delete(k) => StoredIsLastWritten(s, log[..n], k);
    case CreateOrg(name) => OrgIsLastWritten(s, log[..n], name);
    case DeleteOrg(name) => OrgIsLastWritten(s, log[..n], name);
    case _ =>
  }

  /** A record that takes a key away. */
  predicate Takes(r: Record, k: Key) {
    r.answer == Nil && (r.op == Delete(k) || (r.op == DeleteOrg(k.org) && r.captured == Existed(true)))
  }

  lemma {:induction false} HeldUntilTaken(s: Tables, log: seq<Record>, k: Key, i: nat, j: nat)
    requires i < j <= |log| && log[i].answer == Nil && log[i].op.Create? && log[i].op.key == k
    requires forall m :: i < m < j ==> !Takes(log[m], k)
    ensures BodyAfter(s, log[..j], k).Some?
    decreases j
  {
    var m := j - 1;
    assert log[..j][..m] == log[..m] && log[..j][m] == log[m];
    if i < m {
      HeldUntilTaken(s, log, k, i, m);
    }
  }

  /** Of two creates of one key both answered nil, a deletion of the key or of its organization comes between. */
  lemma OneCreateWins(s: Tables, log: seq<Record>, k: Key, i: nat, j: nat)
    requires Truthful(s, log) && i < j < |log|
    requires log[i].op.Create? && log[i].op.key == k && log[i].answer == Nil
    requires log[j].op.Create? && log[j].op.key == k && log[j].answer == Nil
    ensures exists m :: i < m < j && Takes(log[m], k)
  {
    if forall m :: i < m < j ==> !Takes(log[m], k) {
      HeldUntilTaken(s, log, k, i, j);
      AnswersFollow(s, log, j);
    }
  }

  // By the in-memory backend

  /** What dropping an organization leaves of the objects. */
  lemma DroppedRows(m: WriteStream.Objects, org: string)
    ensures WriteStream.Observe(m, WriteStream.Event(org, "", "", "", true)) == map k | k in m && k.org != org :: m[k]
  {
  }

  predicate IsBlobOp(op: Op) {
    op.PutBlob? || op.DeleteBlob?
  }

  /** The two backends hold the same objects and organizations. */
  ghost predicate Alike(backend: WriteStream.MemoryBackend, tables: Tables)
    reads backend
  {
    tables.objects == WriteStream.View(backend.data) && tables.orgs == backend.orgs
  }

  method BothPut(store: WriteStream.Store, tables: Tables, k: Key, body: string) returns (answer: Answer, captured: Captured)
    requires Alike(store.backend, tables)
    modifies store.backend, store.groupsGen, store.events
    ensures Alike(store.backend, Run(Put(k, body), tables).tables)
    ensures answer == Run(Put(k, body), tables).answer && captured == Run(Put(k, body), tables).captured
  {
    store.Put(k.org, k.coll, k.key, body);
    return Nil, Nothing;
  }

  method BothCreate(store: WriteStream.Store, tables: Tables, k: Key, body: string) returns (answer: Answer, captured: Captured)
    requires Alike(store.backend, tables)
    modifies store.backend, store.groupsGen, store.events
    ensures Alike(store.backend, Run(Create(k, body), tables).tables)
    ensures answer == Run(Create(k, body), tables).answer && captured == Run(Create(k, body), tables).captured
  {
    var r := store.Create(k.org, k.coll, k.key, body);
    return if r.Conflict? then Conflict else Nil, Nothing;
  }

  method BothDelete(store: WriteStream.Store, tables: Tables, k: Key) returns (answer: Answer, captured: Captured)
    requires Alike(store.backend, tables)
    modifies store.backend, store.groupsGen, store.events
    ensures Alike(store.backend, Run(Delete(k), tables).tables)
    ensures answer == Run(Delete(k), tables).answer && captured == Run(Delete(k), tables).captured
  {
    ghost var m := WriteStream.View(store.backend.data);
    assert k == WriteStream.ObjKey(k.org, k.coll, k.key);
    assert k !in m ==> m - {k} == m;
    var _, was := store.Delete(k.org, k.coll, k.key);
    assert WriteStream.View(store.backend.data) == m - {k};
    return Nil, Old(was);
  }

  method BothCreateOrg(store: WriteStream.Store, tables: Tables, name: string) returns (answer: Answer, captured: Captured)
    requires Alike(store.backend, tables)
    modifies store.backend, store.groupsGen, store.events
    ensures Alike(store.backend, Run(CreateOrg(name), tables).tables)
    ensures answer == Run(CreateOrg(name), tables).answer && captured == Run(CreateOrg(name), tables).captured
  {
    var r := store.CreateOrg(name);
    return if r.Conflict? then Conflict else Nil, Nothing;
  }

  method BothDeleteOrg(store: WriteStream.Store, tables: Tables, name: string) returns (answer: Answer, captured: Captured)
    requires Alike(store.backend, tables)
    modifies store.backend, store.groupsGen, store.events
    ensures Alike(store.backend, Run(DeleteOrg(name), tables).tables)
    ensures answer == Run(DeleteOrg(name), tables).answer && captured == Run(DeleteOrg(name), tables).captured
  {
    DroppedRows(WriteStream.View(store.backend.data), name);
    var existed := store.DeleteOrg(name);
    return Nil, Existed(existed);
  }

  /** The same write on both backends, from the same objects and organizations: they answer alike, give back the same
      body or report, and end with the same objects and organizations. */
  method OnBoth(store: WriteStream.Store, op: Op, tables: Tables) returns (answer: Answer, captured: Captured)
    requires !IsBlobOp(op) && Alike(store.backend, tables)
    modifies store.backend, store.groupsGen, store.events
    ensures Alike(store.backend, Run(op, tables).tables)
    ensures answer == Run(op, tables).answer && captured == Run(op, tables).captured
  {
    match op {
      case Put(k, body) => answer, captured := BothPut(store, tables, k, body);
      case Create(k, body) => answer, captured := BothCreate(store, tables, k, body);
      case Delete(k) => answer, captured := BothDelete(store, tables, k);
      case CreateOrg(name) => answer, captured := BothCreateOrg(store, tables, name);
      case DeleteOrg(name) => answer, captured := BothDeleteOrg(store, tables, name);
    }
  }
}
