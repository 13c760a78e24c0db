/** The cached group index under concurrent writers, as a step system.

    Writers change group documents and membership rows; each write lands in the store first and is reported after.
    A document write reports by advancing the store's groups generation, a row write by calling the cache's
    observer. A lookup that misses rebuilds the index under the cache lock: it samples the generation, reads the
    documents, reads the rows, and installs the result. Adding a row holds the membership lock shared from before
    the row lands until it is reported; deleting one holds it exclusively (internal/api/groupmembers.go:27-43). */
module GroupCache {
  import opened Prelude
  import opened MemberKeys
  import opened GroupIndex
  import opened Runs

  datatype Lock = Unlocked | Shared | Exclusive

  /** The write a thread has landed and not yet reported. */
  datatype Pending = Nothing | DocLanded | AddLanded(key: string) | DeleteLanded(key: string)

  datatype Thread = Thread(lock: Lock, pending: Pending)

  datatype Index = Index(gen: nat, edges: set<Edge>)

  /** The holder of the cache lock in groupIndexCache.get, if any, and what it has read so far. */
  datatype Builder =
    | Idle
    | Locked
    | Sampled(gen: nat)
    | HasDocs(gen: nat, docs: map<string, GroupDoc>)
    | HasRows(gen: nat, docs: map<string, GroupDoc>, rows: set<string>)

  datatype State = State(
    docs: map<string, GroupDoc>,
    rows: set<string>,
    gen: nat,
    cache: Option<Index>,
    builder: Builder,
    threads: map<nat, Thread>)

  datatype Step =
    | TakeShared(t: nat)
    | TakeExclusive(t: nat)
    | Release(t: nat)
    | LandDoc(t: nat, name: string, doc: Option<GroupDoc>)
    | Bump(t: nat)
    | LandAdd(t: nat, key: string)
    | ReportAdd(t: nat)
    | LandDelete(t: nat, key: string)
    | ReportDelete(t: nat)
    | OtherOrgWrite
    | LockCache
    | UnlockCache
    | Sample
    | ReadDocs
    | ReadRows
    | Install

  /** Every document and row is at rest, nothing is cached, and no thread holds the membership lock. */
  predicate Init(s: State) {
    && s.cache.None?
    && s.builder.Idle?
    && forall t :: t in s.threads ==> s.threads[t] == Thread(Unlocked, Nothing)
  }

  function With(s: State, t: nat, lock: Lock, pending: Pending): State {
    s.(threads := s.threads[t := Thread(lock, pending)])
  }

  /** Whether a step can be taken. `locking` says whether row writes follow the membership lock discipline. */
  predicate Enabled(locking: bool, s: State, step: Step) {
    match step
    case TakeShared(t) =>
      && t in s.threads && s.threads[t] == Thread(Unlocked, Nothing)
      && forall u :: u in s.threads ==> !s.threads[u].lock.Exclusive?
    case TakeExclusive(t) =>
      && t in s.threads && s.threads[t].pending.Nothing?
      && forall u :: u in s.threads ==> s.threads[u].lock.Unlocked?
    case Release(t) => t in s.threads && s.threads[t].pending.Nothing?
    case LandDoc(t, _, _) => t in s.threads && s.threads[t].pending.Nothing?
    case Bump(t) => t in s.threads && s.threads[t].pending.DocLanded?
    case LandAdd(t, _) =>
      t in s.threads && s.threads[t].pending.Nothing? && (locking ==> s.threads[t].lock.Shared?)
    case ReportAdd(t) =>
      && t in s.threads && s.threads[t].pending.AddLanded?
      && (SplitMemberKey(s.threads[t].pending.key).Some? ==> s.builder.Idle?)
    case LandDelete(t, key) =>
      t in s.threads && s.threads[t].pending.Nothing? && key in s.rows && (locking ==> s.threads[t].lock.Exclusive?)
    case ReportDelete(t) =>
      && t in s.threads && s.threads[t].pending.DeleteLanded?
      && (SplitMemberKey(s.threads[t].pending.key).Some? ==> s.builder.Idle?)
    case OtherOrgWrite => true
    case LockCache => s.builder.Idle?
    case UnlockCache => true
    case Sample => s.builder.Locked?
    case ReadDocs => s.builder.Sampled?
    case ReadRows => s.builder.HasDocs?
    case Install => s.builder.HasRows?
  }

  function Apply(s: State, step: Step): State
    requires Enabled(false, s, step)
  {
    match step
    case TakeShared(t) => With(s, t, Shared, Nothing)
    case TakeExclusive(t) => With(s, t, Exclusive, Nothing)
    case Release(t) => With(s, t, Unlocked, Nothing)
    case LandDoc(t, name, doc) =>
      With(s, t, s.threads[t].lock, DocLanded)
      .(docs := if doc.Some? then s.docs[name := doc.value] else s.docs - {name})
    case Bump(t) => With(s, t, s.threads[t].lock, Nothing).(gen := s.gen + 1)
    case LandAdd(t, key) => With(s, t, s.threads[t].lock, AddLanded(key)).(rows := s.rows + {key})
    case ReportAdd(t) =>
      With(s, t, s.threads[t].lock, Nothing).(cache := ObserveAdd(s.cache, s.threads[t].pending.key))
    case LandDelete(t, key) => With(s, t, s.threads[t].lock, DeleteLanded(key)).(rows := s.rows - {key})
    case ReportDelete(t) =>
      With(s, t, s.threads[t].lock, Nothing).(cache := ObserveDelete(s.cache, s.threads[t].pending.key))
    case OtherOrgWrite => s.(gen := s.gen + 1)
    case LockCache => s.(builder := Locked)
    case UnlockCache => s.(builder := Idle)
    case Sample => s.(builder := Sampled(s.gen))
    case ReadDocs => s.(builder := HasDocs(s.builder.gen, s.docs))
    case ReadRows => s.(builder := HasRows(s.builder.gen, s.builder.docs, s.rows))
    case Install =>
      s.(cache := Some(Index(s.builder.gen, EdgesOf(s.builder.docs, s.builder.rows))), builder := Idle)
  }

  /** groupIndexCache.observe for an added row: patch the installed index, if there is one. */
  function ObserveAdd(cache: Option<Index>, key: string): Option<Index> {
    if cache.None? then None else Some(cache.value.(edges := cache.value.edges + RowEdge(key)))
  }

  /** groupIndexCache.observe for a deleted row: drop the installed index. */
  function ObserveDelete(cache: Option<Index>, key: string): Option<Index> {
    if SplitMemberKey(key).None? then cache else None
  }

  predicate Next(locking: bool, s: State, step: Step, s': State) {
    Enabled(locking, s, step) && s' == Apply(s, step)
  }

  /** A step that follows the membership lock discipline, and one that need not. */
  predicate Disciplined(s: State, step: Step, s': State) {
    Next(true, s, step, s')
  }

  predicate Undisciplined(s: State, step: Step, s': State) {
    Next(false, s, step, s')
  }

  /** No thread sits between landing a write and reporting it. */
  predicate Quiescent(s: State) {
    forall t :: t in s.threads ==> s.threads[t].pending.Nothing?
  }

  /** The installed index is current by its generation: what groupIndexCache.get tests before answering with it. */
  predicate Current(s: State) {
    s.cache.Some? && s.cache.value.gen == s.gen
  }

  // The invariant

  predicate NoDocPending(s: State) {
    forall t :: t in s.threads ==> !s.threads[t].pending.DocLanded?
  }

  predicate NoDeletePending(s: State) {
    forall t :: t in s.threads && s.threads[t].pending.DeleteLanded? ==> SplitMemberKey(s.threads[t].pending.key).None?
  }

  /** The rows landed by additions not yet reported. */
  function PendingKeys(s: State): set<string> {
    set t | t in s.threads && s.threads[t].pending.AddLanded? :: s.threads[t].pending.key
  }

  predicate LocksHeld(s: State) {
    && (forall t, u :: t in s.threads && u in s.threads && t != u && s.threads[t].lock.Exclusive? ==>
          s.threads[u].lock.Unlocked?)
    && (forall t :: t in s.threads && s.threads[t].pending.AddLanded? ==> s.threads[t].lock.Shared?)
    && (forall t :: t in s.threads && s.threads[t].pending.DeleteLanded? ==> s.threads[t].lock.Exclusive?)
  }

  /** What an index knows of the rows: all of them, save perhaps some whose addition is still unreported. */
  predicate RowsBetween(s: State, edges: set<Edge>) {
    AllRowEdges(s.rows - PendingKeys(s)) <= edges <= AllRowEdges(s.rows)
  }

  predicate CacheInv(s: State) {
    s.cache.Some? ==>
      && s.cache.value.gen <= s.gen
      && (s.cache.value.gen == s.gen && NoDocPending(s) && NoDeletePending(s) ==>
            EdgesOf(s.docs, s.rows - PendingKeys(s)) <= s.cache.value.edges <= EdgesOf(s.docs, s.rows))
  }

  predicate BuilderInv(s: State) {
    match s.builder
    case Idle => true
    case Locked => true
    case Sampled(gen) => gen <= s.gen
    case HasDocs(gen, docs) => gen <= s.gen && (gen == s.gen && NoDocPending(s) ==> docs == s.docs)
    case HasRows(gen, docs, rows) =>
      && gen <= s.gen
      && (gen == s.gen && NoDocPending(s) ==> docs == s.docs)
      && (NoDeletePending(s) ==> RowsBetween(s, AllRowEdges(rows)))
  }

  predicate Inv(s: State) {
    LocksHeld(s) && PendingKeys(s) <= s.rows && CacheInv(s) && BuilderInv(s)
  }

  lemma MoreRowsMoreEdges(rows: set<string>, rows': set<string>)
    requires rows <= rows'
    ensures AllRowEdges(rows) <= AllRowEdges(rows')
  {
  }

  /** Whatever a step does, only the thread taking it changes what it has pending. */
  lemma PendingAfter(s: State, t: nat, lock: Lock, pending: Pending)
    requires t in s.threads
    ensures PendingKeys(With(s, t, lock, pending)) <=
            PendingKeys(s) + (if pending.AddLanded? then {pending.key} else {})
    ensures s.threads[t].pending.AddLanded? ==>
              PendingKeys(s) <= PendingKeys(With(s, t, lock, pending)) + {s.threads[t].pending.key}
    ensures !s.threads[t].pending.AddLanded? ==> PendingKeys(s) <= PendingKeys(With(s, t, lock, pending))
    ensures pending.AddLanded? ==> pending.key in PendingKeys(With(s, t, lock, pending))
  {
    var s' := With(s, t, lock, pending);
    forall key | key in PendingKeys(s)
      ensures key in PendingKeys(s') || s.threads[t].pending == AddLanded(key)
    {
      var u :| u in s.threads && s.threads[u].pending == AddLanded(key);
      assert u != t ==> s'.threads[u].pending == AddLanded(key);
    }
    assert s'.threads[t].pending == pending;
  }

  /** Taking or giving back the membership lock. */
  lemma LockKeepsInv(s: State, step: Step)
    requires Inv(s) && Enabled(true, s, step)
    requires step.TakeShared? || step.TakeExclusive? || step.Release?
    ensures Inv(Apply(s, step))
  {
    var s' := Apply(s, step);
    PendingAfter(s, step.t, s'.threads[step.t].lock, Nothing);
    assert PendingKeys(s') == PendingKeys(s);
    assert NoDocPending(s') ==> NoDocPending(s) by { PendingElsewhere(s, s', step.t); }
    assert NoDeletePending(s') ==> NoDeletePending(s) by { PendingElsewhere(s, s', step.t); }
  }

  lemma PendingElsewhere(s: State, s': State, t: nat)
    requires t in s.threads && s'.threads.Keys == s.threads.Keys
    requires forall u :: u in s.threads && u != t ==> s'.threads[u] == s.threads[u]
    ensures NoDocPending(s') && !s.threads[t].pending.DocLanded? ==> NoDocPending(s)
    ensures NoDeletePending(s') && !s.threads[t].pending.DeleteLanded? ==> NoDeletePending(s)
  {
  }

  lemma DocKeepsInv(s: State, step: Step)
    requires Inv(s) && Enabled(true, s, step)
    requires step.LandDoc? || step.Bump? || step.OtherOrgWrite?
    ensures Inv(Apply(s, step))
  {
    var s' := Apply(s, step);
    if step.OtherOrgWrite? {
      assert PendingKeys(s') == PendingKeys(s);
    } else {
      PendingAfter(s, step.t, s'.threads[step.t].lock, s'.threads[step.t].pending);
      assert PendingKeys(s') == PendingKeys(s);
      PendingElsewhere(s, s', step.t);
      assert step.LandDoc? ==> !NoDocPending(s');
    }
  }

  lemma AddKeepsInv(s: State, t: nat, key: string)
    requires Inv(s) && Enabled(true, s, LandAdd(t, key))
    ensures Inv(Apply(s, LandAdd(t, key)))
  {
    var s' := Apply(s, LandAdd(t, key));
    PendingAfter(s, t, s.threads[t].lock, AddLanded(key));
    PendingElsewhere(s, s', t);
    assert s'.rows - PendingKeys(s') <= s.rows - PendingKeys(s);
    MoreRowsMoreEdges(s'.rows - PendingKeys(s'), s.rows - PendingKeys(s));
    MoreRowsMoreEdges(s.rows, s'.rows);
  }

  lemma ReportAddKeepsInv(s: State, t: nat)
    requires Inv(s) && Enabled(true, s, ReportAdd(t))
    ensures Inv(Apply(s, ReportAdd(t)))
  {
    var key := s.threads[t].pending.key;
    var s' := Apply(s, ReportAdd(t));
    PendingAfter(s, t, s.threads[t].lock, Nothing);
    PendingElsewhere(s, s', t);
    assert key in PendingKeys(s);
    assert s'.rows - PendingKeys(s') <= (s.rows - PendingKeys(s)) + {key};
    MoreRowsMoreEdges(s'.rows - PendingKeys(s'), (s.rows - PendingKeys(s)) + {key});
    assert AllRowEdges((s.rows - PendingKeys(s)) + {key}) == AllRowEdges(s.rows - PendingKeys(s)) + RowEdge(key);
    assert RowEdge(key) <= AllRowEdges(s.rows);
  }

  lemma DeleteKeepsInv(s: State, t: nat, key: string)
    requires Inv(s) && Enabled(true, s, LandDelete(t, key))
    ensures Inv(Apply(s, LandDelete(t, key)))
  {
    var s' := Apply(s, LandDelete(t, key));
    PendingAfter(s, t, s.threads[t].lock, DeleteLanded(key));
    PendingElsewhere(s, s', t);
    assert PendingKeys(s) == {};
    if SplitMemberKey(key).Some? {
      assert s'.threads[t].pending == DeleteLanded(key);
    } else {
      assert s.rows == s'.rows + {key} && RowEdge(key) == {};
      assert AllRowEdges(s.rows) == AllRowEdges(s'.rows) + RowEdge(key);
      assert s.rows - PendingKeys(s) == s.rows && s'.rows - PendingKeys(s') == s'.rows;
    }
  }

  lemma ReportDeleteKeepsInv(s: State, t: nat)
    requires Inv(s) && Enabled(true, s, ReportDelete(t))
    ensures Inv(Apply(s, ReportDelete(t)))
  {
    var s' := Apply(s, ReportDelete(t));
    PendingAfter(s, t, s.threads[t].lock, Nothing);
    PendingElsewhere(s, s', t);
    assert PendingKeys(s') == PendingKeys(s);
  }

  lemma BuildKeepsInv(s: State, step: Step)
    requires Inv(s) && Enabled(true, s, step)
    requires step.LockCache? || step.UnlockCache? || step.Sample? || step.ReadDocs? || step.ReadRows? || step.Install?
    ensures Inv(Apply(s, step))
  {
    var s' := Apply(s, step);
    assert PendingKeys(s') == PendingKeys(s);
    if step.ReadRows? {
      MoreRowsMoreEdges(s.rows - PendingKeys(s), s.rows);
    }
  }

  lemma StepKeepsInv(s: State, step: Step)
    requires Inv(s) && Enabled(true, s, step)
    ensures Inv(Apply(s, step))
  {
    match step
    case LandAdd(t, key) => AddKeepsInv(s, t, key);
    case ReportAdd(t) => ReportAddKeepsInv(s, t);
    case LandDelete(t, key) => DeleteKeepsInv(s, t, key);
    case ReportDelete(t) => ReportDeleteKeepsInv(s, t);
    case TakeShared(_) => LockKeepsInv(s, step);
    case TakeExclusive(_) => LockKeepsInv(s, step);
    case Release(_) => LockKeepsInv(s, step);
    case LandDoc(_, _, _) => DocKeepsInv(s, step);
    case Bump(_) => DocKeepsInv(s, step);
    case OtherOrgWrite => DocKeepsInv(s, step);
    case _ => BuildKeepsInv(s, step);
  }

  lemma RunKeepsInv(states: seq<State>, steps: seq<Step>, n: nat)
    requires IsRun(Init, Disciplined, states, steps) && n < |states|
    ensures Inv(states[n])
  {
    forall s | Init(s)
      ensures Inv(s)
    {
      assert PendingKeys(s) == {};
    }
    forall s, step, s' | Inv(s) && Disciplined(s, step, s')
      ensures Inv(s')
    {
      StepKeepsInv(s, step);
    }
    Invariant(Init, Disciplined, Inv, states, steps, n);
  }

  /** Cache safety over every interleaving: in every state of every run, an installed index whose generation is
      the store's, with no write between landing and reporting, is the index built from scratch. */
  lemma CurrentIndexIsExact(states: seq<State>, steps: seq<Step>, n: nat)
    requires IsRun(Init, Disciplined, states, steps) && n < |states|
    requires Quiescent(states[n]) && Current(states[n])
    ensures states[n].cache.value.edges == EdgesOf(states[n].docs, states[n].rows)
  {
    RunKeepsInv(states, steps, n);
    var s := states[n];
    assert PendingKeys(s) == {};
    assert s.rows - {} == s.rows;
  }

  /** The same, for what an authorization check asks: the cached answer for an actor is the uncached one. */
  lemma CachedMembershipIsExact(states: seq<State>, steps: seq<Step>, n: nat, kind: string, actor: string,
                                cached: set<string>, uncached: set<string>)
    requires IsRun(Init, Disciplined, states, steps) && n < |states|
    requires Quiescent(states[n]) && Current(states[n])
    requires IsMembership(states[n].cache.value.edges, kind, actor, cached)
    requires IsMembership(EdgesOf(states[n].docs, states[n].rows), kind, actor, uncached)
    ensures cached == uncached
  {
    CurrentIndexIsExact(states, steps, n);
    MembershipIsUnique(EdgesOf(states[n].docs, states[n].rows), kind, actor, cached, uncached);
  }

  /** And it is who belongs to what, by the stored documents and rows themselves. */
  lemma CachedMembersBelong(states: seq<State>, steps: seq<Step>, n: nat, actor: string, isClient: bool, cached: set<string>)
    requires IsRun(Init, Disciplined, states, steps) && n < |states|
    requires Quiescent(states[n]) && Current(states[n])
    requires IsMembership(states[n].cache.value.edges, if isClient then CLIENTS else USERS, actor, cached)
    ensures forall g :: g in cached <==> Belongs(states[n].docs, states[n].rows, actor, isClient, g)
  {
    CurrentIndexIsExact(states, steps, n);
    MembershipIsBelonging(states[n].docs, states[n].rows, actor, isClient, cached);
  }

  lemma {:induction false} GenerationsGrow(states: seq<State>, steps: seq<Step>, i: nat, j: nat)
    requires IsRun(Init, Disciplined, states, steps) && i <= j < |states|
    ensures states[i].gen <= states[j].gen
    decreases j - i
  {
    if i < j {
      GenerationsGrow(states, steps, i, j - 1);
      assert Disciplined(states[j - 1], steps[j - 1], states[j]);
    }
  }

  /** What a lookup answers with: it reads the installed index in one state and compares its generation with the store's
      in a later one, with any steps in between. The index it then answers with was current when it was read: it held
      the documents stored at that instant and every row but perhaps some whose addition was still unreported, and with
      no write under way at that instant it was exact. */
  lemma LookupWasExact(states: seq<State>, steps: seq<Step>, called: nat, compared: nat, idx: Index)
    requires IsRun(Init, Disciplined, states, steps) && called <= compared < |states|
    requires states[called].cache == Some(idx) && idx.gen == states[compared].gen
    ensures var s := states[called];
            && Current(s)
            && (NoDocPending(s) && NoDeletePending(s) ==>
                  EdgesOf(s.docs, s.rows - PendingKeys(s)) <= idx.edges <= EdgesOf(s.docs, s.rows))
            && (Quiescent(s) ==> idx.edges == EdgesOf(s.docs, s.rows))
  {
    RunKeepsInv(states, steps, called);
    GenerationsGrow(states, steps, called, compared);
    if Quiescent(states[called]) {
      CurrentIndexIsExact(states, steps, called);
    }
  }

  /** An addition that has landed, while another thread deletes the same row and reports it. */
  lemma AddStraddlesDelete(key: string) returns (states: seq<State>, steps: seq<Step>)
    requires SplitMemberKey(key).Some?
    ensures IsRun(Init, Undisciplined, states, steps)
    ensures states[|steps|] == State(map[], {}, 0, None, Idle,
                                     map[0 := Thread(Unlocked, AddLanded(key)), 1 := Thread(Unlocked, Nothing)])
  {
    var idle := Thread(Unlocked, Nothing);
    states, steps := [State(map[], {}, 0, None, Idle, map[0 := idle, 1 := idle])], [];
    states, steps := Extend(Init, Undisciplined, states, steps, LandAdd(0, key),
                             Apply(states[|steps|], LandAdd(0, key)));
    states, steps := Extend(Init, Undisciplined, states, steps, LandDelete(1, key),
                             Apply(states[|steps|], LandDelete(1, key)));
    states, steps := Extend(Init, Undisciplined, states, steps, ReportDelete(1),
                             Apply(states[|steps|], ReportDelete(1)));
  }

  /** A rebuild that runs with nothing stored and no index installed. */
  lemma RebuildEmpty(states: seq<State>, steps: seq<Step>) returns (states': seq<State>, steps': seq<Step>)
    requires IsRun(Init, Undisciplined, states, steps)
    requires var s := states[|steps|]; s.docs == map[] && s.rows == {} && s.builder.Idle?
    ensures IsRun(Init, Undisciplined, states', steps')
    ensures states'[|steps'|] == states[|steps|].(cache := Some(Index(states[|steps|].gen, {})))
  {
    states', steps' := Extend(Init, Undisciplined, states, steps, LockCache,
                             Apply(states[|steps|], LockCache));
    states', steps' := Extend(Init, Undisciplined, states', steps', Sample,
                             Apply(states'[|steps'|], Sample));
    states', steps' := Extend(Init, Undisciplined, states', steps', ReadDocs,
                             Apply(states'[|steps'|], ReadDocs));
    states', steps' := Extend(Init, Undisciplined, states', steps', ReadRows,
                             Apply(states'[|steps'|], ReadRows));
    states', steps' := Extend(Init, Undisciplined, states', steps', Install,
                             Apply(states'[|steps'|], Install));
    assert EdgesOf(map[], {}) == {};
  }

  /** Why rows follow the membership lock: when an addition may straddle a deletion of the same row, a run reaches a
      quiescent state whose installed index is current by its generation and still names the deleted row. */
  lemma LockIsNeeded() returns (states: seq<State>, steps: seq<Step>)
    ensures IsRun(Init, Undisciplined, states, steps)
    ensures var s := states[|steps|];
            Quiescent(s) && Current(s) && s.cache.value.edges != EdgesOf(s.docs, s.rows)
  {
    var row := Row("g", CLIENTS, "c");
    MemberKeyRoundTrip(MemberKey(row), row);
    states, steps := AddStraddlesDelete(MemberKey(row));
    states, steps := RebuildEmpty(states, steps);
    states, steps := Extend(Init, Undisciplined, states, steps, ReportAdd(0),
                             Apply(states[|steps|], ReportAdd(0)));
    assert Edge(CLIENTS, "c", "g") in states[|steps|].cache.value.edges;
    assert EdgesOf(map[], {}) == {};
  }
}
