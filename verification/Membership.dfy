/** Membership changes ordered against revocation by the membership lock, as a step system
    (internal/api/groupmembers.go:27-43, internal/api/actor.go, internal/api/authz.go).

    Registering a client holds the lock shared from creating the client through writing its row. Deleting a client or
    a group, and writing a group, hold it exclusively. Every store write is a step of its own, handlers of different
    threads interleave in every way the lock allows, and any store call may fail, which ends its handler there. */
module Membership {
  import opened Prelude
  import opened MemberKeys
  import opened GroupIndex
  import opened Runs

  /** What a deletion removes. */
  datatype Target = Client(name: string) | Group(name: string)

  /** Where a handler is. All but Idle hold the membership lock: the registering ones shared, the rest exclusively. */
  datatype Handler =
    | Idle
    | Registering(name: string)
    | Registered(name: string)
    | Deleting(target: Target)
    | DropRows(target: Target, todo: set<Row>)
    | DropDocs(target: Target, names: set<string>)
    | ClearOwn(target: Target, todo: set<Row>)
    | DropRecord(target: Target)
    | Putting(group: string, update: Update)
    | Clearing(group: string, doc: GroupDoc, create: bool, todo: set<Row>)
    | Writing(group: string, doc: GroupDoc, create: bool)

  /** The member kinds a group PUT replaces; a kind left out keeps its current members. */
  datatype Update = Update(users: Option<seq<string>>, clients: Option<seq<string>>, groups: Option<seq<string>>)

  datatype State = State(
    clients: set<string>,
    docs: map<string, GroupDoc>,
    rows: set<Row>,
    threads: map<nat, Handler>)

  datatype Step =
    | StartRegister(t: nat, name: string)
    | CreateClient(t: nat)
    | AddRow(t: nat)
    | StartDelete(t: nat, target: Target)
    | ScanRows(t: nat)
    | DeleteRow(t: nat, row: Row)
    | ScanDocs(t: nat)
    | RewriteDoc(t: nat, group: string)
    | ScanOwn(t: nat)
    | RowsGone(t: nat)
    | DeleteRecord(t: nat)
    | StartPut(t: nat, group: string, update: Update)
    | ReadMembers(t: nat, current: GroupDoc, users: set<string>)
    | StartPost(t: nat, group: string, doc: GroupDoc)
    | WriteDoc(t: nat)
    | Finish(t: nat)

  predicate HoldsShared(h: Handler) {
    h.Registering? || h.Registered?
  }

  predicate HoldsExclusive(h: Handler) {
    !h.Idle? && !HoldsShared(h)
  }

  function Kind(target: Target): string {
    if target.Client? then CLIENTS else GROUPS
  }

  /** The names of one kind that a document lists. */
  function Listed(doc: GroupDoc, kind: string): seq<string> {
    if kind == CLIENTS then doc.clients else if kind == GROUPS then doc.groups else doc.users
  }

  predicate RowNames(row: Row, target: Target) {
    row.kind == Kind(target) && row.actor == target.name
  }

  predicate DocNames(doc: GroupDoc, target: Target) {
    target.name in Listed(doc, Kind(target))
  }

  predicate Exists(s: State, target: Target) {
    if target.Client? then target.name in s.clients else target.name in s.docs
  }

  /** without: the list with every occurrence of a name removed. */
  function Without(names: seq<string>, name: string): (r: seq<string>)
    ensures forall n :: n in r <==> n in names && n != name
  {
    if names == [] then []
    else if names[0] == name then Without(names[1..], name)
    else [names[0]] + Without(names[1..], name)
  }

  function WithoutTarget(doc: GroupDoc, target: Target): GroupDoc {
    if target.Client? then doc.(clients := Without(doc.clients, target.name))
    else doc.(groups := Without(doc.groups, target.name))
  }

  /** knownGroupMembers, for one kind: the names that exist. */
  function Keep(names: seq<string>, known: set<string>): (r: seq<string>)
    ensures forall n :: n in r <==> n in names && n in known
  {
    if names == [] then []
    else if names[0] in known then [names[0]] + Keep(names[1..], known)
    else Keep(names[1..], known)
  }

  /** groupMembership: the document's members and the rows', in the order the scan meets them. */
  ghost predicate IsMembershipOf(s: State, group: string, current: GroupDoc) {
    forall kind, n :: KnownKind(kind) ==>
      (n in Listed(current, kind) <==>
        (group in s.docs && n in Listed(s.docs[group], kind)) || Row(group, kind, n) in s.rows)
  }

  /** The document a PUT writes: replaced kinds from the body, kept kinds from the current members, each filtered
      to the names that exist. Users belong to the whole server; `users` are those that exist when it looks. */
  function Updated(s: State, update: Update, current: GroupDoc, users: set<string>): GroupDoc {
    GroupDoc(
      Keep(if update.users.Some? then update.users.value else current.users, users),
      Keep(if update.clients.Some? then update.clients.value else current.clients, s.clients),
      Keep(if update.groups.Some? then update.groups.value else current.groups, s.docs.Keys))
  }

  predicate NamesOnlyExisting(s: State, doc: GroupDoc) {
    (forall c :: c in doc.clients ==> c in s.clients) && (forall g :: g in doc.groups ==> g in s.docs)
  }

  predicate CanLockShared(s: State) {
    forall u :: u in s.threads ==> !HoldsExclusive(s.threads[u])
  }

  predicate CanLockExclusive(s: State) {
    forall u :: u in s.threads ==> s.threads[u].Idle?
  }

  /** Whether a step can be taken. `locking` says whether handlers wait for the membership lock. */
  ghost predicate Enabled(locking: bool, s: State, step: Step) {
    step.t in s.threads &&
    var h := s.threads[step.t];
    match step
    case StartRegister(_, _) => h.Idle? && (locking ==> CanLockShared(s))
    case CreateClient(_) => h.Registering? && h.name !in s.clients
    case AddRow(_) => h.Registered?
    case StartDelete(_, _) => h.Idle? && (locking ==> CanLockExclusive(s))
    case ScanRows(_) => h.Deleting? && Exists(s, h.target)
    case DeleteRow(_, row) => (h.DropRows? || h.ClearOwn? || h.Clearing?) && row in h.todo
    case ScanDocs(_) => h.DropRows? && h.todo == {}
    case RewriteDoc(_, group) => h.DropDocs? && group in h.names
    case ScanOwn(_) => h.DropDocs? && h.names == {} && h.target.Group?
    case RowsGone(_) => (h.DropDocs? && h.names == {} && h.target.Client?) || ((h.ClearOwn? || h.Clearing?) && h.todo == {})
    case DeleteRecord(_) => h.DropRecord?
    case StartPut(_, _, _) => h.Idle? && (locking ==> CanLockExclusive(s))
    case ReadMembers(_, current, _) => h.Putting? && IsMembershipOf(s, h.group, current)
    case StartPost(_, _, _) => h.Idle? && (locking ==> CanLockExclusive(s))
    case WriteDoc(_) => h.Writing?
    case Finish(_) => true
  }

  function To(s: State, t: nat, h: Handler): State {
    s.(threads := s.threads[t := h])
  }

  function RowsOf(rows: set<Row>, group: string): set<Row> {
    set r | r in rows && r.group == group
  }

  function Apply(s: State, step: Step): State
    requires Enabled(false, s, step)
  {
    var t, h := step.t, s.threads[step.t];
    match step
    case StartRegister(_, name) => To(s, t, Registering(name))
    case CreateClient(_) => To(s, t, Registered(h.name)).(clients := s.clients + {h.name})
    case AddRow(_) => To(s, t, Idle).(rows := s.rows + {Row(CLIENTS, CLIENTS, h.name)})
    case StartDelete(_, target) => To(s, t, Deleting(target))
    case ScanRows(_) => To(s, t, DropRows(h.target, set r | r in s.rows && RowNames(r, h.target)))
    case DeleteRow(_, row) => To(s, t, h.(todo := h.todo - {row})).(rows := s.rows - {row})
    case ScanDocs(_) => To(s, t, DropDocs(h.target, s.docs.Keys))
    case RewriteDoc(_, group) =>
      To(s, t, DropDocs(h.target, h.names - {group}))
      .(docs := if group in s.docs && DocNames(s.docs[group], h.target)
                then s.docs[group := WithoutTarget(s.docs[group], h.target)] else s.docs)
    case ScanOwn(_) => To(s, t, ClearOwn(h.target, RowsOf(s.rows, h.target.name)))
    case RowsGone(_) => To(s, t, if h.Clearing? then Writing(h.group, h.doc, h.create) else DropRecord(h.target))
    case DeleteRecord(_) =>
      if h.target.Client? then To(s, t, Idle).(clients := s.clients - {h.target.name})
      else To(s, t, Idle).(docs := s.docs - {h.target.name})
    case StartPut(_, group, update) => To(s, t, Putting(group, update))
    case ReadMembers(_, current, users) =>
      To(s, t, Clearing(h.group, Updated(s, h.update, current, users), false, RowsOf(s.rows, h.group)))
    case StartPost(_, group, doc) => To(s, t, Clearing(group, doc, true, RowsOf(s.rows, group)))
    case WriteDoc(_) =>
      To(s, t, Idle).(docs := if h.create && h.group in s.docs then s.docs else s.docs[h.group := h.doc])
    case Finish(_) => To(s, t, Idle)
  }

  ghost predicate Locked(s: State, step: Step, s': State) {
    Enabled(true, s, step) && s' == Apply(s, step)
  }

  /** What a document names will exist once it is the group's. */
  predicate WillExist(s: State, group: string, doc: GroupDoc) {
    (forall c :: c in doc.clients ==> c in s.clients) && (forall g :: g in doc.groups ==> g in s.docs || g == group)
  }

  /** A POST may name anything; one that names only what exists, itself included, is sound. */
  predicate SoundPost(s: State, step: Step) {
    step.StartPost? ==> WillExist(s, step.group, step.doc)
  }

  ghost predicate Sound(s: State, step: Step, s': State) {
    Locked(s, step, s') && SoundPost(s, step)
  }

  ghost predicate Unlocked(s: State, step: Step, s': State) {
    Enabled(false, s, step) && s' == Apply(s, step)
  }

  /** Every client in a document or a row exists, and every group nested by one exists. */
  predicate NoDanglingName(s: State) {
    && (forall g :: g in s.docs ==> NamesOnlyExisting(s, s.docs[g]))
    && (forall r :: r in s.rows && r.kind == CLIENTS ==> r.actor in s.clients)
    && (forall r :: r in s.rows && r.kind == GROUPS ==> r.actor in s.docs)
  }

  predicate Init(s: State) {
    NoDanglingName(s) && forall t :: t in s.threads ==> s.threads[t].Idle?
  }

  // The invariant

  predicate Exclusion(s: State) {
    forall t, u :: t in s.threads && u in s.threads && t != u && HoldsExclusive(s.threads[t]) ==> s.threads[u].Idle?
  }

  predicate NoRowNames(s: State, target: Target) {
    forall r :: r in s.rows ==> !RowNames(r, target)
  }

  predicate NoDocNames(s: State, target: Target) {
    forall g :: g in s.docs ==> !DocNames(s.docs[g], target)
  }

  /** What each handler has already established and still relies on. */
  predicate HandlerInv(s: State, h: Handler) {
    match h
    case Registered(name) => name in s.clients
    case DropRows(target, todo) => forall r :: r in s.rows && RowNames(r, target) ==> r in todo
    case DropDocs(target, names) =>
      NoRowNames(s, target) && forall g :: g in s.docs && DocNames(s.docs[g], target) ==> g in names
    case ClearOwn(target, _) => NoRowNames(s, target) && NoDocNames(s, target)
    case DropRecord(target) => NoRowNames(s, target) && NoDocNames(s, target)
    case Clearing(group, doc, _, _) => WillExist(s, group, doc)
    case Writing(group, doc, _) => WillExist(s, group, doc)
    case _ => true
  }

  predicate Inv(s: State) {
    Exclusion(s) && NoDanglingName(s) && forall t :: t in s.threads ==> HandlerInv(s, s.threads[t])
  }

  /** A step by a handler that holds the lock exclusively leaves every other thread idle. */
  lemma OthersIdle(s: State, t: nat, u: nat)
    requires Exclusion(s) && t in s.threads && u in s.threads && t != u && HoldsExclusive(s.threads[t])
    ensures s.threads[u] == Idle
  {
  }

  lemma RegisterKeepsInv(s: State, step: Step)
    requires Inv(s) && Enabled(true, s, step)
    requires step.StartRegister? || step.CreateClient? || step.AddRow?
    ensures Inv(Apply(s, step))
  {
    var s' := Apply(s, step);
    forall u | u in s'.threads
      ensures HandlerInv(s', s'.threads[u])
    {
      assert u != step.t ==> HandlerInv(s, s.threads[u]) && !HoldsExclusive(s.threads[u]);
    }
  }

  lemma StartKeepsInv(s: State, step: Step)
    requires Inv(s) && Enabled(true, s, step)
    requires step.StartDelete? || step.StartPut? || step.StartPost? || step.Finish?
    requires SoundPost(s, step)
    ensures Inv(Apply(s, step))
  {
    var s' := Apply(s, step);
    forall u | u in s'.threads
      ensures HandlerInv(s', s'.threads[u])
    {
      assert u != step.t ==> HandlerInv(s, s.threads[u]);
    }
  }

  /** The steps of a deletion up to, and not including, the record itself. */
  lemma RevokeKeepsInv(s: State, step: Step)
    requires Inv(s) && Enabled(true, s, step)
    requires step.ScanRows? || step.DeleteRow? || step.ScanDocs? || step.ScanOwn? || step.RowsGone?
    ensures Inv(Apply(s, step))
  {
    var s' := Apply(s, step);
    assert s'.docs == s.docs && s'.clients == s.clients && s'.rows <= s.rows;
    forall u | u in s'.threads
      ensures HandlerInv(s', s'.threads[u])
    {
      if u != step.t {
        OthersIdle(s, step.t, u);
      } else {
        assert HandlerInv(s, s.threads[u]);
      }
    }
  }

  lemma RewriteKeepsInv(s: State, t: nat, group: string)
    requires Inv(s) && Enabled(true, s, RewriteDoc(t, group))
    ensures Inv(Apply(s, RewriteDoc(t, group)))
  {
    var s' := Apply(s, RewriteDoc(t, group));
    assert s'.docs.Keys == s.docs.Keys;
    forall u | u in s'.threads
      ensures HandlerInv(s', s'.threads[u])
    {
      if u != t {
        OthersIdle(s, t, u);
      } else {
        assert HandlerInv(s, s.threads[u]);
      }
    }
    forall g | g in s'.docs
      ensures NamesOnlyExisting(s', s'.docs[g])
    {
      assert NamesOnlyExisting(s, s.docs[g]);
    }
  }

  lemma RecordKeepsInv(s: State, t: nat)
    requires Inv(s) && Enabled(true, s, DeleteRecord(t))
    ensures Inv(Apply(s, DeleteRecord(t)))
  {
    var s' := Apply(s, DeleteRecord(t));
    var target := s.threads[t].target;
    assert HandlerInv(s, s.threads[t]);
    forall u | u in s'.threads
      ensures HandlerInv(s', s'.threads[u])
    {
      if u != t {
        OthersIdle(s, t, u);
      }
    }
    forall g | g in s'.docs
      ensures NamesOnlyExisting(s', s'.docs[g])
    {
      assert NamesOnlyExisting(s, s.docs[g]) && !DocNames(s.docs[g], target);
    }
    forall r | r in s'.rows && (r.kind == CLIENTS || r.kind == GROUPS)
      ensures r.kind == CLIENTS ==> r.actor in s'.clients
      ensures r.kind == GROUPS ==> r.actor in s'.docs
    {
      assert !RowNames(r, target);
    }
  }

  lemma WriteKeepsInv(s: State, step: Step)
    requires Inv(s) && Enabled(true, s, step)
    requires step.ReadMembers? || step.WriteDoc?
    ensures Inv(Apply(s, step))
  {
    var s' := Apply(s, step);
    var t := step.t;
    assert HandlerInv(s, s.threads[t]);
    forall u | u in s'.threads
      ensures HandlerInv(s', s'.threads[u])
    {
      if u != t {
        OthersIdle(s, t, u);
      }
    }
    forall g | g in s'.docs
      ensures NamesOnlyExisting(s', s'.docs[g])
    {
      assert g in s.docs ==> NamesOnlyExisting(s, s.docs[g]);
    }
  }

  lemma StepKeepsInv(s: State, step: Step)
    requires Inv(s) && Enabled(true, s, step) && SoundPost(s, step)
    ensures Inv(Apply(s, step))
  {
    match step
    case StartRegister(_, _) => RegisterKeepsInv(s, step);
    case CreateClient(_) => RegisterKeepsInv(s, step);
    case AddRow(_) => RegisterKeepsInv(s, step);
    case StartDelete(_, _) => StartKeepsInv(s, step);
    case StartPut(_, _, _) => StartKeepsInv(s, step);
    case StartPost(_, _, _) => StartKeepsInv(s, step);
    case Finish(_) => StartKeepsInv(s, step);
    case RewriteDoc(t, group) => RewriteKeepsInv(s, t, group);
    case DeleteRecord(t) => RecordKeepsInv(s, t);
    case ReadMembers(_, _, _) => WriteKeepsInv(s, step);
    case WriteDoc(_) => WriteKeepsInv(s, step);
    case _ => RevokeKeepsInv(s, step);
  }

  lemma RunKeepsInv(states: seq<State>, steps: seq<Step>, n: nat)
    requires IsRun(Init, Sound, states, steps) && n < |states|
    ensures Inv(states[n])
  {
    forall s, step, s' | Inv(s) && Sound(s, step, s')
      ensures Inv(s')
    {
      StepKeepsInv(s, step);
    }
    Invariant(Init, Sound, Inv, states, steps, n);
  }

  /** Membership never outlives its referent: in every state of every run whose POSTs name only what exists, whatever the
      handlers are in the middle of and whichever of them failed part-way, no document or row names a client or group
      that does not exist. */
  lemma NothingDangles(states: seq<State>, steps: seq<Step>, n: nat)
    requires IsRun(Init, Sound, states, steps) && n < |states|
    ensures NoDanglingName(states[n])
  {
    RunKeepsInv(states, steps, n);
  }

  /** A name that does not exist is in no group, so whatever is created under it next inherits no membership. */
  lemma AbsentMeansUnnamed(states: seq<State>, steps: seq<Step>, n: nat, target: Target)
    requires IsRun(Init, Sound, states, steps) && n < |states|
    requires !Exists(states[n], target)
    ensures NoRowNames(states[n], target) && NoDocNames(states[n], target)
  {
    NothingDangles(states, steps, n);
    var s := states[n];
    forall g | g in s.docs
      ensures !DocNames(s.docs[g], target)
    {
      assert NamesOnlyExisting(s, s.docs[g]);
    }
  }

  /** A client is created a member of nothing: right after the create, no document and no row names it. */
  lemma NewClientIsInNoGroup(states: seq<State>, steps: seq<Step>, n: nat)
    requires IsRun(Init, Sound, states, steps) && n < |steps| && steps[n].CreateClient?
    requires steps[n].t in states[n].threads && states[n].threads[steps[n].t].Registering?
    ensures var target := Client(states[n].threads[steps[n].t].name);
            Exists(states[n + 1], target) && NoRowNames(states[n + 1], target) && NoDocNames(states[n + 1], target)
  {
    assert Sound(states[n], steps[n], states[n + 1]);
    AbsentMeansUnnamed(states, steps, n, Client(states[n].threads[steps[n].t].name));
  }

  /** Why handlers take the lock: without it a client deleted between its creation and its row leaves the row behind. */
  lemma LockIsNeeded() returns (states: seq<State>, steps: seq<Step>)
    ensures IsRun(Init, Unlocked, states, steps)
    ensures !NoDanglingName(states[|steps|])
  {
    var s := State({}, map[], {}, map[0 := Idle, 1 := Idle]);
    states, steps := [s], [];
    states, steps := Act(states, steps, StartRegister(0, "c"));
    states, steps := Act(states, steps, CreateClient(0));
    states, steps := Act(states, steps, StartDelete(1, Client("c")));
    states, steps := Act(states, steps, ScanRows(1));
    states, steps := Act(states, steps, ScanDocs(1));
    states, steps := Act(states, steps, RowsGone(1));
    states, steps := Act(states, steps, DeleteRecord(1));
    states, steps := Act(states, steps, AddRow(0));
    assert Row(CLIENTS, CLIENTS, "c") in states[|steps|].rows;
  }

  /** A POST that names an absent client leaves it named, lock or no lock. */
  lemma PostCanDangle() returns (states: seq<State>, steps: seq<Step>)
    ensures IsRun(Init, Locked, states, steps)
    ensures !NoDanglingName(states[|steps|])
  {
    var doc := GroupDoc([], ["ghost"], []);
    states, steps := [State({}, map[], {}, map[0 := Idle])], [];
    states, steps := ActLocked(states, steps, StartPost(0, "ops", doc));
    states, steps := ActLocked(states, steps, RowsGone(0));
    states, steps := ActLocked(states, steps, WriteDoc(0));
    var s := states[|steps|];
    assert "ops" in s.docs && "ghost" in s.docs["ops"].clients && s.clients == {};
  }

  lemma ActLocked(states: seq<State>, steps: seq<Step>, step: Step) returns (states': seq<State>, steps': seq<Step>)
    requires IsRun(Init, Locked, states, steps) && Enabled(true, states[|steps|], step)
    ensures IsRun(Init, Locked, states', steps') && states'[|steps'|] == Apply(states[|steps|], step)
  {
    states', steps' := Extend(Init, Locked, states, steps, step, Apply(states[|steps|], step));
  }

  lemma Act(states: seq<State>, steps: seq<Step>, step: Step) returns (states': seq<State>, steps': seq<Step>)
    requires IsRun(Init, Unlocked, states, steps) && Enabled(false, states[|steps|], step)
    ensures IsRun(Init, Unlocked, states', steps') && states'[|steps'|] == Apply(states[|steps|], step)
  {
    states', steps' := Extend(Init, Unlocked, states, steps, step, Apply(states[|steps|], step));
  }
}
