/** What the handlers that change groups leave behind, over every run under the membership lock: a PUT sets exactly the
    members it names, a POST creates exactly the group it describes, a registration adds one membership, and a deletion
    takes away its target and nothing else (internal/api/authz.go:95-286, internal/api/groupmembers.go:79-180,
    internal/api/actor.go:134-161 and 571-624). */
module MembershipChanges {
  import opened Prelude
  import opened MemberKeys
  import opened GroupIndex
  import opened Membership
  import opened Runs

  // Effective members: the document's and the rows'

  predicate HasUser(s: State, group: string, name: string) {
    (group in s.docs && name in s.docs[group].users) || Row(group, "users", name) in s.rows
  }

  predicate HasClient(s: State, group: string, name: string) {
    (group in s.docs && name in s.docs[group].clients) || Row(group, "clients", name) in s.rows
  }

  predicate HasGroup(s: State, group: string, name: string) {
    (group in s.docs && name in s.docs[group].groups) || Row(group, "groups", name) in s.rows
  }

  /** Nothing about a group differs. */
  predicate SameGroup(s: State, s': State, group: string) {
    && (group in s.docs <==> group in s'.docs)
    && (group in s.docs ==> s.docs[group] == s'.docs[group])
    && RowsOf(s.rows, group) == RowsOf(s'.rows, group)
  }

  /** These are the members an index built from the same documents and rows holds, and those groupMembership reads. */
  lemma MembersAreIndexed(s: State, group: string, name: string)
    requires forall r :: r in s.rows ==> Clean(r)
    ensures var keys := set r | r in s.rows :: MemberKey(r);
            && (HasUser(s, group, name) <==> HasActor(s.docs, keys, group, name, false))
            && (HasClient(s, group, name) <==> HasActor(s.docs, keys, group, name, true))
            && (HasGroup(s, group, name) <==> HasNested(s.docs, keys, group, name))
  {
    RowIsKey(s.rows, Row(group, "users", name));
    RowIsKey(s.rows, Row(group, "clients", name));
    RowIsKey(s.rows, Row(group, "groups", name));
  }

  lemma RowIsKey(rows: set<Row>, row: Row)
    requires forall r :: r in rows ==> Clean(r)
    ensures row in rows <==> HasRow(set r | r in rows :: MemberKey(r), row.group, row.kind, row.actor)
  {
    var keys := set r | r in rows :: MemberKey(r);
    if row in rows {
      MemberKeyRoundTrip(MemberKey(row), row);
      assert MemberKey(row) in keys;
    }
    if HasRow(keys, row.group, row.kind, row.actor) {
      var key :| key in keys && SplitMemberKey(key) == Some(Row(row.group, row.kind, row.actor));
      var r :| r in rows && MemberKey(r) == key;
      MemberKeyRoundTrip(key, r);
    }
  }

  lemma MembershipIsEffective(s: State, group: string, current: GroupDoc)
    requires IsMembershipOf(s, group, current)
    ensures forall n :: n in current.users <==> HasUser(s, group, n)
    ensures forall n :: n in current.clients <==> HasClient(s, group, n)
    ensures forall n :: n in current.groups <==> HasGroup(s, group, n)
  {
    KindsDiffer();
    forall n
      ensures n in current.users <==> HasUser(s, group, n)
      ensures n in current.clients <==> HasClient(s, group, n)
      ensures n in current.groups <==> HasGroup(s, group, n)
    {
      assert n in Listed(current, USERS) <==> HasUser(s, group, n);
      assert n in Listed(current, CLIENTS) <==> HasClient(s, group, n);
      assert n in Listed(current, GROUPS) <==> HasGroup(s, group, n);
    }
  }

  // What every run under the lock keeps, whatever POSTs name

  predicate LockInv(s: State) {
    Exclusion(s) && forall t :: t in s.threads ==> RevokeInv(s, s.threads[t])
  }

  /** What a registration and a deletion have established so far. */
  predicate RevokeInv(s: State, h: Handler) {
    match h
    case Registered(name) => name in s.clients
    case DropRows(target, todo) => forall r :: r in s.rows && RowNames(r, target) ==> r in todo
    case DropDocs(target, names) =>
      NoRowNames(s, target) && forall g :: g in s.docs && DocNames(s.docs[g], target) ==> g in names
    case ClearOwn(target, _) => NoRowNames(s, target) && NoDocNames(s, target)
    case DropRecord(target) => NoRowNames(s, target) && NoDocNames(s, target)
    case _ => true
  }

  lemma SharedKeepsLockInv(s: State, step: Step)
    requires LockInv(s) && Enabled(true, s, step) && !HoldsExclusive(s.threads[step.t])
    ensures LockInv(Apply(s, step))
  {
    var s' := Apply(s, step);
    forall u | u in s'.threads
      ensures RevokeInv(s', s'.threads[u])
    {
      assert u != step.t ==> RevokeInv(s, s.threads[u]) && s'.threads[u] == s.threads[u];
      assert u != step.t && HoldsExclusive(s.threads[u]) ==> s.threads[step.t].Idle? && step.Finish?;
    }
  }

  lemma ExclusiveKeepsLockInv(s: State, step: Step)
    requires LockInv(s) && Enabled(true, s, step) && HoldsExclusive(s.threads[step.t]) && !step.RewriteDoc?
    ensures LockInv(Apply(s, step))
  {
    var s' := Apply(s, step);
    assert RevokeInv(s, s.threads[step.t]);
    forall u | u in s'.threads
      ensures RevokeInv(s', s'.threads[u])
    {
      if u != step.t {
        OthersIdle(s, step.t, u);
      }
    }
  }

  lemma RewriteKeepsLockInv(s: State, t: nat, group: string)
    requires LockInv(s) && Enabled(true, s, RewriteDoc(t, group))
    ensures LockInv(Apply(s, RewriteDoc(t, group)))
  {
    var s' := Apply(s, RewriteDoc(t, group));
    assert RevokeInv(s, s.threads[t]);
    forall u | u in s'.threads
      ensures RevokeInv(s', s'.threads[u])
    {
      if u != t {
        OthersIdle(s, t, u);
      }
    }
  }

  lemma RunKeepsLockInv(states: seq<State>, steps: seq<Step>, n: nat)
    requires IsRun(Init, Locked, states, steps) && n < |states|
    ensures LockInv(states[n])
  {
    forall s, step, s' | LockInv(s) && Locked(s, step, s')
      ensures LockInv(s')
    {
      if !HoldsExclusive(s.threads[step.t]) {
        SharedKeepsLockInv(s, step);
      } else if step.RewriteDoc? {
        RewriteKeepsLockInv(s, step.t, step.group);
      } else {
        ExclusiveKeepsLockInv(s, step);
      }
    }
    Invariant(Init, Locked, LockInv, states, steps, n);
  }

  /** While a handler holds the lock exclusively the others do nothing. */
  lemma OthersWait(s: State, step: Step, t: nat)
    requires Exclusion(s) && t in s.threads && HoldsExclusive(s.threads[t]) && Enabled(true, s, step) && step.t != t
    ensures Apply(s, step).clients == s.clients && Apply(s, step).docs == s.docs && Apply(s, step).rows == s.rows
    ensures t in Apply(s, step).threads && Apply(s, step).threads[t] == s.threads[t]
  {
    assert s.threads[step.t].Idle?;
  }

  // Writing a group

  /** A group's rows are being cleared before `doc` is written for it, and nothing else has changed since `s0`. */
  ghost predicate Replacing(s0: State, s: State, t: nat, group: string, doc: GroupDoc, create: bool) {
    && t in s.threads && s.clients == s0.clients && s.docs == s0.docs
    && (forall g :: g != group ==> RowsOf(s.rows, g) == RowsOf(s0.rows, g))
    && match s.threads[t]
       case Clearing(g, d, c, todo) => g == group && d == doc && c == create && RowsOf(s.rows, group) <= todo
       case Writing(g, d, c) => g == group && d == doc && c == create && RowsOf(s.rows, group) == {}
       case _ => false
  }

  lemma RemoveRow(rows: set<Row>, row: Row, g: string)
    ensures RowsOf(rows - {row}, g) == RowsOf(rows, g) - {row}
    ensures g != row.group ==> RowsOf(rows - {row}, g) == RowsOf(rows, g)
  {
  }

  lemma ReplacingStep(s0: State, s: State, step: Step, t: nat, group: string, doc: GroupDoc, create: bool)
    requires LockInv(s) && Enabled(true, s, step) && Replacing(s0, s, t, group, doc, create)
    requires s.threads[t].Clearing? ==> forall r :: r in s.threads[t].todo ==> r.group == group
    requires t in Apply(s, step).threads && !Apply(s, step).threads[t].Idle?
    ensures Replacing(s0, Apply(s, step), t, group, doc, create)
    ensures Apply(s, step).threads[t].Clearing? ==> forall r :: r in Apply(s, step).threads[t].todo ==> r.group == group
  {
    var s' := Apply(s, step);
    if step.t != t {
      OthersWait(s, step, t);
    } else if step.DeleteRow? {
      forall g
        ensures RowsOf(s'.rows, g) == RowsOf(s.rows, g) - {step.row}
        ensures g != group ==> RowsOf(s'.rows, g) == RowsOf(s.rows, g)
      {
        RemoveRow(s.rows, step.row, g);
      }
    }
  }

  /** After the write the group has exactly the document's members, and the other groups are as they were. */
  ghost predicate Replaced(s0: State, s: State, group: string, doc: GroupDoc) {
    && s.clients == s0.clients && group in s.docs
    && (forall n :: HasUser(s, group, n) <==> n in doc.users)
    && (forall n :: HasClient(s, group, n) <==> n in doc.clients)
    && (forall n :: HasGroup(s, group, n) <==> n in doc.groups)
    && (forall g :: g != group ==> SameGroup(s0, s, g))
  }

  lemma ReplacingEnds(s0: State, s: State, t: nat, group: string, doc: GroupDoc, create: bool)
    requires Replacing(s0, s, t, group, doc, create) && Enabled(true, s, WriteDoc(t)) && !(create && group in s0.docs)
    ensures Replaced(s0, Apply(s, WriteDoc(t)), group, doc)
  {
    var s' := Apply(s, WriteDoc(t));
    assert s'.docs[group] == doc && s'.rows == s.rows;
    forall kind, n
      ensures Row(group, kind, n) !in s'.rows
    {
      assert Row(group, kind, n) in s.rows ==> Row(group, kind, n) in RowsOf(s.rows, group);
    }
  }

  // PUT

  /** The members a PUT is to leave: of each kind it names the given names, of the others the ones there were; and only
      those that exist. */
  ghost predicate Wanted(s0: State, group: string, update: Update, users: set<string>, doc: GroupDoc) {
    && (forall n :: n in doc.users <==>
          n in users && if update.users.Some? then n in update.users.value else HasUser(s0, group, n))
    && (forall n :: n in doc.clients <==>
          n in s0.clients && if update.clients.Some? then n in update.clients.value else HasClient(s0, group, n))
    && (forall n :: n in doc.groups <==>
          n in s0.docs && if update.groups.Some? then n in update.groups.value else HasGroup(s0, group, n))
  }

  /** The PUT has not read the members yet. */
  predicate PutBegun(s0: State, s: State, t: nat, group: string, update: Update) {
    t in s.threads && s.threads[t] == Putting(group, update) && s.clients == s0.clients && s.docs == s0.docs && s.rows == s0.rows
  }

  /** It has, with the given users existing then. */
  ghost predicate PutRead(s0: State, s: State, t: nat, group: string, update: Update, users: set<string>) {
    && t in s.threads && (s.threads[t].Clearing? || s.threads[t].Writing?)
    && Wanted(s0, group, update, users, s.threads[t].doc) && Replacing(s0, s, t, group, s.threads[t].doc, false)
    && (s.threads[t].Clearing? ==> forall r :: r in s.threads[t].todo ==> r.group == group)
  }

  lemma ReadIsWanted(s: State, group: string, update: Update, current: GroupDoc, users: set<string>)
    requires IsMembershipOf(s, group, current)
    ensures Wanted(s, group, update, users, Updated(s, update, current, users))
  {
    MembershipIsEffective(s, group, current);
  }

  lemma PutBegins(s0: State, s: State, step: Step, t: nat, group: string, update: Update)
    requires LockInv(s) && Enabled(true, s, step) && PutBegun(s0, s, t, group, update)
    requires t in Apply(s, step).threads && !Apply(s, step).threads[t].Idle?
    ensures PutBegun(s0, Apply(s, step), t, group, update) ||
            (step.ReadMembers? && step.t == t && PutRead(s0, Apply(s, step), t, group, update, step.users))
  {
    if step.t != t {
      OthersWait(s, step, t);
    } else {
      assert step.ReadMembers?;
      ReadIsWanted(s, group, update, step.current, step.users);
      SameMembers(s, s0, group);
    }
  }

  lemma PutGoesOn(s0: State, s: State, step: Step, t: nat, group: string, update: Update, users: set<string>)
    requires LockInv(s) && Enabled(true, s, step) && PutRead(s0, s, t, group, update, users)
    requires t in Apply(s, step).threads && !Apply(s, step).threads[t].Idle?
    ensures PutRead(s0, Apply(s, step), t, group, update, users)
  {
    ReplacingStep(s0, s, step, t, group, s.threads[t].doc, false);
  }

  lemma SameMembers(s: State, s': State, group: string)
    requires s.docs == s'.docs && s.rows == s'.rows
    ensures forall n :: HasUser(s, group, n) <==> HasUser(s', group, n)
    ensures forall n :: HasClient(s, group, n) <==> HasClient(s', group, n)
    ensures forall n :: HasGroup(s, group, n) <==> HasGroup(s', group, n)
  {
  }

  /** Thread `t` is inside one handler from state `i` to state `j`. */
  predicate Busy(states: seq<State>, t: nat, i: nat, j: nat)
    requires j < |states|
  {
    forall k {:trigger states[k]} :: i <= k <= j ==> t in states[k].threads && !states[k].threads[t].Idle?
  }

  /** `r` is the step at which the PUT read the members, once it has. */
  lemma {:induction false} PutRun(states: seq<State>, steps: seq<Step>, i: nat, k: nat, t: nat, group: string, update: Update)
    returns (r: nat)
    requires IsRun(Init, Locked, states, steps) && i < k < |states| && steps[i] == StartPut(t, group, update)
    requires Busy(states, t, i + 1, k)
    ensures PutBegun(states[i], states[k], t, group, update) ||
            (i < r < k && steps[r].ReadMembers? && steps[r].t == t
             && PutRead(states[i], states[k], t, group, update, steps[r].users))
    decreases k
  {
    if k == i + 1 {
      assert Locked(states[i], steps[i], states[k]);
      r := 0;
    } else {
      r := PutRun(states, steps, i, k - 1, t, group, update);
      RunKeepsLockInv(states, steps, k - 1);
      assert Locked(states[k - 1], steps[k - 1], states[k]);
      if PutBegun(states[i], states[k - 1], t, group, update) {
        PutBegins(states[i], states[k - 1], steps[k - 1], t, group, update);
        r := k - 1;
      } else {
        PutGoesOn(states[i], states[k - 1], steps[k - 1], t, group, update, steps[r].users);
      }
    }
  }

  /** What a PUT does, over every run: from where it takes the lock to where it writes, the group comes to have exactly the
      members wanted, the users being those that exist when it reads, and no other group changes. */
  lemma PutSetsMembers(states: seq<State>, steps: seq<Step>, i: nat, j: nat, t: nat, group: string, update: Update)
    returns (r: nat)
    requires IsRun(Init, Locked, states, steps) && i < j < |steps|
    requires steps[i] == StartPut(t, group, update) && steps[j] == WriteDoc(t) && Busy(states, t, i + 1, j)
    ensures i < r < j && steps[r].ReadMembers? && steps[r].t == t
    ensures var s, s' := states[i], states[j + 1];
            && (forall n :: HasUser(s', group, n) <==>
                  n in steps[r].users && if update.users.Some? then n in update.users.value else HasUser(s, group, n))
            && (forall n :: HasClient(s', group, n) <==>
                  n in s.clients && if update.clients.Some? then n in update.clients.value else HasClient(s, group, n))
            && (forall n :: HasGroup(s', group, n) <==>
                  n in s.docs && if update.groups.Some? then n in update.groups.value else HasGroup(s, group, n))
            && s'.clients == s.clients && forall g :: g != group ==> SameGroup(s, s', g)
  {
    r := PutRun(states, steps, i, j, t, group, update);
    assert Locked(states[j], steps[j], states[j + 1]);
    ReplacingEnds(states[i], states[j], t, group, states[j].threads[t].doc, false);
  }

  // POST

  lemma {:induction false} PostRun(states: seq<State>, steps: seq<Step>, i: nat, k: nat, t: nat, group: string, doc: GroupDoc)
    requires IsRun(Init, Locked, states, steps) && i < k < |states| && steps[i] == StartPost(t, group, doc)
    requires Busy(states, t, i + 1, k)
    ensures Replacing(states[i], states[k], t, group, doc, true)
    ensures states[k].threads[t].Clearing? ==> forall r :: r in states[k].threads[t].todo ==> r.group == group
    decreases k
  {
    if k == i + 1 {
      assert Locked(states[i], steps[i], states[k]);
    } else {
      PostRun(states, steps, i, k - 1, t, group, doc);
      RunKeepsLockInv(states, steps, k - 1);
      assert Locked(states[k - 1], steps[k - 1], states[k]);
      ReplacingStep(states[i], states[k - 1], steps[k - 1], t, group, doc, true);
    }
  }

  /** What a POST does: a group that was not there comes to have exactly the members given, whatever rows its name had. */
  lemma PostCreatesGroup(states: seq<State>, steps: seq<Step>, i: nat, j: nat, t: nat, group: string, doc: GroupDoc)
    requires IsRun(Init, Locked, states, steps) && i < j < |steps| && group !in states[i].docs
    requires steps[i] == StartPost(t, group, doc) && steps[j] == WriteDoc(t) && Busy(states, t, i + 1, j)
    ensures Replaced(states[i], states[j + 1], group, doc)
  {
    PostRun(states, steps, i, j, t, group, doc);
    assert Locked(states[j], steps[j], states[j + 1]);
    ReplacingEnds(states[i], states[j], t, group, doc, true);
  }

  /** So it leaves every name existing if and only if each name it gives exists, its own included. */
  lemma PostDanglesExactly(states: seq<State>, steps: seq<Step>, i: nat, j: nat, t: nat, group: string, doc: GroupDoc)
    requires IsRun(Init, Locked, states, steps) && i < j < |steps| && group !in states[i].docs
    requires steps[i] == StartPost(t, group, doc) && steps[j] == WriteDoc(t) && Busy(states, t, i + 1, j)
    requires NoDanglingName(states[i])
    ensures NoDanglingName(states[j + 1]) <==> WillExist(states[i], group, doc)
  {
    PostRun(states, steps, i, j, t, group, doc);
    assert Locked(states[j], steps[j], states[j + 1]);
    WrittenDangles(states[i], states[j], t, group, doc);
  }

  lemma WrittenDangles(s0: State, s: State, t: nat, group: string, doc: GroupDoc)
    requires Replacing(s0, s, t, group, doc, true) && Enabled(true, s, WriteDoc(t)) && group !in s0.docs
    requires NoDanglingName(s0)
    ensures NoDanglingName(Apply(s, WriteDoc(t))) <==> WillExist(s0, group, doc)
  {
    var s' := Apply(s, WriteDoc(t));
    assert s'.docs == s0.docs[group := doc] && s'.clients == s0.clients && s'.rows == s.rows;
    forall r | r in s'.rows
      ensures r in s0.rows
    {
      assert r in RowsOf(s.rows, r.group);
      assert r.group != group ==> r in RowsOf(s0.rows, r.group);
    }
    if WillExist(s0, group, doc) {
      forall g | g in s'.docs
        ensures NamesOnlyExisting(s', s'.docs[g])
      {
        assert g != group ==> NamesOnlyExisting(s0, s0.docs[g]);
      }
    }
    if NoDanglingName(s') {
      assert NamesOnlyExisting(s', s'.docs[group]);
    }
  }

  // Registration

  lemma {:induction false} RegisterRun(states: seq<State>, steps: seq<Step>, i: nat, k: nat, t: nat, name: string)
    requires IsRun(Init, Locked, states, steps) && i < k < |states| && steps[i] == StartRegister(t, name)
    requires Busy(states, t, i + 1, k)
    ensures states[k].threads[t] == Registering(name) || states[k].threads[t] == Registered(name)
    decreases k
  {
    assert Locked(states[k - 1], steps[k - 1], states[k]);
    if k > i + 1 {
      RegisterRun(states, steps, i, k - 1, t, name);
    }
  }

  /** What a registration does: its row adds the client to the group "clients" and changes nothing else. */
  lemma RegisterJoinsClients(states: seq<State>, steps: seq<Step>, i: nat, j: nat, t: nat, name: string)
    requires IsRun(Init, Locked, states, steps) && i < j < |steps|
    requires steps[i] == StartRegister(t, name) && steps[j] == AddRow(t) && Busy(states, t, i + 1, j)
    ensures var s, s' := states[j], states[j + 1];
            && name in s'.clients && s'.clients == s.clients && s'.docs == s.docs
            && (forall g, n :: HasClient(s', g, n) <==> HasClient(s, g, n) || (g == "clients" && n == name))
            && (forall g, n :: HasUser(s', g, n) <==> HasUser(s, g, n))
            && (forall g, n :: HasGroup(s', g, n) <==> HasGroup(s, g, n))
  {
    RegisterRun(states, steps, i, j, t, name);
    RunKeepsLockInv(states, steps, j);
    assert Locked(states[j], steps[j], states[j + 1]);
    assert RevokeInv(states[j], states[j].threads[t]);
    OneMoreRow(states[j], states[j + 1], name);
  }

  lemma OneMoreRow(s: State, s': State, name: string)
    requires s'.docs == s.docs && s'.rows == s.rows + {Row(CLIENTS, CLIENTS, name)}
    ensures forall g, n :: HasClient(s', g, n) <==> HasClient(s, g, n) || (g == "clients" && n == name)
    ensures forall g, n :: HasUser(s', g, n) <==> HasUser(s, g, n)
    ensures forall g, n :: HasGroup(s', g, n) <==> HasGroup(s, g, n)
  {
    KindsDiffer();
  }

  // Deletion

  /** A document that may have lost the target and nothing else. */
  ghost predicate Trimmed(doc: GroupDoc, doc': GroupDoc, target: Target) {
    && doc'.users == doc.users
    && (forall n :: n in doc'.clients ==> n in doc.clients)
    && (forall n :: n in doc.clients && n !in doc'.clients ==> target == Client(n))
    && (forall n :: n in doc'.groups ==> n in doc.groups)
    && (forall n :: n in doc.groups && n !in doc'.groups ==> target == Group(n))
  }

  /** A row that goes with the target: it names it, or belongs to it. */
  predicate GoesWith(r: Row, target: Target) {
    RowNames(r, target) || (target.Group? && r.group == target.name)
  }

  /** Since `s0` nothing has gone but the target's names and rows. */
  ghost predicate OnlyTargetGone(s0: State, s: State, target: Target) {
    && s.clients == s0.clients && s.docs.Keys == s0.docs.Keys
    && (forall g :: g in s.docs ==> Trimmed(s0.docs[g], s.docs[g], target))
    && s.rows <= s0.rows && (forall r :: r in s0.rows && r !in s.rows ==> GoesWith(r, target))
  }

  ghost predicate DeleteUnderWay(s0: State, s: State, t: nat, target: Target) {
    && t in s.threads && OnlyTargetGone(s0, s, target)
    && match s.threads[t]
       case Deleting(tg) => tg == target
       case DropRows(tg, todo) => tg == target && forall r :: r in todo ==> RowNames(r, target)
       case DropDocs(tg, _) => tg == target
       case ClearOwn(tg, todo) =>
         && tg == target && target.Group? && RowsOf(s.rows, target.name) <= todo
         && forall r :: r in todo ==> r.group == target.name
       case DropRecord(tg) => tg == target && (target.Group? ==> RowsOf(s.rows, target.name) == {})
       case _ => false
  }

  lemma TrimmedAgain(doc: GroupDoc, doc': GroupDoc, target: Target)
    requires Trimmed(doc, doc', target)
    ensures Trimmed(doc, WithoutTarget(doc', target), target)
  {
  }

  lemma DeleteStep(s0: State, s: State, step: Step, t: nat, target: Target)
    requires LockInv(s) && Enabled(true, s, step) && DeleteUnderWay(s0, s, t, target)
    requires t in Apply(s, step).threads && !Apply(s, step).threads[t].Idle?
    ensures DeleteUnderWay(s0, Apply(s, step), t, target)
  {
    if step.t != t {
      OthersWait(s, step, t);
    } else if step.RewriteDoc? {
      DeleteRewrites(s0, s, t, target, step.group);
    } else if step.DeleteRow? {
      RemoveRow(s.rows, step.row, target.name);
    }
  }

  lemma DeleteRewrites(s0: State, s: State, t: nat, target: Target, group: string)
    requires DeleteUnderWay(s0, s, t, target) && Enabled(true, s, RewriteDoc(t, group))
    ensures DeleteUnderWay(s0, Apply(s, RewriteDoc(t, group)), t, target)
  {
    var s' := Apply(s, RewriteDoc(t, group));
    assert s'.docs.Keys == s.docs.Keys;
    forall g | g in s'.docs
      ensures Trimmed(s0.docs[g], s'.docs[g], target)
    {
      TrimmedAgain(s0.docs[g], s.docs[g], target);
    }
  }

  lemma {:induction false} DeleteRun(states: seq<State>, steps: seq<Step>, i: nat, k: nat, t: nat, target: Target)
    requires IsRun(Init, Locked, states, steps) && i < k < |states| && steps[i] == StartDelete(t, target)
    requires Busy(states, t, i + 1, k)
    ensures DeleteUnderWay(states[i], states[k], t, target)
    decreases k
  {
    if k == i + 1 {
      assert Locked(states[i], steps[i], states[k]);
    } else {
      DeleteRun(states, steps, i, k - 1, t, target);
      RunKeepsLockInv(states, steps, k - 1);
      assert Locked(states[k - 1], steps[k - 1], states[k]);
      DeleteStep(states[i], states[k - 1], steps[k - 1], t, target);
    }
  }

  /** The target is gone, from where it was and from every group, and with it a group's own members; everything else is
      as it was. */
  ghost predicate Deleted(s: State, s': State, target: Target) {
    && s'.clients == (if target.Client? then s.clients - {target.name} else s.clients)
    && s'.docs.Keys == (if target.Group? then s.docs.Keys - {target.name} else s.docs.Keys)
    && (forall g, n :: HasUser(s', g, n) <==> HasUser(s, g, n) && target != Group(g))
    && (forall g, n :: HasClient(s', g, n) <==> HasClient(s, g, n) && target != Group(g) && target != Client(n))
    && (forall g, n :: HasGroup(s', g, n) <==> HasGroup(s, g, n) && target != Group(g) && target != Group(n))
  }

  lemma DeleteEnds(s0: State, s: State, t: nat, target: Target)
    requires LockInv(s) && DeleteUnderWay(s0, s, t, target) && Enabled(true, s, DeleteRecord(t))
    ensures Deleted(s0, Apply(s, DeleteRecord(t)), target)
  {
    var s' := Apply(s, DeleteRecord(t));
    assert RevokeInv(s, s.threads[t]);
    KindsDiffer();
    forall g, n
      ensures HasUser(s', g, n) <==> HasUser(s0, g, n) && target != Group(g)
      ensures HasClient(s', g, n) <==> HasClient(s0, g, n) && target != Group(g) && target != Client(n)
      ensures HasGroup(s', g, n) <==> HasGroup(s0, g, n) && target != Group(g) && target != Group(n)
    {
      RowAfter(s0, s, target, Row(g, USERS, n));
      RowAfter(s0, s, target, Row(g, CLIENTS, n));
      RowAfter(s0, s, target, Row(g, GROUPS, n));
      if g in s.docs {
        DocAfter(s0, s, target, g, n);
      }
    }
  }

  lemma RowAfter(s0: State, s: State, target: Target, r: Row)
    requires OnlyTargetGone(s0, s, target) && NoRowNames(s, target)
    requires target.Group? ==> RowsOf(s.rows, target.name) == {}
    ensures r in s.rows <==> r in s0.rows && !GoesWith(r, target)
  {
    assert r in s.rows && r.group == target.name ==> r in RowsOf(s.rows, target.name);
  }

  lemma DocAfter(s0: State, s: State, target: Target, g: string, n: string)
    requires OnlyTargetGone(s0, s, target) && NoDocNames(s, target) && g in s.docs
    ensures n in s.docs[g].clients <==> n in s0.docs[g].clients && target != Client(n)
    ensures n in s.docs[g].groups <==> n in s0.docs[g].groups && target != Group(n)
  {
    KindsDiffer();
    assert !DocNames(s.docs[g], target);
    assert Trimmed(s0.docs[g], s.docs[g], target);
  }

  /** What a deletion does, over every run: from where it takes the lock to where the record goes, every group keeps
      exactly its members other than the target. */
  lemma DeleteTakesTarget(states: seq<State>, steps: seq<Step>, i: nat, j: nat, t: nat, target: Target)
    requires IsRun(Init, Locked, states, steps) && i < j < |steps|
    requires steps[i] == StartDelete(t, target) && steps[j] == DeleteRecord(t) && Busy(states, t, i + 1, j)
    ensures Deleted(states[i], states[j + 1], target)
  {
    DeleteRun(states, steps, i, j, t, target);
    RunKeepsLockInv(states, steps, j);
    assert Locked(states[j], steps[j], states[j + 1]);
    DeleteEnds(states[i], states[j], t, target);
  }
}
