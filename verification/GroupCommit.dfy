/** Group commit in the SQLite backend (internal/store/sqlite/sqlite.go:174-301): queued writes are batched into one
    transaction, and a batch that cannot be committed as a unit is retried job by job. */
module GroupCommit {
  import opened Prelude
  import WriteStream

  type Key = WriteStream.ObjKey
  datatype BlobKey = BlobKey(org: string, checksum: string)

  /** The three tables. */
  datatype Tables = Tables(objects: map<Key, string>, blobs: map<BlobKey, string>, orgs: set<string>)

  datatype Op =
    | Put(key: Key, body: string)
    | Create(key: Key, body: string)
    | Delete(key: Key)
    | PutBlob(blob: BlobKey, content: string)
    | DeleteBlob(blob: BlobKey)
    | CreateOrg(name: string)
    | DeleteOrg(name: string)

  /** What a write call returns: no error, ErrConflict, or a real error. */
  datatype Answer = Nil | Conflict | Failed(reason: string)

  /** What a write leaves in the variables its closure captured: the deleted body, or whether the org existed. */
  datatype Captured = Nothing | Old(body: Option<string>) | Existed(existed: bool)

  datatype Effect = Effect(tables: Tables, answer: Answer, captured: Captured)

  /** The meaning of one write, run on its own against the tables. */
  function Run(op: Op, s: Tables): (e: Effect)
    ensures !e.answer.Failed?
    ensures e.answer.Conflict? ==> e.tables == s
  {
    match op
    case Put(k, body) => Effect(s.(objects := s.objects[k := body]), Nil, Nothing)
    case Create(k, body) =>
      if k in s.objects then Effect(s, Conflict, Nothing) else Effect(s.(objects := s.objects[k := body]), Nil, Nothing)
    case Delete(k) =>
      if k !in s.objects then Effect(s, Nil, Old(None))
      else Effect(s.(objects := s.objects - {k}), Nil, Old(Some(s.objects[k])))
    case PutBlob(b, content) => Effect(s.(blobs := s.blobs[b := content]), Nil, Nothing)
    case DeleteBlob(b) => Effect(s.(blobs := s.blobs - {b}), Nil, Nothing)
    case CreateOrg(name) =>
      if name in s.orgs then Effect(s, Conflict, Nothing) else Effect(s.(orgs := s.orgs + {name}), Nil, Nothing)
    case DeleteOrg(name) =>
      if name !in s.orgs then Effect(s, Nil, Existed(false))
      else
        Effect(Tables(map k | k in s.objects && k.org != name :: s.objects[k],
                      map b | b in s.blobs && b.org != name :: s.blobs[b],
                      s.orgs - {name}), Nil, Existed(true))
  }

  /** One write and how it was answered. */
  datatype Record = Record(op: Op, answer: Answer, captured: Captured)

  /** One-at-a-time execution: the tables after running, in order, exactly the writes that were not answered with a
      real error. */
  function After(s: Tables, log: seq<Record>): Tables {
    if log == [] then s
    else
      var n := |log| - 1;
      var before := After(s, log[..n]);
      if log[n].answer.Failed? then before else Run(log[n].op, before).tables
  }

  /** Each answer without a real error is what the write returns at its place in that order. */
  ghost predicate Truthful(s: Tables, log: seq<Record>) {
    log != [] ==>
      var n := |log| - 1;
      Truthful(s, log[..n]) && RecordHolds(After(s, log[..n]), log[n])
  }

  predicate RecordHolds(before: Tables, r: Record) {
    r.answer.Failed? || (Run(r.op, before).answer == r.answer && Run(r.op, before).captured == r.captured)
  }

  /** The tables that one-at-a-time execution of a truthful log leaves. */
  ghost predicate Refines(s: Tables, log: seq<Record>, t: Tables) {
    t == After(s, log) && Truthful(s, log)
  }

  lemma {:induction false} AfterConcat(s: Tables, a: seq<Record>, b: seq<Record>)
    ensures After(s, a + b) == After(After(s, a), b)
  {
    if b == [] {
      assert a + b == a;
    } else {
      var n := |b| - 1;
      assert (a + b)[..|a + b| - 1] == a + b[..n];
      AfterConcat(s, a, b[..n]);
    }
  }

  /** Two executions one after the other are one execution. */
  lemma {:induction false} TruthfulConcat(s: Tables, a: seq<Record>, b: seq<Record>)
    requires Truthful(s, a) && Truthful(After(s, a), b)
    ensures Truthful(s, a + b)
  {
    if b == [] {
      assert a + b == a;
    } else {
      var n := |b| - 1;
      assert (a + b)[..|a + b| - 1] == a + b[..n] && (a + b)[|a + b| - 1] == b[n];
      TruthfulConcat(s, a, b[..n]);
      AfterConcat(s, a, b[..n]);
    }
  }

  lemma RefinesConcat(s: Tables, a: seq<Record>, t: Tables, b: seq<Record>, u: Tables)
    requires Refines(s, a, t) && Refines(t, b, u)
    ensures Refines(s, a + b, u)
  {
    TruthfulConcat(s, a, b);
    AfterConcat(s, a, b);
  }

  lemma RefinesSnoc(s: Tables, log: seq<Record>, t: Tables, r: Record)
    requires Refines(s, log, t) && RecordHolds(t, r)
    ensures Refines(s, log + [r], if r.answer.Failed? then t else Run(r.op, t).tables)
  {
    assert (log + [r])[..|log|] == log;
  }

  /** A queued write: the operation, what its closure captured last, and the answers sent to its submitter. */
  class Job {
    const op: Op
    var captured: Captured
    var done: seq<Answer>

    constructor (op: Op)
      ensures this.op == op && done == []
    {
      this.op, captured, done := op, Nothing, [];
    }
  }

  /** The database: what is committed, the open transaction's view, and (for the proof) the jobs some fault of their
      own has hit. Every call may fail, in any pattern; a failed statement leaves the transaction in any state. */
  class Db {
    var committed: Tables
    var tx: Option<Tables>
    ghost var blamed: set<Job>

    constructor (committed: Tables)
      ensures this.committed == committed && tx.None?
    {
      this.committed, tx := committed, None;
      blamed := {};
    }

    method Begin(ghost forJobs: set<Job>) returns (err: Option<string>)
      modifies this`tx, this`blamed
      ensures err.None? ==> tx == Some(committed) && blamed == old(blamed)
      ensures err.Some? ==> tx.None? && blamed == old(blamed) + forJobs
    {
      err := *;
      if err.None? {
        tx := Some(committed);
      } else {
        tx := None;
        blamed := blamed + forJobs;
      }
    }

    /** A job's apply, run on the open transaction. */
    method Apply(j: Job) returns (a: Answer)
      requires tx.Some?
      modifies this`tx, this`blamed, j`captured
      ensures tx.Some?
      ensures !a.Failed? ==> Effect(tx.value, a, j.captured) == Run(j.op, old(tx.value)) && blamed == old(blamed)
      ensures a.Failed? ==> blamed == old(blamed) + {j}
    {
      var fault: Option<string> := *;
      if fault.Some? {
        var garbage: Tables := *;
        tx := Some(garbage);
        j.captured := *;
        blamed := blamed + {j};
        return Failed(fault.value);
      }
      var e := Run(j.op, tx.value);
      tx := Some(e.tables);
      j.captured := e.captured;
      return e.answer;
    }

    method Rollback()
      modifies this`tx
      ensures tx.None?
    {
      tx := None;
    }

    /** A failed commit leaves what is committed unchanged. */
    method Commit(ghost forJobs: set<Job>) returns (err: Option<string>)
      requires tx.Some?
      modifies this`tx, this`committed, this`blamed
      ensures tx.None?
      ensures err.None? ==> committed == old(tx.value) && blamed == old(blamed)
      ensures err.Some? ==> committed == old(committed) && blamed == old(blamed) + forJobs
    {
      err := *;
      if err.None? {
        committed := tx.value;
      } else {
        blamed := blamed + forJobs;
      }
      tx := None;
    }
  }

  /** The queue is a sequence of distinct jobs, none answered yet. */
  ghost predicate Pending(batch: seq<Job>)
    reads batch
  {
    (forall i, j :: 0 <= i < j < |batch| ==> batch[i] != batch[j]) && forall j :: j in batch ==> j.done == []
  }

  /** Every job has been answered exactly once, as the log records. */
  ghost predicate Answered(batch: seq<Job>, log: seq<Record>)
    reads batch
  {
    && |log| == |batch|
    && forall i :: 0 <= i < |batch| ==>
         batch[i].op == log[i].op && batch[i].done == [log[i].answer] && batch[i].captured == log[i].captured
  }

  /** No job is answered with a real error unless a fault of its own hit it. */
  ghost predicate BlameIsFair(db: Db, batch: seq<Job>, log: seq<Record>)
    requires |log| == |batch|
    reads db
  {
    forall i :: 0 <= i < |batch| && log[i].answer.Failed? ==> batch[i] in db.blamed
  }

  /** runIsolated's loop body: one job in a transaction of its own. */
  method RunAlone(db: Db, j: Job) returns (r: Record)
    requires j.done == []
    modifies db, j
    ensures db.tx.None? && j.op == r.op && j.done == [r.answer] && j.captured == r.captured
    ensures r.answer.Failed? ==> db.committed == old(db.committed) && j in db.blamed
    ensures !r.answer.Failed? ==> Effect(db.committed, r.answer, r.captured) == Run(j.op, old(db.committed))
    ensures old(db.blamed) <= db.blamed
  {
    var err := db.Begin({j});
    var answer: Answer;
    if err.Some? {
      answer := Failed(err.value);
    } else {
      answer := db.Apply(j);
      if answer.Failed? {
        db.Rollback();
      } else {
        var cerr := db.Commit({j});
        if cerr.Some? {
          answer := Failed(cerr.value);
        }
      }
    }
    j.done := j.done + [answer];
    r := Record(j.op, answer, j.captured);
  }

  lemma AnsweredSnoc(db: Db, batch: seq<Job>, k: nat, log: seq<Record>, r: Record)
    requires k < |batch| && Answered(batch[..k], log) && BlameIsFair(db, batch[..k], log)
    requires batch[k].op == r.op && batch[k].done == [r.answer] && batch[k].captured == r.captured
    requires r.answer.Failed? ==> batch[k] in db.blamed
    ensures Answered(batch[..k + 1], log + [r]) && BlameIsFair(db, batch[..k + 1], log + [r])
  {
    assert batch[..k + 1] == batch[..k] + [batch[k]];
  }

  /** runIsolated: each job in turn, from the last committed state. */
  method RunIsolated(db: Db, batch: seq<Job>) returns (ghost log: seq<Record>)
    requires Pending(batch) && db.tx.None?
    modifies db, batch
    ensures db.tx.None? && Answered(batch, log) && BlameIsFair(db, batch, log) && old(db.blamed) <= db.blamed
    ensures Refines(old(db.committed), log, db.committed)
  {
    log := [];
    for k := 0 to |batch|
      invariant db.tx.None? && Answered(batch[..k], log) && BlameIsFair(db, batch[..k], log)
      invariant old(db.blamed) <= db.blamed
      invariant forall i :: k <= i < |batch| ==> batch[i].done == []
      invariant Refines(old(db.committed), log, db.committed)
    {
      ghost var before := db.committed;
      assert forall i :: 0 <= i < |batch| && i != k ==> batch[i] != batch[k];
      var r := RunAlone(db, batch[k]);
      AnsweredSnoc(db, batch, k, log, r);
      RefinesSnoc(old(db.committed), log, before, r);
      log := log + [r];
    }
    assert batch[..|batch|] == batch;
  }

  /** runBatch's first loop: apply the jobs in one open transaction, stopping at the first real error. */
  method ApplyAll(db: Db, batch: seq<Job>) returns (results: seq<Answer>, ghost log: seq<Record>)
    requires Pending(batch) && db.tx == Some(db.committed)
    modifies db`tx, db`blamed, batch
    ensures db.tx.Some? && Pending(batch) && |results| == |log| <= |batch| && old(db.blamed) <= db.blamed
    ensures |results| == |batch| ==>
              && Refines(db.committed, log, db.tx.value)
              && (forall i :: 0 <= i < |log| ==> !log[i].answer.Failed?)
              && (forall i :: 0 <= i < |batch| ==> Record(batch[i].op, results[i], batch[i].captured) == log[i])
  {
    results, log := [], [];
    for k := 0 to |batch|
      invariant |results| == |log| == k && old(db.blamed) <= db.blamed
      invariant Pending(batch)
      invariant db.tx.Some? && Refines(db.committed, log, db.tx.value)
      invariant forall i :: 0 <= i < k ==> !log[i].answer.Failed?
      invariant forall i :: 0 <= i < k ==> Record(batch[i].op, results[i], batch[i].captured) == log[i]
    {
      ghost var before := db.tx.value;
      var a := db.Apply(batch[k]);
      if a.Failed? {
        return;
      }
      RefinesSnoc(db.committed, log, before, Record(batch[k].op, a, batch[k].captured));
      results, log := results + [a], log + [Record(batch[k].op, a, batch[k].captured)];
    }
  }

  /** Send each job its answer. */
  method Reply(batch: seq<Job>, results: seq<Answer>)
    requires Pending(batch) && |results| == |batch|
    modifies batch
    ensures forall i :: 0 <= i < |batch| ==>
              batch[i].done == [results[i]] && batch[i].captured == old(batch[i].captured)
  {
    for k := 0 to |batch|
      invariant forall i :: 0 <= i < |batch| ==> batch[i].captured == old(batch[i].captured)
      invariant forall i :: 0 <= i < k ==> batch[i].done == [results[i]]
      invariant forall i :: k <= i < |batch| ==> batch[i].done == []
    {
      batch[k].done := batch[k].done + [results[k]];
    }
  }

  /** runBatch: whatever fails and whenever, each job is answered exactly once, the committed tables are those of
      running one at a time, in order, exactly the jobs answered without a real error, each such answer (with what
      was captured) is what the job returns at its place in that order, and a job fails only for a fault of its own. */
  method RunBatch(db: Db, batch: seq<Job>) returns (ghost log: seq<Record>)
    requires Pending(batch) && db.tx.None?
    modifies db, batch
    ensures db.tx.None? && Answered(batch, log) && BlameIsFair(db, batch, log) && old(db.blamed) <= db.blamed
    ensures Refines(old(db.committed), log, db.committed)
  {
    var err := db.Begin(set j | j in batch);
    if err.Some? {
      log := FailAll(db, batch, err.value);
      return;
    }
    var results;
    results, log := ApplyAll(db, batch);
    if |results| < |batch| {
      db.Rollback();
      log := RunIsolated(db, batch);
      return;
    }
    var cerr := db.Commit({});
    if cerr.Some? {
      log := RunIsolated(db, batch);
      return;
    }
    Reply(batch, results);
  }

  /** fail: the batch could not even begin. */
  method FailAll(db: Db, batch: seq<Job>, reason: string) returns (ghost log: seq<Record>)
    requires Pending(batch) && forall j :: j in batch ==> j in db.blamed
    modifies batch
    ensures Answered(batch, log) && BlameIsFair(db, batch, log)
    ensures Refines(db.committed, log, db.committed)
  {
    var results := seq(|batch|, i => Failed(reason));
    Reply(batch, results);
    log := seq(|batch|, i requires 0 <= i < |batch| reads batch => Record(batch[i].op, Failed(reason), batch[i].captured));
    AllFailedChangesNothing(db.committed, log);
  }

  lemma {:induction false} AllFailedChangesNothing(s: Tables, log: seq<Record>)
    requires forall i :: 0 <= i < |log| ==> log[i].answer.Failed?
    ensures Refines(s, log, s)
  {
    if log != [] {
      AllFailedChangesNothing(s, log[..|log| - 1]);
    }
  }

  ghost predicate Distinct(queue: seq<Job>) {
    forall i, j :: 0 <= i < j < |queue| ==> queue[i] != queue[j]
  }

  /** One round of the loop: the jobs before `k` have been answered, the next `n - k` are taken as a batch. */
  method OneBatch(db: Db, queue: seq<Job>, k: nat, n: nat, ghost log: seq<Record>) returns (ghost more: seq<Record>)
    requires k < n <= |queue| && Distinct(queue) && db.tx.None?
    requires Answered(queue[..k], log) && BlameIsFair(db, queue[..k], log)
    requires forall i :: k <= i < |queue| ==> queue[i].done == []
    modifies db, queue
    ensures db.tx.None? && Answered(queue[..n], log + more) && BlameIsFair(db, queue[..n], log + more)
    ensures forall i :: n <= i < |queue| ==> queue[i].done == []
    ensures Refines(old(db.committed), more, db.committed)
  {
    var batch := queue[k..n];
    assert forall i :: 0 <= i < |queue| && (i < k || n <= i) ==> queue[i] !in batch;
    more := RunBatch(db, batch);
    Joined(db, queue, k, n, log, more);
  }

  /** loop: the writer goroutine, which takes whatever is queued as the next batch. However the queue is cut into
      batches, the whole run refines one-at-a-time execution in queue order. */
  method Loop(db: Db, queue: seq<Job>) returns (ghost log: seq<Record>)
    requires Pending(queue) && db.tx.None?
    modifies db, queue
    ensures db.tx.None? && Answered(queue, log) && BlameIsFair(db, queue, log)
    ensures Refines(old(db.committed), log, db.committed)
  {
    log := [];
    ghost var start := db.committed;
    var k := 0;
    while k < |queue|
      invariant 0 <= k <= |queue| && db.tx.None?
      invariant Answered(queue[..k], log) && BlameIsFair(db, queue[..k], log)
      invariant forall i :: k <= i < |queue| ==> queue[i].done == []
      invariant Refines(start, log, db.committed)
    {
      ghost var before := db.committed;
      var n :| k < n <= |queue|;
      ghost var more := OneBatch(db, queue, k, n, log);
      RefinesConcat(start, log, before, more, db.committed);
      log := log + more;
      k := n;
    }
    assert queue[..|queue|] == queue;
  }

  lemma Joined(db: Db, queue: seq<Job>, k: nat, n: nat, log: seq<Record>, more: seq<Record>)
    requires k <= n <= |queue|
    requires Answered(queue[..k], log) && BlameIsFair(db, queue[..k], log)
    requires Answered(queue[k..n], more) && BlameIsFair(db, queue[k..n], more)
    ensures Answered(queue[..n], log + more) && BlameIsFair(db, queue[..n], log + more)
  {
    assert queue[..n] == queue[..k] + queue[k..n];
    forall i | 0 <= i < n
      ensures var (j, r) := (queue[i], (log + more)[i]); j.op == r.op && j.done == [r.answer] && j.captured == r.captured
      ensures (log + more)[i].answer.Failed? ==> queue[i] in db.blamed
    {
      if i < k {
        assert queue[..k][i] == queue[i];
      } else {
        assert queue[k..n][i - k] == queue[i];
      }
    }
  }
}
