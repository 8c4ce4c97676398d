/** Safety of the scheduler under any interleaving of any number of runners: every locked
    operation, with any arguments, in any order, and claims and prunes stopped on their way. */
module SchedulerSafety {
  import opened Basics
  import opened Sorting
  import opened Scheduler

  datatype Step =
    | DoEnqueue(id: JobId, at: nat)
    | DoClaim(now: nat)
    | DoFinish(id: JobId, now: nat, certified: bool, digest: ResultDigest)
    | DoFinishFailed(id: JobId, now: nat, changed: bool)
    | DoWriteResult(id: JobId, digest: ResultDigest)
    | DoPrune(before: nat, limit: nat)
    | DoClaimStopped(now: nat, seen: nat)
    | DoPruneStopped(before: nat, limit: nat, done: nat, half: bool)

  function Next(cfg: Config, db: Db, step: Step): Db {
    match step
    case DoEnqueue(id, at) => Enqueue(cfg, db, id, at).0
    case DoClaim(now) => ClaimNext(cfg, db, now).0
    case DoFinish(id, now, certified, digest) => Finish(db, id, now, certified, digest).0
    case DoFinishFailed(id, now, changed) =>
      FinishFailed(db, id, now, if changed then WorkspaceChanged else ResultBoundExceeded).0
    case DoWriteResult(id, digest) => WriteResult(db, id, digest).0
    case DoPrune(before, limit) => Prune(db, before, limit).0
    case DoClaimStopped(now, seen) => ClaimStopped(cfg, db, now, seen)
    case DoPruneStopped(before, limit, done, half) => PruneStopped(db, before, limit, done, half)
  }

  function Run(cfg: Config, db: Db, steps: seq<Step>): Db
    decreases |steps|
  {
    if steps == [] then db else Run(cfg, Next(cfg, db, steps[0]), steps[1..])
  }

  const EMPTY := Db([], map[])

  // ----- The invariant of one record, and of the store -----

  function Verdicts(events: seq<Event>): nat {
    if events == [] then 0
    else
      var kind := events[|events| - 1].kind;
      Verdicts(events[..|events| - 1]) + if kind.CertifiedEvent? || kind.RefusedEvent? then 1 else 0
  }

  ghost predicate JobOk(cfg: Config, job: Job) {
    && ValidChain(job.events)
    && job.attempts <= cfg.maxAttempts
    && (job.state.Pending? ==> job.attempts < cfg.maxAttempts)
    && Verdicts(job.events) <= 1
    && (job.state.Queued() ==> Verdicts(job.events) == 0)
  }

  ghost predicate AllOk(cfg: Config, jobs: seq<Job>) {
    forall k :: 0 <= k < |jobs| ==> JobOk(cfg, jobs[k])
  }

  ghost predicate Safe(cfg: Config, db: Db) {
    Ordered(db.jobs) && AllOk(cfg, db.jobs) && QueuedCount(db.jobs) <= cfg.maxQueued
  }

  /** What an operation may do to a record that survives it. */
  ghost predicate Evolves(before: Job, after: Job) {
    && after.id == before.id && after.submitted == before.submitted
    && before.attempts <= after.attempts
    && before.events <= after.events
    && (before.state.Terminal() ==> after.state.Terminal())
  }

  ghost predicate Kept(a: seq<Job>, b: seq<Job>) {
    forall i, j :: 0 <= i < |a| && 0 <= j < |b| && a[i].id == b[j].id ==> Evolves(a[i], b[j])
  }

  // ----- Single records -----

  lemma AppendFacts(job: Job, at: nat, kind: EventKind)
    requires Append(job, at, kind).Some? && ValidChain(job.events)
    ensures Append(job, at, kind).value == job.(events := Append(job, at, kind).value.events)
    ensures job.events <= Append(job, at, kind).value.events
    ensures ValidChain(Append(job, at, kind).value.events)
    ensures Verdicts(Append(job, at, kind).value.events) ==
            Verdicts(job.events) + if kind.CertifiedEvent? || kind.RefusedEvent? then 1 else 0
  {
    hide ValidChain;
    var events := Append(job, at, kind).value.events;
    assert events[..|events| - 1] == job.events;
    AppendKeepsChain(job, at, kind);
  }

  lemma RequeueOk(cfg: Config, now: nat, job: Job)
    requires JobOk(cfg, job) && Requeue(cfg, now, job).Some?
    ensures JobOk(cfg, Requeue(cfg, now, job).value)
    ensures Evolves(job, Requeue(cfg, now, job).value) && Requeue(cfg, now, job).value.id == job.id
    ensures Requeue(cfg, now, job).value.state.Queued() ==> job.state.Queued()
  {
    hide Append, ValidChain, Verdicts;
    if Expired(job, now) {
      if job.attempts >= cfg.maxAttempts {
        AppendFacts(job.(state := Failed, lease := None), now, AttemptsExhausted);
      } else {
        AppendFacts(job.(state := Pending, lease := None), now, RecoveredAfterRestart);
      }
    }
  }

  lemma StartOk(cfg: Config, now: nat, job: Job)
    requires JobOk(cfg, job) && job.state.Pending? && Start(cfg, now, job).Some?
    ensures JobOk(cfg, Start(cfg, now, job).value)
    ensures Evolves(job, Start(cfg, now, job).value)
    ensures Start(cfg, now, job).value.state.Running?
  {
    hide Append, ValidChain, Verdicts, SaturatingAdd;
    var started := job.(state := Running, attempts := job.attempts + 1,
                        lease := Some(SaturatingAdd(now, cfg.leaseSeconds)));
    AppendFacts(started, now, Claimed);
  }

  /** Replacing one record by one it may evolve into. */
  lemma ReplaceOk(cfg: Config, jobs: seq<Job>, k: nat, job: Job)
    requires Ordered(jobs) && AllOk(cfg, jobs) && k < |jobs|
    requires JobOk(cfg, job) && Evolves(jobs[k], job)
    requires job.state.Queued() ==> jobs[k].state.Queued()
    ensures Ordered(jobs[k := job]) && AllOk(cfg, jobs[k := job])
    ensures QueuedCount(jobs[k := job]) <= QueuedCount(jobs)
    ensures Kept(jobs, jobs[k := job])
  {
    hide JobOk, QueuedCount;
    ReplaceCount(jobs, k, job);
    KeptReflexive(jobs);
    var after := jobs[k := job];
    forall i, j | 0 <= i < |jobs| && 0 <= j < |after| && jobs[i].id == after[j].id
      ensures Evolves(jobs[i], after[j])
    {
      assert i == j;
    }
  }

  lemma {:induction false} ReplaceCount(jobs: seq<Job>, k: nat, job: Job)
    requires k < |jobs| && (job.state.Queued() ==> jobs[k].state.Queued())
    ensures QueuedCount(jobs[k := job]) <= QueuedCount(jobs)
  {
    var n := |jobs| - 1;
    if k < n {
      ReplaceCount(jobs[..n], k, job);
      assert jobs[k := job][..n] == jobs[..n][k := job];
    } else {
      assert jobs[k := job][..n] == jobs[..n];
    }
  }

  lemma EvolvesTransitive(a: Job, b: Job, c: Job)
    requires Evolves(a, b) && Evolves(b, c)
    ensures Evolves(a, c)
  {
  }

  lemma KeptTransitive(a: seq<Job>, b: seq<Job>, c: seq<Job>)
    requires Kept(a, b) && Kept(b, c) && SameIds(a, b)
    ensures Kept(a, c)
  {
    forall i, j | 0 <= i < |a| && 0 <= j < |c| && a[i].id == c[j].id
      ensures Evolves(a[i], c[j])
    {
      assert a[i].id == b[i].id;
      assert Evolves(a[i], b[i]) && Evolves(b[i], c[j]);
    }
  }

  ghost predicate SameIds(a: seq<Job>, b: seq<Job>) {
    |a| == |b| && forall k :: 0 <= k < |a| ==> a[k].id == b[k].id
  }

  // ----- The recovery pass and the claim -----

  lemma {:induction false} RecoverOk(cfg: Config, now: nat, jobs: seq<Job>, k: nat, end: nat)
    requires Ordered(jobs) && AllOk(cfg, jobs) && k <= end <= |jobs|
    ensures var after := RecoverFrom(cfg, now, jobs, k, end).0;
            && Ordered(after) && AllOk(cfg, after) && SameIds(jobs, after)
            && QueuedCount(after) <= QueuedCount(jobs) && Kept(jobs, after)
    decreases end - k
  {
    hide JobOk, Evolves, Requeue, QueuedCount;
    if k < end && Requeue(cfg, now, jobs[k]).Some? {
      var job := Requeue(cfg, now, jobs[k]).value;
      RequeueOk(cfg, now, jobs[k]);
      ReplaceOk(cfg, jobs, k, job);
      RecoverOk(cfg, now, jobs[k := job], k + 1, end);
      KeptTransitive(jobs, jobs[k := job], RecoverFrom(cfg, now, jobs, k, end).0);
    } else {
      KeptReflexive(jobs);
    }
  }

  lemma KeptReflexive(jobs: seq<Job>)
    requires Ordered(jobs)
    ensures Kept(jobs, jobs)
  {
    forall i, j | 0 <= i < |jobs| && 0 <= j < |jobs| && jobs[i].id == jobs[j].id
      ensures Evolves(jobs[i], jobs[j])
    {
      assert i == j;
    }
  }

  lemma ClaimOk(cfg: Config, db: Db, now: nat)
    requires Safe(cfg, db)
    ensures Safe(cfg, ClaimNext(cfg, db, now).0)
    ensures Kept(db.jobs, ClaimNext(cfg, db, now).0.jobs)
  {
    hide JobOk, Evolves, Requeue, Append;
    KeptReflexive(db.jobs);
    RecoverOk(cfg, now, db.jobs, 0, |db.jobs|);
    var (jobs, done) := RecoverFrom(cfg, now, db.jobs, 0, |db.jobs|);
    if |db.jobs| <= MAX_JOBS && done && Oldest(jobs).Some? {
      var k := Oldest(jobs).value;
      if Start(cfg, now, jobs[k]).Some? {
        var job := Start(cfg, now, jobs[k]).value;
        StartOk(cfg, now, jobs[k]);
        ReplaceOk(cfg, jobs, k, job);
        KeptTransitive(db.jobs, jobs, jobs[k := job]);
      }
    }
  }

  lemma ClaimStoppedOk(cfg: Config, db: Db, now: nat, seen: nat)
    requires Safe(cfg, db)
    ensures Safe(cfg, ClaimStopped(cfg, db, now, seen))
    ensures Kept(db.jobs, ClaimStopped(cfg, db, now, seen).jobs)
  {
    hide JobOk, Evolves, Requeue;
    KeptReflexive(db.jobs);
    RecoverOk(cfg, now, db.jobs, 0, if seen < |db.jobs| then seen else |db.jobs|);
  }

  /** Each claim takes the least pending job by (submission time, id), counting those its own
      recovery pass has just made pending, and turns only that one to running. */
  lemma ClaimTakesOldest(cfg: Config, db: Db, now: nat)
    requires Safe(cfg, db) && ClaimNext(cfg, db, now).1.Took?
    ensures var pool, after := RecoverFrom(cfg, now, db.jobs, 0, |db.jobs|).0, ClaimNext(cfg, db, now).0.jobs;
            exists k :: 0 <= k < |pool| && pool[k].id == ClaimNext(cfg, db, now).1.id
              && pool[k].state.Pending? && after[k].state.Running? && after[k].attempts == pool[k].attempts + 1
              && after == pool[k := after[k]]
              && forall j :: 0 <= j < |pool| && j != k && pool[j].state.Pending? ==> Older(pool[k], pool[j])
  {
    hide JobOk, Evolves, Requeue, ValidChain;
    RecoverOk(cfg, now, db.jobs, 0, |db.jobs|);
    var pool := RecoverFrom(cfg, now, db.jobs, 0, |db.jobs|).0;
    OldestIsLeast(pool);
    assert ClaimNext(cfg, db, now).0.jobs == pool[Oldest(pool).value := Start(cfg, now, pool[Oldest(pool).value]).value];
  }

  // ----- The other operations -----

  lemma {:induction false} InsertOrdered(jobs: seq<Job>, job: Job)
    requires Ordered(jobs) && forall k :: 0 <= k < |jobs| ==> jobs[k].id != job.id
    ensures Ordered(InsertJob(jobs, job))
    ensures forall j :: j in InsertJob(jobs, job) <==> j in jobs || j == job
  {
    if jobs != [] && job.id >= jobs[0].id {
      var rest := InsertJob(jobs[1..], job);
      InsertOrdered(jobs[1..], job);
      assert jobs == [jobs[0]] + jobs[1..];
      forall j | 0 <= j < |rest|
        ensures jobs[0].id < rest[j].id
      {
        assert rest[j] in rest;
      }
    } else if jobs != [] {
      assert forall k :: 0 <= k < |jobs| ==> job.id < jobs[k].id;
    }
  }

  lemma {:induction false} InsertCount(jobs: seq<Job>, job: Job)
    ensures QueuedCount(InsertJob(jobs, job)) == QueuedCount(jobs) + if job.state.Queued() then 1 else 0
  {
    if jobs == [] {
      assert [job][..0] == [];
    } else if job.id < jobs[0].id {
      CountCons(job, jobs);
    } else {
      InsertCount(jobs[1..], job);
      CountCons(jobs[0], InsertJob(jobs[1..], job));
      CountCons(jobs[0], jobs[1..]);
      assert jobs == [jobs[0]] + jobs[1..];
    }
  }

  lemma {:induction false} CountCons(job: Job, jobs: seq<Job>)
    ensures QueuedCount([job] + jobs) == (if job.state.Queued() then 1 else 0) + QueuedCount(jobs)
  {
    if jobs == [] {
      assert [job] + jobs == [job] && [job][..0] == [];
    } else {
      var n := |jobs| - 1;
      CountCons(job, jobs[..n]);
      assert ([job] + jobs)[..n + 1] == [job] + jobs[..n];
    }
  }

  lemma EnqueueOk(cfg: Config, db: Db, id: JobId, at: nat)
    requires cfg.Valid() && Safe(cfg, db)
    ensures Safe(cfg, Enqueue(cfg, db, id, at).0)
    ensures Kept(db.jobs, Enqueue(cfg, db, id, at).0.jobs)
  {
    hide JobOk, Evolves, QueuedCount, InsertJob;
    KeptReflexive(db.jobs);
    if Enqueue(cfg, db, id, at).1 {
      var job := NewJob(id, at);
      InsertOrdered(db.jobs, job);
      InsertCount(db.jobs, job);
      NewJobOk(cfg, id, at);
      InsertKept(db.jobs, InsertJob(db.jobs, job), job);
      assert forall k :: 0 <= k < |InsertJob(db.jobs, job)| ==> InsertJob(db.jobs, job)[k] in InsertJob(db.jobs, job);
    }
  }

  lemma NewJobOk(cfg: Config, id: JobId, at: nat)
    requires cfg.Valid()
    ensures JobOk(cfg, NewJob(id, at))
  {
    assert NewJob(id, at).events[..0] == [];
  }

  lemma InsertKept(a: seq<Job>, b: seq<Job>, job: Job)
    requires Ordered(a) && forall j :: j in b ==> j in a || j == job
    requires forall k :: 0 <= k < |a| ==> a[k].id != job.id
    ensures Kept(a, b)
  {
    hide Evolves;
    KeptReflexive(a);
    forall i, j | 0 <= i < |a| && 0 <= j < |b| && a[i].id == b[j].id
      ensures Evolves(a[i], b[j])
    {
      assert b[j] in b;
      var k :| 0 <= k < |a| && a[k] == b[j];
      assert Evolves(a[i], a[k]);
    }
  }

  lemma FinishOk(cfg: Config, db: Db, id: JobId, now: nat, certified: bool, digest: ResultDigest)
    requires Safe(cfg, db)
    ensures Safe(cfg, Finish(db, id, now, certified, digest).0)
    ensures Kept(db.jobs, Finish(db, id, now, certified, digest).0.jobs)
  {
    hide Append, ValidChain, Verdicts, QueuedCount;
    KeptReflexive(db.jobs);
    if Finish(db, id, now, certified, digest).1 {
      var k := Find(db.jobs, id).value;
      var closed := db.jobs[k].(state := if certified then Certified else Refused, lease := None, result := Some(digest));
      var kind := if certified then CertifiedEvent else RefusedEvent;
      assert JobOk(cfg, db.jobs[k]);
      AppendFacts(closed, now, kind);
      ReplaceOk(cfg, db.jobs, k, Append(closed, now, kind).value);
    }
  }

  lemma FinishFailedOk(cfg: Config, db: Db, id: JobId, now: nat, kind: EventKind)
    requires Safe(cfg, db) && !kind.CertifiedEvent? && !kind.RefusedEvent?
    ensures Safe(cfg, FinishFailed(db, id, now, kind).0)
    ensures Kept(db.jobs, FinishFailed(db, id, now, kind).0.jobs)
  {
    hide Append, ValidChain, Verdicts, QueuedCount;
    KeptReflexive(db.jobs);
    if FinishFailed(db, id, now, kind).1 {
      var k := Find(db.jobs, id).value;
      var closed := db.jobs[k].(state := Failed, lease := None);
      assert JobOk(cfg, db.jobs[k]);
      AppendFacts(closed, now, kind);
      ReplaceOk(cfg, db.jobs, k, Append(closed, now, kind).value);
    }
  }

  lemma {:induction false} RemoveCount(jobs: seq<Job>, k: nat)
    requires k < |jobs|
    ensures QueuedCount(jobs[..k] + jobs[k + 1..]) <= QueuedCount(jobs)
  {
    var n := |jobs| - 1;
    if k < n {
      RemoveCount(jobs[..n], k);
      assert (jobs[..k] + jobs[k + 1..])[..n - 1] == jobs[..n][..k] + jobs[..n][k + 1..];
    } else {
      assert jobs[..k] + jobs[k + 1..] == jobs[..n];
    }
  }

  lemma SafeIsOrdered(cfg: Config, db: Db)
    requires Safe(cfg, db)
    ensures Ordered(db.jobs)
  {
  }

  lemma PruneOneOk(cfg: Config, db: Db, id: JobId)
    requires Safe(cfg, db) && PruneOne(db, id).Some?
    ensures Safe(cfg, PruneOne(db, id).value)
    ensures forall j :: j in PruneOne(db, id).value.jobs ==> j in db.jobs
  {
    hide JobOk, QueuedCount;
    var k := Find(db.jobs, id).value;
    var smaller := PruneOne(db, id).value.jobs;
    RemoveCount(db.jobs, k);
    assert forall j :: 0 <= j < |smaller| ==> smaller[j] == db.jobs[if j < k then j else j + 1];
  }

  /** Results play no part in what keeps the records safe. */
  lemma DropResultOk(cfg: Config, db: Db, id: JobId)
    requires Safe(cfg, db)
    ensures Safe(cfg, DropResult(db, id)) && DropResult(db, id).jobs == db.jobs
  {
    hide AllOk, QueuedCount, Ordered, PruneOne;
  }

  lemma {:induction false} PruneSomeOk(cfg: Config, db: Db, ids: seq<JobId>, done: nat, half: bool)
    requires Safe(cfg, db)
    ensures Safe(cfg, PruneSome(db, ids, done, half))
    ensures Kept(db.jobs, PruneSome(db, ids, done, half).jobs)
    ensures forall j :: j in PruneSome(db, ids, done, half).jobs ==> j in db.jobs
    decreases |ids|
  {
    hide JobOk, Evolves, Safe, PruneOne, DropResult;
    if ids != [] && done == 0 {
      DropResultOk(cfg, db, ids[0]);
    } else if ids != [] && PruneOne(db, ids[0]).Some? {
      PruneOneOk(cfg, db, ids[0]);
      PruneSomeOk(cfg, PruneOne(db, ids[0]).value, ids[1..], done - 1, half);
    }
    assert Ordered(db.jobs) by {
      SafeIsOrdered(cfg, db);
    }
    SubsetKept(db.jobs, PruneSome(db, ids, done, half).jobs);
  }

  lemma PruneOk(cfg: Config, db: Db, ids: seq<JobId>)
    requires Safe(cfg, db)
    ensures Safe(cfg, PruneAll(db, ids).0)
    ensures Kept(db.jobs, PruneAll(db, ids).0.jobs)
    ensures forall j :: j in PruneAll(db, ids).0.jobs ==> j in db.jobs
  {
    hide Safe, Kept, PruneAll, PruneSome;
    WholePrune(db, ids);
    PruneSomeOk(cfg, db, ids, |ids|, false);
  }

  lemma SubsetKept(a: seq<Job>, b: seq<Job>)
    requires Ordered(a) && forall j :: j in b ==> j in a
    ensures Kept(a, b)
  {
    forall i, j | 0 <= i < |a| && 0 <= j < |b| && a[i].id == b[j].id
      ensures Evolves(a[i], b[j])
    {
      assert b[j] in a;
      var k :| 0 <= k < |a| && a[k] == b[j];
      assert k == i;
    }
  }

  // ----- Every interleaving -----

  /** Every operation of every runner, whole or stopped, keeps the store safe, and may change a
      surviving record only by appending to its audit chain, without leaving the terminal set. */
  lemma StepIsSafe(cfg: Config, db: Db, step: Step)
    requires cfg.Valid() && Safe(cfg, db)
    ensures Safe(cfg, Next(cfg, db, step))
    ensures Kept(db.jobs, Next(cfg, db, step).jobs)
  {
    hide JobOk, Evolves, Finish, FinishFailed, ClaimNext, ClaimStopped, Enqueue, PruneAll, PruneSome;
    KeptReflexive(db.jobs);
    match step {
      case DoEnqueue(id, at) => EnqueueOk(cfg, db, id, at);
      case DoClaim(now) => ClaimOk(cfg, db, now);
      case DoFinish(id, now, certified, digest) => FinishOk(cfg, db, id, now, certified, digest);
      case DoFinishFailed(id, now, changed) =>
        FinishFailedOk(cfg, db, id, now, if changed then WorkspaceChanged else ResultBoundExceeded);
      case DoWriteResult(id, digest) =>
      case DoPrune(before, limit) => PruneOk(cfg, db, EligibleFrom(Sort(db.jobs, Older), before, limit));
      case DoClaimStopped(now, seen) => ClaimStoppedOk(cfg, db, now, seen);
      case DoPruneStopped(before, limit, done, half) =>
        PruneSomeOk(cfg, db, EligibleFrom(Sort(db.jobs, Older), before, limit), done, half);
    }
  }

  /** In every store any interleaving can reach, no job exceeds its attempts or holds two
      verdicts, the queue stays within its bound, and every audit chain is valid. */
  lemma {:induction false} ReachableIsSafe(cfg: Config, db: Db, steps: seq<Step>)
    requires cfg.Valid() && Safe(cfg, db)
    ensures Safe(cfg, Run(cfg, db, steps))
    decreases |steps|
  {
    hide Safe, Next;
    if steps != [] {
      StepIsSafe(cfg, db, steps[0]);
      ReachableIsSafe(cfg, Next(cfg, db, steps[0]), steps[1..]);
    }
  }

  lemma EmptyIsSafe(cfg: Config)
    requires cfg.Valid()
    ensures Safe(cfg, EMPTY)
  {
  }

  /** Spelled out from an empty store, for any runners in any order. */
  lemma HistoriesAreSafe(cfg: Config, steps: seq<Step>)
    requires cfg.Valid()
    ensures var db := Run(cfg, EMPTY, steps);
            && QueuedCount(db.jobs) <= cfg.maxQueued
            && Ordered(db.jobs)
            && forall k :: 0 <= k < |db.jobs| ==>
                 && ValidChain(db.jobs[k].events)
                 && db.jobs[k].attempts <= cfg.maxAttempts
                 && (db.jobs[k].state.Pending? ==> db.jobs[k].attempts < cfg.maxAttempts)
                 && Verdicts(db.jobs[k].events) <= 1
                 && (db.jobs[k].state.Queued() ==> Verdicts(db.jobs[k].events) == 0)
  {
    hide ValidChain, Verdicts, QueuedCount, Run, Ordered;
    EmptyIsSafe(cfg);
    ReachableIsSafe(cfg, EMPTY, steps);
    var db := Run(cfg, EMPTY, steps);
    assert forall k :: 0 <= k < |db.jobs| ==> JobOk(cfg, db.jobs[k]);
  }

  lemma {:induction false} RunAppends(cfg: Config, db: Db, steps: seq<Step>, step: Step)
    ensures Run(cfg, db, steps + [step]) == Next(cfg, Run(cfg, db, steps), step)
    decreases |steps|
  {
    hide Next;
    if steps == [] {
      assert steps + [step] == [step] && [step][1..] == [];
      assert Run(cfg, Next(cfg, db, step), []) == Next(cfg, db, step);
    } else {
      RunAppends(cfg, Next(cfg, db, steps[0]), steps[1..], step);
      assert (steps + [step])[1..] == steps[1..] + [step];
    }
  }

  ghost predicate Holds(db: Db, id: JobId) {
    exists k :: 0 <= k < |db.jobs| && db.jobs[k].id == id
  }

  /** The record with this id is there after each step. */
  ghost predicate Survives(cfg: Config, db: Db, steps: seq<Step>, id: JobId)
    decreases |steps|
  {
    Holds(db, id) && (steps != [] ==> Survives(cfg, Next(cfg, db, steps[0]), steps[1..], id))
  }

  /** A verdict is final: while its record exists a terminal job stays terminal, and its
      audit chain only grows. */
  lemma {:induction false} TerminalIsAbsorbing(cfg: Config, db: Db, steps: seq<Step>, i: nat)
    requires cfg.Valid() && Safe(cfg, db) && i < |db.jobs|
    requires Survives(cfg, db, steps, db.jobs[i].id)
    ensures exists j :: 0 <= j < |Run(cfg, db, steps).jobs| && Evolves(db.jobs[i], Run(cfg, db, steps).jobs[j])
    decreases |steps|
  {
    hide Safe, Next;
    if steps == [] {
      assert Evolves(db.jobs[i], Run(cfg, db, steps).jobs[i]);
    } else {
      var next := Next(cfg, db, steps[0]);
      StepIsSafe(cfg, db, steps[0]);
      assert Holds(next, db.jobs[i].id);
      var k :| 0 <= k < |next.jobs| && next.jobs[k].id == db.jobs[i].id;
      TerminalIsAbsorbing(cfg, next, steps[1..], k);
      var j :| 0 <= j < |Run(cfg, next, steps[1..]).jobs| && Evolves(next.jobs[k], Run(cfg, next, steps[1..]).jobs[j]);
      EvolvesTransitive(db.jobs[i], next.jobs[k], Run(cfg, next, steps[1..]).jobs[j]);
      assert Run(cfg, db, steps) == Run(cfg, next, steps[1..]);
    }
  }
}
