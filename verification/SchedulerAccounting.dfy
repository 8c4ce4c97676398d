/** The scheduler's books with one runner at a time: enqueues and prunes may come at any moment,
    a runner may stop anywhere, also inside a claim, a prune may stop at any removal, and clocks
    may say anything. */
module SchedulerAccounting {
  import opened Basics
  import opened Sorting
  import opened Scheduler
  import opened SchedulerSafety

  /** The store, and the job the live runner has claimed but not yet finished. */
  datatype Solo = Solo(db: Db, inFlight: Option<JobId>)

  datatype SoloStep =
    | Submit(id: JobId, at: nat)
    | Clean(before: nat, limit: nat)
    | Take(now: nat)
    | Conclude(now: nat, certified: bool, digest: ResultDigest)
    | Abandon(now: nat, changed: bool)
    | StopRunner
    | StopAfterWrite(digest: ResultDigest)
    | TakeStopped(now: nat, seen: nat)
    | CleanStopped(before: nat, limit: nat, done: nat, half: bool)

  function SoloNext(cfg: Config, s: Solo, step: SoloStep): Solo {
    match step
    case Submit(id, at) => s.(db := Enqueue(cfg, s.db, id, at).0)
    case Clean(before, limit) => s.(db := Prune(s.db, before, limit).0)
    case Take(now) =>
      if s.inFlight.Some? then s
      else
        var (db, claim) := ClaimNext(cfg, s.db, now);
        Solo(db, if claim.Took? then Some(claim.id) else None)
    case Conclude(now, certified, digest) =>
      if s.inFlight.None? then s
      else
        var (written, ok) := WriteResult(s.db, s.inFlight.value, digest);
        if !ok then Solo(written, None)
        else Solo(Finish(written, s.inFlight.value, now, certified, digest).0, None)
    case Abandon(now, changed) =>
      if s.inFlight.None? then s
      else
        Solo(FinishFailed(s.db, s.inFlight.value, now, if changed then WorkspaceChanged else ResultBoundExceeded).0, None)
    case StopRunner => s.(inFlight := None)
    case StopAfterWrite(digest) =>
      if s.inFlight.None? then s else Solo(WriteResult(s.db, s.inFlight.value, digest).0, None)
    case TakeStopped(now, seen) =>
      if s.inFlight.Some? then s else Solo(ClaimStopped(cfg, s.db, now, seen), None)
    case CleanStopped(before, limit, done, half) => s.(db := PruneStopped(s.db, before, limit, done, half))
  }

  predicate Takes(step: SoloStep) {
    step.Take? || step.TakeStopped?
  }

  predicate Cleans(step: SoloStep) {
    step.Clean? || step.CleanStopped?
  }

  function SoloRun(cfg: Config, s: Solo, steps: seq<SoloStep>): Solo
    decreases |steps|
  {
    if steps == [] then s else SoloRun(cfg, SoloNext(cfg, s, steps[0]), steps[1..])
  }

  // ----- The law -----

  function Recoveries(events: seq<Event>): nat {
    if events == [] then 0
    else Recoveries(events[..|events| - 1]) + if events[|events| - 1].kind.RecoveredAfterRestart? then 1 else 0
  }

  /** Two events for every attempt, one for being queued; a restart recovery for every
      attempt but the last. */
  ghost predicate Balanced(cfg: Config, job: Job) {
    && |job.events| == 2 * job.attempts + (if job.state.Running? then 0 else 1)
    && Recoveries(job.events) + (if job.state.Pending? then 0 else 1) == job.attempts
    && job.attempts <= cfg.maxAttempts
    && (job.state.Pending? ==> job.attempts < cfg.maxAttempts)
  }

  /** A verdict records the digest of its result, which is what is on disk unless a stopped
      prune has removed it; other jobs have recorded none. */
  ghost predicate Backed(job: Job, results: map<JobId, ResultDigest>) {
    if job.state.Certified? || job.state.Refused? then
      job.result.Some? && (job.id in results ==> results[job.id] == job.result.value)
    else job.result.None?
  }

  ghost predicate Books(cfg: Config, s: Solo) {
    && Safe(cfg, s.db)
    && (forall k :: 0 <= k < |s.db.jobs| ==> Balanced(cfg, s.db.jobs[k]) && Backed(s.db.jobs[k], s.db.results))
    && (forall id :: id in s.db.results ==> Holds(s.db, id))
    && (s.inFlight.Some? ==>
          Find(s.db.jobs, s.inFlight.value).Some?
          && s.db.jobs[Find(s.db.jobs, s.inFlight.value).value].state.Running?)
  }

  lemma AppendBalance(job: Job, at: nat, kind: EventKind)
    requires |job.events| < MAX_EVENTS
    ensures Append(job, at, kind).Some?
    ensures var r := Append(job, at, kind).value;
            && r == job.(events := r.events) && |r.events| == |job.events| + 1
            && Recoveries(r.events) == Recoveries(job.events) + if kind.RecoveredAfterRestart? then 1 else 0
  {
    var events := Append(job, at, kind).value.events;
    assert events[..|events| - 1] == job.events;
  }

  /** With the books balanced no audit chain can fill up: at most 21 events in ten attempts. */
  lemma BalancedFits(cfg: Config, job: Job)
    requires cfg.Valid() && Balanced(cfg, job)
    ensures |job.events| <= 2 * cfg.maxAttempts + 1 <= 21 < MAX_EVENTS
  {
  }

  lemma RequeueBalances(cfg: Config, now: nat, job: Job, results: map<JobId, ResultDigest>)
    requires cfg.Valid() && Balanced(cfg, job) && Backed(job, results)
    ensures Requeue(cfg, now, job).Some?
    ensures var r := Requeue(cfg, now, job).value;
            Balanced(cfg, r) && Backed(r, results) && r.id == job.id
  {
    hide Append, Recoveries;
    BalancedFits(cfg, job);
    AppendBalance(job.(state := Failed, lease := None), now, AttemptsExhausted);
    AppendBalance(job.(state := Pending, lease := None), now, RecoveredAfterRestart);
  }

  ghost predicate AllBooked(cfg: Config, jobs: seq<Job>, results: map<JobId, ResultDigest>) {
    forall k :: 0 <= k < |jobs| ==> Balanced(cfg, jobs[k]) && Backed(jobs[k], results)
  }

  lemma {:induction false} RecoverBalances(cfg: Config, now: nat, jobs: seq<Job>, k: nat, end: nat,
                                           results: map<JobId, ResultDigest>)
    requires cfg.Valid() && AllBooked(cfg, jobs, results) && k <= end <= |jobs|
    ensures RecoverFrom(cfg, now, jobs, k, end).1
    ensures AllBooked(cfg, RecoverFrom(cfg, now, jobs, k, end).0, results)
    ensures SameIds(jobs, RecoverFrom(cfg, now, jobs, k, end).0)
    decreases end - k
  {
    hide Balanced, Backed, Requeue;
    if k < end {
      RequeueBalances(cfg, now, jobs[k], results);
      RecoverBalances(cfg, now, jobs[k := Requeue(cfg, now, jobs[k]).value], k + 1, end, results);
    }
  }

  lemma StartBalances(cfg: Config, now: nat, job: Job, results: map<JobId, ResultDigest>)
    requires cfg.Valid() && Balanced(cfg, job) && Backed(job, results) && job.state.Pending?
    ensures Start(cfg, now, job).Some?
    ensures var r := Start(cfg, now, job).value;
            Balanced(cfg, r) && Backed(r, results) && r.id == job.id && r.state.Running?
  {
    hide Append, Recoveries, SaturatingAdd;
    BalancedFits(cfg, job);
    AppendBalance(job.(state := Running, attempts := job.attempts + 1,
                       lease := Some(SaturatingAdd(now, cfg.leaseSeconds))), now, Claimed);
  }

  lemma SameHolders(a: Db, b: Db)
    requires SameIds(a.jobs, b.jobs)
    ensures forall id :: Holds(a, id) ==> Holds(b, id)
  {
    forall id | Holds(a, id)
      ensures Holds(b, id)
    {
      var k :| 0 <= k < |a.jobs| && a.jobs[k].id == id;
      assert b.jobs[k].id == id;
    }
  }

  lemma FoundAt(jobs: seq<Job>, k: nat)
    requires Ordered(jobs) && k < |jobs|
    ensures Find(jobs, jobs[k].id) == Some(k)
  {
    var r := Find(jobs, jobs[k].id);
    assert r.Some?;
  }

  /** The recovery pass never fails, and neither does the claim that follows it. */
  lemma TakeKeepsBooks(cfg: Config, s: Solo, now: nat)
    requires cfg.Valid() && Books(cfg, s) && s.inFlight.None?
    ensures Books(cfg, SoloNext(cfg, s, Take(now)))
  {
    hide Balanced, Backed, JobOk, Requeue, Start, QueuedCount;
    ClaimOk(cfg, s.db, now);
    if |s.db.jobs| <= MAX_JOBS {
      RecoverBalances(cfg, now, s.db.jobs, 0, |s.db.jobs|, s.db.results);
      var jobs := RecoverFrom(cfg, now, s.db.jobs, 0, |s.db.jobs|).0;
      SameHolders(s.db, s.db.(jobs := jobs));
      if Oldest(jobs).Some? {
        var k := Oldest(jobs).value;
        StartBalances(cfg, now, jobs[k], s.db.results);
        var started := jobs[k := Start(cfg, now, jobs[k]).value];
        SameHolders(s.db.(jobs := jobs), s.db.(jobs := started));
        FoundAt(started, k);
      }
    }
  }

  /** Nor does a stop inside the pass disturb the books. */
  lemma TakeStoppedKeepsBooks(cfg: Config, s: Solo, now: nat, seen: nat)
    requires cfg.Valid() && Books(cfg, s) && s.inFlight.None?
    ensures Books(cfg, SoloNext(cfg, s, TakeStopped(now, seen)))
  {
    hide Balanced, Backed, JobOk, Requeue, QueuedCount;
    ClaimStoppedOk(cfg, s.db, now, seen);
    if |s.db.jobs| <= MAX_JOBS {
      RecoverBalances(cfg, now, s.db.jobs, 0, if seen < |s.db.jobs| then seen else |s.db.jobs|, s.db.results);
      SameHolders(s.db, ClaimStopped(cfg, s.db, now, seen));
    }
  }

  lemma ReplaceKeepsBooks(cfg: Config, s: Solo, k: nat, job: Job, results: map<JobId, ResultDigest>)
    requires Books(cfg, s) && k < |s.db.jobs| && job.id == s.db.jobs[k].id
    requires Safe(cfg, s.db.(jobs := s.db.jobs[k := job]))
    requires Balanced(cfg, job) && Backed(job, results)
    requires forall id :: id in s.db.results ==> id in results && results[id] == s.db.results[id]
    requires forall id :: id in results ==> id in s.db.results || id == job.id
    ensures Books(cfg, Solo(Db(s.db.jobs[k := job], results), None))
  {
    hide Balanced, JobOk, QueuedCount;
    var after := Db(s.db.jobs[k := job], results);
    SameHolders(s.db, after);
    assert after.jobs[k].id == job.id;
  }

  function Closed(job: Job, certified: bool, digest: ResultDigest): Job {
    job.(state := if certified then Certified else Refused, lease := None, result := Some(digest))
  }

  function VerdictKind(certified: bool): EventKind {
    if certified then CertifiedEvent else RefusedEvent
  }

  /** A verdict keeps its job's balance once the result is on disk. */
  lemma VerdictBalances(cfg: Config, job: Job, now: nat, certified: bool, digest: ResultDigest,
                        results: map<JobId, ResultDigest>)
    requires cfg.Valid() && Balanced(cfg, job) && job.state.Running? && job.id in results && results[job.id] == digest
    ensures Append(Closed(job, certified, digest), now, VerdictKind(certified)).Some?
    ensures var r := Append(Closed(job, certified, digest), now, VerdictKind(certified)).value;
            Balanced(cfg, r) && Backed(r, results) && r.id == job.id
  {
    hide Append, Recoveries;
    BalancedFits(cfg, job);
    AppendBalance(Closed(job, certified, digest), now, VerdictKind(certified));
  }

  lemma ConcludeKeepsBooks(cfg: Config, s: Solo, now: nat, certified: bool, digest: ResultDigest)
    requires cfg.Valid() && Books(cfg, s) && s.inFlight.Some?
    ensures Books(cfg, SoloNext(cfg, s, Conclude(now, certified, digest)))
  {
    hide Balanced, Backed, Safe, Append, Find;
    var id := s.inFlight.value;
    var k := Find(s.db.jobs, id).value;
    var (written, ok) := WriteResult(s.db, id, digest);
    if ok {
      VerdictBalances(cfg, s.db.jobs[k], now, certified, digest, written.results);
      var done := Append(Closed(s.db.jobs[k], certified, digest), now, VerdictKind(certified)).value;
      var after := Db(s.db.jobs[k := done], written.results);
      assert Finish(written, id, now, certified, digest).0 == after;
      SafeFinish(cfg, s.db, written, id, now, certified, digest);
      ReplaceKeepsBooks(cfg, s, k, done, written.results);
    }
  }

  /** Results play no part in what keeps the records safe. */
  lemma SafeFinish(cfg: Config, db: Db, written: Db, id: JobId, now: nat, certified: bool, digest: ResultDigest)
    requires Safe(cfg, db) && written.jobs == db.jobs
    ensures Safe(cfg, db.(jobs := Finish(written, id, now, certified, digest).0.jobs))
  {
    hide AllOk, QueuedCount, Append, Kept;
    FinishOk(cfg, written, id, now, certified, digest);
  }

  lemma FailureBalances(cfg: Config, job: Job, now: nat, kind: EventKind, results: map<JobId, ResultDigest>)
    requires cfg.Valid() && Balanced(cfg, job) && Backed(job, results) && job.state.Running?
    requires !kind.RecoveredAfterRestart?
    ensures Append(job.(state := Failed, lease := None), now, kind).Some?
    ensures var r := Append(job.(state := Failed, lease := None), now, kind).value;
            Balanced(cfg, r) && Backed(r, results) && r.id == job.id
  {
    hide Append, Recoveries;
    BalancedFits(cfg, job);
    AppendBalance(job.(state := Failed, lease := None), now, kind);
  }

  lemma AbandonKeepsBooks(cfg: Config, s: Solo, now: nat, changed: bool)
    requires cfg.Valid() && Books(cfg, s) && s.inFlight.Some?
    ensures Books(cfg, SoloNext(cfg, s, Abandon(now, changed)))
  {
    hide Balanced, Backed, Safe, Append, Find;
    var id, kind := s.inFlight.value, if changed then WorkspaceChanged else ResultBoundExceeded;
    var k := Find(s.db.jobs, id).value;
    FailureBalances(cfg, s.db.jobs[k], now, kind, s.db.results);
    var done := Append(s.db.jobs[k].(state := Failed, lease := None), now, kind).value;
    assert FinishFailed(s.db, id, now, kind).0 == Db(s.db.jobs[k := done], s.db.results);
    FinishFailedOk(cfg, s.db, id, now, kind);
    ReplaceKeepsBooks(cfg, s, k, done, s.db.results);
  }

  lemma WriteKeepsBooks(cfg: Config, s: Solo, digest: ResultDigest)
    requires Books(cfg, s) && s.inFlight.Some?
    ensures Books(cfg, Solo(WriteResult(s.db, s.inFlight.value, digest).0, None))
  {
    hide Balanced, JobOk, QueuedCount;
    var id := s.inFlight.value;
    var after := WriteResult(s.db, id, digest).0;
    var k := Find(s.db.jobs, id).value;
    assert after.jobs[k].id == id;
    assert forall other :: Holds(s.db, other) ==> Holds(after, other);
    forall j | 0 <= j < |after.jobs|
      ensures Backed(after.jobs[j], after.results)
    {
      assert Backed(s.db.jobs[j], s.db.results);
    }
  }

  lemma SubmitKeepsBooks(cfg: Config, s: Solo, id: JobId, at: nat)
    requires cfg.Valid() && Books(cfg, s)
    ensures Books(cfg, SoloNext(cfg, s, Submit(id, at)))
  {
    hide JobOk, QueuedCount, ValidChain;
    EnqueueOk(cfg, s.db, id, at);
    if Enqueue(cfg, s.db, id, at).1 {
      var job, after := NewJob(id, at), Enqueue(cfg, s.db, id, at).0;
      InsertOrdered(s.db.jobs, job);
      NewJobBalances(cfg, id, at);
      BooksAfterInsert(cfg, s, job, after);
    }
  }

  lemma NewJobBalances(cfg: Config, id: JobId, at: nat)
    requires cfg.Valid()
    ensures Balanced(cfg, NewJob(id, at))
  {
    var events := NewJob(id, at).events;
    assert events[..|events| - 1] == [];
    assert Recoveries(events[..|events| - 1]) == 0;
  }

  lemma BooksAfterInsert(cfg: Config, s: Solo, job: Job, after: Db)
    requires Books(cfg, s) && Safe(cfg, after) && after.results == s.db.results
    requires Balanced(cfg, job) && job.result.None? && job.state.Pending?
    requires forall j :: j in after.jobs <==> j in s.db.jobs || j == job
    ensures Books(cfg, s.(db := after))
  {
    hide Balanced, JobOk, QueuedCount;
    forall k | 0 <= k < |after.jobs|
      ensures Balanced(cfg, after.jobs[k]) && Backed(after.jobs[k], after.results)
    {
      assert after.jobs[k] in after.jobs;
    }
    SurvivorsHold(s.db, after);
    if s.inFlight.Some? {
      var running := s.db.jobs[Find(s.db.jobs, s.inFlight.value).value];
      assert running in after.jobs;
      var k :| 0 <= k < |after.jobs| && after.jobs[k] == running;
      FoundAt(after.jobs, k);
    }
  }

  lemma SurvivorsHold(a: Db, b: Db)
    requires forall j :: j in a.jobs ==> j in b.jobs
    ensures forall id :: Holds(a, id) ==> Holds(b, id)
  {
    forall id | Holds(a, id)
      ensures Holds(b, id)
    {
      var k :| 0 <= k < |a.jobs| && a.jobs[k].id == id;
      assert a.jobs[k] in b.jobs;
    }
  }

  // ----- Pruning -----

  /** Ids of terminal jobs of the store. */
  ghost predicate TerminalIds(jobs: seq<Job>, ids: seq<JobId>) {
    forall i, k :: 0 <= i < |ids| && 0 <= k < |jobs| && jobs[k].id == ids[i] ==> jobs[k].state.Terminal()
  }

  lemma {:induction false} EligibleAreTerminal(jobs: seq<Job>, sorted: seq<Job>, before: nat, limit: nat)
    requires Ordered(jobs) && forall j :: j in sorted ==> j in jobs
    ensures TerminalIds(jobs, EligibleFrom(sorted, before, limit))
    decreases |sorted|
  {
    if sorted != [] && limit > 0 {
      var eligible := sorted[0].submitted < before && sorted[0].state.Terminal();
      EligibleAreTerminal(jobs, sorted[1..], before, if eligible then limit - 1 else limit);
      assert sorted[0] in jobs;
      var n :| 0 <= n < |jobs| && jobs[n] == sorted[0];
      assert forall k :: 0 <= k < |jobs| && jobs[k].id == sorted[0].id ==> k == n;
    }
  }

  /** Removing record `n` shifts the ones behind it. */
  lemma Removed(jobs: seq<Job>, n: nat, k: nat)
    requires n < |jobs| && k < |jobs| && k != n
    ensures |jobs[..n] + jobs[n + 1..]| == |jobs| - 1
    ensures (jobs[..n] + jobs[n + 1..])[if k < n then k else k - 1] == jobs[k]
  {
  }

  lemma PrunedResultsHold(s: Db, id: JobId)
    requires Ordered(s.jobs) && PruneOne(s, id).Some?
    requires forall other :: other in s.results ==> Holds(s, other)
    ensures forall other :: other in PruneOne(s, id).value.results ==> Holds(PruneOne(s, id).value, other)
  {
    var n, after := Find(s.jobs, id).value, PruneOne(s, id).value;
    forall other | other in after.results
      ensures Holds(after, other)
    {
      var k :| 0 <= k < |s.jobs| && s.jobs[k].id == other;
      Removed(s.jobs, n, k);
      assert after.jobs[if k < n then k else k - 1].id == other;
    }
  }

  lemma PruneOneKeepsBooks(cfg: Config, s: Solo, id: JobId)
    requires Books(cfg, s) && PruneOne(s.db, id).Some? && TerminalIds(s.db.jobs, [id])
    ensures Books(cfg, s.(db := PruneOne(s.db, id).value))
  {
    hide Balanced, JobOk, QueuedCount, Safe;
    BooksAreSafe(cfg, s);
    SafeIsOrdered(cfg, s.db);
    PruneOneOk(cfg, s.db, id);
    PrunedResultsHold(s.db, id);
    PrunedRecordsBooked(cfg, s, id);
    SafeIsOrdered(cfg, PruneOne(s.db, id).value);
    if s.inFlight.Some? {
      var n, k := Find(s.db.jobs, id).value, Find(s.db.jobs, s.inFlight.value).value;
      assert [id][0] == id && k != n;
      Removed(s.db.jobs, n, k);
      FoundAt(PruneOne(s.db, id).value.jobs, if k < n then k else k - 1);
    }
  }

  lemma PrunedRecordsBooked(cfg: Config, s: Solo, id: JobId)
    requires Ordered(s.db.jobs) && PruneOne(s.db, id).Some?
    requires AllBooked(cfg, s.db.jobs, s.db.results)
    ensures AllBooked(cfg, PruneOne(s.db, id).value.jobs, PruneOne(s.db, id).value.results)
  {
    hide Balanced;
    var n, after := Find(s.db.jobs, id).value, PruneOne(s.db, id).value;
    forall k | 0 <= k < |after.jobs|
      ensures Balanced(cfg, after.jobs[k]) && Backed(after.jobs[k], after.results)
    {
      var m := if k < n then k else k + 1;
      assert after.jobs[k] == s.db.jobs[m] && s.db.jobs[m].id != id;
      assert Backed(s.db.jobs[m], s.db.results);
    }
  }

  lemma DropResultKeepsBooks(cfg: Config, s: Solo, id: JobId)
    requires Books(cfg, s)
    ensures Books(cfg, s.(db := DropResult(s.db, id)))
  {
    hide Balanced, JobOk, QueuedCount, PruneOne;
    var after := DropResult(s.db, id);
    assert forall other :: Holds(s.db, other) ==> Holds(after, other);
    forall k | 0 <= k < |after.jobs|
      ensures Backed(after.jobs[k], after.results)
    {
      assert Backed(s.db.jobs[k], s.db.results);
    }
  }

  /** A prune keeps the books wherever it stops. */
  lemma {:induction false} PruneKeepsBooks(cfg: Config, s: Solo, ids: seq<JobId>, done: nat, half: bool)
    requires Books(cfg, s) && TerminalIds(s.db.jobs, ids)
    ensures Books(cfg, s.(db := PruneSome(s.db, ids, done, half)))
    decreases |ids|
  {
    hide Books, PruneOne, DropResult;
    if ids != [] && done == 0 {
      DropResultKeepsBooks(cfg, s, ids[0]);
    } else if ids != [] && PruneOne(s.db, ids[0]).Some? {
      var smaller := PruneOne(s.db, ids[0]).value;
      assert TerminalIds(s.db.jobs, [ids[0]]);
      PruneOneKeepsBooks(cfg, s, ids[0]);
      BooksAreSafe(cfg, s);
      PruneOneOk(cfg, s.db, ids[0]);
      FewerTerminal(s.db.jobs, smaller.jobs, ids);
      PruneKeepsBooks(cfg, s.(db := smaller), ids[1..], done - 1, half);
    }
  }

  lemma BooksAreSafe(cfg: Config, s: Solo)
    requires Books(cfg, s)
    ensures Safe(cfg, s.db)
  {
  }

  lemma FewerTerminal(a: seq<Job>, b: seq<Job>, ids: seq<JobId>)
    requires TerminalIds(a, ids) && ids != [] && forall j :: j in b ==> j in a
    ensures TerminalIds(b, ids[1..])
  {
    forall i, k | 0 <= i < |ids[1..]| && 0 <= k < |b| && b[k].id == ids[1..][i]
      ensures b[k].state.Terminal()
    {
      assert b[k] in a;
      var n :| 0 <= n < |a| && a[n] == b[k];
      assert a[n].id == ids[i + 1];
    }
  }

  // ----- Every history of a single runner -----

  lemma SoloStepKeepsBooks(cfg: Config, s: Solo, step: SoloStep)
    requires cfg.Valid() && Books(cfg, s)
    ensures Books(cfg, SoloNext(cfg, s, step))
  {
    hide Balanced, Backed, JobOk, Enqueue, ClaimNext, Finish, FinishFailed, PruneAll, PruneSome, WriteResult;
    match step {
      case Submit(id, at) => SubmitKeepsBooks(cfg, s, id, at);
      case Clean(before, limit) => CleanKeepsBooks(cfg, s, before, limit);
      case Take(now) => if s.inFlight.None? { TakeKeepsBooks(cfg, s, now); }
      case Conclude(now, certified, digest) =>
        if s.inFlight.Some? {
          WriteKeepsBooks(cfg, s, digest);
          ConcludeKeepsBooks(cfg, s, now, certified, digest);
        }
      case Abandon(now, changed) => if s.inFlight.Some? { AbandonKeepsBooks(cfg, s, now, changed); }
      case StopRunner =>
      case StopAfterWrite(digest) => if s.inFlight.Some? { WriteKeepsBooks(cfg, s, digest); }
      case TakeStopped(now, seen) => if s.inFlight.None? { TakeStoppedKeepsBooks(cfg, s, now, seen); }
      case CleanStopped(before, limit, done, half) => CleanStoppedKeepsBooks(cfg, s, before, limit, done, half);
    }
  }

  lemma CleanStoppedKeepsBooks(cfg: Config, s: Solo, before: nat, limit: nat, done: nat, half: bool)
    requires Books(cfg, s)
    ensures Books(cfg, s.(db := PruneStopped(s.db, before, limit, done, half)))
  {
    hide Balanced, Backed, JobOk, PruneSome, EligibleFrom, Sort, QueuedCount;
    SortedMembers(s.db.jobs);
    EligibleAreTerminal(s.db.jobs, Sort(s.db.jobs, Older), before, limit);
    PruneKeepsBooks(cfg, s, EligibleFrom(Sort(s.db.jobs, Older), before, limit), done, half);
  }

  lemma CleanKeepsBooks(cfg: Config, s: Solo, before: nat, limit: nat)
    requires Books(cfg, s)
    ensures Books(cfg, s.(db := Prune(s.db, before, limit).0))
  {
    hide Books, PruneAll, PruneSome, EligibleFrom, Sort;
    var ids := EligibleFrom(Sort(s.db.jobs, Older), before, limit);
    WholePrune(s.db, ids);
    CleanStoppedKeepsBooks(cfg, s, before, limit, |ids|, false);
  }

  lemma SortedMembers(jobs: seq<Job>)
    ensures forall j :: j in Sort(jobs, Older) ==> j in jobs
  {
    SortPermutes(jobs, Older);
    assert forall j :: j in Sort(jobs, Older) ==> j in multiset(Sort(jobs, Older));
  }

  /** The accounting law holds in every store a single runner at a time can reach. */
  lemma {:induction false} SoloHistoriesBalance(cfg: Config, s: Solo, steps: seq<SoloStep>)
    requires cfg.Valid() && Books(cfg, s)
    ensures Books(cfg, SoloRun(cfg, s, steps))
    decreases |steps|
  {
    hide Books, SoloNext;
    if steps != [] {
      SoloStepKeepsBooks(cfg, s, steps[0]);
      SoloHistoriesBalance(cfg, SoloNext(cfg, s, steps[0]), steps[1..]);
    }
  }

  lemma EmptyBooks(cfg: Config)
    requires cfg.Valid()
    ensures Books(cfg, Solo(EMPTY, None))
  {
  }

  /** Spelled out from an empty store: events, recoveries, attempts and results of every job. */
  lemma AccountingLaw(cfg: Config, steps: seq<SoloStep>, k: nat)
    requires cfg.Valid() && k < |SoloRun(cfg, Solo(EMPTY, None), steps).db.jobs|
    ensures var db := SoloRun(cfg, Solo(EMPTY, None), steps).db;
            var job := db.jobs[k];
            && |job.events| == 2 * job.attempts + (if job.state.Running? then 0 else 1) <= 21
            && Recoveries(job.events) == job.attempts - (if job.state.Pending? then 0 else 1)
            && job.attempts <= cfg.maxAttempts
            && (job.state.Pending? ==> job.attempts < cfg.maxAttempts)
            && ((job.state.Certified? || job.state.Refused?) ==>
                  job.result.Some? && (job.id in db.results ==> db.results[job.id] == job.result.value))
  {
    hide SoloNext, Safe;
    EmptyBooks(cfg);
    SoloHistoriesBalance(cfg, Solo(EMPTY, None), steps);
    BalancedFits(cfg, SoloRun(cfg, Solo(EMPTY, None), steps).db.jobs[k]);
  }

  // ----- Only a torn prune parts a verdict from its result -----

  /** A prune stopped between the two removals of a record. */
  predicate Tears(step: SoloStep) {
    step.CleanStopped? && step.half
  }

  predicate Closing(state: JobState) {
    state.Certified? || state.Refused?
  }

  /** Every verdict has its result on disk. */
  ghost predicate Whole(db: Db) {
    forall k :: 0 <= k < |db.jobs| && Closing(db.jobs[k].state) ==> db.jobs[k].id in db.results
  }

  lemma {:induction false} PruneKeepsWhole(db: Db, ids: seq<JobId>, done: nat)
    requires Ordered(db.jobs) && Whole(db)
    ensures Whole(PruneSome(db, ids, done, false))
    decreases |ids|
  {
    hide Ordered;
    if ids != [] && done > 0 && PruneOne(db, ids[0]).Some? {
      var n, smaller := Find(db.jobs, ids[0]).value, PruneOne(db, ids[0]).value;
      WithoutOrdered(db.jobs, n);
      forall k | 0 <= k < |smaller.jobs| && Closing(smaller.jobs[k].state)
        ensures smaller.jobs[k].id in smaller.results
      {
        var m := if k < n then k else k + 1;
        assert smaller.jobs[k] == db.jobs[m];
        OrderedDiffer(db.jobs, m, n);
      }
      PruneKeepsWhole(smaller, ids[1..], done - 1);
    }
  }

  lemma OrderedDiffer(jobs: seq<Job>, m: nat, n: nat)
    requires Ordered(jobs) && m < |jobs| && n < |jobs| && m != n
    ensures jobs[m].id != jobs[n].id
  {
  }

  lemma StepKeepsWhole(cfg: Config, s: Solo, step: SoloStep)
    requires cfg.Valid() && Books(cfg, s) && Whole(s.db) && !Tears(step)
    ensures Whole(SoloNext(cfg, s, step).db)
  {
    hide Books, Append, Requeue, Sort, EligibleFrom, PruneAll, PruneSome;
    BooksAreSafe(cfg, s);
    SafeIsOrdered(cfg, s.db);
    match step {
      case Submit(id, at) =>
        if Enqueue(cfg, s.db, id, at).1 {
          InsertOrdered(s.db.jobs, NewJob(id, at));
          var after := InsertJob(s.db.jobs, NewJob(id, at));
          assert forall k :: 0 <= k < |after| ==> after[k] in after;
        }
      case Clean(before, limit) =>
        var ids := EligibleFrom(Sort(s.db.jobs, Older), before, limit);
        WholePrune(s.db, ids);
        PruneKeepsWhole(s.db, ids, |ids|);
      case CleanStopped(before, limit, done, half) =>
        PruneKeepsWhole(s.db, EligibleFrom(Sort(s.db.jobs, Older), before, limit), done);
      case Take(now) => TakeKeepsWhole(cfg, s, step);
      case TakeStopped(now, seen) => TakeKeepsWhole(cfg, s, step);
      case _ => EndingKeepsWhole(cfg, s, step);
    }
  }

  lemma TakeKeepsWhole(cfg: Config, s: Solo, step: SoloStep)
    requires Ordered(s.db.jobs) && Whole(s.db) && Takes(step)
    ensures Whole(SoloNext(cfg, s, step).db)
  {
    hide Requeue;
    RecoverFrozen(cfg, step.now, s.db.jobs, 0,
                  if step.TakeStopped? && step.seen < |s.db.jobs| then step.seen else |s.db.jobs|);
  }

  lemma EndingKeepsWhole(cfg: Config, s: Solo, step: SoloStep)
    requires Whole(s.db) && !step.Submit? && !Takes(step) && !Cleans(step)
    ensures Whole(SoloNext(cfg, s, step).db)
  {
    if step.Conclude? && s.inFlight.Some? && Find(s.db.jobs, s.inFlight.value).Some? {
      var written := WriteResult(s.db, s.inFlight.value, step.digest).0;
      assert Whole(written);
    }
  }

  /** In a history of a single runner where no prune stops between the two removals of a
      record, every verdict has its result on disk. */
  lemma {:induction false} VerdictsKeepResults(cfg: Config, s: Solo, steps: seq<SoloStep>)
    requires cfg.Valid() && Books(cfg, s) && Whole(s.db)
    requires forall i :: 0 <= i < |steps| ==> !Tears(steps[i])
    ensures Whole(SoloRun(cfg, s, steps).db)
    decreases |steps|
  {
    hide Books, SoloNext, Whole, Tears;
    if steps != [] {
      SoloStepKeepsBooks(cfg, s, steps[0]);
      StepKeepsWhole(cfg, s, steps[0]);
      VerdictsKeepResults(cfg, SoloNext(cfg, s, steps[0]), steps[1..]);
    }
  }

  // ----- Metrics -----

  datatype Metrics = Metrics(total: nat, pending: nat, running: nat, certified: nat, refused: nat, failed: nat,
                             recoveries: nat, attempts: nat)

  function Add(m: Metrics, job: Job): Metrics {
    var counted := m.(total := m.total + 1, recoveries := m.recoveries + Recoveries(job.events),
                      attempts := m.attempts + job.attempts);
    match job.state
    case Pending => counted.(pending := m.pending + 1)
    case Running => counted.(running := m.running + 1)
    case Certified => counted.(certified := m.certified + 1)
    case Refused => counted.(refused := m.refused + 1)
    case Failed => counted.(failed := m.failed + 1)
  }

  function Measure(jobs: seq<Job>): Metrics {
    if jobs == [] then Metrics(0, 0, 0, 0, 0, 0, 0, 0) else Add(Measure(jobs[..|jobs| - 1]), jobs[|jobs| - 1])
  }

  /** Conservation: every attempt ever made was either recovered after a restart or belongs
      to a job that is not pending. */
  lemma {:induction false} AttemptsAreConserved(cfg: Config, jobs: seq<Job>)
    requires forall k :: 0 <= k < |jobs| ==> Balanced(cfg, jobs[k])
    ensures var m := Measure(jobs);
            && m.attempts == m.recoveries + m.running + m.certified + m.refused + m.failed
            && m.total == m.pending + m.running + m.certified + m.refused + m.failed == |jobs|
            && m.pending + m.running == QueuedCount(jobs)
  {
    hide Recoveries;
    if jobs != [] {
      AttemptsAreConserved(cfg, jobs[..|jobs| - 1]);
      assert Balanced(cfg, jobs[|jobs| - 1]);
    }
  }

  // ----- What a claim reports -----

  /** The jobs a recovery pass makes pending again: the count `claim_next` hands on. */
  function Restarts(cfg: Config, now: nat, jobs: seq<Job>): nat {
    if jobs == [] then 0
    else (if Expired(jobs[0], now) && jobs[0].attempts < cfg.maxAttempts then 1 else 0) + Restarts(cfg, now, jobs[1..])
  }

  lemma {:induction false} ReplaceMeasure(jobs: seq<Job>, k: nat, job: Job)
    requires k < |jobs|
    ensures Measure(jobs[k := job]).recoveries + Recoveries(jobs[k].events)
         == Measure(jobs).recoveries + Recoveries(job.events)
  {
    hide Recoveries;
    var n, after := |jobs| - 1, jobs[k := job];
    if k < n {
      ReplaceMeasure(jobs[..n], k, job);
      assert after[..n] == jobs[..n][k := job];
    } else {
      assert after[..n] == jobs[..n];
    }
  }

  lemma RequeueCounts(cfg: Config, now: nat, job: Job)
    requires cfg.Valid() && Balanced(cfg, job)
    ensures Requeue(cfg, now, job).Some?
    ensures var r := Requeue(cfg, now, job).value;
            Recoveries(r.events) == Recoveries(job.events) + Restarts(cfg, now, [job])
    ensures Restarts(cfg, now, [job]) > 0 ==> Requeue(cfg, now, job).value.state.Pending?
  {
    hide Append, Recoveries;
    BalancedFits(cfg, job);
    AppendBalance(job.(state := Failed, lease := None), now, AttemptsExhausted);
    AppendBalance(job.(state := Pending, lease := None), now, RecoveredAfterRestart);
    assert [job][1..] == [];
  }

  /** The pass adds as many restart recoveries to the books as it counts, and when it counts
      any, some job is pending afterwards. */
  lemma {:induction false} RecoverCounts(cfg: Config, now: nat, jobs: seq<Job>, k: nat, results: map<JobId, ResultDigest>)
    requires cfg.Valid() && AllBooked(cfg, jobs, results) && k <= |jobs|
    ensures var after := RecoverFrom(cfg, now, jobs, k, |jobs|).0;
            && Measure(after).recoveries == Measure(jobs).recoveries + Restarts(cfg, now, jobs[k..])
            && (Restarts(cfg, now, jobs[k..]) > 0 ==> exists i :: 0 <= i < |after| && after[i].state.Pending?)
    ensures |RecoverFrom(cfg, now, jobs, k, |jobs|).0| == |jobs|
    ensures forall i :: 0 <= i < k ==> RecoverFrom(cfg, now, jobs, k, |jobs|).0[i] == jobs[i]
    decreases |jobs| - k
  {
    hide Balanced, Backed, Requeue, Recoveries, Measure, Expired;
    if k < |jobs| {
      RequeueBalances(cfg, now, jobs[k], results);
      RequeueCounts(cfg, now, jobs[k]);
      var next := jobs[k := Requeue(cfg, now, jobs[k]).value];
      RecoverCounts(cfg, now, next, k + 1, results);
      ReplaceMeasure(jobs, k, next[k]);
      assert next[k + 1..] == jobs[k..][1..];
      assert Restarts(cfg, now, jobs[k..]) == Restarts(cfg, now, [jobs[k]]) + Restarts(cfg, now, next[k + 1..]) by {
        assert [jobs[k]][1..] == [];
      }
      assert RecoverFrom(cfg, now, jobs, k, |jobs|).0[k] == next[k];
    }
  }

  /** A claim reports exactly the recoveries its pass added to the metrics; a pass that hands
      out nothing added none. */
  lemma ClaimCounts(cfg: Config, db: Db, now: nat)
    requires cfg.Valid() && Books(cfg, Solo(db, None))
    ensures var (after, claim) := ClaimNext(cfg, db, now);
            Measure(after.jobs).recoveries
            == Measure(db.jobs).recoveries + if claim.Took? then Restarts(cfg, now, db.jobs) else 0
  {
    hide Balanced, Backed, Requeue, Recoveries, Measure, Restarts, Safe, Start;
    if |db.jobs| <= MAX_JOBS {
      assert AllBooked(cfg, db.jobs, db.results);
      RecoverBalances(cfg, now, db.jobs, 0, |db.jobs|, db.results);
      RecoverCounts(cfg, now, db.jobs, 0, db.results);
      assert db.jobs[0..] == db.jobs;
      var jobs := RecoverFrom(cfg, now, db.jobs, 0, |db.jobs|).0;
      if Oldest(jobs).Some? {
        var k := Oldest(jobs).value;
        StartBalances(cfg, now, jobs[k], db.results);
        StartCounts(cfg, now, jobs[k]);
        ReplaceMeasure(jobs, k, Start(cfg, now, jobs[k]).value);
      }
    }
  }

  lemma StartCounts(cfg: Config, now: nat, job: Job)
    requires Start(cfg, now, job).Some?
    ensures Recoveries(Start(cfg, now, job).value.events) == Recoveries(job.events)
  {
    assert |job.events| < MAX_EVENTS;
    hide Append, Recoveries;
    AppendBalance(job.(state := Running, attempts := job.attempts + 1,
                       lease := Some(SaturatingAdd(now, cfg.leaseSeconds))), now, Claimed);
  }

  /** However a claimed job ends, no recovery is added. */
  lemma EndingCounts(cfg: Config, s: Solo, step: SoloStep)
    requires Ordered(s.db.jobs) && !step.Submit? && !Takes(step) && !Cleans(step)
    ensures Measure(SoloNext(cfg, s, step).db.jobs).recoveries == Measure(s.db.jobs).recoveries
  {
    hide Recoveries, Measure, Append;
    if s.inFlight.Some? && Find(s.db.jobs, s.inFlight.value).Some? && (step.Conclude? || step.Abandon?) {
      var id := s.inFlight.value;
      var k, after := Find(s.db.jobs, id).value, SoloNext(cfg, s, step).db.jobs;
      if step.Conclude? {
        FinishReplacesOne(WriteResult(s.db, id, step.digest).0, id, step.now, step.certified, step.digest);
      } else {
        FinishFailedReplacesOne(s.db, id, step.now, if step.changed then WorkspaceChanged else ResultBoundExceeded);
      }
      assert Recoveries(after[k].events) == Recoveries(s.db.jobs[k].events) by {
        EndingAppends(cfg, s, step, k);
      }
      ReplaceMeasure(s.db.jobs, k, after[k]);
    }
  }

  lemma EndingAppends(cfg: Config, s: Solo, step: SoloStep, k: nat)
    requires s.inFlight.Some? && Find(s.db.jobs, s.inFlight.value) == Some(k) && (step.Conclude? || step.Abandon?)
    ensures k < |SoloNext(cfg, s, step).db.jobs|
    ensures Recoveries(SoloNext(cfg, s, step).db.jobs[k].events) == Recoveries(s.db.jobs[k].events)
  {
    hide Append, Recoveries;
    var job := s.db.jobs[k];
    if |job.events| < MAX_EVENTS {
      if step.Conclude? {
        AppendBalance(Closed(job, step.certified, step.digest), step.now, VerdictKind(step.certified));
      } else {
        AppendBalance(job.(state := Failed, lease := None), step.now, if step.changed then WorkspaceChanged else ResultBoundExceeded);
      }
    } else {
      FullChain(job, step.now);
    }
  }

  lemma FullChain(job: Job, now: nat)
    requires |job.events| >= MAX_EVENTS
    ensures forall j: Job, kind :: j.events == job.events ==> Append(j, now, kind).None?
  {
  }

  // ----- Where pruning stops -----

  function Record(db: Db, id: JobId): Job
    requires Find(db.jobs, id).Some?
  {
    db.jobs[Find(db.jobs, id).value]
  }

  /** A finished job whose result is on disk although its record names none, or names one that
      is not on disk. */
  predicate Leftover(db: Db, id: JobId) {
    && Find(db.jobs, id).Some? && Record(db, id).state.Terminal()
    && (id in db.results <==> Record(db, id).result.None?)
  }

  /** With the books in order a terminal record resists pruning exactly when it failed after
      an earlier attempt had already written its result, or when it holds a verdict whose
      result is gone. */
  lemma PruneRefusesLeftovers(cfg: Config, s: Solo, k: nat)
    requires Books(cfg, s) && k < |s.db.jobs| && s.db.jobs[k].state.Terminal()
    ensures var id := s.db.jobs[k].id;
            && (PruneOne(s.db, id).None? <==> if s.db.jobs[k].state.Failed? then id in s.db.results else id !in s.db.results)
            && (PruneOne(s.db, id).None? <==> Leftover(s.db, id))
  {
    hide Balanced, JobOk, QueuedCount;
    FoundAt(s.db.jobs, k);
    assert Backed(s.db.jobs[k], s.db.results);
  }

  lemma {:induction false} StepAppends(cfg: Config, s: Solo, steps: seq<SoloStep>, step: SoloStep)
    ensures SoloRun(cfg, s, steps + [step]) == SoloNext(cfg, SoloRun(cfg, s, steps), step)
    decreases |steps|
  {
    hide SoloNext;
    if steps == [] {
      assert steps + [step] == [step] && [step][1..] == [];
      assert SoloRun(cfg, SoloNext(cfg, s, step), []) == SoloNext(cfg, s, step);
    } else {
      StepAppends(cfg, SoloNext(cfg, s, steps[0]), steps[1..], step);
      assert (steps + [step])[1..] == steps[1..] + [step];
    }
  }

  /** Such records arise under every configuration. Of the first kind: a runner stops between
      writing a result and recording its verdict, and the next attempt fails, or there is none
      left. */
  lemma LeftoversHappen(cfg: Config) returns (steps: seq<SoloStep>)
    requires cfg.Valid()
    ensures var db := SoloRun(cfg, Solo(EMPTY, None), steps).db;
            |db.jobs| == 1 && db.jobs[0].state.Failed? && PruneOne(db, db.jobs[0].id).None?
  {
    hide SaturatingAdd, SoloRun, SoloNext;
    var now := cfg.leaseSeconds;
    steps := [Submit(0, 0), Take(0), StopAfterWrite(7), Take(now)];
    var started := ClaimedFirst(cfg);
    var stopped := Solo(Db([started], map[0 := 7]), None);
    assert SoloRun(cfg, Solo(EMPTY, None), steps[..3]) == stopped by {
      assert SoloNext(cfg, Solo(Db([started], map[]), Some(0)), StopAfterWrite(7)) == stopped by {
        WritesAndStops(cfg, started);
      }
      assert steps[..3] == [Submit(0, 0), Take(0)] + [StopAfterWrite(7)];
      StepAppends(cfg, Solo(EMPTY, None), [Submit(0, 0), Take(0)], StopAfterWrite(7));
    }
    assert steps == steps[..3] + [Take(now)];
    StepAppends(cfg, Solo(EMPTY, None), steps[..3], Take(now));
    if cfg.maxAttempts == 1 {
      TakeNothing(cfg, started, map[0 := 7], now);
    } else {
      var again := Start(cfg, now, Requeue(cfg, now, started).value).value;
      TakeAlone(cfg, started, map[0 := 7], now);
      StepAppends(cfg, Solo(EMPTY, None), steps, Abandon(now, true));
      AbandonAlone(cfg, again, map[0 := 7], now);
      steps := steps + [Abandon(now, true)];
    }
  }

  /** Of the second kind: a prune stops between removing the result of a certified job and
      removing its record. */
  lemma TornPrunesHappen(cfg: Config) returns (steps: seq<SoloStep>)
    requires cfg.Valid()
    ensures var db := SoloRun(cfg, Solo(EMPTY, None), steps).db;
            |db.jobs| == 1 && db.jobs[0].state.Certified? && PruneOne(db, db.jobs[0].id).None?
  {
    hide SoloRun, SoloNext;
    var started := ClaimedFirst(cfg);
    var claimed := [Submit(0, 0), Take(0)];
    var done := ConcludeAlone(cfg, started);
    StepAppends(cfg, Solo(EMPTY, None), claimed, Conclude(0, true, 7));
    StepAppends(cfg, Solo(EMPTY, None), claimed + [Conclude(0, true, 7)], CleanStopped(1, 1, 0, true));
    TearAlone(cfg, done);
    steps := claimed + [Conclude(0, true, 7)] + [CleanStopped(1, 1, 0, true)];
    assert Find([done], 0) == Some(0);
  }

  lemma ConcludeAlone(cfg: Config, job: Job) returns (done: Job)
    requires job.id == 0 && job.state.Running? && |job.events| < MAX_EVENTS
    ensures SoloNext(cfg, Solo(Db([job], map[]), Some(0)), Conclude(0, true, 7)) == Solo(Db([done], map[0 := 7]), None)
    ensures done.id == 0 && done.submitted == job.submitted && done.state.Certified? && done.result == Some(7)
  {
    assert Find([job], 0) == Some(0);
    done := Append(Closed(job, true, 7), 0, CertifiedEvent).value;
    assert [job][0 := done] == [done];
  }

  lemma TearAlone(cfg: Config, job: Job)
    requires job.id == 0 && job.submitted == 0 && job.state.Terminal() && job.result == Some(7)
    ensures SoloNext(cfg, Solo(Db([job], map[0 := 7]), None), CleanStopped(1, 1, 0, true)) == Solo(Db([job], map[]), None)
  {
    var db := Db([job], map[0 := 7]);
    assert Find([job], 0) == Some(0);
    assert Sort([job], Older) == [job] by {
      SortPermutes([job], Older);
      assert Sort([job], Older)[0] in multiset(Sort([job], Older));
    }
    assert EligibleFrom([job], 1, 1) == [0];
    assert DropResult(db, 0).results == map[];
  }

  lemma WritesAndStops(cfg: Config, job: Job)
    ensures SoloNext(cfg, Solo(Db([job], map[]), Some(0)), StopAfterWrite(7)) == Solo(Db([job], map[0 := 7]), None)
  {
  }

  /** The first claim of the first job of a store, and when its lease ends. */
  lemma ClaimedFirst(cfg: Config) returns (started: Job)
    requires cfg.Valid()
    ensures SoloRun(cfg, Solo(EMPTY, None), [Submit(0, 0), Take(0)]) == Solo(Db([started], map[]), Some(0))
    ensures started.id == 0 && started.state.Running? && started.attempts == 1 && started.result.None?
    ensures started.lease == Some(cfg.leaseSeconds) && |started.events| == 2 && started.submitted == 0
  {
    var first := NewJob(0, 0);
    var submitted := Solo(Db([first], map[]), None);
    assert QueuedCount([]) == 0;
    assert SoloNext(cfg, Solo(EMPTY, None), Submit(0, 0)) == submitted;
    started := Start(cfg, 0, first).value;
    TakeAlone(cfg, first, map[], 0);
    StepAppends(cfg, Solo(EMPTY, None), [], Submit(0, 0));
    StepAppends(cfg, Solo(EMPTY, None), [Submit(0, 0)], Take(0));
    assert [] + [Submit(0, 0)] == [Submit(0, 0)] && [Submit(0, 0)] + [Take(0)] == [Submit(0, 0), Take(0)];
  }

  /** A claim on a store of one record that its recovery pass makes, or leaves, pending. */
  lemma TakeAlone(cfg: Config, job: Job, results: map<JobId, ResultDigest>, now: nat)
    requires Requeue(cfg, now, job).Some? && Requeue(cfg, now, job).value.state.Pending?
    requires Start(cfg, now, Requeue(cfg, now, job).value).Some?
    ensures var started := Start(cfg, now, Requeue(cfg, now, job).value).value;
            SoloNext(cfg, Solo(Db([job], results), None), Take(now)) == Solo(Db([started], results), Some(started.id))
  {
    hide Requeue, Start;
    var pending := Requeue(cfg, now, job).value;
    assert [job][0 := pending] == [pending] && RecoverFrom(cfg, now, [pending], 1, 1) == ([pending], true);
    assert RecoverFrom(cfg, now, [job], 0, 1) == ([pending], true);
    assert [pending][..0] == [] && Oldest([pending]) == Some(0);
    var started := Start(cfg, now, pending).value;
    assert [pending][0 := started] == [started];
  }

  /** A claim on a store of one record that its recovery pass makes, or leaves, not pending. */
  lemma TakeNothing(cfg: Config, job: Job, results: map<JobId, ResultDigest>, now: nat)
    requires Requeue(cfg, now, job).Some? && !Requeue(cfg, now, job).value.state.Pending?
    ensures SoloNext(cfg, Solo(Db([job], results), None), Take(now))
         == Solo(Db([Requeue(cfg, now, job).value], results), None)
  {
    hide Requeue;
    var left := Requeue(cfg, now, job).value;
    assert [job][0 := left] == [left] && RecoverFrom(cfg, now, [left], 1, 1) == ([left], true);
    assert RecoverFrom(cfg, now, [job], 0, 1) == ([left], true);
    assert Oldest([left]).None?;
  }

  lemma AbandonAlone(cfg: Config, job: Job, results: map<JobId, ResultDigest>, now: nat)
    requires |job.events| < MAX_EVENTS
    ensures var after := SoloNext(cfg, Solo(Db([job], results), Some(job.id)), Abandon(now, true));
            && after.db.results == results && after.inFlight.None? && |after.db.jobs| == 1
            && after.db.jobs[0].id == job.id && after.db.jobs[0].state.Failed?
            && after.db.jobs[0].result == job.result
  {
    assert Find([job], job.id) == Some(0);
  }

  // ----- A leftover stays, and holds up what is behind it -----

  /** Pruning another record touches nothing of this one. */
  lemma PruneOneElsewhere(db: Db, id: JobId, other: JobId)
    requires Ordered(db.jobs) && Find(db.jobs, id).Some? && other != id && PruneOne(db, other).Some?
    ensures var after := PruneOne(db, other).value;
            && Ordered(after.jobs)
            && Find(after.jobs, id).Some? && Record(after, id) == Record(db, id)
            && (id in after.results <==> id in db.results)
            && (id in db.results ==> after.results[id] == db.results[id])
  {
    var n, k, after := Find(db.jobs, other).value, Find(db.jobs, id).value, PruneOne(db, other).value;
    hide Ordered;
    WithoutOrdered(db.jobs, n);
    Removed(db.jobs, n, k);
    FoundAt(after.jobs, if k < n then k else k - 1);
  }

  lemma WithoutOrdered(jobs: seq<Job>, n: nat)
    requires Ordered(jobs) && n < |jobs|
    ensures Ordered(jobs[..n] + jobs[n + 1..])
  {
    var after := jobs[..n] + jobs[n + 1..];
    assert forall i :: 0 <= i < |after| ==> after[i] == jobs[if i < n then i else i + 1];
  }

  /** Every prune whose list reaches a leftover refuses there: the leftover and every record
      listed behind it keep their place, and their results. */
  lemma {:induction false} PruneStopsAtLeftover(db: Db, ids: seq<JobId>, j: nat, id: JobId)
    requires Ordered(db.jobs) && NoDuplicates(ids) && j < |ids| && Leftover(db, ids[j])
    requires id in ids[j..] && Find(db.jobs, id).Some?
    ensures !PruneAll(db, ids).1
    ensures var after := PruneAll(db, ids).0;
            && Find(after.jobs, id).Some? && Record(after, id) == Record(db, id)
            && (id in after.results <==> id in db.results)
            && (id in db.results ==> after.results[id] == db.results[id])
    decreases |ids|
  {
    if j > 0 && PruneOne(db, ids[0]).Some? {
      var k :| j <= k < |ids| && ids[k] == id;
      assert ids[0] != ids[j] && ids[0] != id;
      PruneOneElsewhere(db, id, ids[0]);
      PruneOneElsewhere(db, ids[j], ids[0]);
      assert ids[1..][j - 1] == ids[j] && ids[1..][j - 1..] == ids[j..];
      PruneStopsAtLeftover(PruneOne(db, ids[0]).value, ids[1..], j - 1, id);
    }
  }

  lemma EligibleDistinct(jobs: seq<Job>, sorted: seq<Job>, before: nat, limit: nat)
    requires forall i, j :: 0 <= i < j < |sorted| ==> sorted[i].id != sorted[j].id
    requires forall i :: 0 <= i < |sorted| ==> Find(jobs, sorted[i].id).Some?
    ensures NoDuplicates(EligibleFrom(sorted, before, limit))
    ensures forall id :: id in EligibleFrom(sorted, before, limit) ==>
              Find(jobs, id).Some? && exists i :: 0 <= i < |sorted| && sorted[i].id == id
    decreases |sorted|
  {
    if sorted != [] && limit > 0 {
      var eligible := sorted[0].submitted < before && sorted[0].state.Terminal();
      var rest := EligibleFrom(sorted[1..], before, if eligible then limit - 1 else limit);
      EligibleDistinct(jobs, sorted[1..], before, if eligible then limit - 1 else limit);
      forall id | id in rest
        ensures Find(jobs, id).Some? && id != sorted[0].id && exists i :: 0 <= i < |sorted| && sorted[i].id == id
      {
        var i :| 0 <= i < |sorted[1..]| && sorted[1..][i].id == id;
        assert sorted[i + 1].id == id;
      }
      assert eligible ==> EligibleFrom(sorted, before, limit) == [sorted[0].id] + rest;
    }
  }

  lemma SortedIdsDiffer(jobs: seq<Job>)
    requires Ordered(jobs)
    ensures var sorted := Sort(jobs, Older);
            && (forall i, j :: 0 <= i < j < |sorted| ==> sorted[i].id != sorted[j].id)
            && (forall i :: 0 <= i < |sorted| ==> Find(jobs, sorted[i].id).Some?)
  {
    var sorted := Sort(jobs, Older);
    SortIncreasing(jobs, Older);
    hide Sort;
    forall i | 0 <= i < |sorted|
      ensures Find(jobs, sorted[i].id).Some?
    {
      var k := SortedFrom(jobs, i);
      FoundAt(jobs, k);
    }
    forall i, j | 0 <= i < j < |sorted|
      ensures sorted[i].id != sorted[j].id
    {
      var m := SortedFrom(jobs, i);
      var n := SortedFrom(jobs, j);
      assert Older(sorted[i], sorted[j]) && m != n;
    }
  }

  /** So one leftover holds up every record that is pruned after it: a prune whose list, oldest
      first, reaches it refuses, and leaves it and all younger ones where they are. */
  lemma LeftoverHoldsUpPrune(db: Db, before: nat, limit: nat, j: nat, i: nat)
    requires Ordered(db.jobs) && |db.jobs| <= MAX_JOBS && 1 <= limit <= 256
    requires j <= i < |EligibleFrom(Sort(db.jobs, Older), before, limit)|
    requires Leftover(db, EligibleFrom(Sort(db.jobs, Older), before, limit)[j])
    ensures var id := EligibleFrom(Sort(db.jobs, Older), before, limit)[i];
            var (after, ok) := Prune(db, before, limit);
            && !ok
            && Find(db.jobs, id).Some? && Find(after.jobs, id).Some? && Record(after, id) == Record(db, id)
            && (id in after.results <==> id in db.results)
            && (id in db.results ==> after.results[id] == db.results[id])
  {
    hide EligibleFrom, Sort, Leftover, PruneAll;
    SortedIdsDiffer(db.jobs);
    EligibleDistinct(db.jobs, Sort(db.jobs, Older), before, limit);
    var ids := EligibleFrom(Sort(db.jobs, Older), before, limit);
    assert ids[j..][i - j] == ids[i] && ids[i] in ids;
    PruneStopsAtLeftover(db, ids, j, ids[i]);
  }

  /** No prune removes a leftover, wherever it stops. */
  lemma {:induction false} PruneKeepsLeftover(db: Db, ids: seq<JobId>, done: nat, half: bool, id: JobId)
    requires Ordered(db.jobs) && Leftover(db, id)
    ensures var after := PruneSome(db, ids, done, half); Leftover(after, id) && Record(after, id) == Record(db, id)
    decreases |ids|
  {
    if ids != [] && done > 0 && PruneOne(db, ids[0]).Some? {
      assert ids[0] != id;
      PruneOneElsewhere(db, id, ids[0]);
      PruneKeepsLeftover(PruneOne(db, ids[0]).value, ids[1..], done - 1, half, id);
    }
  }

  /** A leftover is for good: it outlives every history of a single runner. */
  lemma {:induction false} LeftoverStays(cfg: Config, s: Solo, steps: seq<SoloStep>, id: JobId)
    requires cfg.Valid() && Books(cfg, s) && Leftover(s.db, id)
    ensures var after := SoloRun(cfg, s, steps); Leftover(after.db, id) && Record(after.db, id) == Record(s.db, id)
    decreases |steps|
  {
    hide Books, SoloNext, Leftover, Record;
    if steps != [] {
      LeftoverStep(cfg, s, steps[0], id);
      SoloStepKeepsBooks(cfg, s, steps[0]);
      LeftoverStays(cfg, SoloNext(cfg, s, steps[0]), steps[1..], id);
    }
  }

  lemma LeftoverStep(cfg: Config, s: Solo, step: SoloStep, id: JobId)
    requires cfg.Valid() && Books(cfg, s) && Leftover(s.db, id)
    ensures var after := SoloNext(cfg, s, step); Leftover(after.db, id) && Record(after.db, id) == Record(s.db, id)
  {
    hide Books, Append, ClaimNext, ClaimStopped, Frozen, PruneAll, PruneSome, EligibleFrom, Sort;
    BooksAreSafe(cfg, s);
    SafeIsOrdered(cfg, s.db);
    var after := SoloNext(cfg, s, step);
    SoloVerdictsAreFinal(cfg, s, step);
    SoloStepKeepsBooks(cfg, s, step);
    BooksAreSafe(cfg, after);
    SafeIsOrdered(cfg, after.db);
    if Cleans(step) {
      var ids := EligibleFrom(Sort(s.db.jobs, Older), step.before, step.limit);
      WholePrune(s.db, ids);
      PruneKeepsLeftover(s.db, ids, if step.Clean? then |ids| else step.done, step.CleanStopped? && step.half, id);
    } else {
      var k := OthersKeepIds(cfg, s, step, id);
      var i := Find(s.db.jobs, id).value;
      FrozenAt(s.db.jobs, after.db.jobs, i, k);
      FoundAt(after.db.jobs, k);
      ResultsStay(cfg, s, step, id);
    }
  }

  lemma FrozenAt(a: seq<Job>, b: seq<Job>, i: nat, j: nat)
    requires Frozen(a, b) && i < |a| && j < |b| && a[i].id == b[j].id && a[i].state.Terminal()
    ensures b[j] == a[i]
  {
  }

  /** Only pruning takes a result away, and a finished job is given none. */
  lemma ResultsStay(cfg: Config, s: Solo, step: SoloStep, id: JobId)
    requires Books(cfg, s) && !Cleans(step)
    requires Find(s.db.jobs, id).Some? && Record(s.db, id).state.Terminal()
    ensures id in SoloNext(cfg, s, step).db.results <==> id in s.db.results
  {
    hide Append, RecoverFrom, Oldest, Start, Safe, Balanced, Backed, Find, Requeue, InsertJob, QueuedCount;
  }

  /** Only pruning takes a record away. */
  lemma OthersKeepIds(cfg: Config, s: Solo, step: SoloStep, id: JobId) returns (k: nat)
    requires Ordered(s.db.jobs) && Find(s.db.jobs, id).Some? && !Cleans(step)
    ensures k < |SoloNext(cfg, s, step).db.jobs| && SoloNext(cfg, s, step).db.jobs[k].id == id
  {
    hide Requeue, Ordered;
    var i, after := Find(s.db.jobs, id).value, SoloNext(cfg, s, step).db.jobs;
    hide Find, InsertJob, Append, QueuedCount, Oldest;
    k := i;
    match step {
      case Submit(new_, at) =>
        if Enqueue(cfg, s.db, new_, at).1 {
          k := InsertKeeps(s.db.jobs, NewJob(new_, at), i);
        }
      case Take(now) => RecoverFrozen(cfg, now, s.db.jobs, 0, |s.db.jobs|);
      case TakeStopped(now, seen) => RecoverFrozen(cfg, now, s.db.jobs, 0, if seen < |s.db.jobs| then seen else |s.db.jobs|);
      case Conclude(now, certified, digest) =>
        if s.inFlight.Some? && Find(s.db.jobs, s.inFlight.value).Some? {
          FinishReplacesOne(WriteResult(s.db, s.inFlight.value, digest).0, s.inFlight.value, now, certified, digest);
        }
      case Abandon(now, changed) =>
        if s.inFlight.Some? && Find(s.db.jobs, s.inFlight.value).Some? {
          FinishFailedReplacesOne(s.db, s.inFlight.value, now, if changed then WorkspaceChanged else ResultBoundExceeded);
        }
      case _ =>
    }
  }

  lemma {:induction false} InsertKeeps(jobs: seq<Job>, job: Job, i: nat) returns (k: nat)
    requires i < |jobs|
    ensures k < |InsertJob(jobs, job)| && InsertJob(jobs, job)[k] == jobs[i]
  {
    if job.id < jobs[0].id {
      k := i + 1;
    } else if i == 0 {
      k := 0;
    } else {
      k := InsertKeeps(jobs[1..], job, i - 1);
      k := k + 1;
    }
  }

  // ----- Each terminal state is final for a single runner, and only then -----

  /** Terminal records that survive are untouched. */
  ghost predicate Frozen(a: seq<Job>, b: seq<Job>) {
    forall i, j :: 0 <= i < |a| && 0 <= j < |b| && a[i].id == b[j].id && a[i].state.Terminal() ==> b[j] == a[i]
  }

  lemma ReplaceFrozen(jobs: seq<Job>, k: nat, job: Job)
    requires Ordered(jobs) && k < |jobs| && job.id == jobs[k].id
    requires jobs[k].state.Terminal() ==> job == jobs[k]
    ensures Ordered(jobs[k := job]) && Frozen(jobs, jobs[k := job])
  {
    var after := jobs[k := job];
    forall i, j | 0 <= i < |jobs| && 0 <= j < |after| && jobs[i].id == after[j].id && jobs[i].state.Terminal()
      ensures after[j] == jobs[i]
    {
      assert i == j;
    }
  }

  lemma SubsetFrozen(a: seq<Job>, b: seq<Job>)
    requires Ordered(a) && forall j :: j in b ==> j in a || forall k :: 0 <= k < |a| ==> a[k].id != j.id
    ensures Frozen(a, b)
  {
    forall i, j | 0 <= i < |a| && 0 <= j < |b| && a[i].id == b[j].id && a[i].state.Terminal()
      ensures b[j] == a[i]
    {
      assert b[j] in b && b[j] in a;
      var k :| 0 <= k < |a| && a[k] == b[j];
      assert k == i;
    }
  }

  /** The recovery pass touches no finished record, and gives no verdict. */
  lemma {:induction false} RecoverFrozen(cfg: Config, now: nat, jobs: seq<Job>, k: nat, end: nat)
    requires Ordered(jobs) && k <= end <= |jobs|
    ensures var after := RecoverFrom(cfg, now, jobs, k, end).0;
            && SameIds(jobs, after)
            && (forall i :: 0 <= i < |jobs| && jobs[i].state.Terminal() ==> after[i] == jobs[i])
            && (forall i :: 0 <= i < |jobs| && (after[i].state.Certified? || after[i].state.Refused?) ==> after[i] == jobs[i])
    decreases end - k
  {
    if k < end && Requeue(cfg, now, jobs[k]).Some? {
      RecoverFrozen(cfg, now, jobs[k := Requeue(cfg, now, jobs[k]).value], k + 1, end);
    }
  }

  lemma TakeFrozen(cfg: Config, s: Solo, step: SoloStep)
    requires Ordered(s.db.jobs) && s.inFlight.None? && Takes(step)
    ensures Frozen(s.db.jobs, SoloNext(cfg, s, step).db.jobs)
  {
    hide Requeue;
    RecoverFrozen(cfg, step.now, s.db.jobs, 0,
                  if step.TakeStopped? && step.seen < |s.db.jobs| then step.seen else |s.db.jobs|);
    var after := SoloNext(cfg, s, step).db.jobs;
    assert SameIds(s.db.jobs, after);
    forall i, j | 0 <= i < |s.db.jobs| && 0 <= j < |after| && s.db.jobs[i].id == after[j].id && s.db.jobs[i].state.Terminal()
      ensures after[j] == s.db.jobs[i]
    {
      assert i == j;
    }
  }

  /** With one runner at a time a finished record never changes again: certified stays
      certified, refused refused and failed failed, until it is pruned. */
  lemma SoloVerdictsAreFinal(cfg: Config, s: Solo, step: SoloStep)
    requires cfg.Valid() && Books(cfg, s)
    ensures Frozen(s.db.jobs, SoloNext(cfg, s, step).db.jobs)
  {
    hide Balanced, Backed, JobOk, QueuedCount, Append, ClaimNext, ClaimStopped, PruneAll, PruneSome;
    BooksAreSafe(cfg, s);
    SafeIsOrdered(cfg, s.db);
    var jobs := s.db.jobs;
    SubsetFrozen(jobs, jobs);
    match step {
      case Submit(id, at) =>
        if Enqueue(cfg, s.db, id, at).1 {
          InsertOrdered(jobs, NewJob(id, at));
          SubsetFrozen(jobs, InsertJob(jobs, NewJob(id, at)));
        }
      case Clean(before, limit) =>
        if 1 <= limit <= 256 && |jobs| <= MAX_JOBS {
          PruneOk(cfg, s.db, EligibleFrom(Sort(jobs, Older), before, limit));
          SubsetFrozen(jobs, SoloNext(cfg, s, step).db.jobs);
        }
      case Take(now) => if s.inFlight.None? { TakeFrozen(cfg, s, step); }
      case TakeStopped(now, seen) => if s.inFlight.None? { TakeFrozen(cfg, s, step); }
      case CleanStopped(before, limit, done, half) =>
        PruneSomeOk(cfg, s.db, EligibleFrom(Sort(jobs, Older), before, limit), done, half);
        SubsetFrozen(jobs, SoloNext(cfg, s, step).db.jobs);
      case Conclude(now, certified, digest) => if s.inFlight.Some? { InFlightFrozen(cfg, s, step); }
      case Abandon(now, changed) => if s.inFlight.Some? { InFlightFrozen(cfg, s, step); }
      case StopRunner =>
      case StopAfterWrite(digest) =>
    }
  }

  lemma FinishReplacesOne(db: Db, id: JobId, now: nat, certified: bool, digest: ResultDigest)
    requires Find(db.jobs, id).Some?
    ensures var k, after := Find(db.jobs, id).value, Finish(db, id, now, certified, digest).0.jobs;
            |after| == |db.jobs| && after == db.jobs[k := after[k]] && after[k].id == db.jobs[k].id
  {
  }

  lemma FinishFailedReplacesOne(db: Db, id: JobId, now: nat, kind: EventKind)
    requires Find(db.jobs, id).Some?
    ensures var k, after := Find(db.jobs, id).value, FinishFailed(db, id, now, kind).0.jobs;
            |after| == |db.jobs| && after == db.jobs[k := after[k]] && after[k].id == db.jobs[k].id
  {
  }

  lemma InFlightFrozen(cfg: Config, s: Solo, step: SoloStep)
    requires Ordered(s.db.jobs) && Books(cfg, s) && s.inFlight.Some? && (step.Conclude? || step.Abandon?)
    ensures Frozen(s.db.jobs, SoloNext(cfg, s, step).db.jobs)
  {
    hide Balanced, Backed, JobOk, QueuedCount, Finish, FinishFailed, Frozen, Ordered;
    var id := s.inFlight.value;
    var k, after := Find(s.db.jobs, id).value, SoloNext(cfg, s, step).db.jobs;
    if step.Conclude? {
      FinishReplacesOne(WriteResult(s.db, id, step.digest).0, id, step.now, step.certified, step.digest);
    } else {
      FinishFailedReplacesOne(s.db, id, step.now, if step.changed then WorkspaceChanged else ResultBoundExceeded);
    }
    assert after == s.db.jobs[k := after[k]];
    ReplaceFrozen(s.db.jobs, k, after[k]);
  }

  // ----- Any runners: exactly one step overturns a finished record -----

  /** A failure report for a record that is already terminal: the branch `finish` guards and
      `finish_failed` does not. */
  predicate LateFailure(db: Db, step: Step) {
    && step.DoFinishFailed? && Find(db.jobs, step.id).Some?
    && Record(db, step.id).state.Terminal() && |Record(db, step.id).events| < MAX_EVENTS
  }

  /** Whatever the runners do, a step leaves every surviving terminal record as it is exactly
      when it is not a late failure report. */
  lemma TerminalRecordsChangeOnlyLate(cfg: Config, db: Db, step: Step)
    requires cfg.Valid() && Safe(cfg, db)
    ensures Frozen(db.jobs, Next(cfg, db, step).jobs) <==> !LateFailure(db, step)
  {
    hide JobOk, QueuedCount, ClaimNext, ClaimStopped, AllOk, Find, EligibleFrom, PruneAll, PruneSome, Append;
    SafeIsOrdered(cfg, db);
    SubsetFrozen(db.jobs, db.jobs);
    match step {
      case DoEnqueue(id, at) =>
        if Enqueue(cfg, db, id, at).1 {
          InsertOrdered(db.jobs, NewJob(id, at));
          SubsetFrozen(db.jobs, InsertJob(db.jobs, NewJob(id, at)));
        }
      case DoClaim(now) => TakeFrozen(cfg, Solo(db, None), Take(now));
      case DoClaimStopped(now, seen) => TakeFrozen(cfg, Solo(db, None), TakeStopped(now, seen));
      case DoPruneStopped(before, limit, done, half) =>
        PruneSomeOk(cfg, db, EligibleFrom(Sort(db.jobs, Older), before, limit), done, half);
        SubsetFrozen(db.jobs, Next(cfg, db, step).jobs);
      case DoFinish(id, now, certified, digest) => FinishFrozen(db, id, now, certified, digest);
      case DoFinishFailed(id, now, changed) => LateFailureExactly(db, step);
      case DoWriteResult(id, digest) =>
      case DoPrune(before, limit) =>
        if 1 <= limit <= 256 && |db.jobs| <= MAX_JOBS {
          PruneOk(cfg, db, EligibleFrom(Sort(db.jobs, Older), before, limit));
          SubsetFrozen(db.jobs, Next(cfg, db, step).jobs);
        }
    }
  }

  lemma FinishFrozen(db: Db, id: JobId, now: nat, certified: bool, digest: ResultDigest)
    requires Ordered(db.jobs)
    ensures Frozen(db.jobs, Finish(db, id, now, certified, digest).0.jobs)
  {
    hide Append;
    if Find(db.jobs, id).Some? {
      var k, after := Find(db.jobs, id).value, Finish(db, id, now, certified, digest).0.jobs;
      FinishReplacesOne(db, id, now, certified, digest);
      ReplaceFrozen(db.jobs, k, after[k]);
    } else {
      SubsetFrozen(db.jobs, db.jobs);
    }
  }

  lemma LateFailureExactly(db: Db, step: Step)
    requires Ordered(db.jobs) && step.DoFinishFailed?
    ensures Frozen(db.jobs, FinishFailed(db, step.id, step.now, if step.changed then WorkspaceChanged else ResultBoundExceeded).0.jobs)
       <==> !LateFailure(db, step)
  {
    var kind := if step.changed then WorkspaceChanged else ResultBoundExceeded;
    var after := FinishFailed(db, step.id, step.now, kind).0.jobs;
    if Find(db.jobs, step.id).Some? {
      var k := Find(db.jobs, step.id).value;
      FinishFailedReplacesOne(db, step.id, step.now, kind);
      if LateFailure(db, step) {
        assert after[k].id == db.jobs[k].id && |after[k].events| == |db.jobs[k].events| + 1;
      } else {
        ReplaceFrozen(db.jobs, k, after[k]);
      }
    } else {
      SubsetFrozen(db.jobs, db.jobs);
    }
  }

  ghost predicate NoLateFailures(cfg: Config, db: Db, steps: seq<Step>)
    decreases |steps|
  {
    steps == [] || (!LateFailure(db, steps[0]) && NoLateFailures(cfg, Next(cfg, db, steps[0]), steps[1..]))
  }

  /** Over whole histories of any runners without such a report, a finished record that is not
      pruned stays exactly as it is. */
  lemma {:induction false} VerdictsStand(cfg: Config, db: Db, steps: seq<Step>, i: nat)
    requires cfg.Valid() && Safe(cfg, db) && i < |db.jobs| && db.jobs[i].state.Terminal()
    requires Survives(cfg, db, steps, db.jobs[i].id) && NoLateFailures(cfg, db, steps)
    ensures db.jobs[i] in Run(cfg, db, steps).jobs
    decreases |steps|
  {
    hide Safe, Next, LateFailure, Frozen;
    if steps != [] {
      var next := Next(cfg, db, steps[0]);
      StepIsSafe(cfg, db, steps[0]);
      TerminalRecordsChangeOnlyLate(cfg, db, steps[0]);
      assert Holds(next, db.jobs[i].id);
      var k :| 0 <= k < |next.jobs| && next.jobs[k].id == db.jobs[i].id;
      FrozenAt(db.jobs, next.jobs, i, k);
      VerdictsStand(cfg, next, steps[1..], k);
    }
  }

  /** A failure report arriving after another runner's verdict overturns it, where a verdict
      arriving late is refused. */
  lemma LateFailureOverturns(db: Db, k: nat, now: nat, kind: EventKind, certified: bool, digest: ResultDigest)
    requires Ordered(db.jobs) && k < |db.jobs| && db.jobs[k].state.Terminal() && |db.jobs[k].events| < MAX_EVENTS
    ensures FinishFailed(db, db.jobs[k].id, now, kind).0.jobs[k].state.Failed?
    ensures Finish(db, db.jobs[k].id, now, certified, digest) == (db, false)
  {
    FoundAt(db.jobs, k);
  }

  /** And it happens: a runner outlives its lease, another one claims the job and finishes it,
      and the first one's failure report comes last. With a single attempt there is no second
      claim, and the late report changes the record that gave the job up. */
  lemma LateFailureHappens(cfg: Config) returns (steps: seq<Step>, late: Step)
    requires cfg.Valid()
    ensures var db, after := Run(cfg, EMPTY, steps), Run(cfg, EMPTY, steps + [late]);
            && LateFailure(db, late)
            && |db.jobs| == |after.jobs| == 1 && after.jobs[0].state.Failed? && after.jobs[0] != db.jobs[0]
            && (cfg.maxAttempts >= 2 ==> db.jobs[0].state.Certified?)
  {
    hide Run, Next;
    var now := cfg.leaseSeconds;
    late := DoFinishFailed(0, now, true);
    steps := [DoEnqueue(0, 0), DoClaim(0), DoClaim(now)];
    var started := SecondClaim(cfg);
    var db := Db([started], map[]);
    if cfg.maxAttempts >= 2 {
      RunAppends(cfg, EMPTY, steps, DoWriteResult(0, 7));
      WriteAlone(cfg, started);
      var written := steps + [DoWriteResult(0, 7)];
      RunAppends(cfg, EMPTY, written, DoFinish(0, now, true, 7));
      db := FinishAlone(cfg, started, now);
      steps := written + [DoFinish(0, now, true, 7)];
    }
    RunAppends(cfg, EMPTY, steps, late);
    FailAlone(cfg, db, late);
  }

  /** The store after a first claim and, when its lease has run out, a second one. */
  lemma SecondClaim(cfg: Config) returns (job: Job)
    requires cfg.Valid()
    ensures Run(cfg, EMPTY, [DoEnqueue(0, 0), DoClaim(0), DoClaim(cfg.leaseSeconds)]) == Db([job], map[])
    ensures job.id == 0 && |job.events| <= 4
    ensures if cfg.maxAttempts >= 2 then job.state.Running? else job.state.Failed?
  {
    hide Run, SoloRun, ClaimNext, Enqueue;
    var s0, s1, s2 := DoEnqueue(0, 0), DoClaim(0), DoClaim(cfg.leaseSeconds);
    var started := ClaimedFirst(cfg);
    assert Next(cfg, Next(cfg, EMPTY, s0), s1) == Db([started], map[]) by {
      var t0, t1 := Submit(0, 0), Take(0);
      StepAppends(cfg, Solo(EMPTY, None), [], t0);
      StepAppends(cfg, Solo(EMPTY, None), [t0], t1);
      assert [] + [t0] == [t0] && [t0] + [t1] == [t0, t1];
      assert SoloRun(cfg, Solo(EMPTY, None), []) == Solo(EMPTY, None) by {
        NoSteps(cfg);
      }
    }
    var left := Requeue(cfg, cfg.leaseSeconds, started).value;
    if cfg.maxAttempts >= 2 {
      job := Start(cfg, cfg.leaseSeconds, left).value;
      TakeAlone(cfg, started, map[], cfg.leaseSeconds);
    } else {
      job := left;
      TakeNothing(cfg, started, map[], cfg.leaseSeconds);
    }
    assert Next(cfg, Db([started], map[]), s2) == SoloNext(cfg, Solo(Db([started], map[]), None), Take(cfg.leaseSeconds)).db;
    RunAppends(cfg, EMPTY, [], s0);
    RunAppends(cfg, EMPTY, [s0], s1);
    RunAppends(cfg, EMPTY, [s0, s1], s2);
    assert [] + [s0] == [s0] && [s0] + [s1] == [s0, s1] && [s0, s1] + [s2] == [s0, s1, s2];
    assert Run(cfg, EMPTY, []) == EMPTY by {
      NoSteps(cfg);
    }
  }

  lemma NoSteps(cfg: Config)
    ensures Run(cfg, EMPTY, []) == EMPTY && SoloRun(cfg, Solo(EMPTY, None), []) == Solo(EMPTY, None)
  {
  }

  lemma WriteAlone(cfg: Config, job: Job)
    ensures Next(cfg, Db([job], map[]), DoWriteResult(0, 7)) == Db([job], map[0 := 7])
  {
  }

  lemma FinishAlone(cfg: Config, job: Job, now: nat) returns (db: Db)
    requires job.id == 0 && job.state.Running? && |job.events| < MAX_EVENTS - 1
    ensures Next(cfg, Db([job], map[0 := 7]), DoFinish(0, now, true, 7)) == db
    ensures |db.jobs| == 1 && db.jobs[0].id == 0 && db.jobs[0].state.Certified? && |db.jobs[0].events| < MAX_EVENTS
  {
    assert Find([job], 0) == Some(0);
    db := Finish(Db([job], map[0 := 7]), 0, now, true, 7).0;
  }

  lemma FailAlone(cfg: Config, db: Db, late: Step)
    requires |db.jobs| == 1 && db.jobs[0].id == 0 && db.jobs[0].state.Terminal() && |db.jobs[0].events| < MAX_EVENTS
    requires late.DoFinishFailed? && late.id == 0
    ensures LateFailure(db, late)
    ensures var after := Next(cfg, db, late).jobs; |after| == 1 && after[0].state.Failed? && after[0] != db.jobs[0]
  {
    assert Find(db.jobs, 0) == Some(0);
    assert |Next(cfg, db, late).jobs[0].events| == |db.jobs[0].events| + 1;
  }
}
