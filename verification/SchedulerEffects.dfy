/** What each scheduler operation of src/operations.rs does to the record it is about, what it
    leaves alone, and who may have given a verdict. */
module SchedulerEffects {
  import opened Basics
  import opened Sorting
  import opened Scheduler
  import opened SchedulerSafety
  import opened SchedulerAccounting

  // ----- One record -----

  /** The chain grew by one event of this kind and time, linked to the one before it. */
  ghost predicate Logged(before: Job, after: Job, at: nat, kind: EventKind) {
    && |after.events| == |before.events| + 1 && before.events <= after.events
    && var e := after.events[|before.events|];
       e.kind == kind && e.at == at && e.sequence == |before.events| && e.previous == LastSeal(before.events)
  }

  /** Identity, age and attempts are as they were. */
  predicate SameJob(before: Job, after: Job) {
    after.id == before.id && after.submitted == before.submitted && after.attempts == before.attempts
  }

  lemma AppendLogs(job: Job, at: nat, kind: EventKind)
    ensures Append(job, at, kind).Some? <==> |job.events| < MAX_EVENTS
    ensures Append(job, at, kind).Some? ==>
              var r := Append(job, at, kind).value; r == job.(events := r.events) && Logged(job, r, at, kind)
  {
  }

  /** The record with this id, of a store whose file names order it. */
  ghost predicate Only(jobs: seq<Job>, k: nat, id: JobId) {
    k < |jobs| && jobs[k].id == id && forall j :: 0 <= j < |jobs| && j != k ==> jobs[j].id != id
  }

  lemma FoundOnly(jobs: seq<Job>, id: JobId)
    requires Ordered(jobs)
    ensures Find(jobs, id).Some? ==> Only(jobs, Find(jobs, id).value, id)
  {
  }

  /** The store is as before but for one record. */
  predicate ChangesOnly(before: Db, after: Db, id: JobId) {
    && after.results == before.results && |after.jobs| == |before.jobs|
    && forall k :: 0 <= k < |before.jobs| && before.jobs[k].id != id ==> after.jobs[k] == before.jobs[k]
  }

  // ----- Enqueue -----

  predicate Submitted(job: Job, id: JobId, at: nat) {
    && job.id == id && job.submitted == at && job.state.Pending? && job.attempts == 0
    && job.lease.None? && job.result.None?
    && |job.events| == 1 && job.events[0].kind.Enqueued? && job.events[0].at == at
  }

  /** A job is taken exactly when the store is readable, the queue has room and the id is new;
      its record is then pending, without attempt, lease or result, and the others stay. */
  lemma EnqueueExactly(cfg: Config, db: Db, id: JobId, at: nat)
    requires Ordered(db.jobs)
    ensures var (after, ok) := Enqueue(cfg, db, id, at);
            && (ok <==> |db.jobs| <= MAX_JOBS && QueuedCount(db.jobs) < cfg.maxQueued
                        && forall k :: 0 <= k < |db.jobs| ==> db.jobs[k].id != id)
            && (!ok ==> after == db)
            && after.results == db.results
            && (ok ==> exists job :: Submitted(job, id, at) && forall j :: j in after.jobs <==> j in db.jobs || j == job)
  {
    hide QueuedCount;
    if Enqueue(cfg, db, id, at).1 {
      InsertOrdered(db.jobs, NewJob(id, at));
      var job := NewJob(id, at);
      assert Submitted(job, id, at);
    }
  }

  // ----- Claim -----

  /** The recovery pass touches only running jobs whose lease has run out: with attempts left
      they are pending again, without they have failed. */
  lemma RequeueExactly(cfg: Config, now: nat, job: Job)
    ensures var expired := job.state.Running? && job.lease.Some? && job.lease.value <= now;
            match Requeue(cfg, now, job)
            case None => expired && |job.events| >= MAX_EVENTS
            case Some(after) =>
              if !expired then after == job
              else
                var exhausted := job.attempts >= cfg.maxAttempts;
                && SameJob(job, after) && after.lease.None? && after.result == job.result
                && after.state == (if exhausted then Failed else Pending)
                && Logged(job, after, now, if exhausted then AttemptsExhausted else RecoveredAfterRestart)
  {
  }

  lemma {:induction false} RecoveredAt(cfg: Config, now: nat, jobs: seq<Job>, k: nat, end: nat, i: nat)
    requires k <= end <= |jobs| && i < |jobs|
    ensures var (after, done) := RecoverFrom(cfg, now, jobs, k, end);
            && |after| == |jobs|
            && (i < k || i >= end ==> after[i] == jobs[i])
            && (done && k <= i < end ==> Requeue(cfg, now, jobs[i]) == Some(after[i]))
    decreases end - k
  {
    hide Requeue;
    if k < end && Requeue(cfg, now, jobs[k]).Some? {
      RecoveredAt(cfg, now, jobs[k := Requeue(cfg, now, jobs[k]).value], k + 1, end, i);
    }
  }

  /** A claim runs the pass over every record and then starts the claimed one: running, one more
      attempt, and a lease from now on for the configured time, capped at 64 bits. */
  lemma ClaimExactly(cfg: Config, db: Db, now: nat, i: nat)
    requires Ordered(db.jobs) && i < |db.jobs| && ClaimNext(cfg, db, now).1.Took?
    ensures var (after, claim) := ClaimNext(cfg, db, now);
            && after.results == db.results && |after.jobs| == |db.jobs|
            && Requeue(cfg, now, db.jobs[i]).Some?
            && var pooled := Requeue(cfg, now, db.jobs[i]).value;
               if pooled.id != claim.id then after.jobs[i] == pooled
               else
                 var job := after.jobs[i];
                 && pooled.state.Pending? && job.state.Running?
                 && job.id == pooled.id && job.submitted == pooled.submitted && job.result == pooled.result
                 && job.attempts == pooled.attempts + 1
                 && job.lease.Some?
                 && job.lease.value == (if now + cfg.leaseSeconds < U64_LIMIT then now + cfg.leaseSeconds else U64_LIMIT - 1)
                 && Logged(pooled, job, now, Claimed)
  {
    hide Requeue, Append;
    var (pool, done) := RecoverFrom(cfg, now, db.jobs, 0, |db.jobs|);
    RecoveredAt(cfg, now, db.jobs, 0, |db.jobs|, i);
    var k := Oldest(pool).value;
    RecoveredAt(cfg, now, db.jobs, 0, |db.jobs|, k);
    SameRequeueId(cfg, now, db.jobs[i]);
    SameRequeueId(cfg, now, db.jobs[k]);
    AppendLogs(pool[k].(state := Running, attempts := pool[k].attempts + 1,
                        lease := Some(SaturatingAdd(now, cfg.leaseSeconds))), now, Claimed);
  }

  lemma SameRequeueId(cfg: Config, now: nat, job: Job)
    ensures Requeue(cfg, now, job).Some? ==> Requeue(cfg, now, job).value.id == job.id
  {
  }

  // ----- Finish -----

  /** A verdict is recorded exactly for a running job whose chain has room: the state and the
      event that were asked for, the result's digest, no lease, and nothing else anywhere. */
  lemma FinishExactly(db: Db, id: JobId, now: nat, certified: bool, digest: ResultDigest, k: nat)
    requires Ordered(db.jobs)
    ensures var (after, ok) := Finish(db, id, now, certified, digest);
            && ChangesOnly(db, after, id) && (!ok ==> after == db)
            && (ok ==> Find(db.jobs, id).Some?)
            && (k < |db.jobs| && db.jobs[k].id == id ==>
                  && (ok <==> db.jobs[k].state.Running? && |db.jobs[k].events| < MAX_EVENTS)
                  && (ok ==> && SameJob(db.jobs[k], after.jobs[k])
                             && after.jobs[k].state == (if certified then Certified else Refused)
                             && after.jobs[k].result == Some(digest) && after.jobs[k].lease.None?
                             && Logged(db.jobs[k], after.jobs[k], now, if certified then CertifiedEvent else RefusedEvent)))
  {
    FoundOnly(db.jobs, id);
  }

  /** A failure is recorded whatever the state, as long as the chain has room. */
  lemma FinishFailedExactly(db: Db, id: JobId, now: nat, kind: EventKind, k: nat)
    requires Ordered(db.jobs)
    ensures var (after, ok) := FinishFailed(db, id, now, kind);
            && ChangesOnly(db, after, id) && (!ok ==> after == db)
            && (ok ==> Find(db.jobs, id).Some?)
            && (k < |db.jobs| && db.jobs[k].id == id ==>
                  && (ok <==> |db.jobs[k].events| < MAX_EVENTS)
                  && (ok ==> && SameJob(db.jobs[k], after.jobs[k])
                             && after.jobs[k].state.Failed? && after.jobs[k].lease.None?
                             && after.jobs[k].result == db.jobs[k].result
                             && Logged(db.jobs[k], after.jobs[k], now, kind)))
  {
    FoundOnly(db.jobs, id);
  }

  /** A result is written once: a second write changes nothing, and succeeds only for the same. */
  lemma WriteResultExactly(db: Db, id: JobId, digest: ResultDigest)
    ensures var (after, ok) := WriteResult(db, id, digest);
            && after.jobs == db.jobs
            && (ok <==> id !in db.results || db.results[id] == digest)
            && (ok ==> id in after.results && after.results[id] == digest)
            && (!ok ==> after == db)
            && (forall other :: other != id ==> (other in after.results <==> other in db.results))
            && (forall other :: other != id && other in db.results ==> after.results[other] == db.results[other])
  {
  }

  /** A claim stopped in its pass has dealt with the records before that point as the whole pass
      would, unless one of them could not take its event, and with none behind it. */
  lemma ClaimStoppedExactly(cfg: Config, db: Db, now: nat, seen: nat, i: nat)
    requires |db.jobs| <= MAX_JOBS && i < |db.jobs|
    requires forall k :: 0 <= k < |db.jobs| ==> Requeue(cfg, now, db.jobs[k]).Some?
    ensures var after := ClaimStopped(cfg, db, now, seen);
            && after.results == db.results && |after.jobs| == |db.jobs|
            && after.jobs[i] == if i < seen then Requeue(cfg, now, db.jobs[i]).value else db.jobs[i]
  {
    hide Requeue;
    var end := if seen < |db.jobs| then seen else |db.jobs|;
    RecoveryGoesThrough(cfg, now, db.jobs, 0, end);
    RecoveredAt(cfg, now, db.jobs, 0, end, i);
  }

  lemma {:induction false} RecoveryGoesThrough(cfg: Config, now: nat, jobs: seq<Job>, k: nat, end: nat)
    requires k <= end <= |jobs| && forall i :: k <= i < |jobs| ==> Requeue(cfg, now, jobs[i]).Some?
    ensures RecoverFrom(cfg, now, jobs, k, end).1
    decreases end - k
  {
    hide Requeue;
    if k < end {
      RecoveryGoesThrough(cfg, now, jobs[k := Requeue(cfg, now, jobs[k]).value], k + 1, end);
    }
  }

  // ----- Who gave a verdict -----

  /** This step gives the job a verdict of this kind with this result. */
  predicate GivesVerdict(step: Step, job: Job) {
    && step.DoFinish? && step.id == job.id
    && job.state == (if step.certified then Certified else Refused) && job.result == Some(step.digest)
  }

  /** A certified or refused record was so before the step, or the step made it so. */
  lemma VerdictStep(cfg: Config, db: Db, step: Step, i: nat) returns (k: nat)
    requires Ordered(db.jobs) && i < |Next(cfg, db, step).jobs| && Closing(Next(cfg, db, step).jobs[i].state)
    ensures GivesVerdict(step, Next(cfg, db, step).jobs[i])
            || (k < |db.jobs| && db.jobs[k] == Next(cfg, db, step).jobs[i])
  {
    hide Append, Requeue, Sort, EligibleFrom, PruneAll, PruneSome, QueuedCount, Find;
    var after := Next(cfg, db, step).jobs;
    k := i;
    match step {
      case DoEnqueue(id, at) =>
        if Enqueue(cfg, db, id, at).1 {
          InsertOrdered(db.jobs, NewJob(id, at));
          assert after[i] in after;
          k := IndexOfJob(db.jobs, after[i]);
        }
      case DoClaim(now) =>
        ClaimClosesNothing(cfg, db, now, i);
      case DoClaimStopped(now, seen) => RecoverFrozen(cfg, now, db.jobs, 0, if seen < |db.jobs| then seen else |db.jobs|);
      case DoFinish(id, now, certified, digest) => FinishExactly(db, id, now, certified, digest, i);
      case DoFinishFailed(id, now, changed) =>
        FinishFailedExactly(db, id, now, if changed then WorkspaceChanged else ResultBoundExceeded, i);
      case DoWriteResult(id, digest) =>
      case DoPrune(before, limit) =>
        WholePrune(db, EligibleFrom(Sort(db.jobs, Older), before, limit));
        PruneSubset(db, EligibleFrom(Sort(db.jobs, Older), before, limit),
                    |EligibleFrom(Sort(db.jobs, Older), before, limit)|, false);
        assert after[i] in after;
        k := IndexOfJob(db.jobs, after[i]);
      case DoPruneStopped(before, limit, done, half) =>
        PruneSubset(db, EligibleFrom(Sort(db.jobs, Older), before, limit), done, half);
        assert after[i] in after;
        k := IndexOfJob(db.jobs, after[i]);
    }
  }

  lemma ClaimClosesNothing(cfg: Config, db: Db, now: nat, i: nat)
    requires Ordered(db.jobs)
    requires i < |ClaimNext(cfg, db, now).0.jobs| && Closing(ClaimNext(cfg, db, now).0.jobs[i].state)
    ensures i < |db.jobs| && ClaimNext(cfg, db, now).0.jobs[i] == db.jobs[i]
  {
    hide RecoverFrom;
    RecoverFrozen(cfg, now, db.jobs, 0, |db.jobs|);
  }

  lemma IndexOfJob(jobs: seq<Job>, job: Job) returns (k: nat)
    requires job in jobs
    ensures k < |jobs| && jobs[k] == job
  {
    k :| 0 <= k < |jobs| && jobs[k] == job;
  }

  lemma {:induction false} PruneSubset(db: Db, ids: seq<JobId>, done: nat, half: bool)
    ensures forall j :: j in PruneSome(db, ids, done, half).jobs ==> j in db.jobs
    decreases |ids|
  {
    if ids != [] && done > 0 && PruneOne(db, ids[0]).Some? {
      PruneSubset(PruneOne(db, ids[0]).value, ids[1..], done - 1, half);
    }
  }

  /** Over every history of any runners from an empty store: a job is certified only because a
      step said so, and refused only because one said not, with the digest that step gave. */
  lemma {:induction false} VerdictsAreGiven(cfg: Config, steps: seq<Step>, i: nat)
    requires cfg.Valid() && i < |Run(cfg, EMPTY, steps).jobs| && Closing(Run(cfg, EMPTY, steps).jobs[i].state)
    ensures exists n :: 0 <= n < |steps| && GivesVerdict(steps[n], Run(cfg, EMPTY, steps).jobs[i])
    decreases |steps|
  {
    hide Run, Next, GivesVerdict;
    if steps == [] {
      NoSteps(cfg);
    } else {
      var init, last := steps[..|steps| - 1], steps[|steps| - 1];
      assert steps == init + [last];
      RunAppends(cfg, EMPTY, init, last);
      var before := Run(cfg, EMPTY, init);
      EmptyIsSafe(cfg);
      ReachableIsSafe(cfg, EMPTY, init);
      SafeIsOrdered(cfg, before);
      var k := VerdictStep(cfg, before, last, i);
      if !GivesVerdict(last, Run(cfg, EMPTY, steps).jobs[i]) {
        VerdictsAreGiven(cfg, init, k);
        var n :| 0 <= n < |init| && GivesVerdict(init[n], before.jobs[k]);
        assert GivesVerdict(steps[n], before.jobs[k]);
      }
    }
  }

  // ----- Prune -----

  predicate Eligible(job: Job, before: nat) {
    job.submitted < before && job.state.Terminal()
  }

  /** The list a prune works on: ids of eligible jobs, oldest first, each once, as many as the
      limit allows; an eligible job left off it is younger than every one on it. */
  lemma EligibleExactly(jobs: seq<Job>, before: nat, limit: nat)
    requires Ordered(jobs)
    ensures var ids := EligibleFrom(Sort(jobs, Older), before, limit);
            && |ids| <= limit && NoDuplicates(ids)
            && (forall id :: id in ids ==> exists k :: 0 <= k < |jobs| && jobs[k].id == id && Eligible(jobs[k], before))
            && (forall k :: 0 <= k < |jobs| && Eligible(jobs[k], before) && jobs[k].id !in ids ==>
                  |ids| == limit && forall j :: 0 <= j < |jobs| && jobs[j].id in ids ==> Older(jobs[j], jobs[k]))
  {
    hide Sort, EligibleFrom, Find;
    SortedIdsDiffer(jobs);
    assert forall i, j :: 0 <= i < j < |Sort(jobs, Older)| ==> Sort(jobs, Older)[i].id != Sort(jobs, Older)[j].id;
    assert forall i :: 0 <= i < |Sort(jobs, Older)| ==> Find(jobs, Sort(jobs, Older)[i].id).Some?;
    EligibleDistinct(jobs, Sort(jobs, Older), before, limit);
    SortIncreasing(jobs, Older);
    SameMembers(jobs);
    EligibleOf(jobs, Sort(jobs, Older), before, limit);
  }

  lemma SameMembers(jobs: seq<Job>)
    ensures forall j :: j in Sort(jobs, Older) <==> j in jobs
  {
    SortPermutes(jobs, Older);
    assert forall j :: j in Sort(jobs, Older) <==> j in multiset(Sort(jobs, Older));
    assert forall j :: j in jobs <==> j in multiset(jobs);
  }

  lemma EligibleOf(jobs: seq<Job>, sorted: seq<Job>, before: nat, limit: nat)
    requires Increasing(sorted, Older) && forall j :: j in sorted <==> j in jobs
    requires forall i, j :: 0 <= i < j < |sorted| ==> sorted[i].id != sorted[j].id
    ensures var ids := EligibleFrom(sorted, before, limit);
            && |ids| <= limit
            && (forall id :: id in ids ==> exists k :: 0 <= k < |jobs| && jobs[k].id == id && Eligible(jobs[k], before))
            && (forall k :: 0 <= k < |jobs| && Eligible(jobs[k], before) && jobs[k].id !in ids ==>
                  |ids| == limit && forall j :: 0 <= j < |jobs| && jobs[j].id in ids ==> Older(jobs[j], jobs[k]))
  {
    hide EligibleFrom, Eligible;
    EligibleSorted(sorted, before, limit);
    var ids := EligibleFrom(sorted, before, limit);
    forall id | id in ids
      ensures exists k :: 0 <= k < |jobs| && jobs[k].id == id && Eligible(jobs[k], before)
    {
      var i :| 0 <= i < |sorted| && sorted[i].id == id && Eligible(sorted[i], before);
      assert sorted[i] in jobs;
      var k := IndexOfJob(jobs, sorted[i]);
    }
    forall k | 0 <= k < |jobs| && Eligible(jobs[k], before) && jobs[k].id !in ids
      ensures |ids| == limit && forall j :: 0 <= j < |jobs| && jobs[j].id in ids ==> Older(jobs[j], jobs[k])
    {
      assert jobs[k] in sorted;
      var m := IndexOfJob(sorted, jobs[k]);
      forall j | 0 <= j < |jobs| && jobs[j].id in ids
        ensures Older(jobs[j], jobs[k])
      {
        assert jobs[j] in sorted;
        var i := IndexOfJob(sorted, jobs[j]);
      }
    }
  }

  /** The same of an age-sorted list. */
  lemma {:induction false} EligibleSorted(sorted: seq<Job>, before: nat, limit: nat)
    requires Increasing(sorted, Older) && forall i, j :: 0 <= i < j < |sorted| ==> sorted[i].id != sorted[j].id
    ensures var ids := EligibleFrom(sorted, before, limit);
            && |ids| <= limit
            && (forall id :: id in ids ==> exists i :: 0 <= i < |sorted| && sorted[i].id == id && Eligible(sorted[i], before))
            && (forall m :: 0 <= m < |sorted| && Eligible(sorted[m], before) && sorted[m].id !in ids ==> |ids| == limit)
            && (forall i, m :: 0 <= i < |sorted| && 0 <= m < |sorted| && sorted[i].id in ids && sorted[m].id !in ids
                               && Eligible(sorted[m], before) ==>
                  Older(sorted[i], sorted[m]))
    decreases |sorted|
  {
    hide Older;
    if sorted != [] && limit > 0 {
      var rest := sorted[1..];
      var less := if Eligible(sorted[0], before) then limit - 1 else limit;
      EligibleSorted(rest, before, less);
      var ids, more := EligibleFrom(sorted, before, limit), EligibleFrom(rest, before, less);
      assert ids == if Eligible(sorted[0], before) then [sorted[0].id] + more else more;
      forall id | id in more
        ensures exists i :: 0 <= i < |sorted| && sorted[i].id == id && Eligible(sorted[i], before)
      {
        var i :| 0 <= i < |rest| && rest[i].id == id && Eligible(rest[i], before);
        assert sorted[i + 1] == rest[i];
      }
      assert forall m :: 0 < m < |sorted| ==> sorted[m] == rest[m - 1];
    }
  }

  /** Record and results directory agree on the result. */
  predicate Agreeing(db: Db, id: JobId) {
    Find(db.jobs, id).Some? && Record(db, id).result == if id in db.results then Some(db.results[id]) else None
  }

  /** A prune goes through exactly when every record on its list agrees with the results
      directory, and then it has removed those records with their results, and nothing else. */
  lemma {:induction false} PruneExactly(db: Db, ids: seq<JobId>)
    requires Ordered(db.jobs) && NoDuplicates(ids)
    ensures var (after, ok) := PruneAll(db, ids);
            && (ok <==> forall id :: id in ids ==> Agreeing(db, id))
            && (ok ==> && (forall j :: j in after.jobs <==> j in db.jobs && j.id !in ids)
                       && after.results == db.results - Elements(ids))
    decreases |ids|
  {
    hide Ordered, Find, Record;
    if ids == [] {
      assert db.results - Elements(ids) == db.results;
    } else {
      var id, rest := ids[0], ids[1..];
      assert ids == [id] + rest && Elements(ids) == {id} + Elements(rest);
      assert PruneOne(db, id).Some? <==> Agreeing(db, id) by {
        PruneOneAgrees(db, id);
      }
      if PruneOne(db, id).Some? {
        var smaller := PruneOne(db, id).value;
        PruneOneExactly(db, id);
        PruneExactly(smaller, rest);
        forall other | other in rest
          ensures Agreeing(smaller, other) <==> Agreeing(db, other)
        {
          assert other != id;
          AgreeingElsewhere(db, id, other);
        }
        assert smaller.results - Elements(rest) == db.results - Elements(ids);
      }
    }
  }

  /** A prune stopped after `done` records has removed those with their results, and half way
      through the next one that one's result too. */
  lemma {:induction false} PruneStoppedExactly(db: Db, ids: seq<JobId>, done: nat, half: bool)
    requires Ordered(db.jobs) && NoDuplicates(ids) && done < |ids| && forall id :: id in ids ==> Agreeing(db, id)
    ensures var after := PruneSome(db, ids, done, half);
            && (forall j :: j in after.jobs <==> j in db.jobs && j.id !in ids[..done])
            && after.results == db.results - Elements(ids[..if half then done + 1 else done])
    decreases |ids|
  {
    hide Ordered, Find, Record;
    var id, rest := ids[0], ids[1..];
    PruneOneAgrees(db, id);
    assert ids == [id] + rest;
    if done == 0 {
      assert Elements(ids[..1]) == {id} && Elements(ids[..0]) == {};
    } else {
      var smaller := PruneOne(db, id).value;
      PruneOneExactly(db, id);
      forall other | other in rest
        ensures Agreeing(smaller, other)
      {
        assert other != id && other in ids;
        AgreeingElsewhere(db, id, other);
      }
      PruneStoppedExactly(smaller, rest, done - 1, half);
      var n := if half then done + 1 else done;
      assert ids[..done] == [id] + rest[..done - 1] && ids[..n] == [id] + rest[..n - 1];
      assert Elements(ids[..n]) == {id} + Elements(rest[..n - 1]);
    }
  }

  lemma PruneOneAgrees(db: Db, id: JobId)
    ensures PruneOne(db, id).Some? <==> Agreeing(db, id)
  {
  }

  lemma PruneOneExactly(db: Db, id: JobId)
    requires Ordered(db.jobs) && PruneOne(db, id).Some?
    ensures var after := PruneOne(db, id).value;
            && Ordered(after.jobs) && after.results == db.results - {id}
            && forall j :: j in after.jobs <==> j in db.jobs && j.id != id
  {
    hide Ordered;
    var n, after := Find(db.jobs, id).value, PruneOne(db, id).value;
    WithoutOrdered(db.jobs, n);
    FoundOnly(db.jobs, id);
    forall j
      ensures j in after.jobs <==> j in db.jobs && j.id != id
    {
      if j in db.jobs && j.id != id {
        var k := IndexOfJob(db.jobs, j);
        Removed(db.jobs, n, k);
        assert after.jobs[if k < n then k else k - 1] == j;
      }
    }
  }

  lemma AgreeingElsewhere(db: Db, id: JobId, other: JobId)
    requires Ordered(db.jobs) && PruneOne(db, id).Some? && other != id
    ensures Agreeing(PruneOne(db, id).value, other) <==> Agreeing(db, other)
  {
    hide Ordered, PruneOne;
    var after := PruneOne(db, id).value;
    PruneOneExactly(db, id);
    if Find(db.jobs, other).Some? {
      assert Find(db.jobs, id).Some? by {
        PruneOneAgrees(db, id);
      }
      PruneOneElsewhere(db, other, id);
    } else {
      forall k | 0 <= k < |after.jobs|
        ensures after.jobs[k].id != other
      {
        assert after.jobs[k] in db.jobs;
      }
    }
  }

  // ----- What the metrics gain -----

  function Tick(b: bool): nat {
    if b then 1 else 0
  }

  function CountState(jobs: seq<Job>, state: JobState): nat {
    if jobs == [] then 0 else CountState(jobs[..|jobs| - 1], state) + Tick(jobs[|jobs| - 1].state == state)
  }

  /** The metrics' verdict counters are these counts. */
  lemma {:induction false} MeasureCounts(jobs: seq<Job>)
    ensures Measure(jobs).certified == CountState(jobs, Certified)
    ensures Measure(jobs).refused == CountState(jobs, Refused)
    ensures Measure(jobs).failed == CountState(jobs, Failed)
  {
    hide Recoveries;
    if jobs != [] {
      MeasureCounts(jobs[..|jobs| - 1]);
    }
  }

  /** Jobs a recovery pass gave up on, by their events. */
  function GiveUps(events: seq<Event>): nat {
    if events == [] then 0 else GiveUps(events[..|events| - 1]) + Tick(events[|events| - 1].kind.AttemptsExhausted?)
  }

  function GivenUp(jobs: seq<Job>): nat {
    if jobs == [] then 0 else GivenUp(jobs[..|jobs| - 1]) + GiveUps(jobs[|jobs| - 1].events)
  }

  lemma {:induction false} ReplaceCounts(jobs: seq<Job>, k: nat, job: Job, state: JobState)
    requires k < |jobs|
    ensures CountState(jobs[k := job], state) + Tick(jobs[k].state == state) == CountState(jobs, state) + Tick(job.state == state)
    ensures GivenUp(jobs[k := job]) + GiveUps(jobs[k].events) == GivenUp(jobs) + GiveUps(job.events)
  {
    hide GiveUps;
    var n, after := |jobs| - 1, jobs[k := job];
    if k < n {
      ReplaceCounts(jobs[..n], k, job, state);
      assert after[..n] == jobs[..n][k := job];
    } else {
      assert after[..n] == jobs[..n];
    }
  }

  lemma LoggedGiveUps(before: Job, after: Job, at: nat, kind: EventKind)
    requires Logged(before, after, at, kind)
    ensures GiveUps(after.events) == GiveUps(before.events) + Tick(kind.AttemptsExhausted?)
  {
    assert after.events[..|before.events|] == before.events;
  }

  /** What one replaced record may do to the counts: nothing but to fail by being given up on. */
  ghost predicate OnlyGivesUp(a: seq<Job>, b: seq<Job>) {
    && CountState(b, Certified) == CountState(a, Certified)
    && CountState(b, Refused) == CountState(a, Refused)
    && CountState(b, Failed) + GivenUp(a) == CountState(a, Failed) + GivenUp(b)
  }

  lemma ReplaceGivesUp(jobs: seq<Job>, k: nat, job: Job)
    requires k < |jobs| && !Closing(job.state) && !Closing(jobs[k].state)
    requires Tick(job.state.Failed?) + GiveUps(jobs[k].events) == Tick(jobs[k].state.Failed?) + GiveUps(job.events)
    ensures OnlyGivesUp(jobs, jobs[k := job])
  {
    hide CountState, GivenUp, GiveUps;
    ReplaceCounts(jobs, k, job, Certified);
    ReplaceCounts(jobs, k, job, Refused);
    ReplaceCounts(jobs, k, job, Failed);
  }

  lemma {:induction false} RecoveryCounts(cfg: Config, now: nat, jobs: seq<Job>, k: nat, end: nat)
    requires k <= end <= |jobs|
    ensures OnlyGivesUp(jobs, RecoverFrom(cfg, now, jobs, k, end).0)
    decreases end - k
  {
    hide CountState, GivenUp, GiveUps, Requeue;
    if k < end && Requeue(cfg, now, jobs[k]).Some? {
      var after := Requeue(cfg, now, jobs[k]).value;
      if after == jobs[k] {
        assert jobs[k := after] == jobs;
      } else {
        RequeueExactly(cfg, now, jobs[k]);
        LoggedGiveUps(jobs[k], after, now, if jobs[k].attempts >= cfg.maxAttempts then AttemptsExhausted else RecoveredAfterRestart);
        ReplaceGivesUp(jobs, k, after);
      }
      RecoveryCounts(cfg, now, jobs[k := after], k + 1, end);
    }
  }

  /** A claim certifies and refuses nothing, and what it fails it gives up on. */
  lemma ClaimCountsStates(cfg: Config, db: Db, now: nat)
    ensures OnlyGivesUp(db.jobs, ClaimNext(cfg, db, now).0.jobs)
  {
    hide CountState, GivenUp, GiveUps, Requeue, Append;
    if |db.jobs| <= MAX_JOBS {
      RecoveryCounts(cfg, now, db.jobs, 0, |db.jobs|);
      var (jobs, done) := RecoverFrom(cfg, now, db.jobs, 0, |db.jobs|);
      if done && Oldest(jobs).Some? && Start(cfg, now, jobs[Oldest(jobs).value]).Some? {
        var k := Oldest(jobs).value;
        var pending := jobs[k].(state := Running, attempts := jobs[k].attempts + 1,
                                lease := Some(SaturatingAdd(now, cfg.leaseSeconds)));
        AppendLogs(pending, now, Claimed);
        LoggedGiveUps(pending, Start(cfg, now, jobs[k]).value, now, Claimed);
        ReplaceGivesUp(jobs, k, Start(cfg, now, jobs[k]).value);
      }
    }
  }

  /** A verdict moves one running job to the count it asked for. */
  lemma FinishCounts(db: Db, id: JobId, now: nat, certified: bool, digest: ResultDigest)
    requires Ordered(db.jobs)
    ensures var (after, ok) := Finish(db, id, now, certified, digest);
            && CountState(after.jobs, Certified) == CountState(db.jobs, Certified) + Tick(ok && certified)
            && CountState(after.jobs, Refused) == CountState(db.jobs, Refused) + Tick(ok && !certified)
            && CountState(after.jobs, Failed) == CountState(db.jobs, Failed)
            && GivenUp(after.jobs) == GivenUp(db.jobs)
  {
    hide CountState, GivenUp, GiveUps, Append, Ordered;
    if Finish(db, id, now, certified, digest).1 {
      var k, after := Find(db.jobs, id).value, Finish(db, id, now, certified, digest).0.jobs;
      FinishExactly(db, id, now, certified, digest, k);
      LoggedGiveUps(db.jobs[k], after[k], now, if certified then CertifiedEvent else RefusedEvent);
      FinishReplacesOne(db, id, now, certified, digest);
      ReplaceCounts(db.jobs, k, after[k], Certified);
      ReplaceCounts(db.jobs, k, after[k], Refused);
      ReplaceCounts(db.jobs, k, after[k], Failed);
    }
  }

  /** A failure of a running job moves it to the failed ones. */
  lemma FailureCounts(db: Db, id: JobId, now: nat, kind: EventKind)
    requires Ordered(db.jobs) && Find(db.jobs, id).Some? && Record(db, id).state.Running? && !kind.AttemptsExhausted?
    ensures var (after, ok) := FinishFailed(db, id, now, kind);
            && CountState(after.jobs, Certified) == CountState(db.jobs, Certified)
            && CountState(after.jobs, Refused) == CountState(db.jobs, Refused)
            && CountState(after.jobs, Failed) == CountState(db.jobs, Failed) + Tick(ok)
            && GivenUp(after.jobs) == GivenUp(db.jobs)
  {
    hide CountState, GivenUp, GiveUps, Append, Ordered;
    if FinishFailed(db, id, now, kind).1 {
      var k, after := Find(db.jobs, id).value, FinishFailed(db, id, now, kind).0.jobs;
      FinishFailedExactly(db, id, now, kind, k);
      LoggedGiveUps(db.jobs[k], after[k], now, kind);
      FinishFailedReplacesOne(db, id, now, kind);
      ReplaceCounts(db.jobs, k, after[k], Certified);
      ReplaceCounts(db.jobs, k, after[k], Refused);
      ReplaceCounts(db.jobs, k, after[k], Failed);
    }
  }
}
