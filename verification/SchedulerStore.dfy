/** The operations store as the program runs it: records and results updated in place, one
    locked operation at a time, and the batch loop of one runner. */
module SchedulerStore {
  import opened Basics
  import opened Sorting
  import opened Scheduler
  import opened SchedulerSafety
  import opened SchedulerAccounting
  import opened SchedulerEffects

  /** How one claimed job fares in a batch; `Interrupted` stops the runner. */
  datatype Outcome =
    | Verdict(certified: bool, digest: ResultDigest)
    | Unfit(changed: bool)
    | Interrupted
    | InterruptedAfterWrite(digest: ResultDigest)

  function Ending(now: nat, o: Outcome): SoloStep {
    match o
    case Verdict(certified, digest) => Conclude(now, certified, digest)
    case Unfit(changed) => Abandon(now, changed)
    case Interrupted => StopRunner
    case InterruptedAfterWrite(digest) => StopAfterWrite(digest)
  }

  /** Whether an ending is recorded, so that the batch goes on: the result is new or the same,
      and the record takes the verdict or the failure. */
  function Recorded(db: Db, id: JobId, now: nat, o: Outcome): bool {
    match o
    case Verdict(certified, digest) =>
      var (written, ok) := Scheduler.WriteResult(db, id, digest);
      ok && Scheduler.Finish(written, id, now, certified, digest).1
    case Unfit(changed) => Scheduler.FinishFailed(db, id, now, if changed then WorkspaceChanged else ResultBoundExceeded).1
    case Interrupted => false
    case InterruptedAfterWrite(_) => false
  }

  /** Where a prune stops: after `done` records, or `half` way through the next one. */
  datatype PruneStop = PruneStop(done: nat, half: bool)

  datatype Receipt = Receipt(claimed: nat, certified: nat, refused: nat, failed: nat, recovered: nat)

  class Store {
    const cfg: Config
    var jobs: seq<Job>
    var results: map<JobId, ResultDigest>

    constructor (cfg: Config)
      requires cfg.Valid()
      ensures this.cfg == cfg && Contents() == EMPTY
    {
      this.cfg := cfg;
      jobs, results := [], map[];
    }

    ghost function Contents(): Db
      reads this
    {
      Db(jobs, results)
    }

    method Enqueue(id: JobId, at: nat) returns (ok: bool)
      modifies this
      ensures (Contents(), ok) == Scheduler.Enqueue(cfg, old(Contents()), id, at)
    {
      if |jobs| > MAX_JOBS {
        return false;
      }
      var queued := CountQueued();
      if queued >= cfg.maxQueued || Find(jobs, id).Some? {
        return false;
      }
      jobs := InsertJob(jobs, NewJob(id, at));
      return true;
    }

    method CountMetrics() returns (m: Metrics)
      ensures m == Measure(jobs)
    {
      m := Metrics(0, 0, 0, 0, 0, 0, 0, 0);
      for k := 0 to |jobs|
        invariant m == Measure(jobs[..k])
      {
        assert jobs[..k + 1][..k] == jobs[..k];
        var recoveries := CountRecoveries(jobs[k].events);
        m := m.(total := m.total + 1, attempts := m.attempts + jobs[k].attempts, recoveries := m.recoveries + recoveries);
        match jobs[k].state {
          case Pending => m := m.(pending := m.pending + 1);
          case Running => m := m.(running := m.running + 1);
          case Certified => m := m.(certified := m.certified + 1);
          case Refused => m := m.(refused := m.refused + 1);
          case Failed => m := m.(failed := m.failed + 1);
        }
      }
      assert jobs[..|jobs|] == jobs;
    }

    static method CountRecoveries(events: seq<Event>) returns (n: nat)
      ensures n == Recoveries(events)
    {
      n := 0;
      for k := 0 to |events|
        invariant n == Recoveries(events[..k])
      {
        assert events[..k + 1][..k] == events[..k];
        if events[k].kind.RecoveredAfterRestart? {
          n := n + 1;
        }
      }
      assert events[..|events|] == events;
    }

    method CountQueued() returns (n: nat)
      ensures n == QueuedCount(jobs)
    {
      n := 0;
      for k := 0 to |jobs|
        invariant n == QueuedCount(jobs[..k])
      {
        assert jobs[..k + 1][..k] == jobs[..k];
        if jobs[k].state.Queued() {
          n := n + 1;
        }
      }
      assert jobs[..|jobs|] == jobs;
    }

    /** `recovered` counts the jobs the recovery pass made pending again; `stop`, if there is
        one, is how many records it deals with before the claim is stopped. */
    method ClaimNext(now: nat, stop: Option<nat>) returns (claim: Claim, recovered: nat)
      modifies this`jobs
      ensures stop.None? ==> (Contents(), claim) == Scheduler.ClaimNext(cfg, old(Contents()), now)
      ensures stop.Some? ==> Contents() == ClaimStopped(cfg, old(Contents()), now, stop.value) && claim == Refusal
      ensures claim.Took? ==> recovered == Restarts(cfg, now, old(jobs))
    {
      hide Requeue, Start, Expired;
      recovered := 0;
      if |jobs| > MAX_JOBS {
        return Refusal, 0;
      }
      var k, end := 0, if stop.Some? && stop.value < |jobs| then stop.value else |jobs|;
      assert jobs[0..] == jobs;
      while k < end
        invariant k <= end <= |jobs| && |jobs| == |old(jobs)|
        invariant jobs[k..] == old(jobs)[k..]
        invariant recovered + Restarts(cfg, now, jobs[k..]) == Restarts(cfg, now, old(jobs))
        invariant RecoverFrom(cfg, now, old(jobs), 0, end) == RecoverFrom(cfg, now, jobs, k, end)
      {
        var replaced := Requeue(cfg, now, jobs[k]);
        if replaced.None? {
          return Refusal, 0;
        }
        assert jobs[k..][1..] == jobs[k + 1..];
        if Expired(jobs[k], now) && jobs[k].attempts < cfg.maxAttempts {
          recovered := recovered + 1;
        }
        jobs := jobs[k := replaced.value];
        k := k + 1;
      }
      if stop.Some? {
        return Refusal, 0;
      }
      var oldest := Oldest(jobs);
      if oldest.None? {
        return Nothing, 0;
      }
      var job := Start(cfg, now, jobs[oldest.value]);
      if job.None? {
        return Refusal, 0;
      }
      jobs := jobs[oldest.value := job.value];
      claim := Took(job.value.id);
    }

    method Finish(id: JobId, now: nat, certified: bool, digest: ResultDigest) returns (ok: bool)
      modifies this`jobs
      ensures (Contents(), ok) == Scheduler.Finish(old(Contents()), id, now, certified, digest)
    {
      var k := Find(jobs, id);
      if k.None? || !jobs[k.value].state.Running? {
        return false;
      }
      var job := jobs[k.value].(state := if certified then Certified else Refused, lease := None, result := Some(digest));
      var done := Append(job, now, if certified then CertifiedEvent else RefusedEvent);
      if done.None? {
        return false;
      }
      jobs := jobs[k.value := done.value];
      return true;
    }

    method FinishFailed(id: JobId, now: nat, kind: EventKind) returns (ok: bool)
      modifies this`jobs
      ensures (Contents(), ok) == Scheduler.FinishFailed(old(Contents()), id, now, kind)
    {
      var k := Find(jobs, id);
      if k.None? {
        return false;
      }
      var done := Append(jobs[k.value].(state := Failed, lease := None), now, kind);
      if done.None? {
        return false;
      }
      jobs := jobs[k.value := done.value];
      return true;
    }

    method WriteResult(id: JobId, digest: ResultDigest) returns (ok: bool)
      modifies this`results
      ensures (Contents(), ok) == Scheduler.WriteResult(old(Contents()), id, digest)
    {
      if id in results {
        return results[id] == digest;
      }
      results := results[id := digest];
      return true;
    }

    /** Two removals a record, the result's before its own; `removed` is the receipt's list,
        oldest first, and `stop` where the prune is stopped, if it is. */
    method PruneTerminal(before: nat, limit: nat, stop: Option<PruneStop>) returns (ok: bool, removed: seq<JobId>)
      modifies this
      ensures stop.None? ==> (Contents(), ok) == Prune(old(Contents()), before, limit)
      ensures stop.Some? ==> Contents() == PruneStopped(old(Contents()), before, limit, stop.value.done, stop.value.half)
      ensures ok ==> removed == EligibleFrom(Sort(old(jobs), Older), before, limit)
    {
      hide Find, Sort, EligibleFrom;
      removed := [];
      if !(1 <= limit <= 256) || |jobs| > MAX_JOBS {
        return false, removed;
      }
      var victims := EligibleFrom(Sort(jobs, Older), before, limit);
      for n := 0 to |victims|
        invariant stop.None? ==> PruneAll(old(Contents()), victims) == PruneAll(Contents(), victims[n..])
        invariant stop.Some? ==> n <= stop.value.done && PruneSome(old(Contents()), victims, stop.value.done, stop.value.half)
                                 == PruneSome(Contents(), victims[n..], stop.value.done - n, stop.value.half)
        invariant removed == victims[..n]
      {
        assert victims[n..][1..] == victims[n + 1..];
        var id, stopping := victims[n], stop.Some? && stop.value.done == n;
        if stopping && !stop.value.half {
          return false, [];
        }
        var k := Find(jobs, id);
        if k.None? || jobs[k.value].result != (if id in results then Some(results[id]) else None) {
          return false, [];
        }
        results := results - {id};
        if stopping {
          return false, [];
        }
        jobs := jobs[..k.value] + jobs[k.value + 1..];
        removed := removed + [id];
      }
      return true, removed;
    }

    /** One runner's batch: claim, run, record, at most `maxBatch` times. Its effect is a run of
        single-runner steps, so it keeps the books whatever the executor does and whenever it stops,
        and its receipt is what the metrics gain: the failures it does not report are the jobs its
        recovery passes gave up on. */
    method RunBatch(now: nat, outcomes: seq<Outcome>) returns (receipt: Receipt, ghost steps: seq<SoloStep>)
      requires cfg.Valid() && |outcomes| >= cfg.maxBatch && Books(cfg, Solo(Contents(), None))
      modifies this
      ensures Solo(Contents(), None) == SoloRun(cfg, old(Solo(Contents(), None)), steps)
      ensures Books(cfg, Solo(Contents(), None))
      ensures receipt.certified + receipt.refused + receipt.failed <= receipt.claimed
              <= receipt.certified + receipt.refused + receipt.failed + 1
      ensures receipt.claimed <= cfg.maxBatch
      ensures Measure(jobs).recoveries == old(Measure(jobs).recoveries) + receipt.recovered
      ensures CountState(jobs, Certified) == old(CountState(jobs, Certified)) + receipt.certified
      ensures CountState(jobs, Refused) == old(CountState(jobs, Refused)) + receipt.refused
      ensures CountState(jobs, Failed) + old(GivenUp(jobs)) == old(CountState(jobs, Failed)) + receipt.failed + GivenUp(jobs)
    {
      hide Books, Measure, SoloNext, CountState, GivenUp, Recorded;
      receipt := Receipt(0, 0, 0, 0, 0);
      steps := [];
      ghost var start := Solo(Contents(), None);
      for n := 0 to cfg.maxBatch
        invariant Solo(Contents(), None) == SoloRun(cfg, start, steps)
        invariant receipt.claimed == n == receipt.certified + receipt.refused + receipt.failed
        invariant Measure(jobs).recoveries == old(Measure(jobs).recoveries) + receipt.recovered
        invariant Gained(start.db.jobs, jobs, receipt)
      {
        SoloHistoriesBalance(cfg, start, steps);
        StepAppends(cfg, start, steps, Take(now));
        ClaimCounts(cfg, Contents(), now);
        ClaimCountsStates(cfg, Contents(), now);
        TakeIsClaim(cfg, Contents(), now);
        var claim, recovered := ClaimNext(now, None);
        steps := steps + [Take(now)];
        if !claim.Took? {
          break;
        }
        receipt := receipt.(claimed := receipt.claimed + 1, recovered := receipt.recovered + recovered);
        StepAppends(cfg, start, steps, Ending(now, outcomes[n]));
        EndingIsQuiet(cfg, Solo(Contents(), Some(claim.id)), steps, start, now, outcomes[n]);
        EndingGains(cfg, Solo(Contents(), Some(claim.id)), steps, start, now, outcomes[n]);
        var settled := Settle(claim.id, now, outcomes[n]);
        steps := steps + [Ending(now, outcomes[n])];
        if !settled {
          break;
        }
        receipt := if outcomes[n].Unfit? then receipt.(failed := receipt.failed + 1)
                   else if outcomes[n].certified then receipt.(certified := receipt.certified + 1)
                   else receipt.(refused := receipt.refused + 1);
      }
      SoloHistoriesBalance(cfg, start, steps);
    }

    /** Records how a claimed job ended; false when the batch must stop there. */
    method Settle(id: JobId, now: nat, o: Outcome) returns (settled: bool)
      modifies this
      ensures Solo(Contents(), None) == SoloNext(cfg, Solo(old(Contents()), Some(id)), Ending(now, o))
      ensures settled == Recorded(old(Contents()), id, now, o)
    {
      match o {
        case Verdict(certified, digest) =>
          settled := WriteResult(id, digest);
          if settled {
            settled := Finish(id, now, certified, digest);
          }
        case Unfit(changed) =>
          settled := FinishFailed(id, now, if changed then WorkspaceChanged else ResultBoundExceeded);
        case Interrupted => settled := false;
        case InterruptedAfterWrite(digest) =>
          var written := WriteResult(id, digest);
          settled := false;
      }
    }
  }

  /** The verdict counts grew by what the receipt reports, and the failures by that and by the
      jobs given up on. */
  ghost predicate Gained(a: seq<Job>, b: seq<Job>, receipt: Receipt) {
    && CountState(b, Certified) == CountState(a, Certified) + receipt.certified
    && CountState(b, Refused) == CountState(a, Refused) + receipt.refused
    && CountState(b, Failed) + GivenUp(a) == CountState(a, Failed) + receipt.failed + GivenUp(b)
  }

  lemma EndingGains(cfg: Config, s: Solo, steps: seq<SoloStep>, start: Solo, now: nat, o: Outcome)
    requires cfg.Valid() && Books(cfg, start) && s == SoloRun(cfg, start, steps) && s.inFlight.Some?
    ensures var recorded := Recorded(s.db, s.inFlight.value, now, o);
            && (recorded ==> o.Verdict? || o.Unfit?)
            && Gained(s.db.jobs, SoloNext(cfg, s, Ending(now, o)).db.jobs,
                      Receipt(0, Tick(recorded && o.Verdict? && o.certified), Tick(recorded && o.Verdict? && !o.certified),
                              Tick(recorded && o.Unfit?), 0))
  {
    hide SoloRun, CountState, GivenUp, Safe, Append, Find;
    SoloHistoriesBalance(cfg, start, steps);
    BooksAreSafe(cfg, s);
    SafeIsOrdered(cfg, s.db);
    var id := s.inFlight.value;
    hide Books, Finish, FinishFailed;
    match o {
      case Verdict(certified, digest) =>
        FinishCounts(Scheduler.WriteResult(s.db, id, digest).0, id, now, certified, digest);
      case Unfit(changed) => FailureCounts(s.db, id, now, if changed then WorkspaceChanged else ResultBoundExceeded);
      case Interrupted =>
      case InterruptedAfterWrite(_) =>
    }
  }

  lemma TakeIsClaim(cfg: Config, db: Db, now: nat)
    ensures var (after, claim) := ClaimNext(cfg, db, now);
            SoloNext(cfg, Solo(db, None), Take(now)) == Solo(after, if claim.Took? then Some(claim.id) else None)
  {
    hide ClaimNext;
  }

  lemma EndingIsQuiet(cfg: Config, s: Solo, steps: seq<SoloStep>, start: Solo, now: nat, o: Outcome)
    requires cfg.Valid() && Books(cfg, start) && s == SoloRun(cfg, start, steps)
    ensures Measure(SoloNext(cfg, s, Ending(now, o)).db.jobs).recoveries == Measure(s.db.jobs).recoveries
    ensures SoloNext(cfg, s, Ending(now, o)).inFlight.None?
  {
    hide Measure, Books, Safe, SoloRun;
    SoloHistoriesBalance(cfg, start, steps);
    BooksAreSafe(cfg, s);
    SafeIsOrdered(cfg, s.db);
    EndingCounts(cfg, s, Ending(now, o));
  }
}
