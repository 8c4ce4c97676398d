/** The durable job scheduler (src/operations.rs): job records with their audit chains, and
    each locked operation as a function from one store to the next. */
module Scheduler {
  import opened Basics
  import opened Sorting

  const MAX_JOBS: nat := 1_024
  const MAX_EVENTS: nat := 64

  /** Job ids are 24 hexadecimal digits behind a fixed prefix, so their text order is the
      order of the number they spell. */
  type JobId = nat

  /** A SHA-256 digest of a result, taken as injective. */
  type ResultDigest = nat

  datatype Config = Config(maxQueued: nat, maxBatch: nat, maxAttempts: nat, leaseSeconds: nat) {
    predicate Valid() {
      && 1 <= maxQueued <= MAX_JOBS && 1 <= maxBatch <= 64
      && 1 <= maxAttempts <= 10 && 10 <= leaseSeconds <= 86_400
    }
  }

  datatype JobState = Pending | Running | Certified | Refused | Failed {
    predicate Terminal() {
      Certified? || Refused? || Failed?
    }

    predicate Queued() {
      Pending? || Running?
    }
  }

  datatype EventKind =
    | Enqueued
    | Claimed
    | RecoveredAfterRestart
    | AttemptsExhausted
    | CertifiedEvent
    | RefusedEvent
    | WorkspaceChanged
    | ResultBoundExceeded

  /** The digest of an event, which covers its predecessor's: an injective seal. */
  datatype Seal = Seal(sequence: nat, at: nat, kind: EventKind, previous: Option<Seal>)

  datatype Event = Event(sequence: nat, at: nat, kind: EventKind, previous: Option<Seal>, seal: Seal)

  datatype Job = Job(
    id: JobId,
    submitted: nat,
    state: JobState,
    attempts: nat,
    lease: Option<nat>,
    result: Option<ResultDigest>,
    events: seq<Event>
  )

  /** The jobs directory in file-name order, and the results directory. */
  datatype Db = Db(jobs: seq<Job>, results: map<JobId, ResultDigest>)

  // ----- The audit chain -----

  function LastSeal(events: seq<Event>): Option<Seal> {
    if events == [] then None else Some(events[|events| - 1].seal)
  }

  function Append(job: Job, at: nat, kind: EventKind): Option<Job> {
    if |job.events| >= MAX_EVENTS then None
    else
      var seal := Seal(|job.events|, at, kind, LastSeal(job.events));
      Some(job.(events := job.events + [Event(|job.events|, at, kind, LastSeal(job.events), seal)]))
  }

  ghost predicate ValidChain(events: seq<Event>) {
    && 1 <= |events| <= MAX_EVENTS
    && forall k :: 0 <= k < |events| ==>
         && events[k].sequence == k
         && events[k].previous == LastSeal(events[..k])
         && events[k].seal == Seal(k, events[k].at, events[k].kind, events[k].previous)
  }

  /** Tampering shows: two valid chains of one length that end in the same seal are the
      same chain. */
  lemma {:induction false} ChainIsSealed(a: seq<Event>, b: seq<Event>)
    requires ValidChain(a) && ValidChain(b)
    requires LastSeal(a) == LastSeal(b)
    ensures a == b
  {
    hide ValidChain;
    LastEvent(a);
    LastEvent(b);
    var m, n := |a| - 1, |b| - 1;
    assert a[m] == b[n] && m == n;
    assert a == a[..m] + [a[m]] && b == b[..n] + [b[n]];
    if m == 0 {
      assert a[..m] == b[..n] == [];
    } else {
      ChainPrefix(a, m);
      ChainPrefix(b, n);
      ChainIsSealed(a[..m], b[..n]);
    }
  }

  lemma LastEvent(a: seq<Event>)
    requires ValidChain(a)
    ensures a != []
    ensures var e := a[|a| - 1];
            && e.sequence == |a| - 1 && e.previous == LastSeal(a[..|a| - 1])
            && e.seal == Seal(e.sequence, e.at, e.kind, e.previous)
  {
  }

  lemma ChainPrefix(events: seq<Event>, n: nat)
    requires ValidChain(events) && 1 <= n <= |events|
    ensures ValidChain(events[..n])
  {
    forall k | 0 <= k < n
      ensures events[..n][k] == events[k] && events[..n][..k] == events[..k]
    {
    }
  }

  lemma AppendKeepsChain(job: Job, at: nat, kind: EventKind)
    requires ValidChain(job.events) || job.events == []
    requires Append(job, at, kind).Some?
    ensures ValidChain(Append(job, at, kind).value.events)
  {
    var events := Append(job, at, kind).value.events;
    forall k | 0 <= k < |events|
      ensures events[k].previous == LastSeal(events[..k])
    {
      assert k < |job.events| ==> events[..k] == job.events[..k];
      assert k == |job.events| ==> events[..k] == job.events;
    }
  }

  // ----- Reading the store -----

  function Find(jobs: seq<Job>, id: JobId): (r: Option<nat>)
    ensures r.Some? ==> r.value < |jobs| && jobs[r.value].id == id
    ensures r.None? ==> forall k :: 0 <= k < |jobs| ==> jobs[k].id != id
  {
    if jobs == [] then None
    else if jobs[0].id == id then Some(0)
    else match Find(jobs[1..], id) case None => None case Some(k) => Some(k + 1)
  }

  function QueuedCount(jobs: seq<Job>): nat {
    if jobs == [] then 0 else QueuedCount(jobs[..|jobs| - 1]) + if jobs[|jobs| - 1].state.Queued() then 1 else 0
  }

  // ----- Enqueue -----

  /** The new record takes its place in file-name order. */
  function InsertJob(jobs: seq<Job>, job: Job): seq<Job> {
    if jobs == [] then [job]
    else if job.id < jobs[0].id then [job] + jobs
    else [jobs[0]] + InsertJob(jobs[1..], job)
  }

  function NewJob(id: JobId, at: nat): Job {
    var seal := Seal(0, at, Enqueued, None);
    Job(id, at, Pending, 0, None, None, [Event(0, at, Enqueued, None, seal)])
  }

  function Enqueue(cfg: Config, db: Db, id: JobId, at: nat): (Db, bool) {
    if |db.jobs| > MAX_JOBS || QueuedCount(db.jobs) >= cfg.maxQueued || Find(db.jobs, id).Some? then (db, false)
    else (db.(jobs := InsertJob(db.jobs, NewJob(id, at))), true)
  }

  // ----- Claim -----

  predicate Expired(job: Job, now: nat) {
    job.state.Running? && job.lease.Some? && job.lease.value <= now
  }

  /** What the recovery pass makes of one job; None when its event no longer fits. */
  function Requeue(cfg: Config, now: nat, job: Job): Option<Job> {
    if !Expired(job, now) then Some(job)
    else if job.attempts >= cfg.maxAttempts then
      Append(job.(state := Failed, lease := None), now, AttemptsExhausted)
    else
      Append(job.(state := Pending, lease := None), now, RecoveredAfterRestart)
  }

  /** The recovery pass from record `k` up to `end`, one record replaced at a time: those before
      a failure are already replaced. */
  function RecoverFrom(cfg: Config, now: nat, jobs: seq<Job>, k: nat, end: nat): (seq<Job>, bool)
    requires k <= end <= |jobs|
    decreases end - k
  {
    if k == end then (jobs, true)
    else
      match Requeue(cfg, now, jobs[k])
      case None => (jobs, false)
      case Some(job) => RecoverFrom(cfg, now, jobs[k := job], k + 1, end)
  }

  predicate Older(a: Job, b: Job) {
    a.submitted < b.submitted || (a.submitted == b.submitted && a.id < b.id)
  }

  /** The least pending job by (submission time, id). */
  function Oldest(jobs: seq<Job>): (r: Option<nat>)
    ensures r.Some? ==> r.value < |jobs| && jobs[r.value].state.Pending?
    ensures r.None? ==> forall k :: 0 <= k < |jobs| ==> !jobs[k].state.Pending?
  {
    if jobs == [] then None
    else
      var n := |jobs| - 1;
      var before := Oldest(jobs[..n]);
      if !jobs[n].state.Pending? then before
      else if before.None? || Older(jobs[n], jobs[before.value]) then Some(n)
      else before
  }

  function SaturatingAdd(a: nat, b: nat): nat {
    if a + b >= U64_LIMIT then U64_LIMIT - 1 else a + b
  }

  function Start(cfg: Config, now: nat, job: Job): Option<Job> {
    Append(job.(state := Running, attempts := job.attempts + 1,
                lease := Some(SaturatingAdd(now, cfg.leaseSeconds))), now, Claimed)
  }

  datatype Claim = Nothing | Refusal | Took(id: JobId)

  function ClaimNext(cfg: Config, db: Db, now: nat): (Db, Claim) {
    if |db.jobs| > MAX_JOBS then (db, Refusal)
    else
      var (jobs, done) := RecoverFrom(cfg, now, db.jobs, 0, |db.jobs|);
      if !done then (db.(jobs := jobs), Refusal)
      else
        match Oldest(jobs)
        case None => (db.(jobs := jobs), Nothing)
        case Some(k) =>
          match Start(cfg, now, jobs[k])
          case None => (db.(jobs := jobs), Refusal)
          case Some(job) => (db.(jobs := jobs[k := job]), Took(job.id))
  }

  /** A claim stopped in its recovery pass, when it has dealt with `seen` records. */
  function ClaimStopped(cfg: Config, db: Db, now: nat, seen: nat): Db {
    if |db.jobs| > MAX_JOBS then db
    else db.(jobs := RecoverFrom(cfg, now, db.jobs, 0, if seen < |db.jobs| then seen else |db.jobs|).0)
  }

  // ----- Finish -----

  function Finish(db: Db, id: JobId, now: nat, certified: bool, digest: ResultDigest): (Db, bool) {
    match Find(db.jobs, id)
    case None => (db, false)
    case Some(k) =>
      var job := db.jobs[k];
      if !job.state.Running? then (db, false)
      else
        var state, kind := if certified then Certified else Refused, if certified then CertifiedEvent else RefusedEvent;
        match Append(job.(state := state, lease := None, result := Some(digest)), now, kind)
        case None => (db, false)
        case Some(done) => (db.(jobs := db.jobs[k := done]), true)
  }

  /** Unlike `Finish` this never looks at the job's state. */
  function FinishFailed(db: Db, id: JobId, now: nat, kind: EventKind): (Db, bool) {
    match Find(db.jobs, id)
    case None => (db, false)
    case Some(k) =>
      match Append(db.jobs[k].(state := Failed, lease := None), now, kind)
      case None => (db, false)
      case Some(done) => (db.(jobs := db.jobs[k := done]), true)
  }

  function WriteResult(db: Db, id: JobId, digest: ResultDigest): (Db, bool) {
    if id in db.results then (db, db.results[id] == digest)
    else (db.(results := db.results[id := digest]), true)
  }

  // ----- Prune -----

  function EligibleFrom(sorted: seq<Job>, before: nat, limit: nat): seq<JobId> {
    if sorted == [] || limit == 0 then []
    else if sorted[0].submitted < before && sorted[0].state.Terminal()
    then [sorted[0].id] + EligibleFrom(sorted[1..], before, limit - 1)
    else EligibleFrom(sorted[1..], before, limit)
  }

  /** Removes one record and its result; None when record and result disagree. */
  function PruneOne(db: Db, id: JobId): Option<Db> {
    match Find(db.jobs, id)
    case None => None
    case Some(k) =>
      var expected := if id in db.results then Some(db.results[id]) else None;
      if db.jobs[k].result != expected then None
      else Some(Db(db.jobs[..k] + db.jobs[k + 1..], db.results - {id}))
  }

  function PruneAll(db: Db, ids: seq<JobId>): (Db, bool)
    decreases |ids|
  {
    if ids == [] then (db, true)
    else
      match PruneOne(db, ids[0])
      case None => (db, false)
      case Some(smaller) => PruneAll(smaller, ids[1..])
  }

  function Prune(db: Db, before: nat, limit: nat): (Db, bool) {
    if !(1 <= limit <= 256) || |db.jobs| > MAX_JOBS then (db, false)
    else PruneAll(db, EligibleFrom(Sort(db.jobs, Older), before, limit))
  }

  /** The first of the two removals that prune a record. */
  function DropResult(db: Db, id: JobId): Db {
    if PruneOne(db, id).None? then db else db.(results := db.results - {id})
  }

  /** Pruning stopped after `done` records: before the next one, or `half` way through it, with
      its result removed and its record still there. */
  function PruneSome(db: Db, ids: seq<JobId>, done: nat, half: bool): Db
    decreases |ids|
  {
    if ids == [] then db
    else if done == 0 then if half then DropResult(db, ids[0]) else db
    else
      match PruneOne(db, ids[0])
      case None => db
      case Some(smaller) => PruneSome(smaller, ids[1..], done - 1, half)
  }

  function PruneStopped(db: Db, before: nat, limit: nat, done: nat, half: bool): Db {
    if !(1 <= limit <= 256) || |db.jobs| > MAX_JOBS then db
    else PruneSome(db, EligibleFrom(Sort(db.jobs, Older), before, limit), done, half)
  }

  /** What a whole prune leaves is what one stopped behind its last record does. */
  lemma {:induction false} WholePrune(db: Db, ids: seq<JobId>)
    ensures PruneAll(db, ids).0 == PruneSome(db, ids, |ids|, false)
    decreases |ids|
  {
    hide PruneOne;
    if ids != [] && PruneOne(db, ids[0]).Some? {
      WholePrune(PruneOne(db, ids[0]).value, ids[1..]);
    }
  }

  // ----- Facts about single records and their order -----

  ghost predicate Ordered(jobs: seq<Job>) {
    forall i, j :: 0 <= i < j < |jobs| ==> jobs[i].id < jobs[j].id
  }

  lemma {:induction false} OldestIsLeast(jobs: seq<Job>)
    requires Ordered(jobs) && Oldest(jobs).Some?
    ensures forall k :: 0 <= k < |jobs| && k != Oldest(jobs).value && jobs[k].state.Pending? ==>
              Older(jobs[Oldest(jobs).value], jobs[k])
  {
    var n := |jobs| - 1;
    var init := jobs[..n];
    if Oldest(init).Some? {
      OldestIsLeast(init);
      assert forall k :: 0 <= k < n ==> init[k] == jobs[k];
    }
  }

  /** The first pending job of the age-sorted list, which the program claims, is that one. */
  lemma OldestIsFirstSorted(jobs: seq<Job>, k: nat)
    requires Ordered(jobs)
    requires k < |Sort(jobs, Older)| && Sort(jobs, Older)[k].state.Pending?
    requires forall j :: 0 <= j < k ==> !Sort(jobs, Older)[j].state.Pending?
    ensures Oldest(jobs).Some? && jobs[Oldest(jobs).value] == Sort(jobs, Older)[k]
  {
    var sorted := Sort(jobs, Older);
    SortIncreasing(jobs, Older);
    var i := SortedFrom(jobs, k);
    OldestIsLeast(jobs);
    var best := Oldest(jobs).value;
    var j := SortedAt(jobs, best);
    hide Sort, Oldest, Ordered;
    assert k < j ==> Older(sorted[k], sorted[j]);
  }

  lemma SortedFrom(jobs: seq<Job>, k: nat) returns (i: nat)
    requires k < |Sort(jobs, Older)|
    ensures i < |jobs| && jobs[i] == Sort(jobs, Older)[k]
  {
    hide Sort;
    SortPermutes(jobs, Older);
    assert Sort(jobs, Older)[k] in multiset(Sort(jobs, Older));
    i :| 0 <= i < |jobs| && jobs[i] == Sort(jobs, Older)[k];
  }

  lemma SortedAt(jobs: seq<Job>, i: nat) returns (k: nat)
    requires i < |jobs|
    ensures k < |Sort(jobs, Older)| && Sort(jobs, Older)[k] == jobs[i]
  {
    hide Sort;
    SortPermutes(jobs, Older);
    assert jobs[i] in multiset(Sort(jobs, Older));
    k :| 0 <= k < |Sort(jobs, Older)| && Sort(jobs, Older)[k] == jobs[i];
  }
}
