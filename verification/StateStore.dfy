/** Snapshots, restore, rollback and commit of prior state (src/state_store.rs). Each
    transaction is the sequence of worlds its file operations produce, so that a stop between
    any two of them is a prefix. Single writes, renames and removals are atomic. */
module StateStore {
  import opened Basics

  const MAX_STATE_BYTES: nat := 67_108_864

  type Payload = seq<Byte>

  /** What a path can hold. */
  datatype Node = File(bytes: Payload) | Link | Directory

  /** The four paths of one destination. The activation marker records the digest and length of
      a payload; digests are injective, so it is kept as that payload. */
  datatype Files = Files(
    destination: Option<Node>,
    stage: Option<Payload>,
    rollback: Option<Node>,
    marker: Option<Payload>
  )

  datatype Failure = NoFailure | AfterRollbackPrepared | SwitchFails | MarkerFails

  predicate Bounded(n: Option<Node>) {
    n.Some? && n.value.File? && |n.value.bytes| <= MAX_STATE_BYTES
  }

  predicate Clean(f: Files) {
    f.stage.None? && f.rollback.None? && f.marker.None?
  }

  // ----- The transactions, world by world -----

  function RestoreSteps(f: Files, payload: Payload, failure: Failure): (r: seq<Files>)
    ensures |r| >= 1 && r[0] == f
  {
    var staged := f.(stage := Some(payload));
    if !Clean(f) then [f]
    else if f.destination.None? then
      if failure.AfterRollbackPrepared? || failure.SwitchFails? then [f, staged, f]
      else [f, staged, f.(destination := Some(File(payload)))]
    else if !f.destination.value.File? then [f, staged, f]
    else
      var moved := staged.(destination := None, rollback := f.destination);
      var unstaged := moved.(stage := None);
      var switched := unstaged.(destination := Some(File(payload)));
      if failure.AfterRollbackPrepared? || failure.SwitchFails? then [f, staged, moved, unstaged, f]
      else if failure.MarkerFails? then [f, staged, moved, switched, f]
      else [f, staged, moved, switched, switched.(marker := Some(payload))]
  }

  function RollbackSteps(f: Files): (r: seq<Files>)
    ensures |r| >= 1 && r[0] == f
  {
    if !Bounded(f.rollback) || f.stage.Some? then [f]
    else
      var staged := f.(stage := Some(f.rollback.value.bytes));
      if f.destination == Some(Directory) then [f, staged]
      else
        var back := f.(destination := f.rollback);
        var retired := back.(rollback := None);
        if f.marker.None? then [f, staged, back, retired]
        else [f, staged, back, retired, retired.(marker := None)]
  }

  function CommitSteps(f: Files): (r: seq<Files>)
    ensures |r| >= 1 && r[0] == f
  {
    if !Bounded(f.rollback) || f.marker.None? || !Bounded(f.destination)
       || f.destination.value.bytes != f.marker.value
    then [f]
    else
      var retired := f.(rollback := None);
      [f, retired, retired.(marker := None)]
  }

  datatype Op =
    | DoRestore(payload: Payload, failure: Failure)
    | DoRollback
    | DoCommit

  function Steps(f: Files, op: Op): (r: seq<Files>)
    ensures |r| >= 1 && r[0] == f
  {
    match op
    case DoRestore(payload, failure) => RestoreSteps(f, payload, failure)
    case DoRollback => RollbackSteps(f)
    case DoCommit => CommitSteps(f)
  }

  function StopAfter(r: seq<Files>, calls: nat): Files
    requires |r| >= 1
  {
    if calls < |r| then r[calls] else r[|r| - 1]
  }

  function Complete(f: Files, op: Op): Files {
    StopAfter(Steps(f, op), |Steps(f, op)|)
  }

  // ----- No stop point loses prior state -----

  /** The state a rollback would bring back: the copy kept for it, else the destination. */
  function Prior(f: Files): Option<Node> {
    if f.rollback.Some? then f.rollback else f.destination
  }

  /** Between any two file operations of a restore or a rollback the prior state is still at
      the destination or at the rollback path. */
  lemma StopsKeepPrior(f: Files, op: Op, k: nat)
    requires Prior(f).Some? && !op.DoCommit? && k < |Steps(f, op)|
    ensures Prior(Steps(f, op)[k]) == Prior(f)
  {
  }

  /** A commit gives the prior state up only when the active bytes are those the marker
      recorded; otherwise it changes nothing. */
  lemma CommitRetiresOnlyMatches(f: Files, k: nat)
    requires k < |CommitSteps(f)|
    ensures Prior(CommitSteps(f)[k]) != Prior(f) ==>
              f.marker.Some? && f.destination == Some(File(f.marker.value))
    ensures CommitSteps(f)[k].destination == f.destination
    ensures f.marker.None? || f.destination != Some(File(f.marker.value)) ==> CommitSteps(f) == [f]
  {
  }

  /** Steps of a history: a transaction stopped after some file operations, or the application
      rewriting its active state. */
  datatype Event = Transaction(op: Op, calls: nat) | AppWrites(bytes: Payload)

  function After(f: Files, e: Event): Files {
    match e
    case Transaction(op, calls) => StopAfter(Steps(f, op), calls)
    case AppWrites(bytes) => f.(destination := Some(File(bytes)))
  }

  function History(f: Files, events: seq<Event>): Files
    decreases |events|
  {
    if events == [] then f else History(After(f, events[0]), events[1..])
  }

  /** No commit, and the application writes only while a copy is kept for rollback. */
  ghost predicate Uncommitted(f: Files, events: seq<Event>)
    decreases |events|
  {
    events == [] ||
    (&& (if events[0].AppWrites? then f.rollback.Some? else !events[0].op.DoCommit?)
     && Uncommitted(After(f, events[0]), events[1..]))
  }

  /** Over whole histories of restores and rollbacks, however often stopped, retried and
      overwritten meanwhile, the prior state survives until a commit. */
  lemma {:induction false} HistoriesKeepPrior(f: Files, events: seq<Event>)
    requires Prior(f).Some? && Uncommitted(f, events)
    ensures Prior(History(f, events)) == Prior(f)
    decreases |events|
  {
    if events != [] {
      if events[0].Transaction? {
        var r := Steps(f, events[0].op);
        StopsKeepPrior(f, events[0].op, if events[0].calls < |r| then events[0].calls else |r| - 1);
      }
      HistoriesKeepPrior(After(f, events[0]), events[1..]);
    }
  }

  // ----- What a transaction that goes through leaves -----

  /** A restore installs the payload wherever nothing or a file was, keeps the file for a
      rollback, and records the payload exactly when it kept one. */
  lemma RestoreInstalls(f: Files, payload: Payload)
    requires Clean(f) && (f.destination.None? || f.destination.value.File?)
    ensures var after := Complete(f, DoRestore(payload, NoFailure));
            && after.destination == Some(File(payload)) && after.stage.None? && after.rollback == f.destination
            && after.marker == if f.destination.Some? then Some(payload) else None
  {
  }

  /** Over anything but a file, or with leftovers at the paths, it leaves everything as it was. */
  lemma RestoreRefuses(f: Files, payload: Payload, failure: Failure)
    requires !Clean(f) || (f.destination.Some? && !f.destination.value.File?)
    ensures Complete(f, DoRestore(payload, failure)) == f
  {
  }

  /** A first restore that fails before or at the switch installs nothing at any moment; later
      failures cannot befall it, since it writes no marker. */
  lemma FailedFirstRestore(f: Files, payload: Payload, failure: Failure, k: nat)
    requires Clean(f) && f.destination.None?
    ensures failure.AfterRollbackPrepared? || failure.SwitchFails? ==>
              && StopAfter(RestoreSteps(f, payload, failure), k).destination.None?
              && Complete(f, DoRestore(payload, failure)) == f
    ensures failure.MarkerFails? ==> RestoreSteps(f, payload, failure) == RestoreSteps(f, payload, NoFailure)
    ensures failure.NoFailure? ==>
              StopAfter(RestoreSteps(f, payload, failure), k).destination == (if k >= 2 then Some(File(payload)) else None)
  {
  }

  /** A rollback that is possible puts the kept file back and clears the other paths, unless a
      directory is in its way. */
  lemma RollbackReinstates(f: Files)
    requires CanRollback(f) && f.destination != Some(Directory)
    ensures Complete(f, DoRollback) == Files(f.rollback, None, None, None)
  {
  }

  /** A commit that is possible leaves the destination alone and clears the kept file and the
      marker. */
  lemma CommitSettles(f: Files)
    requires CanCommit(f)
    ensures Complete(f, DoCommit) == Files(f.destination, f.stage, None, None)
  {
  }

  // ----- Round trips, and exactly where they fail -----

  /** Restore then rollback is the identity exactly when there is a destination, and it is not
      a file above the size bound. */
  lemma RestoreRollbackIdentity(f: Files, payload: Payload)
    requires Clean(f)
    ensures Complete(Complete(f, DoRestore(payload, NoFailure)), DoRollback) == f
            <==> f.destination.Some?
                 && (f.destination.value.File? ==> |f.destination.value.bytes| <= MAX_STATE_BYTES)
  {
  }

  /** Above the bound the restore goes through, but then nothing can undo or confirm it. */
  lemma OversizedPriorIsStuck(f: Files, payload: Payload, previous: Payload, op: Op)
    requires Clean(f) && f.destination == Some(File(previous)) && |previous| > MAX_STATE_BYTES
    ensures var restored := Complete(f, DoRestore(payload, NoFailure));
            restored.destination == Some(File(payload)) && Steps(restored, op) == [restored]
  {
  }

  /** Restore then commit leaves just the restored payload, for payloads and prior state
      within the bound. */
  lemma RestoreCommit(f: Files, payload: Payload, previous: Payload)
    requires Clean(f) && f.destination == Some(File(previous))
    requires |payload| <= MAX_STATE_BYTES && |previous| <= MAX_STATE_BYTES
    ensures Complete(Complete(f, DoRestore(payload, NoFailure)), DoCommit) == f.(destination := Some(File(payload)))
  {
  }

  /** A failed restore undoes itself. */
  lemma FailedRestoreUndoes(f: Files, payload: Payload, failure: Failure)
    requires Clean(f) && !failure.NoFailure? && f.destination.Some?
    ensures Complete(f, DoRestore(payload, failure)) == f
  {
  }

  // ----- Which stops can be recovered from, exactly -----

  predicate CanRestore(f: Files) {
    Clean(f)
  }

  predicate CanRollback(f: Files) {
    Bounded(f.rollback) && f.stage.None?
  }

  predicate CanCommit(f: Files) {
    && Bounded(f.rollback) && f.marker.Some?
    && Bounded(f.destination) && f.destination.value.bytes == f.marker.value
  }

  /** Every operation refuses at once: the operator must step in. */
  ghost predicate Blocked(f: Files) {
    forall op :: Steps(f, op) == [f]
  }

  /** The paths are blocked exactly when the guards of all three operations fail. */
  lemma BlockedExactly(f: Files)
    ensures Blocked(f) <==> !CanRestore(f) && !CanRollback(f) && !CanCommit(f)
  {
    var restore := DoRestore([], NoFailure);
    assert Steps(f, restore) == [f] <==> !CanRestore(f);
    assert Steps(f, DoRollback) == [f] <==> !CanRollback(f);
    assert Steps(f, DoCommit) == [f] <==> !CanCommit(f);
  }

  /** A restore over a file, stopped after `k` file operations and failing wherever it may: a
      rollback brings the file back, or else nothing can move, exactly as listed. The two stops
      around the rename leave the staging file behind. */
  lemma InterruptedRestore(f: Files, payload: Payload, previous: Payload, failure: Failure, k: nat)
    requires Clean(f) && f.destination == Some(File(previous))
    ensures var stopped := StopAfter(RestoreSteps(f, payload, failure), k);
            && (Complete(stopped, DoRollback) == f
                <==> k == 0 || (k >= 4 && !failure.NoFailure?) || (k >= 3 && |previous| <= MAX_STATE_BYTES))
            && (Blocked(stopped) <==> Complete(stopped, DoRollback) != f)
            && Prior(stopped) == Prior(f)
  {
    var stopped := StopAfter(RestoreSteps(f, payload, failure), k);
    BlockedExactly(stopped);
  }

  /** A restore where nothing was: stopped with its staging file it blocks, and once done there
      is nothing to roll back to. */
  lemma InterruptedFirstRestore(f: Files, payload: Payload, failure: Failure, k: nat)
    requires Clean(f) && f.destination.None?
    ensures var stopped := StopAfter(RestoreSteps(f, payload, failure), k);
            && (Blocked(stopped) <==> k == 1)
            && (Complete(stopped, DoRollback) == f
                <==> k == 0 || (k >= 2 && (failure.AfterRollbackPrepared? || failure.SwitchFails?)))
  {
    BlockedExactly(StopAfter(RestoreSteps(f, payload, failure), k));
  }

  /** A rollback stopped after `k` file operations and retried ends as the uninterrupted one
      unless it stopped with its staging file, or with nothing but the marker left to remove.
      A directory in the way makes even the uninterrupted one leave its staging file. */
  lemma InterruptedRollback(f: Files, k: nat)
    requires CanRollback(f)
    ensures var stopped, obstructed := StopAfter(RollbackSteps(f), k), f.destination == Some(Directory);
            && (Complete(stopped, DoRollback) == Complete(f, DoRollback)
                <==> obstructed || (k != 1 && !(k == 3 && f.marker.Some?)))
            && (Blocked(stopped)
                <==> if obstructed then k >= 1 else (k == 1 && !CanCommit(f)) || (k == 3 && f.marker.Some?))
            && Prior(stopped) == Prior(f)
  {
    BlockedExactly(StopAfter(RollbackSteps(f), k));
  }

  /** A commit stopped after `k` file operations and retried ends as the uninterrupted one
      unless it stopped between its two removals. */
  lemma InterruptedCommit(f: Files, k: nat)
    requires CanCommit(f)
    ensures var stopped := StopAfter(CommitSteps(f), k);
            && (Complete(stopped, DoCommit) == Complete(f, DoCommit) <==> k != 1)
            && (Blocked(stopped) <==> k == 1 || (k >= 2 && f.stage.Some?))
            && stopped.destination == f.destination
  {
    BlockedExactly(StopAfter(CommitSteps(f), k));
  }

  /** From a clean destination: a rollback and a commit of one restore, each stopped just
      before it removes the marker, leave only that marker and block everything. */
  lemma OrphanMarkersBlock(f: Files, payload: Payload, previous: Payload)
    requires Clean(f) && f.destination == Some(File(previous))
    requires |payload| <= MAX_STATE_BYTES && |previous| <= MAX_STATE_BYTES
    ensures var restored := Complete(f, DoRestore(payload, NoFailure));
            var undone, kept := StopAfter(RollbackSteps(restored), 3), StopAfter(CommitSteps(restored), 1);
            && undone == f.(marker := Some(payload)) && Blocked(undone)
            && kept == f.(destination := Some(File(payload)), marker := Some(payload)) && Blocked(kept)
  {
    var restored := Complete(f, DoRestore(payload, NoFailure));
    InterruptedRollback(restored, 3);
    InterruptedCommit(restored, 1);
  }
}
