/** Docker activation (src/activation.rs): activate, roll back and commit as functions on the
    service's containers, stopping wherever the failure points let them. Twelve-character
    plan prefixes are taken to be distinct, so stages are named by their plans. */
module Docker {
  import opened Basics

  type Plan = Text
  type Image = Text

  datatype Container = Container(plan: Option<Plan>, image: Image, running: bool)

  datatype Holder = Activating(plan: Plan) | RollingBack(plan: Plan) | Committing(plan: Plan)

  /** The containers of one service. The lease is a container too, kept for its label. */
  datatype World = World(
    active: Option<Container>,
    stages: map<Plan, Container>,
    rollback: Option<Container>,
    failed: Option<Container>,
    lease: Option<Holder>
  )

  datatype Failure = NoFailure | AfterStageHealthy | AfterActiveStopped | AfterActiveRenamed

  function Stopped(c: Container): Container {
    c.(running := false)
  }

  function Started(c: Container): Container {
    c.(running := true)
  }

  predicate ActiveIs(w: World, plan: Plan) {
    w.active.Some? && w.active.value.plan == Some(plan)
  }

  /** Whether `acquire_lease` succeeds: no lease, or one already held for the same purpose. */
  predicate CanHold(w: World, holder: Holder) {
    w.lease.None? || w.lease == Some(holder)
  }

  function Activate(w: World, plan: Plan, image: Image, healthy: bool, failure: Failure): (World, bool) {
    if !CanHold(w, Activating(plan)) then (w, false)
    else
      var held := w.(lease := Some(Activating(plan)));
      if ActiveIs(w, plan) then (held.(stages := w.stages - {plan}, lease := None), true)
      else if w.rollback.Some? && plan !in w.stages then (w, false)
      else
        var staged := if plan in w.stages then held
                      else held.(stages := w.stages[plan := Container(Some(plan), image, true)]);
        if plan !in w.stages && !healthy then (w.(lease := None), false)
        else if failure.AfterStageHealthy? then (staged, false)
        else Switch(staged, plan, failure)
  }

  /** From a healthy stage on. */
  function Switch(w: World, plan: Plan, failure: Failure): (World, bool)
    requires plan in w.stages
  {
    var quiet := if w.active.Some? then w.(active := Some(Stopped(w.active.value))) else w;
    if w.active.Some? && failure.AfterActiveStopped? then (quiet, false)
    else
      var moved := if w.active.Some? && w.rollback.None? then quiet.(active := None, rollback := quiet.active) else quiet;
      if failure.AfterActiveRenamed? || moved.active.Some? then (moved, false)
      else (moved.(active := Some(Started(w.stages[plan])), stages := w.stages - {plan}, lease := None), true)
  }

  function Rollback(w: World, plan: Plan): (World, bool) {
    if w.rollback.None? || w.active.None? || !CanHold(w, RollingBack(plan)) then (w, false)
    else
      (w.(active := Some(Started(w.rollback.value)), rollback := None,
          failed := Some(Stopped(w.active.value)), lease := None), true)
  }

  function Commit(w: World, plan: Plan): (World, bool) {
    if !ActiveIs(w, plan) || !CanHold(w, Committing(plan)) then (w, false)
    else (w.(rollback := None, failed := None, lease := None), true)
  }

  // ----- Restartability -----

  /** Any number of interrupted attempts of one plan. */
  function Attempts(w: World, plan: Plan, image: Image, failures: seq<Failure>): World
    decreases |failures|
  {
    if failures == [] then w
    else Attempts(Activate(w, plan, image, true, failures[0]).0, plan, image, failures[1..])
  }

  datatype Phase = Fresh | Staged | Quiet | Moved | Done

  /** A service at rest: nothing staged, leased or kept for rollback. */
  predicate AtRest(w: World) {
    w.stages == map[] && w.lease.None? && w.rollback.None?
  }

  /** What an activation of `plan` has done to a service at rest, phase by phase. */
  function At(w: World, plan: Plan, image: Image, phase: Phase): World {
    var staged := w.(stages := map[plan := Container(Some(plan), image, true)], lease := Some(Activating(plan)));
    var previous := if w.active.Some? then Some(Stopped(w.active.value)) else None;
    if ActiveIs(w, plan) then w
    else
      match phase
      case Fresh => w
      case Staged => staged
      case Quiet => staged.(active := previous)
      case Moved => staged.(active := None, rollback := previous)
      case Done => w.(active := Some(Container(Some(plan), image, true)), rollback := previous)
  }

  /** The phase an attempt leaves behind. */
  function Reached(w: World, phase: Phase, failure: Failure): Phase {
    if phase.Done? then Done
    else if failure.AfterStageHealthy? then (if phase.Fresh? then Staged else phase)
    else if failure.AfterActiveStopped? && w.active.Some? && !phase.Moved? then Quiet
    else if failure.AfterActiveRenamed? then Moved
    else Done
  }

  lemma AttemptAdvances(w: World, plan: Plan, image: Image, phase: Phase, failure: Failure)
    requires AtRest(w)
    ensures Activate(At(w, plan, image, phase), plan, image, true, failure).0
            == At(w, plan, image, Reached(w, phase, failure))
    ensures failure.NoFailure? ==> Activate(At(w, plan, image, phase), plan, image, true, failure).1
  {
    var stage := Container(Some(plan), image, true);
    assert map[plan := stage] - {plan} == map[];
    var none: map<Plan, Container> := map[];
    assert none[plan := stage] == map[plan := stage] && none - {plan} == none;
  }

  lemma {:induction false} AttemptsReachPhase(w: World, plan: Plan, image: Image, phase: Phase, failures: seq<Failure>)
    returns (after: Phase)
    requires AtRest(w)
    ensures Attempts(At(w, plan, image, phase), plan, image, failures) == At(w, plan, image, after)
    decreases |failures|
  {
    hide Activate, At;
    after := phase;
    if failures != [] {
      AttemptAdvances(w, plan, image, phase, failures[0]);
      after := AttemptsReachPhase(w, plan, image, Reached(w, phase, failures[0]), failures[1..]);
    }
  }

  /** Activation is restartable: however often and wherever it was interrupted, retrying the
      same plan ends with exactly the containers of an uninterrupted run. */
  lemma ActivationIsRestartable(w: World, plan: Plan, image: Image, failures: seq<Failure>)
    requires AtRest(w)
    ensures var retried := Activate(Attempts(w, plan, image, failures), plan, image, true, NoFailure);
            retried.0 == Activate(w, plan, image, true, NoFailure).0 && retried.1
  {
    var phase := AttemptsReachPhase(w, plan, image, Fresh, failures);
    assert At(w, plan, image, Fresh) == w;
    AttemptAdvances(w, plan, image, phase, NoFailure);
    AttemptAdvances(w, plan, image, Fresh, NoFailure);
  }

  /** What the uninterrupted run is for: the new plan runs, the old container is kept. */
  lemma ActivationSwitches(w: World, plan: Plan, image: Image)
    requires AtRest(w) && !ActiveIs(w, plan)
    ensures Activate(w, plan, image, true, NoFailure) ==
            (w.(active := Some(Container(Some(plan), image, true)),
                rollback := if w.active.Some? then Some(Stopped(w.active.value)) else None), true)
  {
    AttemptAdvances(w, plan, image, Fresh, NoFailure);
  }

  /** Where the failure points leave a first attempt: with the stage running, with the active
      container stopped, and with it set aside for rollback. */
  lemma InterruptedActivation(w: World, plan: Plan, image: Image)
    requires AtRest(w) && !ActiveIs(w, plan)
    ensures var staged := w.(stages := map[plan := Container(Some(plan), image, true)], lease := Some(Activating(plan)));
            && Activate(w, plan, image, true, AfterStageHealthy) == (staged, false)
            && (w.active.Some? ==>
                  && Activate(w, plan, image, true, AfterActiveStopped)
                     == (staged.(active := Some(w.active.value.(running := false))), false)
                  && Activate(w, plan, image, true, AfterActiveRenamed)
                     == (staged.(active := None, rollback := Some(w.active.value.(running := false))), false))
            && (w.active.None? ==> Activate(w, plan, image, true, AfterActiveRenamed) == (staged, false))
  {
    var none: map<Plan, Container> := map[];
    assert none[plan := Container(Some(plan), image, true)] == map[plan := Container(Some(plan), image, true)];
  }

  /** An unhealthy stage is removed again, and an active plan is not activated twice. */
  lemma NothingToActivate(w: World, plan: Plan, image: Image, healthy: bool, failure: Failure)
    requires AtRest(w)
    ensures ActiveIs(w, plan) ==> Activate(w, plan, image, healthy, failure) == (w, true)
    ensures !ActiveIs(w, plan) && !healthy ==> Activate(w, plan, image, healthy, failure) == (w, false)
  {
    assert w.stages - {plan} == w.stages;
  }

  /** Anyone's lease but one's own refuses, and so does a kept container while nothing is staged
      for the plan. */
  lemma ActivationRefused(w: World, plan: Plan, image: Image, healthy: bool, failure: Failure)
    requires (w.lease.Some? && w.lease != Some(Activating(plan)))
             || (!ActiveIs(w, plan) && w.rollback.Some? && plan !in w.stages)
    ensures Activate(w, plan, image, healthy, failure) == (w, false)
  {
  }

  /** A commit goes through exactly for the active plan with the lease free or its own: then
      the containers kept for rollback and set aside are gone and the active one is untouched. */
  lemma CommitExactly(w: World, plan: Plan)
    ensures var (after, ok) := Commit(w, plan);
            && (ok <==> && w.active.Some? && w.active.value.plan == Some(plan)
                        && (w.lease.None? || w.lease == Some(Committing(plan))))
            && after == if ok then World(w.active, w.stages, None, None, None) else w
  {
  }

  /** A rollback goes through exactly when there is a container to go back to and one to replace,
      with the lease free or its own: the kept one runs, the replaced one is stopped and set aside. */
  lemma RollbackExactly(w: World, plan: Plan)
    ensures var (after, ok) := Rollback(w, plan);
            && (ok <==> w.rollback.Some? && w.active.Some? && (w.lease.None? || w.lease == Some(RollingBack(plan))))
            && after == if ok then World(Some(w.rollback.value.(running := true)), w.stages, None,
                                         Some(w.active.value.(running := false)), None)
                        else w
  {
  }

  /** Activate, then commit: the new plan serves and nothing else is left. */
  lemma ActivationCommits(w: World, plan: Plan, image: Image)
    requires AtRest(w) && !ActiveIs(w, plan)
    ensures Commit(Activate(w, plan, image, true, NoFailure).0, plan)
         == (World(Some(Container(Some(plan), image, true)), map[], None, None, None), true)
  {
    ActivationSwitches(w, plan, image);
  }

  /** Rolling back undoes an activation but for the failed container it keeps aside: the old
      container is active again, and running. */
  lemma RollbackUndoesActivation(w: World, plan: Plan, image: Image, requested: Plan)
    requires AtRest(w) && !ActiveIs(w, plan) && w.active.Some?
    ensures Rollback(Activate(w, plan, image, true, NoFailure).0, requested) ==
            (w.(active := Some(Started(w.active.value)), failed := Some(Container(Some(plan), image, false))), true)
  {
    ActivationSwitches(w, plan, image);
  }

  // ----- Exclusivity, over every history -----

  datatype Op =
    | DoActivate(plan: Plan, image: Image, healthy: bool, failure: Failure)
    | DoRollback(plan: Plan)
    | DoCommit(plan: Plan)

  function Apply(w: World, op: Op): (World, bool) {
    match op
    case DoActivate(plan, image, healthy, failure) => Activate(w, plan, image, healthy, failure)
    case DoRollback(plan) => Rollback(w, plan)
    case DoCommit(plan) => Commit(w, plan)
  }

  function History(w: World, ops: seq<Op>): World
    decreases |ops|
  {
    if ops == [] then w else History(Apply(w, ops[0]).0, ops[1..])
  }

  /** A stage is there exactly while its own plan holds the lease. */
  ghost predicate Leased(w: World) {
    forall p :: p in w.stages <==> w.lease == Some(Activating(p))
  }

  /** Between operations the lease is an activation's or nobody's. */
  ghost predicate Consistent(w: World) {
    Leased(w) && (w.lease.Some? ==> w.lease.value.Activating?)
  }

  /** The service keeps a container to run: active, or set aside for rollback. */
  predicate Served(w: World) {
    w.active.Some? || w.rollback.Some?
  }

  lemma ApplyKeepsConsistency(w: World, op: Op)
    requires Consistent(w)
    ensures Consistent(Apply(w, op).0)
    ensures Served(w) ==> Served(Apply(w, op).0)
  {
  }

  lemma {:induction false} HistoriesStayConsistent(w: World, ops: seq<Op>)
    requires Consistent(w)
    ensures Consistent(History(w, ops))
    ensures Served(w) ==> Served(History(w, ops))
    decreases |ops|
  {
    hide Apply, Consistent, Served;
    if ops != [] {
      ApplyKeepsConsistency(w, ops[0]);
      HistoriesStayConsistent(Apply(w, ops[0]).0, ops[1..]);
    }
  }

  predicate SamePlanActivation(op: Op, plan: Plan) {
    op.DoActivate? && op.plan == plan
  }

  /** Activation is exclusive: while one plan is staged, every operation but that plan's own
      activation fails and changes nothing. */
  lemma StageExcludesOthers(w: World, plan: Plan, op: Op)
    requires Consistent(w) && plan in w.stages && !SamePlanActivation(op, plan)
    ensures Apply(w, op) == (w, false)
  {
    assert w.lease == Some(Activating(plan));
  }

  /** So an interrupted activation from rest is still finished by a retry, whatever the other
      operators tried in between. */
  lemma {:induction false} OthersDoNotInterfere(w: World, plan: Plan, others: seq<Op>)
    requires Consistent(w) && plan in w.stages
    requires forall k :: 0 <= k < |others| ==> !SamePlanActivation(others[k], plan)
    ensures History(w, others) == w
    decreases |others|
  {
    hide Apply, SamePlanActivation;
    if others != [] {
      StageExcludesOthers(w, plan, others[0]);
      OthersDoNotInterfere(w, plan, others[1..]);
    }
  }

  /** The container kept for rollback is never overwritten: one operation either leaves it, or
      puts it back in service, or discards it on a commit of the plan that is active. */
  lemma RollbackCopyIsKept(w: World, op: Op)
    requires w.rollback.Some?
    ensures var after := Apply(w, op).0;
            || after.rollback == w.rollback
            || (op.DoRollback? && after.active == Some(Started(w.rollback.value)))
            || (op.DoCommit? && ActiveIs(w, op.plan) && after.active == w.active)
  {
  }
}
