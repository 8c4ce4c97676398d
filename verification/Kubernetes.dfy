/** Kubernetes activation (src/activation.rs): each operation as the sequence of worlds its
    successive kubectl calls produce, so that a stop after any call is a prefix. */
module Kubernetes {
  import opened Basics

  /** A plan digest of 64 hexadecimal digits. */
  type Plan = Text

  function Short(plan: Plan): Text
    requires |plan| == 64
  {
    plan[..12]
  }

  function Label(plan: Plan): Text
    requires |plan| == 64
  {
    plan[..63]
  }

  /** The plans in play: digests with distinct twelve-character prefixes. */
  ghost predicate Distinct(plans: set<Plan>) {
    && (forall p :: p in plans ==> |p| == 64)
    && forall p, q :: p in plans && q in plans && Short(p) == Short(q) ==> p == q
  }

  /** `wasReady`: a rollout of this Deployment was once observed complete. */
  datatype Deployment = Deployment(planLabel: Text, wasReady: bool)

  datatype Service = Service(selector: Text, active: Option<Plan>, rollback: Option<Plan>)

  datatype Holder = Activating(plan: Plan) | RollingBack(plan: Plan) | Committing(plan: Plan)

  datatype World = World(service: Option<Service>, deployments: map<Text, Deployment>, lease: Option<Holder>)

  function ActivePlan(w: World): Option<Plan> {
    if w.service.Some? then w.service.value.active else None
  }

  function RollbackPlan(w: World): Option<Plan> {
    if w.service.Some? then w.service.value.rollback else None
  }

  // ----- Single calls -----

  function Hold(w: World, h: Holder): World {
    w.(lease := Some(h))
  }

  function Release(w: World): World {
    w.(lease := None)
  }

  /** Applying the Deployment of a plan keeps what its name already went through. */
  function Deploy(w: World, plan: Plan): World
    requires |plan| == 64
  {
    var ready := Short(plan) in w.deployments && w.deployments[Short(plan)].wasReady;
    w.(deployments := w.deployments[Short(plan) := Deployment(Label(plan), ready)])
  }

  function BecomeReady(w: World, plan: Plan): World
    requires |plan| == 64
  {
    w.(deployments := w.deployments[Short(plan) := Deployment(Label(plan), true)])
  }

  /** Applying the Service: an annotation the manifest does not mention is left alone. */
  function SwitchTo(w: World, plan: Plan, previous: Option<Plan>): World
    requires |plan| == 64
  {
    w.(service := Some(Service(Label(plan), Some(plan), if previous.Some? then previous else RollbackPlan(w))))
  }

  // ----- The operations, world by world -----

  function ActivateSteps(w: World, plan: Plan): (r: seq<World>)
    requires |plan| == 64
    ensures |r| >= 1 && r[0] == w
  {
    if w.lease.Some? && w.lease != Some(Activating(plan)) then [w]
    else
      var held := Hold(w, Activating(plan));
      if ActivePlan(w).Some? && |ActivePlan(w).value| != 64 then [w, held]
      else if ActivePlan(w) == Some(plan) then [w, held, Release(held)]
      else
        var deployed := Deploy(held, plan);
        var ready := BecomeReady(deployed, plan);
        var switched := SwitchTo(ready, plan, ActivePlan(w));
        [w, held, deployed, ready, switched, Release(switched)]
  }

  /** The worlds of `acquire_operation_lease`; None when another operation owns the service. */
  function AcquireSteps(w: World, h: Holder): Option<seq<World>> {
    if w.lease.None? then Some([Hold(w, h)])
    else if w.lease == Some(h) then Some([])
    else if w.lease == Some(Activating(h.plan)) then Some([Release(w), Hold(w, h)])
    else None
  }

  function RollbackSteps(w: World): (r: seq<World>)
    ensures |r| >= 1 && r[0] == w
  {
    if ActivePlan(w).None? || |ActivePlan(w).value| != 64 || RollbackPlan(w).None? || |RollbackPlan(w).value| != 64 then [w]
    else
      match AcquireSteps(w, RollingBack(ActivePlan(w).value))
      case None => [w]
      case Some(acquired) =>
        var held := Hold(w, RollingBack(ActivePlan(w).value));
        var target := RollbackPlan(w).value;
        var switched := held.(service := Some(Service(Label(target), Some(target), None)));
        [w] + acquired + [switched, Release(switched)]
  }

  function CommitSteps(w: World): (r: seq<World>)
    ensures |r| >= 1 && r[0] == w
  {
    if ActivePlan(w).None? || |ActivePlan(w).value| != 64 then [w]
    else
      match AcquireSteps(w, Committing(ActivePlan(w).value))
      case None => [w]
      case Some(acquired) =>
        var held := Hold(w, Committing(ActivePlan(w).value));
        if RollbackPlan(w).Some? && |RollbackPlan(w).value| != 64 then [w] + acquired
        else if RollbackPlan(w).None? then [w] + acquired + [Release(held)]
        else
          var removed := held.(deployments := held.deployments - {Short(RollbackPlan(w).value)});
          var cleared := removed.(service := Some(w.service.value.(rollback := None)));
          [w] + acquired + [removed, cleared, Release(cleared)]
  }

  datatype Op = DoActivate(plan: Plan) | DoRollback | DoCommit

  predicate Legal(op: Op) {
    op.DoActivate? ==> |op.plan| == 64
  }

  function Steps(w: World, op: Op): (r: seq<World>)
    requires Legal(op)
    ensures |r| >= 1 && r[0] == w
  {
    match op
    case DoActivate(plan) => ActivateSteps(w, plan)
    case DoRollback => RollbackSteps(w)
    case DoCommit => CommitSteps(w)
  }

  /** The world an operation leaves when it stops after `calls` changing calls. */
  function StopAfter(r: seq<World>, calls: nat): World
    requires |r| >= 1
  {
    if calls < |r| then r[calls] else r[|r| - 1]
  }

  // ----- The Service always selects something real -----

  predicate Ready(w: World, plan: Plan)
    requires |plan| == 64
  {
    Short(plan) in w.deployments && w.deployments[Short(plan)] == Deployment(Label(plan), true)
  }

  ghost predicate Real(w: World, plans: set<Plan>)
    requires Distinct(plans)
  {
    && (w.service.Some? ==>
          && w.service.value.active.Some? && w.service.value.active.value in plans
          && w.service.value.selector == Label(w.service.value.active.value)
          && Ready(w, w.service.value.active.value))
    && (RollbackPlan(w).Some? ==>
          && RollbackPlan(w).value in plans
          && RollbackPlan(w) != ActivePlan(w)
          && (Ready(w, RollbackPlan(w).value) || w.lease == Some(Committing(ActivePlan(w).value))))
  }

  lemma ActivateKeepsReal(w: World, plan: Plan, plans: set<Plan>, k: nat)
    requires Distinct(plans) && plan in plans && Real(w, plans)
    requires k < |ActivateSteps(w, plan)|
    ensures Real(ActivateSteps(w, plan)[k], plans)
  {
  }

  lemma AcquireKeepsReal(w: World, h: Holder, plans: set<Plan>, k: nat)
    requires Distinct(plans) && Real(w, plans) && ActivePlan(w) == Some(h.plan)
    requires h.Committing? || (RollbackPlan(w).Some? ==> Ready(w, RollbackPlan(w).value))
    requires AcquireSteps(w, h).Some? && k < |AcquireSteps(w, h).value|
    ensures Real(AcquireSteps(w, h).value[k], plans)
  {
  }

  lemma RollbackKeepsReal(w: World, plans: set<Plan>, k: nat)
    requires Distinct(plans) && Real(w, plans)
    requires k < |RollbackSteps(w)|
    ensures Real(RollbackSteps(w)[k], plans)
  {
    if |RollbackSteps(w)| > 1 {
      var h := RollingBack(ActivePlan(w).value);
      var acquired := AcquireSteps(w, h).value;
      assert w.lease != Some(Committing(h.plan));
      if 1 <= k <= |acquired| {
        AcquireKeepsReal(w, h, plans, k - 1);
        assert RollbackSteps(w)[k] == acquired[k - 1];
      }
    }
  }

  lemma CommitKeepsReal(w: World, plans: set<Plan>, k: nat)
    requires Distinct(plans) && Real(w, plans)
    requires k < |CommitSteps(w)|
    ensures Real(CommitSteps(w)[k], plans)
  {
    if |CommitSteps(w)| > 1 {
      var h := Committing(ActivePlan(w).value);
      var acquired := AcquireSteps(w, h).value;
      if 1 <= k <= |acquired| {
        AcquireKeepsReal(w, h, plans, k - 1);
        assert CommitSteps(w)[k] == acquired[k - 1];
      }
    }
  }

  /** Every operation, stopped after any number of calls. */
  function History(w: World, ops: seq<(Op, nat)>): World
    requires forall k :: 0 <= k < |ops| ==> Legal(ops[k].0)
    decreases |ops|
  {
    if ops == [] then w else History(StopAfter(Steps(w, ops[0].0), ops[0].1), ops[1..])
  }

  /** In every world reachable by operations run one at a time, each stopped after any call,
      the Service selects its annotated plan, whose Deployment exists and had become ready. */
  lemma {:induction false} ServiceAlwaysSelectsReal(w: World, ops: seq<(Op, nat)>, plans: set<Plan>)
    requires Distinct(plans) && Real(w, plans)
    requires forall k :: 0 <= k < |ops| ==> Legal(ops[k].0) && (ops[k].0.DoActivate? ==> ops[k].0.plan in plans)
    ensures Real(History(w, ops), plans)
    decreases |ops|
  {
    hide Real, ActivateSteps, RollbackSteps, CommitSteps;
    if ops != [] {
      var r := Steps(w, ops[0].0);
      var k := if ops[0].1 < |r| then ops[0].1 else |r| - 1;
      match ops[0].0 {
        case DoActivate(plan) => ActivateKeepsReal(w, plan, plans, k);
        case DoRollback => RollbackKeepsReal(w, plans, k);
        case DoCommit => CommitKeepsReal(w, plans, k);
      }
      ServiceAlwaysSelectsReal(StopAfter(r, ops[0].1), ops[1..], plans);
    }
  }

  /** A half-done commit is shielded by its lease: nothing moves but the commit itself, which
      finishes when retried. */
  lemma HalfDoneCommitIsShielded(w: World, plans: set<Plan>, op: Op)
    requires Distinct(plans) && Real(w, plans) && Legal(op)
    requires RollbackPlan(w).Some? && !Ready(w, RollbackPlan(w).value)
    ensures !op.DoCommit? ==> Steps(w, op) == [w]
    ensures op.DoCommit? ==>
              var last := StopAfter(Steps(w, op), |Steps(w, op)|);
              && RollbackPlan(last).None? && last.lease.None? && ActivePlan(last) == ActivePlan(w)
  {
  }

  /** The selector moves in one call of an activation, and only to a plan that is ready. */
  lemma SelectorMovesOnce(w: World, plan: Plan, k: nat)
    requires |plan| == 64 && k + 1 < |ActivateSteps(w, plan)|
    ensures var r := ActivateSteps(w, plan);
            r[k].service != r[k + 1].service ==> k == 3 && Ready(r[k], plan) && ActivePlan(r[k + 1]) == Some(plan)
  {
  }

  // ----- What an operation that goes through leaves -----

  predicate Digest(plan: Option<Plan>) {
    plan.Some? && |plan.value| == 64
  }

  /** Whether a rollback or commit gets the lease: it is free, its own, or that of the activation
      of the same plan. */
  predicate CanAcquire(w: World, h: Holder) {
    w.lease.None? || w.lease == Some(h) || w.lease == Some(Activating(h.plan))
  }

  function Last(r: seq<World>): World
    requires |r| >= 1
  {
    r[|r| - 1]
  }

  /** An activation of another plan deploys it, waits until it is ready and points the Service at
      it, keeping the plan it replaces for a rollback; other Deployments stay as they are. */
  lemma ActivationEffect(w: World, plan: Plan)
    requires |plan| == 64 && (w.lease.None? || w.lease == Some(Activating(plan)))
    requires ActivePlan(w).None? || (Digest(ActivePlan(w)) && ActivePlan(w) != Some(plan))
    ensures var after := Last(ActivateSteps(w, plan));
            && after.lease.None?
            && after.service.Some? && after.service.value.selector == plan[..63] && after.service.value.active == Some(plan)
            && after.service.value.rollback == (if ActivePlan(w).Some? then ActivePlan(w) else RollbackPlan(w))
            && after.deployments == w.deployments[plan[..12] := Deployment(plan[..63], true)]
  {
  }

  /** A commit removes the Deployment kept for rollback and forgets it; the Service and every
      other Deployment stay as they are. */
  lemma CommitEffect(w: World)
    requires Digest(ActivePlan(w)) && CanAcquire(w, Committing(ActivePlan(w).value))
    requires RollbackPlan(w).Some? ==> Digest(RollbackPlan(w))
    ensures var after := Last(CommitSteps(w));
            && after.lease.None?
            && after.service == Some(w.service.value.(rollback := None))
            && after.deployments == if RollbackPlan(w).Some? then w.deployments - {RollbackPlan(w).value[..12]} else w.deployments
  {
  }

  /** A rollback points the Service at the kept plan, and removes no Deployment. */
  lemma RollbackEffect(w: World)
    requires Digest(ActivePlan(w)) && Digest(RollbackPlan(w)) && CanAcquire(w, RollingBack(ActivePlan(w).value))
    ensures var after, target := Last(RollbackSteps(w)), RollbackPlan(w).value;
            && after.lease.None? && after.deployments == w.deployments
            && after.service.Some? && after.service.value.selector == target[..63]
            && after.service.value.active == Some(target) && after.service.value.rollback.None?
  {
  }

  /** The lease an operation works under. */
  function Own(w: World, op: Op): Option<Holder> {
    match op
    case DoActivate(plan) => Some(Activating(plan))
    case DoRollback => if ActivePlan(w).Some? then Some(RollingBack(ActivePlan(w).value)) else None
    case DoCommit => if ActivePlan(w).Some? then Some(Committing(ActivePlan(w).value)) else None
  }

  /** No call changes the Service or a Deployment but under the operation's own lease. */
  lemma ChangesUnderLease(w: World, op: Op, k: nat)
    requires Legal(op) && k + 1 < |Steps(w, op)|
    requires Steps(w, op)[k].service != Steps(w, op)[k + 1].service
             || Steps(w, op)[k].deployments != Steps(w, op)[k + 1].deployments
    ensures Own(w, op).Some? && Steps(w, op)[k].lease == Own(w, op)
  {
  }

  /** Who cannot get the lease changes nothing. */
  lemma RefusedEffect(w: World, plan: Plan)
    requires |plan| == 64 && w.lease.Some?
    ensures w.lease != Some(Activating(plan)) ==> ActivateSteps(w, plan) == [w]
    ensures ActivePlan(w).Some? && !CanAcquire(w, Committing(ActivePlan(w).value)) ==> CommitSteps(w) == [w]
    ensures ActivePlan(w).Some? && !CanAcquire(w, RollingBack(ActivePlan(w).value)) ==> RollbackSteps(w) == [w]
  {
  }

  // ----- Restarting -----

  function Final(w: World, plan: Plan): World
    requires |plan| == 64
  {
    StopAfter(ActivateSteps(w, plan), |ActivateSteps(w, plan)|)
  }

  /** An activation stopped after any call and retried ends where it would have ended. */
  lemma StoppedActivationResumes(w: World, plan: Plan, calls: nat)
    requires |plan| == 64 && (w.lease.None? || w.lease == Some(Activating(plan)))
    ensures var stopped := StopAfter(ActivateSteps(w, plan), calls);
            && (stopped.lease.None? || stopped.lease == Some(Activating(plan)))
            && Final(stopped, plan) == Final(w, plan)
  {
    var r := ActivateSteps(w, plan);
    var stopped := StopAfter(r, calls);
    if ActivePlan(w) != Some(plan) && |r| == 6 {
      DeployTwice(w, plan);
      assert ActivePlan(r[5]) == Some(plan) && ActivePlan(r[4]) == Some(plan);
    }
  }

  lemma DeployTwice(w: World, plan: Plan)
    requires |plan| == 64
    ensures var held := Hold(w, Activating(plan));
            var ready := BecomeReady(Deploy(held, plan), plan);
            && ready == BecomeReady(held, plan)
            && BecomeReady(Deploy(Deploy(held, plan), plan), plan) == ready
            && BecomeReady(Deploy(ready, plan), plan) == ready
  {
  }

  lemma {:induction false} RepeatedStopsResume(w: World, plan: Plan, stops: seq<nat>)
    requires |plan| == 64 && (w.lease.None? || w.lease == Some(Activating(plan)))
    ensures Final(Interrupted(w, plan, stops), plan) == Final(w, plan)
    decreases |stops|
  {
    hide ActivateSteps;
    if stops != [] {
      StoppedActivationResumes(w, plan, stops[0]);
      RepeatedStopsResume(StopAfter(ActivateSteps(w, plan), stops[0]), plan, stops[1..]);
    }
  }

  function Interrupted(w: World, plan: Plan, stops: seq<nat>): World
    requires |plan| == 64
    decreases |stops|
  {
    if stops == [] then w else Interrupted(StopAfter(ActivateSteps(w, plan), stops[0]), plan, stops[1..])
  }

  /** Rolling back after an activation selects the previous plan again. */
  lemma RollbackReselects(w: World, plan: Plan, plans: set<Plan>)
    requires Distinct(plans) && plan in plans && Real(w, plans)
    requires w.lease.None? && w.service.Some? && ActivePlan(w) != Some(plan)
    ensures var r := RollbackSteps(Final(w, plan));
            var after := r[|r| - 1];
            && ActivePlan(after) == ActivePlan(w) && after.service.value.selector == w.service.value.selector
            && RollbackPlan(after).None? && after.lease.None?
  {
    assert ActivePlan(Final(w, plan)) == Some(plan) && RollbackPlan(Final(w, plan)) == ActivePlan(w);
  }
}
