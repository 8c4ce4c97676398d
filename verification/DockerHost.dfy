/** The Docker orchestrator as the program runs it: one docker call after another on the
    containers of a service, with early returns between them. */
module DockerHost {
  import opened Basics
  import opened Docker

  class Host {
    var active: Option<Container>
    var stages: map<Plan, Container>
    var rollback: Option<Container>
    var failed: Option<Container>
    var lease: Option<Holder>

    constructor (running: Option<Container>)
      ensures State() == World(running, map[], None, None, None)
    {
      active, stages, rollback, failed, lease := running, map[], None, None, None;
    }

    ghost function State(): World
      reads this
    {
      World(active, stages, rollback, failed, lease)
    }

    method AcquireLease(holder: Holder) returns (ok: bool, created: bool)
      modifies this`lease
      ensures ok == CanHold(old(State()), holder)
      ensures lease == if ok then Some(holder) else old(lease)
      ensures created == (ok && old(lease).None?)
    {
      if lease.Some? {
        return lease == Some(holder), false;
      }
      lease := Some(holder);
      return true, true;
    }

    method ActivateWithFailure(plan: Plan, image: Image, healthy: bool, failure: Failure) returns (ok: bool)
      modifies this
      ensures State() == Activate(old(State()), plan, image, healthy, failure).0
      ensures ok == Activate(old(State()), plan, image, healthy, failure).1
    {
      var held, created := AcquireLease(Activating(plan));
      if !held {
        return false;
      }
      if active.Some? && active.value.plan == Some(plan) {
        stages := stages - {plan};
        lease := None;
        return true;
      }
      if rollback.Some? && plan !in stages {
        if created {
          lease := None;
        }
        return false;
      }
      var staged := Stage(plan, image, healthy);
      if !staged {
        lease := None;
        return false;
      }
      if failure.AfterStageHealthy? {
        return false;
      }
      ok := SwitchOver(plan, failure);
    }

    /** Creates, starts and probes the stage unless an earlier attempt left it healthy. */
    method Stage(plan: Plan, image: Image, healthy: bool) returns (ok: bool)
      modifies this`stages
      ensures ok == (plan in old(stages) || healthy)
      ensures stages == if plan in old(stages) || !healthy then old(stages)
                        else old(stages)[plan := Container(Some(plan), image, true)]
    {
      if plan in stages {
        return true;
      }
      stages := stages[plan := Container(Some(plan), image, false)];
      stages := stages[plan := Started(stages[plan])];
      if !healthy {
        stages := stages - {plan};
      }
      return healthy;
    }

    method SwitchOver(plan: Plan, failure: Failure) returns (ok: bool)
      requires plan in stages
      modifies this
      ensures (State(), ok) == Switch(old(State()), plan, failure)
    {
      if active.Some? {
        if active.value.running {
          active := Some(Stopped(active.value));
        }
        if failure.AfterActiveStopped? {
          return false;
        }
        if rollback.None? {
          active, rollback := None, active;
        }
      }
      if failure.AfterActiveRenamed? || active.Some? {
        return false;
      }
      active, stages := Some(stages[plan]), stages - {plan};
      if !active.value.running {
        active := Some(Started(active.value));
      }
      lease := None;
      return true;
    }

    method RollBack(plan: Plan) returns (ok: bool)
      modifies this
      ensures (State(), ok) == Rollback(old(State()), plan)
    {
      if rollback.None? || active.None? {
        return false;
      }
      var held, _ := AcquireLease(RollingBack(plan));
      if !held {
        return false;
      }
      if active.value.running {
        active := Some(Stopped(active.value));
      }
      failed := None;
      active, failed := None, active;
      active, rollback := rollback, None;
      active := Some(Started(active.value));
      lease := None;
      return true;
    }

    method CommitPlan(plan: Plan) returns (ok: bool)
      modifies this
      ensures (State(), ok) == Commit(old(State()), plan)
    {
      if active.None? || active.value.plan != Some(plan) {
        return false;
      }
      var held, _ := AcquireLease(Committing(plan));
      if !held {
        return false;
      }
      rollback := None;
      failed := None;
      lease := None;
      return true;
    }
  }
}
