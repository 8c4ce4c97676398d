/** The Kubernetes orchestrator as the program runs it: one kubectl call after another on the
    objects of a namespace, stopping after a given number of changing calls. */
module KubernetesHost {
  import opened Basics
  import opened Kubernetes

  class Cluster {
    var service: Option<Service>
    var deployments: map<Text, Deployment>
    var lease: Option<Holder>

    constructor ()
      ensures State() == World(None, map[], None)
    {
      service, deployments, lease := None, map[], None;
    }

    function State(): World
      reads this
    {
      World(service, deployments, lease)
    }

    method Activate(plan: Plan, calls: nat)
      requires |plan| == 64
      modifies this
      ensures State() == StopAfter(ActivateSteps(old(State()), plan), calls)
    {
      if lease.Some? && lease != Some(Activating(plan)) {
        return;
      }
      if calls == 0 {
        return;
      }
      lease := Some(Activating(plan));
      if calls == 1 {
        return;
      }
      var current := if service.Some? then service.value.active else None;
      if current.Some? && |current.value| != 64 {
        return;
      }
      if current == Some(plan) {
        lease := None;
        return;
      }
      var ready := Short(plan) in deployments && deployments[Short(plan)].wasReady;
      deployments := deployments[Short(plan) := Deployment(Label(plan), ready)];
      if calls == 2 {
        return;
      }
      deployments := deployments[Short(plan) := Deployment(Label(plan), true)];
      if calls == 3 {
        return;
      }
      var previous := if current.Some? then current else if service.Some? then service.value.rollback else None;
      service := Some(Service(Label(plan), Some(plan), previous));
      if calls == 4 {
        return;
      }
      lease := None;
    }

    /** Takes the lease with the calls left; `spent` counts those it used. */
    method AcquireOperationLease(holder: Holder, calls: nat) returns (ok: bool, spent: nat)
      modifies this`lease
      ensures ok == AcquireSteps(old(State()), holder).Some?
      ensures ok ==> spent == |AcquireSteps(old(State()), holder).value|
      ensures State() == if ok then StopAfter([old(State())] + AcquireSteps(old(State()), holder).value, calls)
                         else old(State())
    {
      spent := 0;
      if lease.Some? {
        if lease == Some(holder) {
          return true, 0;
        }
        if lease != Some(Activating(holder.plan)) {
          return false, 0;
        }
        if calls == 0 {
          return true, 2;
        }
        lease := None;
        spent := 1;
      }
      if calls == spent {
        return true, spent + 1;
      }
      lease := Some(holder);
      return true, spent + 1;
    }

    method Rollback(calls: nat)
      modifies this
      ensures State() == StopAfter(RollbackSteps(old(State())), calls)
    {
      if service.None? || service.value.active.None? || service.value.rollback.None?
         || |service.value.active.value| != 64 || |service.value.rollback.value| != 64 {
        return;
      }
      var target := service.value.rollback.value;
      var ok, spent := AcquireOperationLease(RollingBack(service.value.active.value), calls);
      if !ok || calls <= spent {
        return;
      }
      service := Some(Service(Label(target), Some(target), None));
      if calls == spent + 1 {
        return;
      }
      lease := None;
    }

    method Commit(calls: nat)
      modifies this
      ensures State() == StopAfter(CommitSteps(old(State())), calls)
    {
      if service.None? || service.value.active.None? || |service.value.active.value| != 64 {
        return;
      }
      var ok, spent := AcquireOperationLease(Committing(service.value.active.value), calls);
      if !ok || calls <= spent {
        return;
      }
      if service.value.rollback.Some? {
        if |service.value.rollback.value| != 64 {
          return;
        }
        deployments := deployments - {Short(service.value.rollback.value)};
        if calls == spent + 1 {
          return;
        }
        service := Some(service.value.(rollback := None));
        if calls == spent + 2 {
          return;
        }
      }
      lease := None;
    }
  }
}
