/** The state transactions as the program runs them: one file operation after another on the
    paths of a destination, stopping after a given number of them. */
module StateFiles {
  import opened Basics
  import opened StateStore

  class Paths {
    var destination: Option<Node>
    var stage: Option<Payload>
    var rollback: Option<Node>
    var marker: Option<Payload>

    constructor (destination: Option<Node>)
      ensures State() == Files(destination, None, None, None)
    {
      this.destination, stage, rollback, marker := destination, None, None, None;
    }

    ghost function State(): Files
      reads this
    {
      Files(destination, stage, rollback, marker)
    }

    method Restore(payload: Payload, failure: Failure, calls: nat)
      modifies this
      ensures State() == StopAfter(RestoreSteps(old(State()), payload, failure), calls)
    {
      if stage.Some? || rollback.Some? || marker.Some? || calls == 0 {
        return;
      }
      stage := Some(payload);
      if calls == 1 {
        return;
      }
      var hadDestination := destination.Some?;
      if hadDestination {
        if !destination.value.File? {
          stage := None;
          return;
        }
        destination, rollback := None, destination;
        if calls == 2 {
          return;
        }
      }
      if failure.AfterRollbackPrepared? || failure.SwitchFails? {
        stage := None;
        if hadDestination && calls > 3 {
          destination, rollback := rollback, None;
        }
        return;
      }
      destination, stage := Some(File(stage.value)), None;
      if hadDestination && calls > 3 {
        if failure.MarkerFails? {
          destination, rollback := rollback, None;
        } else {
          marker := Some(payload);
        }
      }
    }

    method Rollback(calls: nat)
      modifies this
      ensures State() == StopAfter(RollbackSteps(old(State())), calls)
    {
      if !Bounded(rollback) || stage.Some? || calls == 0 {
        return;
      }
      stage := Some(rollback.value.bytes);
      if destination == Some(Directory) || calls == 1 {
        return;
      }
      destination, stage := Some(File(stage.value)), None;
      if calls == 2 {
        return;
      }
      rollback := None;
      if marker.Some? && calls > 3 {
        marker := None;
      }
    }

    method Commit(calls: nat)
      modifies this
      ensures State() == StopAfter(CommitSteps(old(State())), calls)
    {
      if !Bounded(rollback) || marker.None? || !Bounded(destination) {
        return;
      }
      if destination.value.bytes != marker.value || calls == 0 {
        return;
      }
      rollback := None;
      if calls == 1 {
        return;
      }
      marker := None;
    }
  }
}
