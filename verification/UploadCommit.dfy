/** The commit request of an upload session and the reconciliation before it, as one task
    with the session's commit lock runs them while other writers act between the steps. */
module UploadCommit {
  import opened ActivityLog
  import opened UploadOutcome
  import opened UploadProtocol

  class Task {
    const job: Job
    var world: World
    ghost const start: World
    ghost var events: seq<Event>

    ghost predicate Valid()
      reads this
    {
      Initial(job, start) && PossibleRun(job, start, events) && world == After(job, start, events)
    }

    constructor (job: Job, world: World)
      requires Initial(job, world)
      ensures Valid() && this.job == job && this.world == world
    {
      this.job, this.world := job, world;
      start, events := world, [];
    }

    lemma Facts()
      requires Valid()
      ensures Reachable(job, world) && Inv(job, world)
    {
      hide Initial, PossibleRun, After, Inv;
      assert Reachable(job, world);
      ReachableInv(job, world);
    }

    lemma OwnLog()
      requires Valid()
      ensures OwnEntry(job, world.log)
    {
      hide Initial, PossibleRun, After, OwnEntry;
      RunKeepsOwnEntry(job, start, events);
    }

    lemma Committing()
      requires Valid()
      ensures !world.stage.Idle? ==> world.session.state.Committing?
    {
      hide Valid, TokensAreTrue, PublishedOnce, LogFits;
      Facts();
    }

    method Perform(e: Event)
      requires Valid() && Possible(job, world, e)
      modifies this
      ensures Valid() && world == Next(job, old(world), e)
    {
      hide Initial, PossibleRun, After, Possible, Next;
      assert world == After(job, start, events) && PossibleRun(job, start, events);
      ghost var more := Extend(job, start, events, e);
      world := Next(job, world, e);
      events := more;
    }

    /** Everyone else moves; the session's own task stays where it is. */
    method Others(moves: seq<Event>)
      requires Valid()
      modifies this
      ensures Valid() && world == AfterOthers(job, old(world), moves)
      ensures world.stage == old(world.stage) && world.published == old(world.published)
      ensures world.session == old(world.session)
              || (!old(world.session.state).Committing? && world.session.state.Expired?)
    {
      for i := 0 to |moves|
        invariant world == AfterOthers(job, old(world), moves[..i])
        invariant Valid() && world.stage == old(world.stage) && world.published == old(world.published)
        invariant world.session == old(world.session)
                  || (!old(world.session.state).Committing? && world.session.state.Expired?)
      {
        assert moves[..i + 1][..i] == moves[..i];
        if OfOthers(moves[i]) && Possible(job, world, moves[i]) {
          Perform(moves[i]);
        }
      }
      assert moves[..|moves|] == moves;
    }

    method Halt()
      requires Valid()
      modifies this
      ensures Valid() && world == Halted(old(world))
    {
      Perform(Stop);
    }

    /** Settles a commit that an earlier task left unresolved; a target that changed between
        the two looks, or a stop, leaves it unresolved. */
    method Reconcile(plan: Plan) returns (settled: bool)
      requires Valid() && world.stage.Idle?
      modifies this
      ensures Valid() && (world, settled) == AfterReconcile(job, old(world), plan) && world.stage.Idle?
      ensures settled ==> !world.session.state.Committing?
      ensures !settled ==> old(world.session.state).Committing? && world.session.state.Committing?
      ensures world.published == old(world.published)
      ensures old(!world.session.state.Committing?) ==> world == old(world)
    {
      hide Initial, PossibleRun, After, Matches, Relog, ReadyOrConflict, MatchesOriginal, Capture, IsOriginal;
      if !world.session.state.Committing? {
        return true;
      }
      Perform(Examine);
      Others(plan.others(0));
      if plan.stops(0) || !Consistent(world.target, world.stage.evidence) {
        Halt();
        return false;
      }
      settled := DecideFromEvidence(plan.stops(1));
    }

    method DecideFromEvidence(stops: bool) returns (settled: bool)
      requires Valid() && Possible(job, world, Decide) && world.session.state.Committing?
      modifies this
      ensures Valid() && (world, settled) == AfterDecide(job, old(world), stops)
      ensures world.stage.Idle? && world.published == old(world.published)
      ensures settled <==> !world.session.state.Committing?
    {
      hide Initial, PossibleRun, After, Next, Possible;
      Deciding(job, world);
      Perform(Decide);
      if world.stage.Recorded? {
        if stops {
          Halt();
          return false;
        }
        Finishing(job, world);
        Perform(Finish);
      }
      settled := true;
    }

    /** The conditional write: reading the payload to its end durably marks the start, and the
        target is replaced only if it still meets the original condition. The storage may find
        that it does not before it reads anything. */
    method WriteFileIfUnchanged(plan: Plan) returns (r: WriteResult)
      requires Valid() && world.stage.Admitted?
      modifies this
      ensures Valid() && (world, r) == AfterWrite(job, old(world), plan)
      ensures r.Ok? || r.OkWithWarning? ==>
        && world.stage.Written? && world.target == File(plan.token, job.payload)
        && world.published == old(world.published) + [plan.token] && r.OkWithWarning? == plan.write.Warns?
      ensures r.WriteConflict? ==>
        (world.stage.Admitted? || world.stage.Publishing?) && world.published == old(world.published)
      ensures r.WriteFailed? || r.RecoveryRequired? ==>
        world.stage.Admitted? || world.stage.Publishing? || world.stage.Written?
    {
      hide Initial, PossibleRun, After, Next, Possible;
      Committing();
      Others(plan.others(5));
      if plan.early && !IsOriginal(job, world.target) {
        return WriteConflict;
      }
      if plan.write.Unread? {
        return WriteFailed;
      }
      Starting(job, world);
      Perform(Start);
      Others(plan.others(3));
      if !IsOriginal(job, world.target) {
        return WriteConflict;
      }
      var visible := plan.write.Clean? || plan.write.Warns? || plan.write.visible;
      if visible && plan.token !in world.made {
        PublishingOnce(job, world, plan.token);
        Perform(Publish(plan.token));
      } else if plan.write.Clean? || plan.write.Warns? {
        return WriteFailed;
      }
      match plan.write
      case Clean => r := Ok;
      case Warns => r := OkWithWarning;
      case Unclear(_) => r := RecoveryRequired;
      case Breaks(_) => r := WriteFailed;
    }

    /** The request has published its payload in the target, and the log has the session's entry. */
    ghost predicate Uploads(plan: Plan, published: seq<nat>)
      reads this
    {
      && world.target == File(plan.token, job.payload) && world.published == published + [plan.token]
      && (job.maxEntries > 0 ==> job.entry in world.log)
    }

    method SucceedWith(warned: bool, stops: bool) returns (answer: Answer)
      requires Valid() && world.stage.Written? && world.session.state.Committing?
      modifies this
      ensures Valid() && (world, answer) == AfterSuccess(job, old(world), warned, stops)
      ensures world.stage.Idle? && world.published == old(world.published)
      ensures answer == (if stops then Error else Uploaded(warned))
      ensures !stops ==> world.session.state.Committed? && world.session.warned == warned
      ensures world.target == old(world.target)
      ensures job.maxEntries > 0 ==> job.entry in world.log
    {
      hide Initial, PossibleRun, After, Next, Possible, OwnEntry, AfterLogOnce;
      OwnLog();
      LogsOwnEntry(job, world.log);
      SucceedsExactly(job, world, warned, stops);
      Recording(job, world, warned);
      Perform(Succeed(warned));
      Perform(Record);
      if stops {
        Halt();
        return Error;
      }
      Perform(Finish);
      answer := Uploaded(warned);
    }

    method AfterFailedWrite(plan: Plan)
      requires Valid() && (world.stage.Admitted? || world.stage.Publishing? || world.stage.Written?)
      modifies this
      ensures Valid() && world == AfterFailure(job, old(world), plan) && world.stage.Idle?
      ensures !world.session.state.Committed?
    {
      hide Initial, PossibleRun, After, Next, Possible, Inv;
      Committing();
      Failing(job, world);
      Perform(Fail);
      Inspecting(job, world);
      Perform(Inspect);
      Others(plan.others(4));
      if plan.stops(4) {
        Halt();
      } else {
        Judging(job, world);
        Perform(Judge);
      }
    }

    method Commit(plan: Plan) returns (answer: Answer)
      requires Valid() && world.stage.Idle?
      modifies this
      ensures Valid() && (world, answer) == Outcome(job, old(world), plan) && world.stage.Idle?
      ensures answer.Uploaded? ==> world.session.state.Committed? && world.session.warned == answer.warned
      ensures answer.Uploaded? ==> Uploads(plan, old(world.published))
      ensures Calm(plan) && plan.admission && !plan.stale && old(world.session.state).Ready? ==>
        (answer.Uploaded? <==> AsBegun(job, old(world.target)) && (plan.write.Clean? || plan.write.Warns?)
                               && plan.token !in old(world.made))
      ensures answer.Uploaded? ==> answer.warned == plan.write.Warns?
      ensures answer.AlreadyCommitted? ==> world.session.state.Committed? && world.published == old(world.published)
      ensures answer.TargetChanged? ==> world.session.state.Conflict?
      ensures answer.Retry? ==> world.session.state.Ready?
    {
      hide Initial, PossibleRun, After, Next, Possible, AsBegun, AfterReconcile, AfterBegin, AfterOthers;
      if Calm(plan) && plan.admission && !plan.stale {
        CalmAnswer(job, world, plan);
      }
      var settled := Reconcile(plan);
      if !settled {
        return Error;
      }
      if world.session.state.Committed? {
        return AlreadyCommitted;
      }
      if world.session.state.Conflict? {
        return TargetChanged;
      }
      Others(plan.others(1));
      if !world.session.state.Ready? {
        return Error;
      }
      answer := CommitReady(plan);
    }

    method CommitReady(plan: Plan) returns (answer: Answer)
      requires Valid() && world.stage.Idle? && world.session.state.Ready?
      modifies this
      ensures Valid() && (world, answer) == AfterBegin(job, old(world), plan)
      ensures world.stage.Idle? && !answer.AlreadyCommitted?
      ensures answer.Uploaded? ==> world.session.state.Committed? && world.session.warned == answer.warned == plan.write.Warns?
      ensures answer.Uploaded? ==> Uploads(plan, old(world.published))
      ensures answer.TargetChanged? ==> world.session.state.Conflict?
      ensures answer.Retry? ==> world.session.state.Ready?
    {
      hide Initial, PossibleRun, After, Next, Possible, AfterAdmission, AfterOthers, IsOriginal;
      Beginning(job, world);
      Perform(Begin);
      if !plan.admission {
        if plan.stops(2) {
          Halt();
        } else {
          RollingBack(job, world);
          Perform(Rollback);
        }
        return Error;
      }
      Others(plan.others(2));
      if plan.stale || !IsOriginal(job, world.target) {
        Differing(job, world);
        Perform(Differ);
        if plan.stops(3) {
          Halt();
          return Error;
        }
        Resolving(job, world);
        Perform(Resolve);
        return if world.session.state.Ready? then Retry else TargetChanged;
      }
      answer := PublishAdmitted(plan);
    }

    method PublishAdmitted(plan: Plan) returns (answer: Answer)
      requires Valid() && world.stage.Begun? && IsOriginal(job, world.target)
      modifies this
      ensures Valid() && (world, answer) == AfterAdmission(job, old(world), plan)
      ensures world.stage.Idle? && !answer.AlreadyCommitted? && !answer.Retry?
      ensures answer.Uploaded? ==> world.session.state.Committed? && world.session.warned == answer.warned == plan.write.Warns?
      ensures answer.Uploaded? ==> Uploads(plan, old(world.published))
      ensures answer.TargetChanged? ==> world.session.state.Conflict?
    {
      hide Initial, PossibleRun, After, Next, Possible, AfterWrite, AfterSuccess, AfterFailure, IsOriginal;
      Admitting(job, world);
      Perform(Admit);
      var written := WriteFileIfUnchanged(plan);
      Committing();
      match written
      case Ok => answer := SucceedWith(false, plan.stops(5));
      case OkWithWarning => answer := SucceedWith(true, plan.stops(5));
      case RecoveryRequired =>
        Halt();
        answer := Error;
      case WriteConflict =>
        Refusing(job, world);
        Perform(Refuse);
        Perform(GiveUp);
        answer := TargetChanged;
      case WriteFailed =>
        AfterFailedWrite(plan);
        answer := Error;
    }
  }
}
