/** How one commit request of an upload session ends, for every state it meets, every move of
    other writers between its steps, and every stop and fault of its own. */
module UploadOutcome {
  import opened ActivityLog
  import opened UploadProtocol

  /** How the conditional write ends; `visible` says whether it published before it failed. */
  datatype WriteFault = Clean | Warns | Unclear(visible: bool) | Breaks(visible: bool) | Unread

  datatype WriteResult = Ok | OkWithWarning | RecoveryRequired | WriteConflict | WriteFailed

  datatype Answer = Uploaded(warned: bool) | AlreadyCommitted | TargetChanged | Retry | Error

  /** What goes on around one request: the moves of others before each step, the steps at
      which it stops for good, whether the storage compares the target before it reads the
      payload, and the faults of its own steps. */
  datatype Plan = Plan(others: nat -> seq<Event>, stops: nat -> bool, admission: bool, stale: bool, early: bool,
                       write: WriteFault, token: nat)

  predicate OfOthers(e: Event) {
    e.Outside? || e.OtherEntry? || e.ExpireSession?
  }

  // ----- The request, step by step -----

  function AfterOthers(job: Job, w: World, moves: seq<Event>): World {
    if moves == [] then w
    else
      var before, e := AfterOthers(job, w, moves[..|moves| - 1]), moves[|moves| - 1];
      if OfOthers(e) && Possible(job, before, e) then Next(job, before, e) else before
  }

  function Halted(w: World): World {
    w.(stage := Idle)
  }

  function AfterDecide(job: Job, w: World, stops: bool): (World, bool) {
    var next := Next(job, w, Decide);
    if !next.stage.Recorded? then (next, true)
    else if stops then (Halted(next), false)
    else (Next(job, next, Finish), true)
  }

  /** The reconciliation before the commit, and whether it settled the session. */
  function AfterReconcile(job: Job, w: World, plan: Plan): (World, bool) {
    if !w.session.state.Committing? then (w, true)
    else
      var seen := AfterOthers(job, Next(job, w, Examine), plan.others(0));
      if plan.stops(0) || !seen.stage.Examined? || !Consistent(seen.target, seen.stage.evidence) then (Halted(seen), false)
      else AfterDecide(job, seen, plan.stops(1))
  }

  /** The conditional write. */
  function AfterWrite(job: Job, w: World, plan: Plan): (World, WriteResult) {
    var looked := AfterOthers(job, w, plan.others(5));
    if plan.early && !IsOriginal(job, looked.target) then (looked, WriteConflict)
    else if plan.write.Unread? then (looked, WriteFailed)
    else
      var started := AfterOthers(job, Next(job, looked, Start), plan.others(3));
      if !IsOriginal(job, started.target) then (started, WriteConflict)
      else
        var succeeds := plan.write.Clean? || plan.write.Warns?;
        if (succeeds || plan.write.visible) && plan.token !in started.made then
          (Next(job, started, Publish(plan.token)),
           match plan.write
           case Clean => Ok
           case Warns => OkWithWarning
           case Unclear(_) => RecoveryRequired
           case _ => WriteFailed)
        else (started, if plan.write.Unclear? then RecoveryRequired else WriteFailed)
  }

  function AfterSuccess(job: Job, w: World, warned: bool, stops: bool): (World, Answer) {
    var recorded := Next(job, Next(job, w, Succeed(warned)), Record);
    if stops then (Halted(recorded), Error) else (Next(job, recorded, Finish), Uploaded(warned))
  }

  /** A failed write is judged by one more look at the target. */
  function AfterFailure(job: Job, w: World, plan: Plan): World {
    var inspected := AfterOthers(job, Next(job, Next(job, w, Fail), Inspect), plan.others(4));
    if plan.stops(4) then Halted(inspected) else Next(job, inspected, Judge)
  }

  function AfterAdmission(job: Job, w: World, plan: Plan): (World, Answer) {
    var (next, r) := AfterWrite(job, Next(job, w, Admit), plan);
    match r
    case Ok => AfterSuccess(job, next, false, plan.stops(5))
    case OkWithWarning => AfterSuccess(job, next, true, plan.stops(5))
    case RecoveryRequired => (Halted(next), Error)
    case WriteConflict => (Next(job, Next(job, next, Refuse), GiveUp), TargetChanged)
    case WriteFailed => (AfterFailure(job, next, plan), Error)
  }

  /** The commit of a session that is ready. */
  function AfterBegin(job: Job, w: World, plan: Plan): (World, Answer) {
    var begun := Next(job, w, Begin);
    if !plan.admission then (if plan.stops(2) then Halted(begun) else Next(job, begun, Rollback), Error)
    else
      var compared := AfterOthers(job, begun, plan.others(2));
      if plan.stale || !IsOriginal(job, compared.target) then
        var differs := Next(job, compared, Differ);
        if plan.stops(3) then (Halted(differs), Error)
        else
          var resolved := Next(job, differs, Resolve);
          (resolved, if resolved.session.state.Ready? then Retry else TargetChanged)
      else AfterAdmission(job, compared, plan)
  }

  /** The whole request. */
  function Outcome(job: Job, w: World, plan: Plan): (World, Answer) {
    var (settled, ok) := AfterReconcile(job, w, plan);
    if !ok then (settled, Error)
    else if settled.session.state.Committed? then (settled, AlreadyCommitted)
    else if settled.session.state.Conflict? then (settled, TargetChanged)
    else
      var ready := AfterOthers(job, settled, plan.others(1));
      if !ready.session.state.Ready? then (ready, Error) else AfterBegin(job, ready, plan)
  }

  // ----- What a request meets -----

  /** The target and the identities in use after moves of others outside a lease. */
  function Moved(at: (Target, set<nat>), moves: seq<Event>): (Target, set<nat>) {
    if moves == [] then at
    else
      var (t, used), e := Moved(at, moves[..|moves| - 1]), moves[|moves| - 1];
      if e.Outside? && (e.t.File? ==> e.t.token !in used) then (e.t, if e.t.File? then used + {e.t.token} else used)
      else (t, used)
  }

  /** The same after some rounds of moves. */
  function Met(w: World, plan: Plan, rounds: seq<nat>): (Target, set<nat>) {
    if rounds == [] then (w.target, w.made.Keys)
    else Moved(Met(w, plan, rounds[..|rounds| - 1]), plan.others(rounds[|rounds| - 1]))
  }

  function Standing(w: World): (Target, set<nat>) {
    (w.target, w.made.Keys)
  }

  lemma {:induction false} OthersMove(job: Job, w: World, moves: seq<Event>)
    requires !w.stage.Recorded?
    ensures var after := AfterOthers(job, w, moves);
            && Standing(after) == Moved(Standing(w), moves)
            && after.stage == w.stage && after.published == w.published
            && after.session == (if ExpireSession in moves && !w.session.state.Committing?
                                 then w.session.(state := Expired) else w.session)
    decreases |moves|
  {
    hide Possible, Next;
    if moves != [] {
      var init, e := moves[..|moves| - 1], moves[|moves| - 1];
      OthersMove(job, w, init);
      OneMove(job, AfterOthers(job, w, init), e);
      assert moves == init + [e];
    }
  }

  lemma OneMove(job: Job, w: World, e: Event)
    requires !w.stage.Recorded?
    ensures var after := if OfOthers(e) && Possible(job, w, e) then Next(job, w, e) else w;
            && Standing(after) == Moved(Standing(w), [e])
            && after.stage == w.stage && after.published == w.published
            && after.session == (if e.ExpireSession? && !w.session.state.Committing?
                                 then w.session.(state := Expired) else w.session)
  {
    hide Inserted, Count;
    assert [e][..0] == [];
    if e.Outside? && e.t.File? {
      assert w.made[e.t.token := e.t.content].Keys == w.made.Keys + {e.t.token};
    }
  }

  lemma {:induction false} MetOn(w: World, later: World, plan: Plan, before: seq<nat>, rounds: seq<nat>)
    requires Standing(later) == Met(w, plan, before)
    ensures Met(later, plan, rounds) == Met(w, plan, before + rounds)
    decreases |rounds|
  {
    hide Moved;
    if rounds == [] {
      assert before + rounds == before;
    } else {
      MetOn(w, later, plan, before, rounds[..|rounds| - 1]);
      assert (before + rounds)[..|before + rounds| - 1] == before + rounds[..|rounds| - 1];
    }
  }

  lemma MetFirst(w: World, plan: Plan, round: nat)
    ensures Met(w, plan, [round]) == Moved(Standing(w), plan.others(round))
  {
    hide Moved;
    assert [round][..0] == [];
  }

  lemma MetNext(w: World, plan: Plan, rounds: seq<nat>, round: nat)
    ensures Met(w, plan, rounds + [round]) == Moved(Met(w, plan, rounds), plan.others(round))
  {
    hide Moved;
    assert (rounds + [round])[..|rounds|] == rounds;
  }

  // ----- Targets -----

  /** The target is what the session was created for: nothing, or the file with that identity. */
  predicate AsBegun(job: Job, t: Target) {
    || (job.original.Missing? && t.Absent?)
    || (job.original.Present? && t.File? && t.token == job.original.token)
  }

  predicate HoldsPayload(job: Job, t: Target) {
    t.File? && |t.content| == |job.payload| && job.digest(t.content) == job.digest(job.payload)
  }

  /** Two looks agree: of one kind and, for files, with one identity and size. */
  predicate LooksSame(a: Target, b: Target) {
    || (a.Absent? && b.Absent?)
    || (a.Irregular? && b.Irregular?)
    || (a.File? && b.File? && a.token == b.token && |a.content| == |b.content|)
  }

  lemma LookingAt(job: Job, t: Target, again: Target)
    ensures IsOriginal(job, t) <==> AsBegun(job, t)
    ensures MatchesOriginal(job, Capture(job, t)) <==> AsBegun(job, t)
    ensures Consistent(again, Capture(job, t)) <==> LooksSame(t, again)
    ensures Capture(job, t).Seen? && Capture(job, t).contentMatches <==> HoldsPayload(job, t)
  {
  }

  // ----- Reconciliation -----

  lemma DecidesExactly(job: Job, w: World, t: Target, stops: bool)
    requires w.stage == Examined(Capture(job, t)) && w.session.state.Committing?
    ensures var (w', settled) := AfterDecide(job, w, stops);
            && w'.stage.Idle? && Standing(w') == Standing(w) && w'.published == w.published
            && (if AsBegun(job, t) then settled && w'.session == w.session.(state := Ready, started := false)
                else if !w.session.started || !HoldsPayload(job, t) then settled && w'.session == w.session.(state := Conflict)
                else if stops then !settled && w'.session == w.session
                else settled && w'.session == w.session.(state := Committed, warned := false))
  {
    hide MatchesOriginal, Capture, Matches, IsOriginal, Consistent, AfterLogOnce, Inserted, Holds, Count, AsBegun, HoldsPayload;
    LookingAt(job, t, t);
  }

  /** An unresolved commit is settled if and only if two looks at the target agree and nothing
      stops: ready for the target as it was, committed for the payload after a publication had
      started, in conflict for anything else. */
  lemma ReconciledExactlyWhen(job: Job, w: World, plan: Plan)
    requires w.stage.Idle? && w.session.state.Committing?
    ensures var (w', settled) := AfterReconcile(job, w, plan);
            var decides := !plan.stops(0) && LooksSame(w.target, Met(w, plan, [0]).0);
            var published := w.session.started && HoldsPayload(job, w.target);
            && (settled <==> decides && (AsBegun(job, w.target) || !published || !plan.stops(1)))
            && (settled ==>
                  if AsBegun(job, w.target) then w'.session == w.session.(state := Ready, started := false)
                  else if published then w'.session == w.session.(state := Committed, warned := false)
                  else w'.session == w.session.(state := Conflict))
            && (!settled ==> w'.session == w.session)
            && w'.stage.Idle? && w'.published == w.published && Standing(w') == Met(w, plan, [0])
  {
    hide MatchesOriginal, Capture, IsOriginal, Consistent, AsBegun, HoldsPayload, LooksSame, Moved, Next, AfterDecide, Possible,
         AfterOthers, Met;
    Examining(job, w);
    var looked := Next(job, w, Examine);
    OthersMove(job, looked, plan.others(0));
    MetFirst(w, plan, 0);
    var seen := AfterOthers(job, looked, plan.others(0));
    LookingAt(job, w.target, seen.target);
    if Consistent(seen.target, seen.stage.evidence) {
      DecidesExactly(job, seen, w.target, plan.stops(1));
    }
  }

  // ----- The commit itself -----

  lemma WritesExactly(job: Job, w: World, plan: Plan)
    requires w.stage.Admitted? && w.session.state.Committing?
    ensures var (w', r) := AfterWrite(job, w, plan);
            var (replaced, used) := Met(w, plan, [5, 3]);
            var early := plan.early && !AsBegun(job, Met(w, plan, [5]).0);
            var goesOn := !early && !plan.write.Unread?;
            var writes := goesOn && AsBegun(job, replaced) && plan.token !in used;
            && (r.WriteConflict? <==> early || (goesOn && !AsBegun(job, replaced)))
            && (r.Ok? <==> writes && plan.write.Clean?)
            && (r.OkWithWarning? <==> writes && plan.write.Warns?)
            && (r.Ok? || r.OkWithWarning? ==>
                  w'.stage.Written? && w'.target == File(plan.token, job.payload)
                  && w'.published == w.published + [plan.token] && w'.session == w.session.(started := true))
            && (r.RecoveryRequired? <==> goesOn && AsBegun(job, replaced) && plan.write.Unclear?)
            && w'.session.state.Committing?
            && (w'.stage.Admitted? || w'.stage.Publishing? || w'.stage.Written?)
  {
    hide IsOriginal, AsBegun, Moved, Next, Possible, AfterOthers, Met;
    OthersMove(job, w, plan.others(5));
    MetFirst(w, plan, 5);
    var looked := AfterOthers(job, w, plan.others(5));
    LookingAt(job, looked.target, looked.target);
    StartsPublishing(job, looked);
    var marked := Next(job, looked, Start);
    OthersMove(job, marked, plan.others(3));
    MetNext(w, plan, [5], 3);
    assert [5] + [3] == [5, 3];
    var started := AfterOthers(job, marked, plan.others(3));
    LookingAt(job, started.target, started.target);
    Publishes(job, started, plan.token);
  }

  /** A write that fails or stays unclear has published exactly if it says so, at a target as it was. */
  lemma FailedWritePublishes(job: Job, w: World, plan: Plan)
    requires w.stage.Admitted? && w.session.state.Committing? && (plan.write.Unclear? || plan.write.Breaks?)
    ensures var (w', r) := AfterWrite(job, w, plan);
            var (replaced, used) := Met(w, plan, [5, 3]);
            var early := plan.early && !AsBegun(job, Met(w, plan, [5]).0);
            w'.published == if !early && AsBegun(job, replaced) && plan.write.visible && plan.token !in used
                            then w.published + [plan.token] else w.published
  {
    hide IsOriginal, AsBegun, Moved, Next, Possible, AfterOthers, Met;
    OthersMove(job, w, plan.others(5));
    MetFirst(w, plan, 5);
    var looked := AfterOthers(job, w, plan.others(5));
    LookingAt(job, looked.target, looked.target);
    StartsPublishing(job, looked);
    var marked := Next(job, looked, Start);
    OthersMove(job, marked, plan.others(3));
    MetNext(w, plan, [5], 3);
    assert [5] + [3] == [5, 3];
    var started := AfterOthers(job, marked, plan.others(3));
    LookingAt(job, started.target, started.target);
    Publishes(job, started, plan.token);
  }

  lemma StartsPublishing(job: Job, w: World)
    requires w.session.state.Committing?
    ensures Next(job, w, Start) == w.(session := w.session.(started := true), stage := Publishing)
  {
  }

  lemma Publishes(job: Job, w: World, token: nat)
    ensures var w' := Next(job, w, Publish(token));
            && w'.target == File(token, job.payload) && w'.published == w.published + [token] && w'.stage.Written?
            && w'.session == w.session && w'.log == w.log
  {
  }

  /** What the log has under the session's key is the session's own entry. */
  predicate OwnEntry(job: Job, log: seq<Entry>) {
    forall e :: e in log && e.id == job.entry.id ==> e == job.entry
  }

  lemma InsertedHas(log: seq<Entry>, e: Entry, maxSize: nat)
    ensures forall x :: x in Inserted(log, e, maxSize) ==> x == e || x in log
    ensures maxSize > 0 ==> e in Inserted(log, e, maxSize)
  {
    var all := [e] + log;
    assert maxSize > 0 ==> Inserted(log, e, maxSize)[0] == e;
    assert forall x :: x in Inserted(log, e, maxSize) ==> x in all;
  }

  lemma LogsOwnEntry(job: Job, log: seq<Entry>)
    requires OwnEntry(job, log)
    ensures OwnEntry(job, AfterLogOnce(log, job.entry, job.maxEntries))
    ensures job.maxEntries > 0 ==> job.entry in AfterLogOnce(log, job.entry, job.maxEntries)
  {
    hide Inserted;
    InsertedHas(log, job.entry, job.maxEntries);
  }

  lemma StepKeepsOwnEntry(job: Job, w: World, e: Event)
    requires OwnEntry(job, w.log) && Possible(job, w, e)
    ensures OwnEntry(job, Next(job, w, e).log)
  {
    hide Inserted, AfterLogOnce, Count, Holds, MatchesOriginal, Capture, IsOriginal, Consistent, BeginCommit, MarkReady, MarkConflict,
         MarkCommitted, Cancel, Expire, MarkPublicationStarted;
    LogsOwnEntry(job, w.log);
    if e.OtherEntry? {
      InsertedHas(w.log, e.e, job.maxEntries);
    }
  }

  lemma {:induction false} RunKeepsOwnEntry(job: Job, w: World, events: seq<Event>)
    requires Initial(job, w) && PossibleRun(job, w, events)
    ensures OwnEntry(job, After(job, w, events).log)
    decreases |events|
  {
    hide Next, Possible, Count;
    if events == [] {
      CountIsZero(w.log, job.entry.id);
    } else {
      RunKeepsOwnEntry(job, w, events[..|events| - 1]);
      StepKeepsOwnEntry(job, After(job, w, events[..|events| - 1]), events[|events| - 1]);
    }
  }

  lemma SucceedsExactly(job: Job, w: World, warned: bool, stops: bool)
    requires w.session.state.Committing?
    ensures var (w', answer) := AfterSuccess(job, w, warned, stops);
            && w'.stage.Idle? && w'.target == w.target && w'.published == w.published
            && w'.log == AfterLogOnce(w.log, job.entry, job.maxEntries)
            && answer == (if stops then Error else Uploaded(warned))
            && w'.session == (if stops then w.session else w.session.(state := Committed, warned := warned))
  {
    hide AfterLogOnce, Holds, Count;
  }

  lemma Recording(job: Job, w: World, warned: bool)
    requires w.stage.Written? && w.session.state.Committing?
    ensures Possible(job, w, Succeed(warned))
    ensures Possible(job, Next(job, w, Succeed(warned)), Record)
    ensures Possible(job, Next(job, Next(job, w, Succeed(warned)), Record), Finish)
  {
    hide AfterLogOnce, Holds, Count;
  }

  lemma GivesUp(job: Job, w: World)
    requires w.session.state.Committing?
    ensures var w' := Next(job, Next(job, w, Refuse), GiveUp);
            w'.stage.Idle? && w'.session == w.session.(state := Conflict) && w'.published == w.published
  {
  }

  lemma Admits(job: Job, w: World)
    ensures Next(job, w, Admit) == w.(stage := Admitted)
  {
  }

  /** What an admitted commit comes to; the rounds of others are those before the storage's own
      early comparison and before the replacement. */
  lemma AdmittedExactly(job: Job, w: World, plan: Plan)
    requires w.stage.Begun? && w.session.state.Committing?
    ensures var (w', answer) := AfterAdmission(job, w, plan);
            var (replaced, used) := Met(w, plan, [5, 3]);
            var early := plan.early && !AsBegun(job, Met(w, plan, [5]).0);
            var goesOn := !early && !plan.write.Unread?;
            var writes := goesOn && AsBegun(job, replaced) && plan.token !in used;
            && (answer.TargetChanged? <==> early || (goesOn && !AsBegun(job, replaced)))
            && (answer == Uploaded(false) <==> writes && plan.write.Clean? && !plan.stops(5))
            && (answer == Uploaded(true) <==> writes && plan.write.Warns? && !plan.stops(5))
            && !answer.Retry? && !answer.AlreadyCommitted?
            && (answer.TargetChanged? ==> w'.session.state.Conflict?)
            && (answer.Uploaded? ==>
                  && w'.target == File(plan.token, job.payload) && w'.published == w.published + [plan.token]
                  && w'.session == w.session.(state := Committed, started := true, warned := answer.warned))
  {
    hide AsBegun, Met, Next, AfterWrite, AfterSuccess, AfterFailure;
    Admits(job, w);
    var admitted := Next(job, w, Admit);
    SameStanding(w, admitted, plan, [5]);
    SameStanding(w, admitted, plan, [5, 3]);
    WritesExactly(job, admitted, plan);
    var (next, r) := AfterWrite(job, admitted, plan);
    SucceedsExactly(job, next, r.OkWithWarning?, plan.stops(5));
    GivesUp(job, next);
  }

  lemma SameStanding(w: World, later: World, plan: Plan, rounds: seq<nat>)
    requires Standing(later) == Standing(w)
    ensures Met(later, plan, rounds) == Met(w, plan, rounds)
  {
    MetOn(w, later, plan, [], rounds);
    assert [] + rounds == rounds;
  }

  /** What a ready session comes to. */
  lemma BegunExactly(job: Job, w: World, plan: Plan)
    requires w.stage.Idle? && w.session.state.Ready?
    ensures var (w', answer) := AfterBegin(job, w, plan);
            var compared, early := Met(w, plan, [2]).0, Met(w, plan, [2, 5]).0;
            var (replaced, used) := Met(w, plan, [2, 5, 3]);
            var admitted := plan.admission && !plan.stale && AsBegun(job, compared);
            var misses := (plan.early && !AsBegun(job, early)) || (!plan.write.Unread? && !AsBegun(job, replaced));
            && (answer.Retry? <==> plan.admission && plan.stale && AsBegun(job, compared) && !plan.stops(3))
            && (answer.TargetChanged? <==>
                  || (plan.admission && !AsBegun(job, compared) && !plan.stops(3))
                  || (admitted && misses))
            && (answer == Uploaded(false) <==>
                  admitted && !misses && plan.write.Clean? && plan.token !in used && !plan.stops(5))
            && (answer == Uploaded(true) <==>
                  admitted && !misses && plan.write.Warns? && plan.token !in used && !plan.stops(5))
            && !answer.AlreadyCommitted?
            && (answer.Retry? ==> w'.session.state.Ready?) && (answer.TargetChanged? ==> w'.session.state.Conflict?)
            && (answer.Uploaded? ==>
                  && w'.target == File(plan.token, job.payload) && w'.published == w.published + [plan.token]
                  && w'.session.state.Committed? && w'.session.warned == answer.warned)
            && (!plan.admission ==>
                  && answer.Error? && w'.published == w.published && w'.target == w.target && w'.log == w.log
                  && w'.session.state == if plan.stops(2) then Committing else Ready)
  {
    hide IsOriginal, AsBegun, Met, Moved, Next, Possible, AfterOthers, AfterAdmission;
    Beginning(job, w);
    var begun := Next(job, w, Begin);
    BackToReady(job, begun);
    OthersMove(job, begun, plan.others(2));
    MetFirst(w, plan, 2);
    var compared := AfterOthers(job, begun, plan.others(2));
    LookingAt(job, compared.target, compared.target);
    Differs(job, compared);
    MetOn(w, compared, plan, [2], [5]);
    MetOn(w, compared, plan, [2], [5, 3]);
    assert [2] + [5] == [2, 5] && [2] + [5, 3] == [2, 5, 3];
    AdmittedExactly(job, compared, plan);
  }

  lemma BackToReady(job: Job, w: World)
    requires w.session.state.Committing?
    ensures var w' := Next(job, w, Rollback);
            w' == w.(session := w.session.(state := Ready, started := false), stage := Idle)
  {
  }

  lemma Differs(job: Job, w: World)
    requires w.session.state.Committing?
    ensures var resolved := Next(job, Next(job, w, Differ), Resolve);
            && resolved.stage.Idle? && resolved.published == w.published
            && resolved.session.state == if AsBegun(job, w.target) then Ready else Conflict
  {
    hide Matches;
  }

  // ----- Main results -----

  /** The rounds of others a request meets before it begins, with one more to reconcile. */
  function Before(w: World): seq<nat> {
    if w.session.state.Committing? then [0, 1] else [1]
  }

  /** An unresolved commit is reconciled: two looks agree on the target and nothing stops. */
  predicate Reconciles(w: World, plan: Plan) {
    w.session.state.Committing? && !plan.stops(0) && LooksSame(w.target, Met(w, plan, [0]).0)
  }

  predicate PublishedBefore(job: Job, w: World) {
    w.session.started && HoldsPayload(job, w.target)
  }

  /** The session is ready to begin: it was and did not expire, or reconciliation reopens it. */
  predicate Opens(job: Job, w: World, plan: Plan) {
    && (w.session.state.Ready? || (Reconciles(w, plan) && AsBegun(job, w.target)))
    && ExpireSession !in plan.others(1)
  }

  /** Every answer has its exact cause, in the session and target before the request, the targets
      met at its comparisons, and its own stops and faults. It uploads if and only if the session
      opens, admission is granted, the target is as it was at every comparison, the write
      succeeds with an unused identity, and nothing stops before the session is marked. */
  lemma AnswerExactlyWhen(job: Job, w: World, plan: Plan)
    requires w.stage.Idle?
    ensures var answer := Outcome(job, w, plan).1;
            var compared, early := Met(w, plan, Before(w) + [2]).0, Met(w, plan, Before(w) + [2, 5]).0;
            var (replaced, used) := Met(w, plan, Before(w) + [2, 5, 3]);
            var begins := Opens(job, w, plan) && plan.admission;
            var goesOn := begins && !plan.stale && AsBegun(job, compared);
            var misses := (plan.early && !AsBegun(job, early)) || (!plan.write.Unread? && !AsBegun(job, replaced));
            var writes := goesOn && !misses && plan.token !in used && !plan.stops(5);
            && (answer == Uploaded(false) <==> writes && plan.write.Clean?)
            && (answer == Uploaded(true) <==> writes && plan.write.Warns?)
            && (answer.Retry? <==> begins && plan.stale && AsBegun(job, compared) && !plan.stops(3))
            && (answer.TargetChanged? <==>
                  || w.session.state.Conflict?
                  || (Reconciles(w, plan) && !AsBegun(job, w.target) && !PublishedBefore(job, w))
                  || (begins && !AsBegun(job, compared) && !plan.stops(3))
                  || (goesOn && misses))
            && (answer.AlreadyCommitted? <==>
                  || w.session.state.Committed?
                  || (Reconciles(w, plan) && !AsBegun(job, w.target) && PublishedBefore(job, w) && !plan.stops(1)))
  {
    hide AsBegun, HoldsPayload, LooksSame, Met, AfterReconcile, AfterBegin, AfterOthers;
    if w.session.state.Committing? {
      ReconciledExactlyWhen(job, w, plan);
    }
    NothingToReconcile(job, w, plan);
    var (settled, ok) := AfterReconcile(job, w, plan);
    if ok && !settled.session.state.Committed? && !settled.session.state.Conflict? {
      OpensExactly(job, w, settled, plan);
      var ready := AfterOthers(job, settled, plan.others(1));
      if ready.session.state.Ready? {
        BegunExactly(job, ready, plan);
        MetOn(w, ready, plan, Before(w), [2]);
        MetOn(w, ready, plan, Before(w), [2, 5]);
        MetOn(w, ready, plan, Before(w), [2, 5, 3]);
      }
    }
  }

  lemma NothingToReconcile(job: Job, w: World, plan: Plan)
    ensures !w.session.state.Committing? ==> AfterReconcile(job, w, plan) == (w, true)
  {
  }

  lemma OpensExactly(job: Job, w: World, settled: World, plan: Plan)
    requires settled.stage.Idle? && !settled.session.state.Committing?
    requires w.session.state.Committing? ==> Standing(settled) == Met(w, plan, [0])
    requires !w.session.state.Committing? ==> settled == w
    ensures var ready := AfterOthers(job, settled, plan.others(1));
            && (ready.session.state.Ready? <==> settled.session.state.Ready? && ExpireSession !in plan.others(1))
            && ready.stage.Idle? && ready.published == settled.published
            && Standing(ready) == Met(w, plan, Before(w))
  {
    hide Moved, Met, AfterOthers;
    OthersMove(job, settled, plan.others(1));
    MetFirst(w, plan, 1);
    MetNext(w, plan, [0], 1);
    assert [0] + [1] == [0, 1];
  }

  /** Nobody else moves and nothing stops. */
  ghost predicate Calm(plan: Plan) {
    (forall k: nat :: plan.others(k) == []) && (forall k: nat :: !plan.stops(k))
  }

  lemma {:induction false} MetWhenCalm(w: World, plan: Plan, rounds: seq<nat>)
    requires Calm(plan)
    ensures Met(w, plan, rounds) == Standing(w)
    decreases |rounds|
  {
    if rounds != [] {
      MetWhenCalm(w, plan, rounds[..|rounds| - 1]);
    }
  }

  /** Undisturbed, with admission and an up-to-date comparison, a ready session whose target is as
      it was uploads if and only if the write succeeds with an unused identity; a ready session
      with any other target is told so; and one that was left unresolved is settled first. */
  lemma CalmAnswer(job: Job, w: World, plan: Plan)
    requires w.stage.Idle? && Calm(plan) && plan.admission && !plan.stale
    ensures var answer := Outcome(job, w, plan).1;
            var s, same := w.session.state, AsBegun(job, w.target);
            var published := w.session.started && HoldsPayload(job, w.target);
            var opens := s.Ready? || (s.Committing? && same);
            && (answer == Uploaded(false) <==> opens && same && plan.write.Clean? && plan.token !in w.made)
            && (answer == Uploaded(true) <==> opens && same && plan.write.Warns? && plan.token !in w.made)
            && (answer.AlreadyCommitted? <==> s.Committed? || (s.Committing? && !same && published))
            && (answer.TargetChanged? <==> s.Conflict? || (s.Ready? && !same) || (s.Committing? && !same && !published))
            && !answer.Retry?
  {
    hide AsBegun, HoldsPayload, Outcome, Met;
    AnswerExactlyWhen(job, w, plan);
    MetWhenCalm(w, plan, [0]);
    MetWhenCalm(w, plan, Before(w) + [2]);
    MetWhenCalm(w, plan, Before(w) + [2, 5]);
    MetWhenCalm(w, plan, Before(w) + [2, 5, 3]);
    assert plan.others(1) == [] && !plan.stops(0) && !plan.stops(1) && !plan.stops(3) && !plan.stops(5);
  }

  /** A write that failed is judged by the target it left: the session is ready again for the
      target as it was, in conflict for any other, and unresolved only after a stop. */
  lemma FailedWriteLeaves(job: Job, w: World, plan: Plan)
    requires w.session.state.Committing?
    ensures var w' := AfterFailure(job, w, plan);
            && w'.stage.Idle? && w'.published == w.published
            && w'.session.state == if plan.stops(4) then Committing else if AsBegun(job, w.target) then Ready else Conflict
  {
    hide Moved, AsBegun, Possible, Next, AfterOthers, Matches;
    LookingAt(job, w.target, w.target);
    Inspects(job, w);
    var inspected := Next(job, Next(job, w, Fail), Inspect);
    OthersMove(job, inspected, plan.others(4));
    Judges(job, AfterOthers(job, inspected, plan.others(4)));
  }

  lemma Inspects(job: Job, w: World)
    ensures Next(job, Next(job, w, Fail), Inspect) == w.(stage := Inspected(Capture(job, w.target)))
  {
    hide Capture;
  }

  lemma Judges(job: Job, w: World)
    requires w.stage.Inspected? && w.session.state.Committing?
    ensures var w' := Next(job, w, Judge);
            && w'.stage.Idle? && w'.published == w.published
            && w'.session.state == if MatchesOriginal(job, w.stage.evidence) then Ready else Conflict
  {
    hide MatchesOriginal;
  }

  // ----- Single steps of the protocol -----

  /** Nothing is admitted to be published, or published, over a target that is not as the session
      began with it. */
  lemma PublishesOnlyOverOriginal(job: Job, w: World, token: nat)
    ensures Possible(job, w, Admit) <==> w.stage.Begun? && AsBegun(job, w.target)
    ensures Possible(job, w, Publish(token)) <==> w.stage.Publishing? && AsBegun(job, w.target) && token !in w.made
  {
  }

  /** A session can be cancelled exactly while it is ready and no request works on it. */
  lemma CancelsExactly(job: Job, w: World)
    ensures Possible(job, w, CancelSession) <==> w.stage.Idle? && w.session.state.Ready?
    ensures Possible(job, w, CancelSession) ==> Next(job, w, CancelSession) == w.(session := w.session.(state := Cancelled))
  {
  }

  /** It can expire exactly while it is not in an unresolved commit. */
  lemma ExpiresExactly(job: Job, w: World)
    ensures Possible(job, w, ExpireSession) <==> !w.session.state.Committing?
    ensures Possible(job, w, ExpireSession) ==> Next(job, w, ExpireSession) == w.(session := w.session.(state := State.Expired))
  {
  }

  /** Another activity is logged in front, and the oldest entries beyond the limit go. */
  lemma OthersLog(job: Job, w: World, e: Entry)
    ensures var log := Next(job, w, OtherEntry(e)).log;
            && |log| == (if |w.log| + 1 > job.maxEntries then job.maxEntries else |w.log| + 1)
            && (forall i :: 0 < i < |log| ==> log[i] == w.log[i - 1]) && (|log| > 0 ==> log[0] == e)
  {
    hide Count;
  }

  /** What the world remembers: a removal of the target after a publication, and nothing else,
      counts as one; committed is what was marked so; and the session's entry was dropped if a
      step left fewer in the log than there were, or none where it had to be added. */
  lemma RemembersExactly(job: Job, w: World, e: Event)
    ensures var w', id := Next(job, w, e), job.entry.id;
            && (w'.removed <==> w.removed || (e == Outside(Absent) && w.published != []))
            && (w'.committed <==> w.committed || (e.Finish? && w.stage.Recorded?))
            && (w'.dropped ==> w.dropped || Count(w'.log, id) < Count(w.log, id) || Count(w'.log, id) == 0)
            && w'.published == (if e.Publish? then w.published + [e.token] else w.published)
  {
    hide Count, Settle, RecordOnce, Relog, Inserted, MatchesOriginal, Capture, BeginCommit, MarkReady, MarkConflict, MarkCommitted,
         Cancel, Expire, MarkPublicationStarted;
    SettlingRemembers(job, w);
    RecordingRemembers(job, w);
    if e.OtherEntry? {
      RelogRemembers(job, w, Inserted(w.log, e.e, job.maxEntries));
    }
  }

  lemma SettlingRemembers(job: Job, w: World)
    ensures forall s :: var w' := Settle(w, s); w' == w.(session := w'.session, stage := Idle)
  {
  }

  lemma RecordingRemembers(job: Job, w: World)
    ensures forall leased, warned :: var w' := RecordOnce(job, w, leased, warned);
              && w'.removed == w.removed && w'.committed == w.committed && w'.published == w.published
              && (w'.dropped ==> w.dropped || Count(w'.log, job.entry.id) == 0)
  {
    hide Count, AfterLogOnce, Holds;
  }

  lemma RelogRemembers(job: Job, w: World, log: seq<Entry>)
    ensures var w' := Relog(job, w, log);
            && w'.removed == w.removed && w'.committed == w.committed && w'.published == w.published
            && (w'.dropped ==> w.dropped || Count(w'.log, job.entry.id) < Count(w.log, job.entry.id))
  {
    hide Count;
  }

  lemma {:induction false} RemovedInRun(job: Job, start: World, events: seq<Event>)
    requires Initial(job, start)
    requires forall i :: 0 <= i < |events| && events[i] == Outside(Absent) ==> After(job, start, events[..i]).published == []
    ensures !After(job, start, events).removed
    decreases |events|
  {
    hide Next;
    if events != [] {
      var init, last := events[..|events| - 1], events[|events| - 1];
      assert forall i :: 0 <= i < |init| ==> init[..i] == events[..i];
      RemovedInRun(job, start, init);
      RemembersExactly(job, After(job, start, init), last);
    }
  }

  /** In any run of a session that nobody removes the published target of, or that was created for
      an existing file, there is at most one publication. */
  lemma PublishesOnceInRun(job: Job, start: World, events: seq<Event>)
    requires Initial(job, start) && PossibleRun(job, start, events)
    requires job.original.Present?
             || forall i :: 0 <= i < |events| && events[i] == Outside(Absent) ==> After(job, start, events[..i]).published == []
    ensures |After(job, start, events).published| <= 1
  {
    hide After, PossibleRun, Initial;
    if !job.original.Present? {
      RemovedInRun(job, start, events);
    }
    PublishesAtMostOnce(job, After(job, start, events));
  }
}
