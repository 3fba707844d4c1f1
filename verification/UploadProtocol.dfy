/** The commit protocol of a resumable upload: durable session states, a conditional
    publication of the target, other writers of the same target in between, and a
    reconciliation that decides from evidence wherever an earlier commit stopped. */
module UploadProtocol {
  import opened ActivityLog
  import opened Common

  type Bytes = seq<nat>

  /** What a writer expects of the target; a missing target has no identity token. */
  datatype Condition = Missing | Present(token: nat)

  datatype Target = Absent | File(token: nat, content: Bytes) | Irregular

  datatype State = Ready | Committing | Committed | Conflict | Cancelled | Expired

  datatype Session = Session(state: State, started: bool, warned: bool)

  /** What never changes during one upload session; `digest` is the content hash. */
  datatype Job = Job(original: Condition, payload: Bytes, digest: Bytes -> string, entry: Entry, maxEntries: nat)

  /** What one look at the target told; the condition is unknown for anything but a file or nothing. */
  datatype Evidence = Unknown | Seen(condition: Condition, size: nat, contentMatches: bool)

  // ----- Durable session transitions -----

  function BeginCommit(s: Session): Option<Session> {
    match s.state
    case Committing => Some(s)
    case Ready => Some(s.(state := Committing, started := false))
    case _ => None
  }

  function MarkPublicationStarted(s: Session): Option<Session> {
    if s.state.Committing? then Some(s.(started := true)) else None
  }

  function MarkReady(s: Session): Option<Session> {
    match s.state
    case Ready => Some(s)
    case Committing => Some(s.(state := Ready, started := false))
    case _ => None
  }

  function MarkCommitted(s: Session, warned: bool): Option<Session> {
    match s.state
    case Committed => if s.warned == warned then Some(s) else None
    case Committing => Some(s.(state := Committed, warned := warned))
    case _ => None
  }

  function MarkConflict(s: Session): Option<Session> {
    if s.state.Ready? || s.state.Committing? then Some(s.(state := Conflict)) else None
  }

  function Cancel(s: Session): Option<Session> {
    if s.state.Ready? then Some(s.(state := Cancelled)) else None
  }

  /** An unresolved commit never expires. */
  function Expire(s: Session): Option<Session> {
    if s.state.Committing? then None else Some(s.(state := State.Expired))
  }

  // ----- Evidence -----

  predicate Matches(job: Job, content: Bytes) {
    |content| == |job.payload| && job.digest(content) == job.digest(job.payload)
  }

  function Capture(job: Job, t: Target): Evidence {
    match t
    case Absent => Seen(Missing, 0, false)
    case File(token, content) => Seen(Present(token), |content|, Matches(job, content))
    case Irregular => Unknown
  }

  predicate IsOriginal(job: Job, t: Target) {
    match t
    case Absent => job.original == Missing
    case File(token, _) => job.original == Present(token)
    case Irregular => false
  }

  predicate MatchesOriginal(job: Job, e: Evidence) {
    e.Seen? && e.condition == job.original
  }

  /** The second look, under the storage lease: kind, identity and size only. */
  predicate Consistent(t: Target, e: Evidence) {
    match t
    case Absent => e.Seen? && e.condition == Missing
    case File(token, content) => e.Seen? && e.condition == Present(token) && |content| == e.size
    case Irregular => e.Unknown?
  }

  // ----- The world of one session -----

  /** Where the one task that holds the session's commit lock stands. */
  datatype Stage =
    | Idle
    | Examined(evidence: Evidence)
    | Begun
    | Admitted
    | Changed(evidence: Evidence)
    | Publishing
    | Written
    | Succeeded(warned: bool)
    | Refused
    | Failed
    | Inspected(evidence: Evidence)
    | Recorded(warned: bool, leased: bool)

  /** The fields from `made` on only remember the past: every content an identity token stood
      for, the tokens this session published, whether another writer removed the target after
      that, how often the session's entry was added, whether it fell off the log, and whether
      the session was ever marked committed. */
  datatype World = World(session: Session, stage: Stage, target: Target, log: seq<Entry>,
                         made: map<nat, Bytes>, published: seq<nat>, removed: bool, added: nat, dropped: bool,
                         committed: bool)

  datatype Event =
    | Outside(t: Target)
    | OtherEntry(e: Entry)
    | ExpireSession
    | CancelSession
    | Stop
    | Examine
    | Decide
    | Begin
    | Rollback
    | Admit
    | Differ
    | Resolve
    | Start
    | Publish(token: nat)
    | Succeed(warned: bool)
    | Refuse
    | Fail
    | GiveUp
    | Inspect
    | Judge
    | Record
    | Finish

  predicate Leased(w: World) {
    w.stage.Recorded? && w.stage.leased
  }

  /** Which steps can happen. Other writers act between any two steps unless the storage
      lease is held, always with an identity token no file had before. */
  predicate Possible(job: Job, w: World, e: Event) {
    match e
    case Outside(t) => !Leased(w) && (t.File? ==> t.token !in w.made)
    case OtherEntry(entry) => entry.id != job.entry.id
    case ExpireSession => Expire(w.session).Some?
    case CancelSession => w.stage.Idle? && Cancel(w.session).Some?
    case Stop => true
    case Examine => w.stage.Idle? && w.session.state.Committing?
    case Decide => w.stage.Examined? && Consistent(w.target, w.stage.evidence)
    case Begin => w.stage.Idle? && w.session.state.Ready?
    case Rollback => w.stage.Begun?
    case Admit => w.stage.Begun? && IsOriginal(job, w.target)
    case Differ => w.stage.Begun?
    case Resolve => w.stage.Changed?
    case Start => w.stage.Admitted?
    case Publish(token) => w.stage.Publishing? && IsOriginal(job, w.target) && token !in w.made
    case Succeed(_) => w.stage.Written?
    case Refuse => w.stage.Admitted? || w.stage.Publishing?
    case Fail => w.stage.Admitted? || w.stage.Publishing? || w.stage.Written?
    case GiveUp => w.stage.Refused?
    case Inspect => w.stage.Failed?
    case Judge => w.stage.Inspected?
    case Record => w.stage.Succeeded?
    case Finish => w.stage.Recorded?
  }

  function Settle(w: World, s: Option<Session>): World {
    w.(session := if s.Some? then s.value else w.session, stage := Idle)
  }

  function ReadyOrConflict(job: Job, w: World, e: Evidence): World {
    Settle(w, if MatchesOriginal(job, e) then MarkReady(w.session) else MarkConflict(w.session))
  }

  function Relog(job: Job, w: World, log: seq<Entry>): World {
    w.(log := log, dropped := w.dropped || Count(log, job.entry.id) < Count(w.log, job.entry.id))
  }

  /** Adds the session's entry unless the log has it already. */
  function RecordOnce(job: Job, w: World, leased: bool, warned: bool): World {
    var log := AfterLogOnce(w.log, job.entry, job.maxEntries);
    w.(log := log, stage := Recorded(warned, leased),
       added := if Holds(w.log, job.entry.id) then w.added else w.added + 1,
       dropped := w.dropped || Count(log, job.entry.id) == 0)
  }

  function Next(job: Job, w: World, e: Event): World {
    match e
    case Outside(t) =>
      w.(target := t, made := if t.File? then w.made[t.token := t.content] else w.made,
         removed := w.removed || (w.published != [] && t.Absent?))
    case OtherEntry(entry) => Relog(job, w, Inserted(w.log, entry, job.maxEntries))
    case ExpireSession => w.(session := if Expire(w.session).Some? then Expire(w.session).value else w.session)
    case CancelSession => Settle(w, Cancel(w.session))
    case Stop => w.(stage := Idle)
    case Examine => w.(stage := Examined(Capture(job, w.target)))
    case Decide =>
      if w.stage.Examined? then
        (if MatchesOriginal(job, w.stage.evidence) then Settle(w, MarkReady(w.session))
         else if w.session.started && w.stage.evidence.Seen? && w.stage.evidence.contentMatches then
           RecordOnce(job, w, true, false)
         else Settle(w, MarkConflict(w.session)))
      else w
    case Begin => w.(session := if BeginCommit(w.session).Some? then BeginCommit(w.session).value else w.session, stage := Begun)
    case Rollback => Settle(w, MarkReady(w.session))
    case Admit => w.(stage := Admitted)
    case Differ => w.(stage := Changed(Capture(job, w.target)))
    case Resolve => if w.stage.Changed? then ReadyOrConflict(job, w, w.stage.evidence) else w
    case Start =>
      if MarkPublicationStarted(w.session).Some? then
        w.(session := MarkPublicationStarted(w.session).value, stage := Publishing)
      else w
    case Publish(token) =>
      w.(target := File(token, job.payload), made := w.made[token := job.payload],
         published := w.published + [token], stage := Written)
    case Succeed(warned) => w.(stage := Succeeded(warned))
    case Refuse => w.(stage := Refused)
    case Fail => w.(stage := Failed)
    case GiveUp => Settle(w, MarkConflict(w.session))
    case Inspect => w.(stage := Inspected(Capture(job, w.target)))
    case Judge => if w.stage.Inspected? then ReadyOrConflict(job, w, w.stage.evidence) else w
    case Record => if w.stage.Succeeded? then RecordOnce(job, w, false, w.stage.warned) else w
    case Finish => if w.stage.Recorded? then Settle(w, MarkCommitted(w.session, w.stage.warned)).(committed := true) else w
  }

  // ----- Runs -----

  /** A session just turned ready: nothing published, its log key unused, tokens bound to contents. */
  predicate Initial(job: Job, w: World) {
    && w.session.state.Ready? && !w.session.started && w.stage.Idle?
    && w.published == [] && !w.removed && w.added == 0 && !w.dropped && !w.committed && Count(w.log, job.entry.id) == 0
    && (w.target.File? ==> w.target.token in w.made && w.made[w.target.token] == w.target.content)
    && (job.original.Present? ==> job.original.token in w.made)
  }

  function After(job: Job, w: World, events: seq<Event>): World {
    if events == [] then w else Next(job, After(job, w, events[..|events| - 1]), events[|events| - 1])
  }

  predicate PossibleRun(job: Job, w: World, events: seq<Event>) {
    events == [] ||
    (PossibleRun(job, w, events[..|events| - 1])
     && Possible(job, After(job, w, events[..|events| - 1]), events[|events| - 1]))
  }

  ghost predicate Reachable(job: Job, w: World) {
    exists start, events ::
      Initial(job, start) && PossibleRun(job, start, events) && w == After(job, start, events)
  }

  lemma Extend(job: Job, start: World, events: seq<Event>, e: Event) returns (more: seq<Event>)
    requires PossibleRun(job, start, events) && Possible(job, After(job, start, events), e)
    ensures more == events + [e]
    ensures PossibleRun(job, start, more) && After(job, start, more) == Next(job, After(job, start, events), e)
  {
    more := events + [e];
    assert more[..|more| - 1] == events;
  }

  // ----- What single steps do -----

  lemma Failing(job: Job, w: World)
    requires w.stage.Admitted? || w.stage.Publishing? || w.stage.Written?
    ensures Possible(job, w, Fail) && Next(job, w, Fail) == w.(stage := Failed)
  {
  }

  lemma Inspecting(job: Job, w: World)
    requires w.stage.Failed?
    ensures Possible(job, w, Inspect) && Next(job, w, Inspect) == w.(stage := Inspected(Capture(job, w.target)))
  {
  }

  /** The task is done and the session open again or in conflict. */
  predicate Settled(w: World, w': World) {
    w'.stage.Idle? && (w'.session.state.Ready? || w'.session.state.Conflict?) && w'.published == w.published
  }

  lemma Examining(job: Job, w: World)
    requires w.stage.Idle? && w.session.state.Committing?
    ensures var w' := Next(job, w, Examine);
            Possible(job, w, Examine) && w' == w.(stage := Examined(Capture(job, w.target))) && Possible(job, w', Decide)
  {
  }

  lemma Judging(job: Job, w: World)
    requires w.stage.Inspected? && w.session.state.Committing?
    ensures Possible(job, w, Judge) && Settled(w, Next(job, w, Judge))
  {
  }

  lemma Resolving(job: Job, w: World)
    requires w.stage.Changed? && w.session.state.Committing?
    ensures Possible(job, w, Resolve) && Settled(w, Next(job, w, Resolve))
  {
  }

  lemma Deciding(job: Job, w: World)
    requires Possible(job, w, Decide) && w.session.state.Committing?
    ensures var w' := Next(job, w, Decide);
            Settled(w, w') || (w'.stage.Recorded? && w'.session == w.session && w'.published == w.published)
  {
  }

  lemma Finishing(job: Job, w: World)
    requires w.stage.Recorded? && w.session.state.Committing?
    ensures var w' := Next(job, w, Finish);
            && Possible(job, w, Finish) && w'.stage.Idle? && w'.published == w.published
            && w'.session.state.Committed? && w'.session.warned == w.stage.warned
  {
  }

  lemma Beginning(job: Job, w: World)
    requires w.stage.Idle? && w.session.state.Ready?
    ensures var w' := Next(job, w, Begin);
            && Possible(job, w, Begin) && w' == w.(stage := Begun, session := w'.session)
            && w'.session.state.Committing?
  {
  }

  lemma RollingBack(job: Job, w: World)
    requires w.stage.Begun? && w.session.state.Committing?
    ensures Possible(job, w, Rollback) && Settled(w, Next(job, w, Rollback))
  {
  }

  lemma Differing(job: Job, w: World)
    requires w.stage.Begun?
    ensures Possible(job, w, Differ) && Next(job, w, Differ) == w.(stage := Changed(Capture(job, w.target)))
  {
  }

  lemma Starting(job: Job, w: World)
    requires w.stage.Admitted? && w.session.state.Committing?
    ensures var w' := Next(job, w, Start);
            && Possible(job, w, Start) && w' == w.(stage := Publishing, session := w'.session)
            && w'.session.state.Committing?
  {
  }

  lemma PublishingOnce(job: Job, w: World, token: nat)
    requires w.stage.Publishing? && IsOriginal(job, w.target) && token !in w.made
    ensures var w' := Next(job, w, Publish(token));
            && Possible(job, w, Publish(token)) && w'.stage.Written? && w'.published == w.published + [token]
            && w'.target == File(token, job.payload)
  {
  }

  lemma Admitting(job: Job, w: World)
    requires w.stage.Begun? && IsOriginal(job, w.target)
    ensures Possible(job, w, Admit) && Next(job, w, Admit) == w.(stage := Admitted)
  {
  }

  lemma Refusing(job: Job, w: World)
    requires (w.stage.Admitted? || w.stage.Publishing?) && w.session.state.Committing?
    ensures var refused := Next(job, w, Refuse);
            var w' := Next(job, refused, GiveUp);
            && Possible(job, w, Refuse) && Possible(job, refused, GiveUp)
            && w'.stage.Idle? && w'.session.state.Conflict? && w'.published == w.published
  {
  }

  // ----- The invariant -----

  predicate Truthful(job: Job, w: World, e: Evidence) {
    && (e.Seen? && e.condition.Present? ==>
          e.condition.token in w.made
          && e.size == |w.made[e.condition.token]| && e.contentMatches == Matches(job, w.made[e.condition.token]))
    && (e.Seen? && e.condition.Missing? ==> !e.contentMatches)
  }

  predicate HasEvidence(stage: Stage) {
    stage.Examined? || stage.Changed? || stage.Inspected?
  }

  /** Every identity token seen so far belongs to one content. */
  predicate TokensAreTrue(job: Job, w: World) {
    && (w.target.File? ==> w.target.token in w.made && w.made[w.target.token] == w.target.content)
    && (job.original.Present? ==> job.original.token in w.made)
    && (HasEvidence(w.stage) ==> Truthful(job, w, w.stage.evidence))
    && (forall p :: p in w.published ==> p in w.made && w.made[p] == job.payload && job.original != Present(p))
  }

  predicate StageFits(w: World) {
    && (!w.stage.Idle? ==> w.session.state.Committing?)
    && (w.stage.Publishing? || w.stage.Written? || w.stage.Succeeded? || w.stage.Recorded? ==> w.session.started)
    && (w.stage.Begun? || w.stage.Admitted? || w.stage.Changed? ==> !w.session.started)
    && (w.session.state.Ready? ==> !w.session.started)
    && (w.stage.Written? || w.stage.Succeeded? ==> w.published != [])
    && (w.stage.Recorded? && !w.stage.leased ==> w.published != [])
  }

  /** Nobody removed the target of a session that began with none after it was published. */
  predicate Undisturbed(job: Job, w: World) {
    job.original.Present? || !w.removed
  }

  predicate PublishedOnce(job: Job, w: World) {
    Undisturbed(job, w) ==>
      && |w.published| <= 1
      && (w.published != [] ==>
            && !IsOriginal(job, w.target)
            && (HasEvidence(w.stage) ==> !MatchesOriginal(job, w.stage.evidence))
            && !w.session.state.Ready? && !w.session.state.Cancelled?
            && (w.session.state.Committing? ==> w.session.started)
            && !w.stage.Publishing?)
  }

  predicate LogFits(job: Job, w: World) {
    && (!w.dropped ==> w.added <= 1 && Count(w.log, job.entry.id) == w.added)
    && Count(w.log, job.entry.id) <= 1 && Count(w.log, job.entry.id) <= w.added
    && (w.session.state.Committed? ==> w.committed)
    && (w.committed || w.stage.Recorded? ==> w.added > 0)
    && (Leased(w) ==> w.target.File? && Matches(job, w.target.content))
  }

  predicate Inv(job: Job, w: World) {
    TokensAreTrue(job, w) && StageFits(w) && PublishedOnce(job, w) && LogFits(job, w)
  }

  predicate TouchesTokens(e: Event) {
    e.Outside? || e.Publish? || e.Examine? || e.Differ? || e.Inspect?
  }

  predicate LeavesTokens(w: World, w': World) {
    && w'.target == w.target && w'.made == w.made && w'.published == w.published
    && (HasEvidence(w'.stage) ==> w'.stage == w.stage)
  }

  lemma SettlingLeavesTokens(w: World)
    ensures forall s :: LeavesTokens(w, Settle(w, s))
  {
  }

  lemma LoggingLeavesTokens(job: Job, w: World)
    ensures forall leased, warned :: LeavesTokens(w, RecordOnce(job, w, leased, warned))
    ensures forall log :: LeavesTokens(w, Relog(job, w, log))
    ensures LeavesTokens(w, w)
  {
    hide Inserted, AfterLogOnce, Holds, Count;
  }

  /** All other steps leave target and tokens alone and gather no evidence. */
  lemma OtherStepsLeaveTokens(job: Job, w: World, e: Event)
    requires !TouchesTokens(e)
    ensures LeavesTokens(w, Next(job, w, e))
  {
    hide Settle, RecordOnce, Relog, MatchesOriginal, Inserted, BeginCommit, MarkReady, MarkConflict, MarkCommitted, Cancel,
         Expire, MarkPublicationStarted;
    SettlingLeavesTokens(w);
    LoggingLeavesTokens(job, w);
    if e.Finish? {
      FinishLeavesTokens(job, w);
    }
  }

  lemma FinishLeavesTokens(job: Job, w: World)
    ensures LeavesTokens(w, Next(job, w, Finish))
  {
  }

  lemma CaptureIsTruthful(job: Job, w: World)
    requires w.target.File? ==> w.target.token in w.made && w.made[w.target.token] == w.target.content
    ensures Truthful(job, w, Capture(job, w.target))
  {
    hide Matches;
  }

  lemma TargetStepKeepsTokens(job: Job, w: World, e: Event)
    requires TokensAreTrue(job, w) && Possible(job, w, e) && (e.Outside? || e.Publish?)
    ensures TokensAreTrue(job, Next(job, w, e))
  {
    hide Matches;
  }

  lemma StepKeepsTokens(job: Job, w: World, e: Event)
    requires TokensAreTrue(job, w) && Possible(job, w, e)
    ensures TokensAreTrue(job, Next(job, w, e))
  {
    hide Next, Possible, Truthful, Capture;
    if e.Outside? || e.Publish? {
      TargetStepKeepsTokens(job, w, e);
    } else if e.Examine? || e.Differ? || e.Inspect? {
      Looking(job, w, e);
      CaptureIsTruthful(job, w);
      SameTokensSameTruth(job, w, Next(job, w, e), Capture(job, w.target));
    } else {
      OtherStepsLeaveTokens(job, w, e);
      if HasEvidence(w.stage) {
        SameTokensSameTruth(job, w, Next(job, w, e), w.stage.evidence);
      }
    }
  }

  lemma Looking(job: Job, w: World, e: Event)
    requires e.Examine? || e.Differ? || e.Inspect?
    ensures var w' := Next(job, w, e);
            w' == w.(stage := w'.stage) && HasEvidence(w'.stage) && w'.stage.evidence == Capture(job, w.target)
  {
  }

  lemma SameTokensSameTruth(job: Job, w: World, w': World, e: Evidence)
    requires Truthful(job, w, e) && w'.made == w.made
    ensures Truthful(job, w', e)
  {
  }

  lemma StepKeepsStage(job: Job, w: World, e: Event)
    requires StageFits(w) && Possible(job, w, e)
    ensures StageFits(Next(job, w, e))
  {
    hide Matches, Inserted, AfterLogOnce, Holds, Count, IsOriginal, Consistent, Capture, MatchesOriginal;
  }

  lemma StepKeepsPublishedOnce(job: Job, w: World, e: Event)
    requires TokensAreTrue(job, w) && StageFits(w) && PublishedOnce(job, w) && Possible(job, w, e)
    ensures PublishedOnce(job, Next(job, w, e))
  {
    hide Matches, Inserted, AfterLogOnce, Holds, Count;
  }

  /** A second look that agrees in identity and size proves the first look still true. */
  lemma EvidenceStillTrue(job: Job, w: World)
    requires TokensAreTrue(job, w) && w.stage.Examined? && Consistent(w.target, w.stage.evidence)
    ensures MatchesOriginal(job, w.stage.evidence) <==> IsOriginal(job, w.target)
    ensures w.stage.evidence.Seen? && w.stage.evidence.contentMatches <==>
            w.target.File? && Matches(job, w.target.content)
  {
    hide Matches;
  }

  lemma RecordKeepsLog(job: Job, w: World, leased: bool, warned: bool)
    requires LogFits(job, w) && (leased ==> w.target.File? && Matches(job, w.target.content))
    ensures LogFits(job, RecordOnce(job, w, leased, warned))
  {
    hide Inserted, Holds, Count, Matches;
    CountIsZero(w.log, job.entry.id);
    CountAfterInsert(w.log, job.entry, job.maxEntries, job.entry.id);
  }

  lemma StepKeepsLog(job: Job, w: World, e: Event)
    requires TokensAreTrue(job, w) && StageFits(w) && LogFits(job, w) && Possible(job, w, e)
    ensures LogFits(job, Next(job, w, e))
  {
    match e
    case OtherEntry(entry) => CountAfterInsert(w.log, entry, job.maxEntries, job.entry.id);
    case Decide =>
      EvidenceStillTrue(job, w);
      if w.session.started && w.stage.evidence.Seen? && w.stage.evidence.contentMatches {
        RecordKeepsLog(job, w, true, false);
      }
      hide RecordOnce, Count, Matches, IsOriginal;
    case Record => RecordKeepsLog(job, w, false, w.stage.warned);
    case _ =>
  }

  lemma InitialInv(job: Job, w: World)
    requires Initial(job, w)
    ensures Inv(job, w)
  {
  }

  lemma {:induction false} RunKeepsInv(job: Job, w: World, events: seq<Event>)
    requires Initial(job, w) && PossibleRun(job, w, events)
    ensures Inv(job, After(job, w, events))
    decreases |events|
  {
    hide TokensAreTrue, StageFits, PublishedOnce, LogFits, Next, Possible;
    if events == [] {
      InitialInv(job, w);
    } else {
      var init, last := events[..|events| - 1], events[|events| - 1];
      RunKeepsInv(job, w, init);
      var before := After(job, w, init);
      StepKeepsTokens(job, before, last);
      StepKeepsStage(job, before, last);
      StepKeepsPublishedOnce(job, before, last);
      StepKeepsLog(job, before, last);
    }
  }

  lemma ReachableInv(job: Job, w: World)
    requires Reachable(job, w)
    ensures Inv(job, w)
  {
    hide Inv, Initial, PossibleRun, After;
    var start, events :| Initial(job, start) && PossibleRun(job, start, events) && w == After(job, start, events);
    RunKeepsInv(job, start, events);
  }

  // ----- What the protocol guarantees -----

  /** Wherever an earlier commit stopped, reconciliation decides by what the target is at
      that moment: ready exactly for the original identity; otherwise committing goes on to
      committed exactly if publication had started and the target holds the payload. */
  lemma VerdictIsExact(job: Job, w: World)
    requires Reachable(job, w) && Possible(job, w, Decide)
    ensures var after := Next(job, w, Decide);
            && (after.session.state.Ready? <==> IsOriginal(job, w.target))
            && (after.stage == Recorded(false, true) <==>
                  !IsOriginal(job, w.target) && w.session.started && w.target.File? && Matches(job, w.target.content))
            && (after.session.state.Conflict? <==> !after.session.state.Ready? && after.stage.Idle?)
            && after.target == w.target
  {
    ReachableInv(job, w);
    EvidenceStillTrue(job, w);
    assert w.session.state.Committing?;
    hide Inv, PublishedOnce, LogFits, Matches, IsOriginal, MatchesOriginal, Consistent, Inserted, Holds, Count, AfterLogOnce;
  }

  /** Committed is only ever written after a publication of this session, or while the
      target is held still with the payload in it; either way publication had started. */
  lemma CommittedMeansPublished(job: Job, w: World)
    requires Reachable(job, w) && Possible(job, w, Finish)
    ensures Next(job, w, Finish).session.state.Committed? && w.session.started
    ensures w.published != [] || (w.target.File? && Matches(job, w.target.content))
  {
    hide Matches;
    ReachableInv(job, w);
  }

  /** One session publishes at most once, unless it began without a target and somebody
      removed the target it had published. */
  lemma PublishesAtMostOnce(job: Job, w: World)
    requires Reachable(job, w) && (job.original.Present? || !w.removed)
    ensures |w.published| <= 1
    ensures w.session.state.Ready? || w.session.state.Cancelled? ==> w.published == []
    ensures forall token :: w.published != [] ==> !Possible(job, w, Publish(token))
  {
    ReachableInv(job, w);
  }

  /** Every committed session has exactly one entry in the log, for good, until the entry
      falls off its end; nothing ever gives it two. */
  lemma CommittedIsLoggedOnce(job: Job, w: World)
    requires Reachable(job, w)
    ensures Count(w.log, job.entry.id) <= 1
    ensures w.committed && !w.dropped ==> Count(w.log, job.entry.id) == 1 && w.added == 1
  {
    hide Count;
    ReachableInv(job, w);
  }

  /** Reconciliation needs no more than a moment without other writers to settle a commit. */
  lemma ReconciliationSettles(job: Job, w: World)
    requires Reachable(job, w) && w.stage.Idle? && w.session.state.Committing?
    ensures var seen := Next(job, w, Examine);
            var decided := Next(job, seen, Decide);
            && Possible(job, w, Examine) && Possible(job, seen, Decide)
            && (if decided.stage.Recorded?
                then Possible(job, decided, Finish) && Next(job, decided, Finish).session.state.Committed?
                else decided.session.state.Ready? || decided.session.state.Conflict?)
  {
    hide Next, Possible;
    Examining(job, w);
    var seen := Next(job, w, Examine);
    Deciding(job, seen);
    if Next(job, seen, Decide).stage.Recorded? {
      Finishing(job, Next(job, seen, Decide));
    }
  }

  predicate Terminal(s: State) {
    s.Committed? || s.Conflict? || s.Cancelled? || s.Expired?
  }

  /** A finished session can only expire, and never touches the target or the log again. */
  lemma FinishedStaysFinished(job: Job, w: World, e: Event)
    requires Reachable(job, w) && Terminal(w.session.state) && Possible(job, w, e)
    ensures var after := Next(job, w, e);
            && (after.session.state == w.session.state || after.session.state.Expired?)
            && (e.Outside? || after.target == w.target) && (e.OtherEntry? || after.log == w.log)
            && after.published == w.published && after.stage.Idle?
  {
    hide Reachable, TokensAreTrue, PublishedOnce, LogFits, Next, Possible;
    ReachableInv(job, w);
    OnlyOthersMove(job, w, e);
    OthersKeepSession(job, w, e);
  }

  lemma OnlyOthersMove(job: Job, w: World, e: Event)
    requires w.stage.Idle? && Terminal(w.session.state) && Possible(job, w, e)
    ensures e.Outside? || e.OtherEntry? || e.ExpireSession? || e.Stop?
  {
    hide IsOriginal, Consistent, Expire;
  }

  lemma OthersKeepSession(job: Job, w: World, e: Event)
    requires w.stage.Idle? && (e.Outside? || e.OtherEntry? || e.ExpireSession? || e.Stop?)
    ensures var after := Next(job, w, e);
            && (after.session.state == w.session.state || after.session.state.Expired?)
            && (e.Outside? || after.target == w.target) && (e.OtherEntry? || after.log == w.log)
            && after.published == w.published && after.stage.Idle?
  {
    hide Count, Inserted;
  }

  // ----- Publishing twice -----

  lemma Continue(job: Job, w: World, e: Event) returns (next: World)
    requires Reachable(job, w) && Possible(job, w, e)
    ensures Reachable(job, next) && next == Next(job, w, e)
  {
    hide Initial, Possible, Next;
    var start, events :| Initial(job, start) && PossibleRun(job, start, events) && w == After(job, start, events);
    var more := Extend(job, start, events, e);
    next := Next(job, w, e);
  }

  /** The commit stops right after publishing, somebody removes the file, and reconciliation
      finds the original condition again: the session starts over and publishes again. */
  lemma RemovalAllowsSecondPublication(job: Job) returns (w: World)
    requires job.original == Missing
    ensures Reachable(job, w) && |w.published| == 2 && w.removed
  {
    w := World(Session(Ready, false, false), Idle, Absent, [], map[], [], false, 0, false, false);
    assert Reachable(job, w) by {
      assert PossibleRun(job, w, []) && After(job, w, []) == w;
    }
    hide Reachable, Inserted, Holds, Count, Matches;
    w := Publication(job, w, 1);
    w := RemovedAndReconciled(job, w);
    w := Publication(job, w, 2);
  }

  lemma RemovedAndReconciled(job: Job, w: World) returns (next: World)
    requires Reachable(job, w) && job.original == Missing && w.session.state.Committing? && w.published != []
    ensures Reachable(job, next) && next.stage.Idle? && next.session.state.Ready? && next.target.Absent?
    ensures next.published == w.published && next.removed && next.made == w.made
  {
    hide Reachable, Inserted, Holds, Count, Matches;
    next := Continue(job, w, Stop);
    next := Continue(job, next, Outside(Absent));
    next := Continue(job, next, Examine);
    next := Continue(job, next, Decide);
  }

  lemma Publication(job: Job, w: World, token: nat) returns (next: World)
    requires Reachable(job, w) && w.stage.Idle? && w.session.state.Ready? && IsOriginal(job, w.target)
    requires token !in w.made
    ensures Reachable(job, next) && next.published == w.published + [token]
    ensures next.session.state.Committing? && next.session.started
    ensures next.removed == w.removed && next.made.Keys == w.made.Keys + {token}
  {
    hide Reachable, Inserted, Holds, Count, Matches;
    next := Continue(job, w, Begin);
    next := Continue(job, next, Admit);
    next := Continue(job, next, Start);
    next := Continue(job, next, Publish(token));
  }

  /** A session can publish twice exactly if it was created for a target that did not exist. */
  lemma SecondPublicationExactly(job: Job)
    ensures (exists w :: Reachable(job, w) && |w.published| > 1) <==> job.original == Missing
  {
    if job.original == Missing {
      var w := RemovalAllowsSecondPublication(job);
    } else {
      forall w | Reachable(job, w)
        ensures |w.published| <= 1
      {
        PublishesAtMostOnce(job, w);
      }
    }
  }
}
