/** Token refreshes as requests that run side by side: every access to the token manager is a
    step of its own, with other requests, logins, revocations and restarts in between. */
module RefreshRequests {
  import opened Common
  import opened TokenRegistry
  import opened TokenRuns
  import opened TokenValidity
  import TokenDurability

  /** What a request brings along: its token, what the user store answers about the account, and
      the identifier drawn for the new pair, if the random source works. */
  datatype Request = Request(claims: RefreshClaims, user: User, admitted: bool, tokenId: Option<string>, accessDuration: Time)

  /** Where a request is; `again` marks the second look after no pair could be made. A request
      that was in flight when the process stopped is lost. */
  datatype Phase =
    | Validating(again: bool)
    | Checking(time: Time, again: bool)
    | Signing
    | Pairing(time: Time)
    | Consuming(pair: TokenPair)
    | Ending
    | Delivered(pair: TokenPair, at: nat)
    | Ended
    | Refused(error: TokenError)
    | Lost
  {
    predicate Finished() {
      Delivered? || Ended? || Refused? || Lost?
    }
  }

  datatype Task = Task(request: Request, phase: Phase)

  datatype State = State(world: World, tasks: seq<Task>)

  datatype Action =
    | Arrive(request: Request)
    | Advance(k: nat, r: Reading, outcome: WriteOutcome)
    | Other(e: Event)

  /** The checks of the signed claims alone; a token that was not signed here has no claims. */
  predicate Overdue(claims: RefreshClaims, now: Time) {
    claims.expiresAt.Some? && now >= claims.expiresAt.value + LEEWAY
  }

  predicate ProperRefresh(claims: RefreshClaims, now: Time) {
    && claims.issuer == ISSUER
    && (claims.issuedAt.Some? ==> now >= claims.issuedAt.value - LEEWAY)
    && (claims.notBefore.Some? ==> now >= claims.notBefore.value - LEEWAY)
    && WellFormedRefresh(claims)
  }

  /** The locked section a request goes through next, if it changes anything. */
  function EventOf(t: Task, r: Reading, outcome: WriteOutcome): Option<Event> {
    match t.phase
    case Validating(_) => Some(PrepareTime(r, outcome))
    case Signing => Some(PrepareTime(r, outcome))
    case Consuming(_) => Some(Rotate(t.request.claims, r, outcome))
    case Ending =>
      var claims := t.request.claims;
      Some(RevokeAll(map[claims.sessionId := if claims.expiresAt.Some? then claims.expiresAt.value else 0], r, outcome))
    case _ => None
  }

  /** Where the request goes from there; `m` is the manager before the section. */
  function Onward(cfg: Config, m: Manager, t: Task, r: Reading, outcome: WriteOutcome, consumed: nat): Phase {
    var claims := t.request.claims;
    match t.phase
    case Validating(again) =>
      var prepared := Prepare(cfg, m, r, outcome).1;
      if prepared.Err? then Refused(if again then InvalidToken else prepared.error)
      else if Overdue(claims, prepared.value) then Refused(if again then InvalidToken else TokenExpired)
      else if !ProperRefresh(claims, prepared.value) then Refused(InvalidToken)
      else Checking(prepared.value, again)
    case Checking(time, again) =>
      if claims.expiresAt.None? then Refused(InvalidToken)
      else
        var checked := CheckRefresh(m.registry, claims, time);
        if checked.Err? && checked.error == TokenReused then Ending
        else if again then Refused(InvalidToken)
        else if checked.Err? then Refused(checked.error)
        else if !t.request.admitted || claims.credentialVersion != t.request.user.credentialVersion then Refused(TokenRevoked)
        else Signing
    case Signing =>
      var prepared := Prepare(cfg, m, r, outcome).1;
      if prepared.Err? then Refused(prepared.error) else Pairing(prepared.value)
    case Pairing(time) =>
      if claims.expiresAt.None? then Refused(InvalidToken)
      else
        var tokenId := if t.request.tokenId.Some? then t.request.tokenId.value else "";
        var paired := PairForSession(m.registry, t.request.user, claims, tokenId, time, t.request.accessDuration);
        if paired.Ok? then (if t.request.tokenId.None? then Refused(RandomSource) else Consuming(paired.value))
        else if paired.error == InvalidToken then Validating(true)
        else Refused(paired.error)
    case Consuming(pair) =>
      var rotated := Consume(cfg, m, claims, r, outcome).1;
      if rotated.Ok? then Delivered(pair, consumed)
      else if rotated.error == TokenReused then Ending
      else Refused(rotated.error)
    case Ending =>
      var exp := if claims.expiresAt.Some? then claims.expiresAt.value else 0;
      var revoked := Revoke(cfg, m, map[claims.sessionId := exp], r, outcome).1;
      if revoked.Ok? then Ended else Refused(revoked.error)
    case _ => t.phase
  }

  /** A process that starts or stops takes the requests in flight with it. */
  function Dropped(tasks: seq<Task>): (dropped: seq<Task>)
    ensures |dropped| == |tasks|
    ensures forall k :: 0 <= k < |tasks| ==>
      dropped[k] == if tasks[k].phase.Finished() then tasks[k] else tasks[k].(phase := Lost)
  {
    seq(|tasks|, k requires 0 <= k < |tasks| => if tasks[k].phase.Finished() then tasks[k] else tasks[k].(phase := Lost))
  }

  predicate MayAct(cfg: Config, s: State, a: Action) {
    match a
    case Arrive(_) => s.world.sys.Up?
    case Advance(k, _, _) => s.world.sys.Up? && k < |s.tasks| && !s.tasks[k].phase.Finished()
    case Other(e) => Possible(cfg, s.world, e)
  }

  function Act(cfg: Config, s: State, a: Action): State
    requires MayAct(cfg, s, a)
  {
    match a
    case Arrive(request) => s.(tasks := s.tasks + [Task(request, Validating(false))])
    case Advance(k, r, outcome) =>
      var t := s.tasks[k];
      var e := EventOf(t, r, outcome);
      State(if e.Some? then Step(cfg, s.world, e.value) else s.world,
            s.tasks[k := t.(phase := Onward(cfg, s.world.sys.manager, t, r, outcome, |s.world.consumed|))])
    case Other(e) =>
      State(Step(cfg, s.world, e), if e.Start? || e.Stop? then Dropped(s.tasks) else s.tasks)
  }

  predicate CanAct(cfg: Config, s: State, actions: seq<Action>)
    decreases |actions|
  {
    actions != [] ==> MayAct(cfg, s, actions[0]) && CanAct(cfg, Act(cfg, s, actions[0]), actions[1..])
  }

  function AfterActions(cfg: Config, s: State, actions: seq<Action>): State
    requires CanAct(cfg, s, actions)
    decreases |actions|
  {
    if actions == [] then s else AfterActions(cfg, Act(cfg, s, actions[0]), actions[1..])
  }

  const Nobody := State(Initial, [])

  // ----- The invariant -----

  /** The account may have a pair: it is there, enabled, and the token has its current credential version. */
  predicate Admitted(request: Request) {
    request.admitted && request.claims.credentialVersion == request.user.credentialVersion
  }

  /** The pair is the next one of the session the token is for, and says whose it is. */
  predicate PairFits(request: Request, pair: TokenPair) {
    var claims := request.claims;
    && claims.expiresAt.Some? && pair.access.issuedAt.Some?
    && PairSays(pair, request.user, claims.sessionId, Truncate(claims.expiresAt.value), claims.generation + 1,
                pair.access.issuedAt.value, request.accessDuration)
  }

  ghost predicate TaskOk(w: World, t: Task) {
    var claims := t.request.claims;
    && (!t.phase.Finished() ==> w.sys.Up?)
    && (match t.phase
        case Checking(time, _) => w.sys.Up? && time <= w.sys.manager.highWater && WellFormedRefresh(claims)
        case Signing => Admitted(t.request) && WellFormedRefresh(claims)
        case Pairing(time) =>
          Admitted(t.request) && w.sys.Up? && time <= w.sys.manager.highWater && WellFormedRefresh(claims)
        case Consuming(pair) => Admitted(t.request) && WellFormedRefresh(claims) && PairFits(t.request, pair)
        case Ending => WellFormedRefresh(claims) && WasConsumed(w, claims)
        case Delivered(pair, at) =>
          && Admitted(t.request) && PairFits(t.request, pair) && at < |w.consumed|
          && w.consumed[at].sessionId == claims.sessionId && w.consumed[at].generation == claims.generation
        case Ended => claims.sessionId in w.revoked && WasConsumed(w, claims)
        case _ => true)
  }

  ghost predicate StateOk(cfg: Config, s: State) {
    && Inv(cfg, s.world) && WorldConsumed(s.world)
    && (forall k :: 0 <= k < |s.tasks| ==> TaskOk(s.world, s.tasks[k]))
    && (forall i, j :: 0 <= i < j < |s.tasks| && s.tasks[i].phase.Delivered? && s.tasks[j].phase.Delivered? ==>
          s.tasks[i].phase.at != s.tasks[j].phase.at)
  }

  /** What every step of the world keeps. */
  ghost predicate Grows(w: World, w': World) {
    && w.consumed <= w'.consumed && w.revoked <= w'.revoked
    && (w.sys.Up? && w'.sys.Up? ==> w.sys.manager.highWater <= w'.sys.manager.highWater)
  }

  lemma ServeGrows(cfg: Config, w: World, e: Event)
    requires Inv(cfg, w) && Possible(cfg, w, e) && w.sys.Up? && !e.Start? && !e.Stop?
    ensures Grows(w, Step(cfg, w, e)) && Step(cfg, w, e).sys.Up?
  {
    hide Prepare, Generate, Consume, Drop, Live, WithinLimits, Loadable, Drawn;
    var m := w.sys.manager;
    match e
    case PrepareTime(r, outcome) => PrepareCoversItsTime(cfg, m, r, outcome);
    case LogIn(login, r, outcome) => GenerateAddsOne(cfg, m, login, r, outcome);
    case Rotate(claims, r, outcome) => ConsumeRotatesOne(cfg, m, claims, r, outcome);
    case RevokeAll(sessions, r, outcome) => DropShrinks(cfg, Tick(m, r), sessions.Keys, outcome);
    case RevokeByUser(userId, r, outcome) => DropShrinks(cfg, Tick(m, r), SessionsOf(m.registry, userId), outcome);
    case CleanUp(r, outcome) => DropShrinks(cfg, Tick(m, r), {}, outcome);
  }

  lemma TaskStaysOk(w: World, w': World, t: Task)
    requires TaskOk(w, t) && Grows(w, w') && (w.sys.Up? ==> w'.sys.Up?)
    ensures TaskOk(w', t)
  {
    hide WasConsumed, PairFits, Admitted, WellFormedRefresh;
    WasConsumedStays(w, w', t.request.claims);
  }

  lemma WasConsumedStays(w: World, w': World, claims: RefreshClaims)
    requires w.consumed <= w'.consumed
    ensures WasConsumed(w, claims) ==> WasConsumed(w', claims)
  {
  }

  lemma FinishedStaysOk(w: World, w': World, t: Task)
    requires TaskOk(w, t) && w.consumed <= w'.consumed && w.revoked <= w'.revoked
    ensures t.phase.Finished() ==> TaskOk(w', t)
    ensures TaskOk(w', t.(phase := Lost))
  {
    hide WasConsumed, PairFits, Admitted, WellFormedRefresh;
    WasConsumedStays(w, w', t.request.claims);
  }

  /** The world and the task after one section of a request. */
  function Moved(cfg: Config, w: World, t: Task, r: Reading, outcome: WriteOutcome): (World, Task)
    requires w.sys.Up?
  {
    var e := EventOf(t, r, outcome);
    (if e.Some? then Step(cfg, w, e.value) else w,
     t.(phase := Onward(cfg, w.sys.manager, t, r, outcome, |w.consumed|)))
  }

  lemma MovedByPrepare(cfg: Config, w: World, t: Task, r: Reading, outcome: WriteOutcome)
    requires Inv(cfg, w) && w.sys.Up? && (t.phase.Validating? || t.phase.Signing?) && TaskOk(w, t)
    ensures var (w', t') := Moved(cfg, w, t, r, outcome); TaskOk(w', t') && !t'.phase.Delivered?
  {
    hide Prepare, ProperRefresh, Live, WithinLimits, Loadable, PairFits;
    PrepareCoversItsTime(cfg, w.sys.manager, r, outcome);
    ProperIsWellFormed(t.request.claims);
  }

  lemma ProperIsWellFormed(claims: RefreshClaims)
    ensures forall now :: ProperRefresh(claims, now) ==> WellFormedRefresh(claims)
  {
    hide WellFormedRefresh;
  }

  lemma MovedByLook(cfg: Config, w: World, t: Task, r: Reading, outcome: WriteOutcome)
    requires Inv(cfg, w) && WorldConsumed(w) && w.sys.Up? && (t.phase.Checking? || t.phase.Pairing?) && TaskOk(w, t)
    ensures var (w', t') := Moved(cfg, w, t, r, outcome); w' == w && TaskOk(w', t') && !t'.phase.Delivered?
  {
    hide CheckRefresh, Truncate, ValidSessionId, HasRefreshId, PairForSession, PairSays, WasConsumed, Inv, WorldConsumed;
    if t.phase.Checking? {
      ReusedWasConsumed(cfg, w, t.request.claims, t.phase.time);
    }
    if t.phase.Pairing? {
      var tokenId := if t.request.tokenId.Some? then t.request.tokenId.value else "";
      PairedExactlyWhen(w.sys.manager.registry, t.request.user, t.request.claims, tokenId, t.phase.time, t.request.accessDuration);
      IssuedWhenSaid(w.sys.manager.registry, t, tokenId);
    }
  }

  lemma ReusedWasConsumed(cfg: Config, w: World, claims: RefreshClaims, now: Time)
    requires Inv(cfg, w) && WorldConsumed(w) && w.sys.Up? && claims.expiresAt.Some?
    ensures CheckRefresh(w.sys.manager.registry, claims, now) == Err(TokenReused) ==> WasConsumed(w, claims)
  {
    hide Inv, Consumed, CheckRefresh;
    SessionsOnFile(cfg, w);
    RefreshAcceptedExactlyWhen(w.sys.manager.registry, claims, now);
  }

  lemma ReusedAtConsume(cfg: Config, w: World, claims: RefreshClaims, r: Reading, outcome: WriteOutcome)
    requires Inv(cfg, w) && WorldConsumed(w) && w.sys.Up?
    ensures Consume(cfg, w.sys.manager, claims, r, outcome).1 == Err(TokenReused) ==> WasConsumed(w, claims)
  {
    hide Inv, WasConsumed, WorldConsumed, CheckRefresh, Commit, Tick, ValidSessionId, HasRefreshId;
    if WellFormedRefresh(claims) {
      TickKeepsRest(w.sys.manager, r);
      ReusedWasConsumed(cfg, w, claims, Tick(w.sys.manager, r).highWater);
    }
  }

  lemma IssuedWhenSaid(registry: Registry, t: Task, tokenId: string)
    requires t.phase.Pairing? && t.request.claims.expiresAt.Some?
    ensures var pair := PairForSession(registry, t.request.user, t.request.claims, tokenId, t.phase.time, t.request.accessDuration);
            pair.Ok? ==> pair.value.access.issuedAt == Some(Truncate(t.phase.time))
  {
  }

  lemma MovedByConsume(cfg: Config, w: World, t: Task, r: Reading, outcome: WriteOutcome)
    requires Inv(cfg, w) && WorldConsumed(w) && w.sys.Up? && t.phase.Consuming? && TaskOk(w, t)
    ensures var (w', t') := Moved(cfg, w, t, r, outcome);
            TaskOk(w', t') && (t'.phase.Delivered? ==> t'.phase.at == |w.consumed|)
  {
    hide Consume, WellFormedRefresh, Inv, WorldConsumed, WasConsumed;
    ReusedAtConsume(cfg, w, t.request.claims, r, outcome);
    StepKeepsHistory(cfg, w, Rotate(t.request.claims, r, outcome));
    WasConsumedStays(w, Step(cfg, w, Rotate(t.request.claims, r, outcome)), t.request.claims);
  }

  lemma MovedByEnding(cfg: Config, w: World, t: Task, r: Reading, outcome: WriteOutcome)
    requires w.sys.Up? && t.phase.Ending? && TaskOk(w, t)
    ensures var (w', t') := Moved(cfg, w, t, r, outcome); TaskOk(w', t') && !t'.phase.Delivered?
  {
    hide Drop, Tick, WasConsumed;
    WasConsumedStays(w, Moved(cfg, w, t, r, outcome).0, t.request.claims);
  }

  lemma MovedIsOk(cfg: Config, w: World, t: Task, r: Reading, outcome: WriteOutcome)
    requires Inv(cfg, w) && WorldConsumed(w) && w.sys.Up? && !t.phase.Finished() && TaskOk(w, t)
    ensures var (w', t') := Moved(cfg, w, t, r, outcome);
            && TaskOk(w', t') && (t'.phase.Delivered? ==> t'.phase.at == |w.consumed|)
            && Inv(cfg, w') && WorldConsumed(w') && Grows(w, w') && w'.sys.Up?
  {
    hide Onward, Step, Inv, Grows, TaskOk, WorldConsumed;
    match t.phase {
      case Validating(_) => MovedByPrepare(cfg, w, t, r, outcome);
      case Signing => MovedByPrepare(cfg, w, t, r, outcome);
      case Checking(_, _) => MovedByLook(cfg, w, t, r, outcome);
      case Pairing(_) => MovedByLook(cfg, w, t, r, outcome);
      case Consuming(_) => MovedByConsume(cfg, w, t, r, outcome);
      case Ending => MovedByEnding(cfg, w, t, r, outcome);
      case _ =>
    }
    var e := EventOf(t, r, outcome);
    if e.Some? {
      StepKeepsInv(cfg, w, e.value);
      StepKeepsConsumed(cfg, w, e.value);
      ServeGrows(cfg, w, e.value);
    } else {
      GrowsItself(w);
    }
  }

  lemma GrowsItself(w: World)
    ensures Grows(w, w)
  {
  }

  lemma AtIsBelow(w: World, t: Task)
    ensures TaskOk(w, t) && t.phase.Delivered? ==> t.phase.at < |w.consumed|
  {
  }

  lemma AdvanceKeepsOk(cfg: Config, s: State, k: nat, r: Reading, outcome: WriteOutcome)
    requires StateOk(cfg, s) && MayAct(cfg, s, Advance(k, r, outcome))
    ensures StateOk(cfg, Act(cfg, s, Advance(k, r, outcome)))
  {
    hide Onward, Step, Inv, Grows, TaskOk, EventOf, WorldConsumed;
    MovedIsOk(cfg, s.world, s.tasks[k], r, outcome);
    var (w', t') := Moved(cfg, s.world, s.tasks[k], r, outcome);
    forall i | 0 <= i < |s.tasks| && i != k
      ensures TaskOk(w', s.tasks[i])
    {
      TaskStaysOk(s.world, w', s.tasks[i]);
    }
    forall i | 0 <= i < |s.tasks|
      ensures s.tasks[i].phase.Delivered? ==> s.tasks[i].phase.at < |s.world.consumed|
    {
      AtIsBelow(s.world, s.tasks[i]);
    }
  }

  lemma StepKeepsHistory(cfg: Config, w: World, e: Event)
    ensures w.consumed <= Step(cfg, w, e).consumed && w.revoked <= Step(cfg, w, e).revoked
  {
    hide Prepare, Generate, Consume, Revoke, RevokeUser, Cleanup, Enable;
  }

  lemma OtherKeepsOk(cfg: Config, s: State, e: Event)
    requires StateOk(cfg, s) && Possible(cfg, s.world, e)
    ensures StateOk(cfg, Act(cfg, s, Other(e)))
  {
    hide Inv, Grows, TaskOk, Serve, Possible, WorldConsumed;
    StepKeepsInv(cfg, s.world, e);
    StepKeepsConsumed(cfg, s.world, e);
    StepKeepsHistory(cfg, s.world, e);
    var w' := Step(cfg, s.world, e);
    forall k | 0 <= k < |s.tasks|
      ensures TaskOk(w', Act(cfg, s, Other(e)).tasks[k])
    {
      if e.Start? || e.Stop? {
        FinishedStaysOk(s.world, w', s.tasks[k]);
      } else if s.world.sys.Up? {
        ServeGrows(cfg, s.world, e);
        TaskStaysOk(s.world, w', s.tasks[k]);
      }
    }
  }

  lemma ActKeepsOk(cfg: Config, s: State, a: Action)
    requires StateOk(cfg, s) && MayAct(cfg, s, a)
    ensures StateOk(cfg, Act(cfg, s, a))
  {
    match a
    case Arrive(request) => hide Inv, WorldConsumed;
    case Advance(k, r, outcome) => AdvanceKeepsOk(cfg, s, k, r, outcome);
    case Other(e) => OtherKeepsOk(cfg, s, e);
  }

  lemma {:induction false} ActionsKeepOk(cfg: Config, s: State, actions: seq<Action>)
    requires StateOk(cfg, s) && CanAct(cfg, s, actions)
    ensures StateOk(cfg, AfterActions(cfg, s, actions))
    decreases |actions|
  {
    hide StateOk, Act, MayAct;
    if actions != [] {
      ActKeepsOk(cfg, s, actions[0]);
      ActionsKeepOk(cfg, Act(cfg, s, actions[0]), actions[1..]);
    }
  }

  // ----- Main results -----

  lemma NobodyIsOk(cfg: Config)
    ensures StateOk(cfg, Nobody)
  {
  }

  /** However requests interleave, one token is exchanged at most once: two requests that were
      answered with a pair for one session brought different tokens and got different ones. */
  lemma OneTokenDeliversOnce(cfg: Config, actions: seq<Action>, i: nat, j: nat)
    requires CanAct(cfg, Nobody, actions)
    requires var tasks := AfterActions(cfg, Nobody, actions).tasks;
             i < j < |tasks| && tasks[i].phase.Delivered? && tasks[j].phase.Delivered?
             && tasks[i].request.claims.sessionId == tasks[j].request.claims.sessionId
    ensures var tasks := AfterActions(cfg, Nobody, actions).tasks;
            && tasks[i].request.claims.generation != tasks[j].request.claims.generation
            && tasks[i].phase.pair.refresh.generation != tasks[j].phase.pair.refresh.generation
  {
    hide AfterActions, CanAct;
    NobodyIsOk(cfg);
    ActionsKeepOk(cfg, Nobody, actions);
    var s := AfterActions(cfg, Nobody, actions);
    assert TaskOk(s.world, s.tasks[i]) && TaskOk(s.world, s.tasks[j]);
    var a, b := s.tasks[i].phase.at, s.tasks[j].phase.at;
    assert if a < b then Precedes(cfg, s.world.consumed[a], s.world.consumed[b])
           else Precedes(cfg, s.world.consumed[b], s.world.consumed[a]);
  }

  /** However requests interleave, a request that was answered with a pair brought a token with the
      current credential version of an account that was admitted, and the pair is that account's,
      for the next generation of the same session. */
  lemma PairMeansAdmitted(cfg: Config, actions: seq<Action>, k: nat)
    requires CanAct(cfg, Nobody, actions)
    requires var tasks := AfterActions(cfg, Nobody, actions).tasks; k < |tasks| && tasks[k].phase.Delivered?
    ensures var t := AfterActions(cfg, Nobody, actions).tasks[k];
            var claims, user, pair := t.request.claims, t.request.user, t.phase.pair;
            && t.request.admitted && claims.credentialVersion == user.credentialVersion
            && pair.access.userId == pair.refresh.subject == user.id
            && pair.access.username == user.username && pair.access.role == user.role
            && pair.access.credentialVersion == pair.refresh.credentialVersion == claims.credentialVersion
            && pair.access.sessionId == pair.refresh.sessionId == claims.sessionId
            && pair.refresh.generation == claims.generation + 1
            && pair.access.sessionExpiresAt == pair.refresh.expiresAt
  {
    hide AfterActions, CanAct, Inv;
    NobodyIsOk(cfg);
    ActionsKeepOk(cfg, Nobody, actions);
    var s := AfterActions(cfg, Nobody, actions);
    assert TaskOk(s.world, s.tasks[k]);
  }

  /** A request ends the session only for a token that was used before: some accepted rotation of
      the run was for the same session and generation. */
  lemma EndedMeansUsedBefore(cfg: Config, actions: seq<Action>, k: nat)
    requires CanAct(cfg, Nobody, actions)
    requires var tasks := AfterActions(cfg, Nobody, actions).tasks;
             k < |tasks| && (tasks[k].phase.Ending? || tasks[k].phase.Ended?)
    ensures var s := AfterActions(cfg, Nobody, actions);
            var claims, consumed := s.tasks[k].request.claims, s.world.consumed;
            exists n :: 0 <= n < |consumed| && consumed[n].sessionId == claims.sessionId
                        && consumed[n].generation == claims.generation
  {
    hide AfterActions, CanAct, Inv, WorldConsumed;
    NobodyIsOk(cfg);
    ActionsKeepOk(cfg, Nobody, actions);
    var s := AfterActions(cfg, Nobody, actions);
    assert TaskOk(s.world, s.tasks[k]);
  }

  /** A request of an account that is not admitted, or with an outdated credential version, is at
      no time of any run past its checks. */
  lemma UnadmittedNeverSigns(cfg: Config, actions: seq<Action>, k: nat)
    requires CanAct(cfg, Nobody, actions) && k < |AfterActions(cfg, Nobody, actions).tasks|
    requires var request := AfterActions(cfg, Nobody, actions).tasks[k].request;
             !request.admitted || request.claims.credentialVersion != request.user.credentialVersion
    ensures var phase := AfterActions(cfg, Nobody, actions).tasks[k].phase;
            !phase.Signing? && !phase.Pairing? && !phase.Consuming? && !phase.Delivered?
  {
    hide AfterActions, CanAct, Inv, PairFits, WellFormedRefresh;
    NobodyIsOk(cfg);
    ActionsKeepOk(cfg, Nobody, actions);
    var s := AfterActions(cfg, Nobody, actions);
    assert TaskOk(s.world, s.tasks[k]);
  }

  lemma ActKeepsRevoked(cfg: Config, s: State, a: Action)
    requires MayAct(cfg, s, a)
    ensures s.world.revoked <= Act(cfg, s, a).world.revoked && s.world.consumed <= Act(cfg, s, a).world.consumed
  {
    hide Step, Onward, Possible;
    match a
    case Arrive(_) =>
    case Advance(k, r, outcome) =>
      var e := EventOf(s.tasks[k], r, outcome);
      if e.Some? {
        StepKeepsHistory(cfg, s.world, e.value);
      }
    case Other(e) => StepKeepsHistory(cfg, s.world, e);
  }

  lemma {:induction false} ActionsKeepRevoked(cfg: Config, s: State, actions: seq<Action>)
    requires CanAct(cfg, s, actions)
    ensures s.world.revoked <= AfterActions(cfg, s, actions).world.revoked
    decreases |actions|
  {
    hide Act, MayAct;
    if actions != [] {
      ActKeepsRevoked(cfg, s, actions[0]);
      ActionsKeepRevoked(cfg, Act(cfg, s, actions[0]), actions[1..]);
    }
  }

  /** Once a request has answered a token that was used before, the session is over: whatever
      follows, it is in no file and none of its tokens validates. */
  lemma ReusedTokenEndsSession(cfg: Config, first: seq<Action>, second: seq<Action>, k: nat, access: AccessClaims,
                               refresh: RefreshClaims, now: Time)
    requires CanAct(cfg, Nobody, first) && CanAct(cfg, AfterActions(cfg, Nobody, first), second)
    requires var tasks := AfterActions(cfg, Nobody, first).tasks;
             k < |tasks| && tasks[k].phase.Ended?
             && tasks[k].request.claims.sessionId == access.sessionId == refresh.sessionId
    requires refresh.expiresAt.Some?
    ensures var w := AfterActions(cfg, AfterActions(cfg, Nobody, first), second).world;
            && access.sessionId !in Loaded(w.sys.Disk()).sessions
            && (w.sys.Up? ==>
                  && !CheckAccess(w.sys.manager.registry, Some(access), now).Ok?
                  && CheckRefresh(w.sys.manager.registry, refresh, now) == Err(TokenRevoked))
  {
    hide AfterActions, CanAct, WithinLimits;
    NobodyIsOk(cfg);
    ActionsKeepOk(cfg, Nobody, first);
    var s := AfterActions(cfg, Nobody, first);
    ActionsKeepOk(cfg, s, second);
    ActionsKeepRevoked(cfg, s, second);
    assert TaskOk(s.world, s.tasks[k]);
  }

  /** Where power losses can happen, the session that a request has ended stays away whatever
      follows, if and only if the ending was a confirmed write or the durable file had lost it. */
  lemma EndingLastsExactlyWhen(cfg: Config, run: seq<TokenDurability.Incident>, t: Task, r: Reading, outcome: WriteOutcome)
    requires TokenDurability.CanRun(cfg, TokenDurability.NewStorage, run)
    requires TokenDurability.After(cfg, TokenDurability.NewStorage, run).world.sys.Up?
    requires t.phase.Ending?
    requires Moved(cfg, TokenDurability.After(cfg, TokenDurability.NewStorage, run).world, t, r, outcome).1.phase.Ended?
    ensures var s := TokenDurability.After(cfg, TokenDurability.NewStorage, run);
            var e, id := EventOf(t, r, outcome).value, t.request.claims.sessionId;
            TokenDurability.StaysGone(cfg, TokenDurability.Next(cfg, s, TokenDurability.Happens(e)), id) <==>
              (TokenDurability.Wrote(cfg, s.world, e) && outcome.Written?) || id !in TokenDurability.SessionsOn(s.durable)
  {
    hide TokenDurability.CanRun, TokenDurability.After, TokenDurability.StaysGone, TokenDurability.Next, TokenDurability.Wrote,
         TokenDurability.SessionsOn, Revoke, Step;
    var claims := t.request.claims;
    var sessions := map[claims.sessionId := if claims.expiresAt.Some? then claims.expiresAt.value else 0];
    TokenDurability.ReportedRevocationLastsExactlyWhen(cfg, run, sessions, r, outcome, claims.sessionId);
  }

  /** The session of the token is not there for it any more. */
  predicate SessionOver(w: World, claims: RefreshClaims) {
    w.sys.Up? ==>
      || claims.sessionId !in w.sys.manager.registry
      || var record := w.sys.manager.registry[claims.sessionId];
         record.userId != claims.subject || Some(record.expiresAt) != claims.expiresAt
         || record.expiresAt <= w.sys.manager.highWater
  }

  ghost predicate WasConsumed(w: World, claims: RefreshClaims) {
    Consumed(w.consumed, claims.sessionId, claims.generation)
  }

  /** What else than noticing the reuse can end a request whose token was consumed before. */
  predicate Obstructed(cfg: Config, w: World, request: Request, outcome: WriteOutcome) {
    || outcome.WriteFailed? || !cfg.LeaseUsable() || !Admitted(request)
    || SessionOver(w, request.claims)
    || (w.sys.Up? && !ProperRefresh(request.claims, w.sys.manager.highWater))
  }

  predicate Stale(m: Manager, claims: RefreshClaims) {
    claims.sessionId in m.registry ==> claims.generation < m.registry[claims.sessionId].nextGeneration
  }

  lemma ConsumedIsStale(cfg: Config, w: World, claims: RefreshClaims)
    requires Inv(cfg, w) && w.sys.Up? && WasConsumed(w, claims)
    ensures Stale(w.sys.manager, claims)
  {
  }

  lemma PrepareFailsOnlyWhenObstructed(cfg: Config, m: Manager, r: Reading, outcome: WriteOutcome)
    requires ManagerOk(cfg, m)
    ensures Prepare(cfg, m, r, outcome).1.Err? ==> outcome.WriteFailed? || !cfg.LeaseUsable()
    ensures Prepare(cfg, m, r, outcome).1.Ok? ==> Prepare(cfg, m, r, outcome).1.value == Prepare(cfg, m, r, outcome).0.highWater
  {
    hide Live, WithinLimits, Loadable, Tick, Commit;
    PrepareCoversItsTime(cfg, m, r, outcome);
    TickKeepsOk(cfg, m, r);
    var m1 := Tick(m, r);
    LiveKeepsOk(cfg, m1, m1.highWater, {});
    OkCommits(cfg, m1, Live(m1.registry, m1.highWater), m1.highWater, outcome);
  }

  lemma StaleAtPrepare(cfg: Config, w: World, t: Task, r: Reading, outcome: WriteOutcome)
    requires Inv(cfg, w) && w.sys.Up? && (t.phase.Validating? || t.phase.Signing?) && TaskOk(w, t)
    ensures var (w', t') := Moved(cfg, w, t, r, outcome);
            t'.phase.Finished() ==> Obstructed(cfg, w', t.request, outcome)
  {
    hide Prepare, ProperRefresh, Live, WithinLimits, Loadable;
    PrepareFailsOnlyWhenObstructed(cfg, w.sys.manager, r, outcome);
  }

  lemma StaleAtLook(cfg: Config, w: World, t: Task, r: Reading, outcome: WriteOutcome)
    requires w.sys.Up? && (t.phase.Checking? || t.phase.Pairing?) && TaskOk(w, t) && Stale(w.sys.manager, t.request.claims)
    ensures var (w', t') := Moved(cfg, w, t, r, outcome);
            t'.phase.Finished() ==> Obstructed(cfg, w', t.request, outcome)
  {
    hide ValidUser, ValidSessionId, HasRefreshId, ProperRefresh, Truncate;
  }

  lemma StaleAtConsume(cfg: Config, w: World, t: Task, r: Reading, outcome: WriteOutcome)
    requires w.sys.Up? && t.phase.Consuming? && TaskOk(w, t) && Stale(w.sys.manager, t.request.claims)
    ensures var (w', t') := Moved(cfg, w, t, r, outcome);
            t'.phase.Finished() ==> Obstructed(cfg, w', t.request, outcome) && !t'.phase.Delivered?
  {
    hide ValidSessionId, HasRefreshId, ProperRefresh, Commit;
    TickKeepsRest(w.sys.manager, r);
    hide Tick;
  }

  lemma StaleAtEnding(cfg: Config, w: World, t: Task, r: Reading, outcome: WriteOutcome)
    requires Inv(cfg, w) && w.sys.Up? && t.phase.Ending? && TaskOk(w, t)
    ensures var (w', t') := Moved(cfg, w, t, r, outcome);
            t'.phase.Ended? || Obstructed(cfg, w', t.request, outcome)
  {
    hide HasRefreshId, ProperRefresh, WithinLimits, Drop, Loadable, Tick;
    var m := w.sys.manager;
    var claims := t.request.claims;
    TickKeepsRest(m, r);
    TickKeepsOk(cfg, m, r);
    DropFailsOnlyWhenWriteFails(cfg, Tick(m, r), {claims.sessionId}, outcome);
    assert map[claims.sessionId := claims.expiresAt.value].Keys == {claims.sessionId};
  }

  lemma DropFailsOnlyWhenWriteFails(cfg: Config, m: Manager, ids: set<string>, outcome: WriteOutcome)
    requires ManagerOk(cfg, m)
    ensures Drop(cfg, m, ids, outcome).1.Err? ==> outcome.WriteFailed?
  {
    hide Live, Commit, WithinLimits, Loadable;
    LiveKeepsOk(cfg, m, m.highWater, ids);
    OkCommits(cfg, m, Live(m.registry, m.highWater) - ids, m.highWater, outcome);
  }

  /** A request whose token was consumed before is never answered with a pair. It finishes by
      ending the session, unless the session is already over, the account is refused, the token
      is not proper, or the session file cannot be written. */
  lemma ConsumedTokenEndsSession(cfg: Config, actions: seq<Action>, k: nat, r: Reading, outcome: WriteOutcome)
    requires CanAct(cfg, Nobody, actions) && MayAct(cfg, AfterActions(cfg, Nobody, actions), Advance(k, r, outcome))
    requires var s := AfterActions(cfg, Nobody, actions); WasConsumed(s.world, s.tasks[k].request.claims)
    ensures var s := AfterActions(cfg, Nobody, actions);
            var s' := Act(cfg, s, Advance(k, r, outcome));
            var phase := s'.tasks[k].phase;
            && !phase.Delivered?
            && (phase.Finished() ==> phase.Ended? || Obstructed(cfg, s'.world, s.tasks[k].request, outcome))
  {
    hide AfterActions, CanAct, Inv, Onward, Step, TaskOk, EventOf, Obstructed, Stale, WasConsumed;
    NobodyIsOk(cfg);
    ActionsKeepOk(cfg, Nobody, actions);
    var s := AfterActions(cfg, Nobody, actions);
    var t := s.tasks[k];
    assert TaskOk(s.world, t);
    ConsumedIsStale(cfg, s.world, t.request.claims);
    match t.phase
    case Validating(_) =>
      StaleAtPrepare(cfg, s.world, t, r, outcome);
      MovedByPrepare(cfg, s.world, t, r, outcome);
    case Signing =>
      StaleAtPrepare(cfg, s.world, t, r, outcome);
      MovedByPrepare(cfg, s.world, t, r, outcome);
    case Checking(_, _) =>
      StaleAtLook(cfg, s.world, t, r, outcome);
      MovedByLook(cfg, s.world, t, r, outcome);
    case Pairing(_) =>
      StaleAtLook(cfg, s.world, t, r, outcome);
      MovedByLook(cfg, s.world, t, r, outcome);
    case Consuming(_) =>
      StaleAtConsume(cfg, s.world, t, r, outcome);
    case Ending =>
      StaleAtEnding(cfg, s.world, t, r, outcome);
      MovedByEnding(cfg, s.world, t, r, outcome);
    case _ =>
  }

  // ----- What else a request is told -----

  /** A request that could not get a pair looks a second time, only to notice a reused token: it
      never signs again, and any other answer is that the token is invalid. */
  lemma SecondLookOnlyEnds(cfg: Config, m: Manager, t: Task, r: Reading, outcome: WriteOutcome, consumed: nat)
    requires (t.phase.Validating? || t.phase.Checking?) && t.phase.again
    ensures var next := Onward(cfg, m, t, r, outcome, consumed);
            || (t.phase.Validating? && next.Checking? && next.again)
            || (t.phase.Checking? && next == Ending
                && CheckRefresh(m.registry, t.request.claims, t.phase.time) == Err(TokenReused))
            || next == Refused(InvalidToken)
  {
    hide Prepare, CheckRefresh, Overdue, ProperRefresh;
  }

  /** The first look: the preparation's own error, an expired or invalid token, a reused one, the
      verdict on the session, and then the verdict on the account. */
  lemma FirstLookAnswers(cfg: Config, m: Manager, t: Task, r: Reading, outcome: WriteOutcome, consumed: nat)
    requires (t.phase.Validating? || t.phase.Checking?) && !t.phase.again && t.request.claims.expiresAt.Some?
    ensures var next := Onward(cfg, m, t, r, outcome, consumed);
            var claims := t.request.claims;
            if t.phase.Validating? then
              var prepared := Prepare(cfg, m, r, outcome).1;
              && (prepared.Err? ==> next == Refused(prepared.error))
              && (prepared.Ok? && prepared.value >= claims.expiresAt.value + 1_000_000_000 ==> next == Refused(TokenExpired))
              && (next.Checking? ==> prepared.Ok? && next == Checking(prepared.value, false))
            else
              var checked := CheckRefresh(m.registry, claims, t.phase.time);
              && (next.Ending? <==> checked == Err(TokenReused))
              && (checked.Err? && checked.error != TokenReused ==> next == Refused(checked.error))
              && (checked.Ok? && !Admitted(t.request) ==> next == Refused(TokenRevoked))
              && (checked.Ok? && Admitted(t.request) ==> next == Signing)
  {
    hide Prepare, CheckRefresh, ProperRefresh;
  }

  /** Signing and using up: without an identifier there is no pair, a pair refused as invalid asks
      for the second look, and only a reused token ends the session. */
  lemma PairAnswers(cfg: Config, m: Manager, t: Task, r: Reading, outcome: WriteOutcome, consumed: nat)
    requires (t.phase.Pairing? && t.request.claims.expiresAt.Some?) || t.phase.Consuming?
    ensures var next := Onward(cfg, m, t, r, outcome, consumed);
            var claims := t.request.claims;
            if t.phase.Pairing? then
              var tokenId := if t.request.tokenId.Some? then t.request.tokenId.value else "";
              var paired := PairForSession(m.registry, t.request.user, claims, tokenId, t.phase.time, t.request.accessDuration);
              && (next.Consuming? <==> paired.Ok? && t.request.tokenId.Some?)
              && (next.Consuming? ==> next.pair == paired.value)
              && (paired.Ok? && t.request.tokenId.None? ==> next == Refused(RandomSource))
              && (next == Validating(true) <==> paired == Err(InvalidToken))
              && (paired.Err? && paired.error != InvalidToken ==> next == Refused(paired.error))
            else
              var rotated := Consume(cfg, m, claims, r, outcome).1;
              && (next.Delivered? <==> rotated.Ok?)
              && (next.Ending? <==> rotated == Err(TokenReused))
              && (rotated.Err? && rotated.error != TokenReused ==> next == Refused(rotated.error))
  {
    hide PairForSession, Consume;
  }

  /** A request that arrives starts with its validation; nothing else changes. */
  lemma RequestsArrive(cfg: Config, s: State, request: Request)
    requires s.world.sys.Up?
    ensures Act(cfg, s, Arrive(request)) == State(s.world, s.tasks + [Task(request, Validating(false))])
  {
  }

  // ----- Ended means used before -----

  /** Every generation before a session's next one was consumed. */
  ghost predicate AllConsumed(consumed: seq<Consumption>, registry: Registry) {
    forall id, g: nat :: id in registry && g < registry[id].nextGeneration ==> Consumed(consumed, id, g)
  }

  ghost predicate Consumed(consumed: seq<Consumption>, id: string, g: nat) {
    exists n :: 0 <= n < |consumed| && consumed[n].sessionId == id && consumed[n].generation == g
  }

  lemma ConsumedGrows(before: seq<Consumption>, after: seq<Consumption>, id: string, g: nat)
    requires before <= after && Consumed(before, id, g)
    ensures Consumed(after, id, g)
  {
  }

  lemma FewerAllConsumed(before: seq<Consumption>, after: seq<Consumption>, registry: Registry, registry': Registry)
    requires AllConsumed(before, registry) && before <= after
    requires KeepsOrAddsUnused(registry, registry')
    ensures AllConsumed(after, registry')
  {
    forall id, g: nat | id in registry' && g < registry'[id].nextGeneration
      ensures Consumed(after, id, g)
    {
      ConsumedGrows(before, after, id, g);
    }
  }

  lemma RotationAllConsumed(before: seq<Consumption>, registry: Registry, id: string, record: Record, last: Consumption)
    requires AllConsumed(before, registry) && id in registry
    requires record.nextGeneration == registry[id].nextGeneration + 1
    requires last.sessionId == id && last.generation == registry[id].nextGeneration
    ensures AllConsumed(before + [last], registry[id := record])
  {
    var after := before + [last];
    forall other, g: nat | other in registry[id := record] && g < registry[id := record][other].nextGeneration
      ensures Consumed(after, other, g)
    {
      if other == id && g == registry[id].nextGeneration {
        assert after[|before|] == last;
      } else {
        ConsumedGrows(before, after, other, g);
      }
    }
  }

  ghost predicate WorldConsumed(w: World) {
    AllConsumed(w.consumed, Loaded(w.sys.Disk()).sessions)
  }

  lemma LogInAddsUnused(cfg: Config, m: Manager, login: Login, r: Reading, outcome: WriteOutcome)
    requires ManagerOk(cfg, m)
    ensures var m' := Generate(cfg, m, login, r, outcome).0;
            KeepsOrAddsUnused(m.registry, m'.registry)
  {
    hide Generate, FirstFresh, Live, Truncate;
    if Generate(cfg, m, login, r, outcome).1.Ok? {
      AcceptedLogin(cfg, m, login, r, outcome);
      LiveIsUnexpired(m.registry, Truncate(Generate(cfg, m, login, r, outcome).0.highWater), "");
    } else {
      FailedLoginChangesNothing(cfg, m, login, r, outcome);
    }
  }

  /** What a step other than a rotation leaves are sessions as they were, or unused ones. */
  ghost predicate KeepsOrAddsUnused(registry: Registry, registry': Registry) {
    forall id :: id in registry' ==>
      (id in registry && registry'[id].nextGeneration == registry[id].nextGeneration) || registry'[id].nextGeneration == 0
  }

  lemma ServeKeepsOrAddsUnused(cfg: Config, w: World, e: Event)
    requires Inv(cfg, w) && Possible(cfg, w, e) && w.sys.Up? && !e.Start? && !e.Stop? && !e.Rotate?
    ensures Step(cfg, w, e).sys.Up? && KeepsOrAddsUnused(w.sys.manager.registry, Step(cfg, w, e).sys.manager.registry)
  {
    hide Prepare, Generate, Drop, Live, WithinLimits, Loadable, HistoryFits, Drawn, ValidRevocation;
    var m := w.sys.manager;
    match e
    case PrepareTime(r, outcome) => PrepareCoversItsTime(cfg, m, r, outcome);
    case LogIn(login, r, outcome) => LogInAddsUnused(cfg, m, login, r, outcome);
    case RevokeAll(sessions, r, outcome) => DropShrinks(cfg, Tick(m, r), sessions.Keys, outcome);
    case RevokeByUser(userId, r, outcome) => DropShrinks(cfg, Tick(m, r), SessionsOf(m.registry, userId), outcome);
    case CleanUp(r, outcome) => DropShrinks(cfg, Tick(m, r), {}, outcome);
  }

  lemma RotateKeepsConsumed(cfg: Config, w: World, e: Event)
    requires Inv(cfg, w) && w.sys.Up? && e.Rotate? && AllConsumed(w.consumed, w.sys.manager.registry)
    ensures var w' := Step(cfg, w, e); w'.sys.Up? && AllConsumed(w'.consumed, w'.sys.manager.registry)
  {
    hide Consume, WithinLimits, Loadable, HistoryFits, AllConsumed, Rotated;
    var m, claims := w.sys.manager, e.claims;
    ConsumeRotatesOne(cfg, m, claims, e.r, e.outcome);
    var (m', result) := Consume(cfg, m, claims, e.r, e.outcome);
    if result.Ok? {
      RotatedSays(m.registry[claims.sessionId], claims, m'.highWater);
      RotationAllConsumed(w.consumed, m.registry, claims.sessionId, m'.registry[claims.sessionId],
                          Consumption(claims.sessionId, claims.generation, m'.highWater));
    }
  }

  lemma StartKeepsOrAddsUnused(cfg: Config, w: World, e: Event)
    requires Inv(cfg, w) && e.Start?
    ensures KeepsOrAddsUnused(Loaded(w.sys.Disk()).sessions, Loaded(Step(cfg, w, e).sys.Disk()).sessions)
  {
    hide Enable, WithinLimits, HistoryFits, ValidRecord;
    EnableResumes(cfg, w.sys.Disk(), e.first, e.second, e.outcome);
    var (m, result) := Enable(cfg, Fresh(w.sys.Disk()), e.first, e.second, e.outcome);
    if result.Ok? {
      LiveIsUnexpired(Loaded(w.sys.Disk()).sessions, m.highWater, "");
      assert Loaded(m.disk).sessions == m.registry;
    }
  }

  lemma SessionsOnFile(cfg: Config, w: World)
    requires Inv(cfg, w) && w.sys.Up?
    ensures Loaded(w.sys.Disk()).sessions == w.sys.manager.registry
  {
    hide HistoryFits, WithinLimits, Loadable;
  }

  lemma StepKeepsConsumed(cfg: Config, w: World, e: Event)
    requires Inv(cfg, w) && Possible(cfg, w, e) && WorldConsumed(w)
    ensures WorldConsumed(Step(cfg, w, e))
  {
    hide Serve, Inv, AllConsumed, Possible, Enable;
    var w' := Step(cfg, w, e);
    StepKeepsHistory(cfg, w, e);
    StepKeepsInv(cfg, w, e);
    if e.Start? {
      StartKeepsOrAddsUnused(cfg, w, e);
      FewerAllConsumed(w.consumed, w'.consumed, Loaded(w.sys.Disk()).sessions, Loaded(w'.sys.Disk()).sessions);
    } else if w.sys.Up? && !e.Stop? {
      SessionsOnFile(cfg, w);
      if e.Rotate? {
        RotateKeepsConsumed(cfg, w, e);
      } else {
        ServeKeepsOrAddsUnused(cfg, w, e);
        FewerAllConsumed(w.consumed, w'.consumed, w.sys.manager.registry, w'.sys.manager.registry);
      }
      SessionsOnFile(cfg, w');
    }
  }

  // ----- A request on its own -----

  /** The sections of one request with nothing in between, one clock reading each; all writes succeed. */
  function Alone(cfg: Config, w: World, t: Task, readings: seq<Reading>): (World, Task)
    requires w.sys.Up?
    decreases |readings|
  {
    if readings == [] then (w, t)
    else
      var (w', t') := Moved(cfg, w, t, readings[0], Written);
      if w'.sys.Up? then Alone(cfg, w', t', readings[1..]) else (w', t')
  }

  /** What a request on its own needs, in the registry it meets, to be exchanged for a pair. */
  predicate Exchangeable(cfg: Config, registry: Registry, request: Request, validated: Time, rotated: Time) {
    var claims := request.claims;
    var id := claims.sessionId;
    && request.admitted && claims.credentialVersion == request.user.credentialVersion
    && claims.issuer == "mnemonas"
    && (claims.issuedAt.Some? ==> claims.issuedAt.value <= validated + 1_000_000_000)
    && (claims.notBefore.Some? ==> claims.notBefore.value <= validated + 1_000_000_000)
    && claims.subject != "" && ValidSessionId(id) && HasRefreshId(claims.id)
    && ForSession(registry, claims) && rotated < claims.expiresAt.value
    && claims.generation == registry[id].nextGeneration && claims.generation != 0xffff_ffff_ffff_ffff
    && (cfg.rotation > 0 ==> registry[id].lastRotated + cfg.rotation <= rotated)
  }

  /** The registry after preparing a time: nothing has changed but sessions that were over. */
  ghost predicate Tidied(before: Registry, after: Registry, now: Time) {
    && (forall id :: id in after ==> id in before && after[id] == before[id])
    && (forall id :: id in before && now < before[id].expiresAt ==> id in after)
  }

  lemma PreparedTidies(cfg: Config, m: Manager, r: Reading)
    requires ManagerOk(cfg, m) && cfg.LeaseUsable()
    ensures var (m', result) := Prepare(cfg, m, r, Written);
            && result == Ok(Tick(m, r).highWater, false) && m'.highWater == Tick(m, r).highWater >= m.highWater
            && ManagerOk(cfg, m') && Tidied(m.registry, m'.registry, m'.highWater)
  {
    hide Prepare, WithinLimits, Loadable, Tick;
    PrepareCoversItsTime(cfg, m, r, Written);
    PreparedExactlyWhen(cfg, m, r, Written);
  }

  lemma MovedStaysUp(cfg: Config, w: World, t: Task, r: Reading, outcome: WriteOutcome)
    requires w.sys.Up?
    ensures Moved(cfg, w, t, r, outcome).0.sys.Up?
    ensures Moved(cfg, w, t, r, outcome).1.request == t.request
  {
    hide Prepare, Consume, Revoke, Onward;
  }

  /** A request that ends its session, or was answered without a pair, gets none any more. */
  lemma {:induction false} NoPairAhead(cfg: Config, w: World, t: Task, readings: seq<Reading>)
    requires w.sys.Up? && (t.phase.Ending? || (t.phase.Finished() && !t.phase.Delivered?))
    ensures !Alone(cfg, w, t, readings).1.phase.Delivered?
    decreases |readings|
  {
    hide Revoke, Step;
    if readings != [] {
      MovedStaysUp(cfg, w, t, readings[0], Written);
      var (w', t') := Moved(cfg, w, t, readings[0], Written);
      NoPairAhead(cfg, w', t', readings[1..]);
    }
  }

  /** What the second, the fourth and the fifth section of a request ask for. */
  predicate PassesChecks(registry: Registry, request: Request, now: Time) {
    && Admitted(request) && ForSession(registry, request.claims) && now < request.claims.expiresAt.value
    && request.claims.generation == registry[request.claims.sessionId].nextGeneration
  }

  predicate MayPair(registry: Registry, claims: RefreshClaims, now: Time) {
    && ValidSessionId(claims.sessionId) && ForSession(registry, claims)
    && claims.expiresAt.value != 0 && now < claims.expiresAt.value
    && claims.generation == registry[claims.sessionId].nextGeneration && claims.generation != 0xffff_ffff_ffff_ffff
  }

  predicate MayRotate(cfg: Config, registry: Registry, claims: RefreshClaims, now: Time) {
    && claims.subject != "" && ValidSessionId(claims.sessionId) && HasRefreshId(claims.id)
    && ForSession(registry, claims) && now < claims.expiresAt.value
    && claims.generation == registry[claims.sessionId].nextGeneration && claims.generation != 0xffff_ffff_ffff_ffff
    && (cfg.rotation > 0 ==> registry[claims.sessionId].lastRotated + cfg.rotation <= now)
  }

  lemma ExchangeableBySection(cfg: Config, first: Registry, second: Registry, third: Registry, request: Request,
                              validated: Time, signed: Time, rotated: Time)
    requires 0 < validated <= signed <= rotated
    requires Tidied(first, second, validated) && Tidied(second, third, signed)
    ensures Exchangeable(cfg, first, request, validated, rotated) <==>
              && !Overdue(request.claims, validated) && ProperRefresh(request.claims, validated)
              && PassesChecks(second, request, validated) && MayPair(third, request.claims, signed)
              && MayRotate(cfg, third, request.claims, rotated)
  {
    hide ValidSessionId, HasRefreshId;
  }

  /** First section: the time is prepared and the claims are looked at. */
  lemma AloneValidates(cfg: Config, w: World, t: Task, r: Reading)
    requires Inv(cfg, w) && w.sys.Up? && cfg.LeaseUsable() && t.phase == Validating(false)
    ensures var (w', t') := Moved(cfg, w, t, r, Written);
            var (m, m') := (w.sys.manager, Prepare(cfg, w.sys.manager, r, Written).0);
            && w'.sys == Up(m') && ManagerOk(cfg, m') && Tidied(m.registry, m'.registry, m'.highWater)
            && t'.phase == if Overdue(t.request.claims, m'.highWater) then Refused(TokenExpired)
                           else if !ProperRefresh(t.request.claims, m'.highWater) then Refused(InvalidToken)
                           else Checking(m'.highWater, false)
  {
    hide Prepare, Overdue, ProperRefresh, Tidied, Tick, Loadable, WithinLimits;
    PreparedTidies(cfg, w.sys.manager, r);
  }

  /** Third section: the time for the new pair. */
  lemma AlonePrepares(cfg: Config, w: World, t: Task, r: Reading)
    requires w.sys.Up? && ManagerOk(cfg, w.sys.manager) && cfg.LeaseUsable() && t.phase.Signing?
    ensures var (w', t') := Moved(cfg, w, t, r, Written);
            var (m, m') := (w.sys.manager, Prepare(cfg, w.sys.manager, r, Written).0);
            && w'.sys == Up(m') && ManagerOk(cfg, m') && Tidied(m.registry, m'.registry, m'.highWater)
            && m.highWater <= m'.highWater && t'.phase == Pairing(m'.highWater)
  {
    hide Prepare, Tidied, Tick, Loadable, WithinLimits;
    PreparedTidies(cfg, w.sys.manager, r);
  }

  /** Second section: the session and the account. */
  lemma AloneChecks(cfg: Config, w: World, t: Task, r: Reading)
    requires w.sys.Up? && t.phase.Checking? && !t.phase.again
    ensures var (w', t') := Moved(cfg, w, t, r, Written);
            var claims, registry := t.request.claims, w.sys.manager.registry;
            && w' == w
            && (t'.phase.Signing? <==> PassesChecks(registry, t.request, t.phase.time))
            && (t'.phase.Signing? || t'.phase.Ending? || (t'.phase.Finished() && !t'.phase.Delivered?))
  {
    hide CheckRefresh;
    if t.request.claims.expiresAt.Some? {
      RefreshAcceptedExactlyWhen(w.sys.manager.registry, t.request.claims, t.phase.time);
    }
  }

  /** Fourth section: the new pair is signed. */
  lemma AlonePairs(cfg: Config, w: World, t: Task, r: Reading)
    requires w.sys.Up? && t.phase.Pairing? && t.request.tokenId.Some? && ValidUser(t.request.user)
    requires t.request.user.id == t.request.claims.subject
    requires t.request.claims.expiresAt.Some? && t.request.claims.expiresAt.value % SECOND == 0
    ensures var (w', t') := Moved(cfg, w, t, r, Written);
            var claims, registry := t.request.claims, w.sys.manager.registry;
            && w' == w
            && (t'.phase.Consuming? <==> MayPair(registry, claims, t.phase.time))
            && (t'.phase.Consuming? || t'.phase == Validating(true) || (t'.phase.Finished() && !t'.phase.Delivered?))
  {
    hide PairForSession, ValidSessionId, PairSays, Truncate;
    WholeSeconds(t.request.claims.expiresAt.value);
    PairedExactlyWhen(w.sys.manager.registry, t.request.user, t.request.claims, t.request.tokenId.value, t.phase.time,
                      t.request.accessDuration);
  }

  /** Fifth section: the old token is used up. */
  lemma AloneConsumes(cfg: Config, w: World, t: Task, r: Reading)
    requires w.sys.Up? && ManagerOk(cfg, w.sys.manager) && (t.phase.Consuming? || t.phase == Validating(true))
    ensures var (w', t') := Moved(cfg, w, t, r, Written);
            var claims, registry, now := t.request.claims, w.sys.manager.registry, Tick(w.sys.manager, r).highWater;
            && w'.sys.Up?
            && (t'.phase.Delivered? <==> t.phase.Consuming? && MayRotate(cfg, registry, claims, now))
  {
    hide Consume, Prepare, ValidSessionId, HasRefreshId, ForSession, Tick, Loadable, WithinLimits;
    MovedStaysUp(cfg, w, t, r, Written);
    ConsumeAcceptedExactlyWhen(cfg, w.sys.manager, t.request.claims, r, Written);
  }

  lemma AloneSigned(cfg: Config, w: World, t: Task, readings: seq<Reading>)
    requires w.sys.Up? && ManagerOk(cfg, w.sys.manager) && cfg.LeaseUsable() && t.phase.Signing? && |readings| == 3
    requires t.request.tokenId.Some? && ValidUser(t.request.user) && t.request.user.id == t.request.claims.subject
    requires t.request.claims.expiresAt.Some? && t.request.claims.expiresAt.value % SECOND == 0
    ensures var m' := Prepare(cfg, w.sys.manager, readings[0], Written).0;
            Alone(cfg, w, t, readings).1.phase.Delivered? <==>
              && MayPair(m'.registry, t.request.claims, m'.highWater)
              && MayRotate(cfg, m'.registry, t.request.claims, Tick(m', readings[2]).highWater)
  {
    hide Moved, Prepare, Tidied, Tick, WithinLimits, Loadable, MayPair, MayRotate;
    AlonePrepares(cfg, w, t, readings[0]);
    MovedStaysUp(cfg, w, t, readings[0], Written);
    var (w3, t3) := Moved(cfg, w, t, readings[0], Written);
    AlonePairs(cfg, w3, t3, readings[1]);
    MovedStaysUp(cfg, w3, t3, readings[1], Written);
    var (w4, t4) := Moved(cfg, w3, t3, readings[1], Written);
    if t4.phase.Finished() {
      NoPairAhead(cfg, w4, t4, readings[1..][1..]);
    } else {
      AloneConsumes(cfg, w4, t4, readings[2]);
      assert Alone(cfg, w4, t4, readings[1..][1..]) == Moved(cfg, w4, t4, readings[2], Written);
    }
    assert Alone(cfg, w, t, readings) == Alone(cfg, w3, t3, readings[1..]) == Alone(cfg, w4, t4, readings[1..][1..]);
  }

  /** A request that nothing comes between, whose account can have tokens, is answered with a pair
      after its five sections if and only if the token is in order and current, the account is
      admitted, and the rotation interval is over. */
  lemma AloneDeliversExactlyWhen(cfg: Config, w: World, t: Task, readings: seq<Reading>)
    requires Inv(cfg, w) && w.sys.Up? && cfg.LeaseUsable() && t.phase == Validating(false) && |readings| == 5
    requires t.request.tokenId.Some? && ValidUser(t.request.user) && t.request.user.id == t.request.claims.subject
    requires t.request.claims.expiresAt.Some? ==> t.request.claims.expiresAt.value % SECOND == 0
    ensures var m := Prepare(cfg, w.sys.manager, readings[0], Written).0;
            var m' := Prepare(cfg, m, readings[2], Written).0;
            Alone(cfg, w, t, readings).1.phase.Delivered? <==>
              Exchangeable(cfg, w.sys.manager.registry, t.request, m.highWater, Tick(m', readings[4]).highWater)
  {
    hide Moved, Prepare, Exchangeable, Tidied, Tick, Inv, WithinLimits, Loadable, ProperRefresh, Overdue, MayPair,
         MayRotate;
    var request, claims, m := t.request, t.request.claims, w.sys.manager;
    var m1 := Prepare(cfg, m, readings[0], Written).0;
    var m3 := Prepare(cfg, m1, readings[2], Written).0;
    var rotated := Tick(m3, readings[4]).highWater;
    AloneValidates(cfg, w, t, readings[0]);
    PreparedTidies(cfg, m1, readings[2]);
    TickKeepsOk(cfg, m3, readings[4]);
    ExchangeableBySection(cfg, m.registry, m1.registry, m3.registry, request, m1.highWater, m3.highWater, rotated);
    var (w1, t1) := Moved(cfg, w, t, readings[0], Written);
    MovedStaysUp(cfg, w, t, readings[0], Written);
    if !t1.phase.Checking? {
      NoPairAhead(cfg, w1, t1, readings[1..]);
    } else {
      AloneChecks(cfg, w1, t1, readings[1]);
      MovedStaysUp(cfg, w1, t1, readings[1], Written);
      var (w2, t2) := Moved(cfg, w1, t1, readings[1], Written);
      if !t2.phase.Signing? {
        NoPairAhead(cfg, w2, t2, readings[1..][1..]);
      } else {
        AloneSigned(cfg, w2, t2, readings[1..][1..]);
      }
    }
  }
}
