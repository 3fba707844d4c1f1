/** Whole runs of the token manager: any sequence of operations, write outcomes,
    clock readings, crashes and restarts, with a history of what was handed out. */
module TokenRuns {
  import opened Common
  import opened TokenRegistry

  datatype System = Down(disk: Option<Snapshot>) | Up(manager: Manager)
  {
    function Disk(): Option<Snapshot> {
      if Up? then manager.disk else disk
    }
  }

  /** One locked section of the manager; what happens between two of them is local to a request. */
  datatype Event =
    | Start(first: Reading, second: Reading, outcome: WriteOutcome)
    | Stop
    | PrepareTime(r: Reading, outcome: WriteOutcome)
    | LogIn(login: Login, r: Reading, outcome: WriteOutcome)
    | Rotate(claims: RefreshClaims, r: Reading, outcome: WriteOutcome)
    | RevokeAll(sessions: map<string, Time>, r: Reading, outcome: WriteOutcome)
    | RevokeByUser(userId: string, r: Reading, outcome: WriteOutcome)
    | CleanUp(r: Reading, outcome: WriteOutcome)

  datatype Consumption = Consumption(sessionId: string, generation: nat, at: Time)

  /** `used` holds every session ID drawn or named so far, `consumed` the accepted
      rotations, `revoked` the sessions whose revocation was reported done, and
      `prepared` the validation times handed out, oldest first. */
  datatype World = World(sys: System, used: set<string>, consumed: seq<Consumption>, revoked: set<string>,
                         prepared: seq<Time>)

  const Initial := World(Down(None), {}, [], {}, [])

  function Drawn(candidates: seq<Option<string>>): set<string> {
    set i | 0 <= i < |candidates| && candidates[i].Some? :: candidates[i].value
  }

  /** Random IDs are well formed and never repeat; logins happen after the first
      seconds of the zero year. */
  predicate Possible(cfg: Config, w: World, e: Event) {
    e.LogIn? ==>
      && Drawn(e.login.candidates) !! w.used
      && (forall id :: id in Drawn(e.login.candidates) ==> ValidSessionId(id))
      && e.r.wall > SECOND && e.r.wall > cfg.rotation + SECOND
  }

  function Step(cfg: Config, w: World, e: Event): World {
    match e
    case Start(first, second, outcome) =>
      var (m, result) := Enable(cfg, Fresh(w.sys.Disk()), first, second, outcome);
      w.(sys := if result.Ok? then Up(m) else Down(m.disk))
    case Stop =>
      w.(sys := Down(w.sys.Disk()))
    case _ =>
      if w.sys.Down? then w else Serve(cfg, w, w.sys.manager, e)
  }

  function Serve(cfg: Config, w: World, m: Manager, e: Event): World
    requires !e.Start? && !e.Stop?
  {
    match e
    case PrepareTime(r, outcome) =>
      var (m', result) := Prepare(cfg, m, r, outcome);
      w.(sys := Up(m'), prepared := if result.Ok? then w.prepared + [result.value] else w.prepared)
    case LogIn(login, r, outcome) =>
      w.(sys := Up(Generate(cfg, m, login, r, outcome).0), used := w.used + Drawn(login.candidates))
    case Rotate(claims, r, outcome) =>
      var (m', result) := Consume(cfg, m, claims, r, outcome);
      w.(sys := Up(m'),
         consumed := if result.Ok? then w.consumed + [Consumption(claims.sessionId, claims.generation, m'.highWater)]
                     else w.consumed)
    case RevokeAll(sessions, r, outcome) =>
      var (m', result) := Revoke(cfg, m, sessions, r, outcome);
      w.(sys := Up(m'), used := w.used + sessions.Keys,
         revoked := if result.Ok? then w.revoked + sessions.Keys else w.revoked)
    case RevokeByUser(userId, r, outcome) =>
      var (m', result) := RevokeUser(cfg, m, userId, r, outcome);
      w.(sys := Up(m'),
         revoked := if result.Ok? then w.revoked + SessionsOf(m.registry, userId) else w.revoked)
    case CleanUp(r, outcome) =>
      w.(sys := Up(Cleanup(cfg, m, r, outcome).0))
  }

  function Run(cfg: Config, w: World, events: seq<Event>): World
    decreases |events|
  {
    if events == [] then w else Run(cfg, Step(cfg, w, events[0]), events[1..])
  }

  predicate PossibleRun(cfg: Config, w: World, events: seq<Event>)
    decreases |events|
  {
    events != [] ==> Possible(cfg, w, events[0]) && PossibleRun(cfg, Step(cfg, w, events[0]), events[1..])
  }

  // ----- The invariant -----

  /** Memory and file agree: the same sessions, the same time floor. */
  predicate Mirrored(m: Manager) {
    && m.persistent
    && m.disk == Some(Snapshot(m.floor, m.registry))
  }

  predicate ManagerOk(cfg: Config, m: Manager) {
    && Mirrored(m)
    && Loadable(m.disk.value)
    && WithinLimits(cfg, m.registry)
    && m.highWater > 0
  }

  predicate Precedes(cfg: Config, a: Consumption, b: Consumption) {
    a.sessionId == b.sessionId ==> a.generation < b.generation && (cfg.rotation > 0 ==> a.at + cfg.rotation <= b.at)
  }

  /** What the history says about the sessions and the floor now in force. */
  ghost predicate HistoryFits(cfg: Config, w: World, registry: Registry, floor: Time) {
    && registry.Keys <= w.used
    && w.revoked <= w.used && w.revoked !! registry.Keys
    && (forall i :: 0 <= i < |w.consumed| ==> w.consumed[i].sessionId in w.used)
    && (forall i :: 0 <= i < |w.consumed| && w.consumed[i].sessionId in registry ==>
          var record := registry[w.consumed[i].sessionId];
          && w.consumed[i].generation < record.nextGeneration
          && (cfg.rotation > 0 ==> w.consumed[i].at <= record.lastRotated))
    && (forall i, j :: 0 <= i < j < |w.consumed| ==> Precedes(cfg, w.consumed[i], w.consumed[j]))
    && (forall i :: 0 <= i < |w.prepared| ==> w.prepared[i] < floor)
    && (forall i, j :: 0 <= i < j < |w.prepared| ==> w.prepared[i] <= w.prepared[j])
  }

  ghost predicate Inv(cfg: Config, w: World) {
    var state := Loaded(w.sys.Disk());
    && HistoryFits(cfg, w, state.sessions, state.floor)
    && (w.sys.Down? && w.sys.disk.Some? ==> Loadable(w.sys.disk.value))
    && (w.sys.Up? ==> ManagerOk(cfg, w.sys.manager))
    && (w.sys.Up? ==> forall i :: 0 <= i < |w.prepared| ==> w.prepared[i] <= w.sys.manager.highWater)
  }

  // ----- Single operations -----

  /** A failed write leaves memory, floor and file as they were; any other write
      puts all three in step again, and the floor never moves down. */
  lemma CommitIsAtomic(cfg: Config, m: Manager, registry: Registry, now: Time, outcome: WriteOutcome)
    requires Mirrored(m)
    ensures var (m', written) := Commit(cfg, m, registry, now, outcome);
            && Mirrored(m') && m'.floor >= m.floor && m'.highWater == m.highWater
            && (written.WriteFailed? ==> m' == m)
            && (!written.WriteFailed? ==> m'.registry == registry && |registry| <= MAX_TRACKED_SESSIONS && m'.floor != 0)
            && (!written.WriteFailed? && cfg.lease > 0 ==> m'.floor >= now + cfg.lease)
  {
  }

  predicate RecordsOk(registry: Registry) {
    forall id :: id in registry ==> ValidRecord(id, registry[id])
  }

  lemma CommitKeepsOk(cfg: Config, m: Manager, registry: Registry, now: Time, outcome: WriteOutcome)
    requires ManagerOk(cfg, m) && WithinLimits(cfg, registry) && RecordsOk(registry)
    ensures var (m', written) := Commit(cfg, m, registry, now, outcome);
            && ManagerOk(cfg, m') && m'.floor >= m.floor && m'.highWater == m.highWater
            && (written.WriteFailed? ==> m' == m)
            && (!written.WriteFailed? ==> m'.registry == registry)
            && (!written.WriteFailed? && cfg.lease > 0 ==> m'.floor >= now + cfg.lease)
  {
    CommitIsAtomic(cfg, m, registry, now, outcome);
  }

  lemma LiveKeepsRecords(cfg: Config, registry: Registry, now: Time, ids: set<string>)
    ensures |Live(registry, now) - ids| <= |registry|
    ensures WithinLimits(cfg, registry) ==> WithinLimits(cfg, Live(registry, now) - ids)
  {
    var rest := Live(registry, now) - ids;
    assert rest.Keys <= registry.Keys;
    SubsetIsSmaller(rest.Keys, registry.Keys);
    forall id | id in rest
      ensures |SessionsOf(rest, rest[id].userId)| <= |SessionsOf(registry, registry[id].userId)|
    {
      SubsetIsSmaller(SessionsOf(rest, rest[id].userId), SessionsOf(registry, registry[id].userId));
    }
  }

  /** Between two of these operations a manager only gains time and floor, and drops sessions. */
  ghost predicate Shrinks(cfg: Config, m: Manager, m': Manager) {
    && ManagerOk(cfg, m')
    && m'.registry.Keys <= m.registry.Keys
    && (forall id :: id in m'.registry ==> m'.registry[id] == m.registry[id])
    && m'.floor >= m.floor && m'.highWater >= m.highWater
  }

  lemma TickKeepsRest(m: Manager, r: Reading)
    ensures var m1 := Tick(m, r); m1 == m.(highWater := m1.highWater, observedAt := m1.observedAt)
  {
  }

  lemma TickKeepsOk(cfg: Config, m: Manager, r: Reading)
    requires ManagerOk(cfg, m)
    ensures ManagerOk(cfg, Tick(m, r)) && Tick(m, r).highWater >= m.highWater
  {
    hide WithinLimits, Loadable;
  }

  lemma LiveKeepsOk(cfg: Config, m: Manager, now: Time, ids: set<string>)
    requires ManagerOk(cfg, m)
    ensures var rest := Live(m.registry, now) - ids;
            && WithinLimits(cfg, rest) && RecordsOk(rest)
            && rest.Keys <= m.registry.Keys && (forall id :: id in rest ==> rest[id] == m.registry[id])
            && (ids == {} ==> rest == Live(m.registry, now))
  {
    hide WithinLimits, ValidRecord;
    LiveKeepsRecords(cfg, m.registry, now, ids);
  }

  lemma PrepareCoversItsTime(cfg: Config, m: Manager, r: Reading, outcome: WriteOutcome)
    requires ManagerOk(cfg, m)
    ensures var (m', result) := Prepare(cfg, m, r, outcome);
            && Shrinks(cfg, m, m')
            && (result.Ok? ==> result.value == m'.highWater && m.highWater <= result.value < m'.floor)
  {
    hide Tick, Commit, Live, WithinLimits, Loadable, RecordsOk;
    TickKeepsRest(m, r);
    TickKeepsOk(cfg, m, r);
    var m1 := Tick(m, r);
    LiveKeepsOk(cfg, m1, m1.highWater, {});
    CommitKeepsOk(cfg, m1, Live(m1.registry, m1.highWater), m1.highWater, outcome);
  }

  lemma DropShrinks(cfg: Config, m: Manager, ids: set<string>, outcome: WriteOutcome)
    requires ManagerOk(cfg, m)
    ensures var (m', result) := Drop(cfg, m, ids, outcome);
            && Shrinks(cfg, m, m')
            && (result.Ok? ==> m'.registry == Live(m.registry, m.highWater) - ids)
  {
    hide Commit, Live, WithinLimits, Loadable, RecordsOk;
    LiveKeepsOk(cfg, m, m.highWater, ids);
    CommitKeepsOk(cfg, m, Live(m.registry, m.highWater) - ids, m.highWater, outcome);
  }

  lemma {:induction false} FreshIdIsDrawn(candidates: seq<Option<string>>, registry: Registry, attempts: nat)
    ensures var found := FirstFresh(candidates, registry, attempts);
            found.Some? ==> found.value in Drawn(candidates) && found.value !in registry
    decreases attempts
  {
    if attempts > 0 && candidates != [] && candidates[0].Some? {
      if candidates[0].value in registry {
        FreshIdIsDrawn(candidates[1..], registry, attempts - 1);
        assert Drawn(candidates[1..]) <= Drawn(candidates);
      }
    }
  }

  lemma AddSession(cfg: Config, live: Registry, id: string, record: Record)
    requires WithinLimits(cfg, live) && id !in live
    requires |live| < cfg.sessionLimit && |SessionsOf(live, record.userId)| < cfg.userLimit
    ensures WithinLimits(cfg, live[id := record])
  {
    var next := live[id := record];
    assert next.Keys == live.Keys + {id};
    forall other | other in next
      ensures |SessionsOf(next, next[other].userId)| <= cfg.userLimit
    {
      hide SessionsOf;
      var u := next[other].userId;
      SessionsAfterAdd(live, id, record, u);
      if u != record.userId {
        assert other in live;
      }
    }
  }

  lemma SessionsAfterAdd(live: Registry, id: string, record: Record, u: string)
    requires id !in live
    ensures SessionsOf(live[id := record], u) == SessionsOf(live, u) + (if u == record.userId then {id} else {})
    ensures |SessionsOf(live[id := record], u)| == |SessionsOf(live, u)| + (if u == record.userId then 1 else 0)
  {
    assert SessionsOf(live[id := record], u) == SessionsOf(live, u) + (if u == record.userId then {id} else {});
    assert id !in SessionsOf(live, u);
  }

  /** Committing the live sessions plus one new session, as a login does. */
  lemma CommitAddsSession(cfg: Config, m: Manager, id: string, record: Record, now: Time, outcome: WriteOutcome)
    requires ManagerOk(cfg, m) && ValidRecord(id, record) && id !in m.registry
    requires |Live(m.registry, now)| < cfg.sessionLimit
    requires |SessionsOf(Live(m.registry, now), record.userId)| < cfg.userLimit
    ensures var (m', written) := Commit(cfg, m, Live(m.registry, now)[id := record], now, outcome);
            && ManagerOk(cfg, m') && m'.floor >= m.floor && m'.highWater == m.highWater
            && (written.WriteFailed? ==> m' == m)
            && (!written.WriteFailed? ==> id in m'.registry)
            && m'.registry.Keys <= m.registry.Keys + {id}
            && (forall other :: other in m'.registry && other in m.registry ==> m'.registry[other] == m.registry[other])
  {
    hide Commit, Live, WithinLimits, Loadable, SessionsOf, ValidRecord;
    var live := Live(m.registry, now);
    LiveKeepsOk(cfg, m, now, {});
    AddSession(cfg, live, id, record);
    CommitKeepsOk(cfg, m, live[id := record], now, outcome);
  }

  lemma NewRecordIsValid(cfg: Config, user: User, id: string, expiresAt: Time, now: Time)
    requires ValidUser(user) && ValidSessionId(id) && expiresAt > now > 0 && now > cfg.rotation
    ensures ValidRecord(id, NewRecord(cfg, user.id, expiresAt, now))
  {
  }

  /** A login adds at most one session, under an ID drawn for it, within both limits. */
  lemma GenerateAddsOne(cfg: Config, m: Manager, login: Login, r: Reading, outcome: WriteOutcome)
    requires ManagerOk(cfg, m) && r.wall > SECOND && r.wall > cfg.rotation + SECOND
    requires forall id :: id in Drawn(login.candidates) ==> ValidSessionId(id)
    requires Drawn(login.candidates) !! m.registry.Keys
    ensures var (m', result) := Generate(cfg, m, login, r, outcome);
            && ManagerOk(cfg, m')
            && m'.floor >= m.floor && m'.highWater >= m.highWater
            && m'.registry.Keys <= m.registry.Keys + Drawn(login.candidates)
            && (forall id :: id in m'.registry && id in m.registry ==> m'.registry[id] == m.registry[id])
            && (result.Err? ==> m'.registry == m.registry && m'.floor == m.floor)
  {
    hide Commit, FirstFresh, Sign, Live, WithinLimits, NewRecord, SessionsOf, ValidSessionId, Loadable, ValidRecord;
    if ValidUser(login.user) {
      var m1 := Tick(m, r);
      var now := Truncate(m1.highWater);
      var live := Live(m1.registry, now);
      FreshIdIsDrawn(login.candidates, live, MAX_ID_ATTEMPTS);
      var found := FirstFresh(login.candidates, live, MAX_ID_ATTEMPTS);
      var expiresAt := Truncate(now + login.refreshDuration);
      if |live| < cfg.sessionLimit && |SessionsOf(live, login.user.id)| < cfg.userLimit && found.Some? && expiresAt > now {
        var record := NewRecord(cfg, login.user.id, expiresAt, now);
        NewRecordIsValid(cfg, login.user, found.value, expiresAt, now);
        NewRecordUser(cfg, login.user.id, expiresAt, now);
        CommitAddsSession(cfg, m1, found.value, record, now, outcome);
        var (m2, written) := Commit(cfg, m1, live[found.value := record], now, outcome);
        assert Generate(cfg, m, login, r, outcome).0 == m2;
        assert written.WriteFailed? ==> m2 == m1;
      }
    }
  }

  /** A failed login changes neither registry, floor nor file. */
  lemma FailedLoginChangesNothing(cfg: Config, m: Manager, login: Login, r: Reading, outcome: WriteOutcome)
    ensures var (m', result) := Generate(cfg, m, login, r, outcome);
            result.Err? ==> m' == m.(highWater := m'.highWater, observedAt := m'.observedAt)
  {
    hide FirstFresh, Live, WithinLimits, SessionsOf, Truncate, Sign, NewRecord, Persist, ExtendLease;
    TickKeepsRest(m, r);
  }

  lemma AcceptedLogin(cfg: Config, m: Manager, login: Login, r: Reading, outcome: WriteOutcome)
    requires Generate(cfg, m, login, r, outcome).1.Ok?
    ensures var (m', result) := Generate(cfg, m, login, r, outcome);
            var now := Truncate(m'.highWater);
            var live := Live(m.registry, now);
            var found := FirstFresh(login.candidates, live, MAX_ID_ATTEMPTS);
            var expiresAt := Truncate(now + login.refreshDuration);
            && found.Some? && |live| < cfg.sessionLimit
            && m'.registry == live[found.value := NewRecord(cfg, login.user.id, expiresAt, now)]
            && result.value == Sign(login.user, found.value, expiresAt, 0, found.value, now, login.accessDuration)
  {
    hide FirstFresh, Live, WithinLimits, SessionsOf, Truncate, Sign, NewRecord, ValidUser;
    TickKeepsRest(m, r);
  }

  /** A login that succeeds puts exactly one session beside the live ones, under a drawn
      identifier none of them has, and hands out the tokens of that session. */
  lemma LoginAddsExactlyOne(cfg: Config, m: Manager, login: Login, r: Reading, outcome: WriteOutcome)
    requires Generate(cfg, m, login, r, outcome).1.Ok?
    ensures var (m', result) := Generate(cfg, m, login, r, outcome);
            var live, id := Live(m.registry, Truncate(m'.highWater)), result.value.refresh.sessionId;
            && id in Drawn(login.candidates) && id !in live && |live| < cfg.sessionLimit
            && m'.registry.Keys == live.Keys + {id}
            && (forall other :: other in live ==> m'.registry[other] == live[other])
            && m'.registry[id].userId == login.user.id == result.value.access.userId
            && m'.registry[id].nextGeneration == result.value.refresh.generation == 0
            && result.value.access.sessionId == id
            && result.value.refresh.expiresAt == Some(m'.registry[id].expiresAt)
  {
    hide Generate, FirstFresh, Live, Truncate;
    AcceptedLogin(cfg, m, login, r, outcome);
    FreshIdIsDrawn(login.candidates, Live(m.registry, Truncate(Generate(cfg, m, login, r, outcome).0.highWater)),
                   MAX_ID_ATTEMPTS);
  }

  lemma NewRecordUser(cfg: Config, userId: string, expiresAt: Time, now: Time)
    ensures NewRecord(cfg, userId, expiresAt, now).userId == userId
  {
  }

  lemma UpdateKeepsLimits(cfg: Config, registry: Registry, id: string, record: Record)
    requires WithinLimits(cfg, registry) && id in registry && registry[id].userId == record.userId
    ensures WithinLimits(cfg, registry[id := record])
  {
    var next := registry[id := record];
    assert next.Keys == registry.Keys;
    forall other | other in next
      ensures |SessionsOf(next, next[other].userId)| <= cfg.userLimit
    {
      assert SessionsOf(next, next[other].userId) == SessionsOf(registry, registry[other].userId);
    }
  }

  /** A rotation is accepted only for the current generation, after the interval, and
      moves just this session to the next generation at the effective time. */
  lemma ConsumeRotatesOne(cfg: Config, m: Manager, claims: RefreshClaims, r: Reading, outcome: WriteOutcome)
    requires ManagerOk(cfg, m)
    ensures var (m', result) := Consume(cfg, m, claims, r, outcome);
            && ManagerOk(cfg, m')
            && m'.floor >= m.floor && m'.highWater >= m.highWater
            && (result.Err? ==> m'.registry == m.registry && m'.floor == m.floor)
            && (result.Ok? ==>
                  && claims.sessionId in m.registry
                  && claims.generation == m.registry[claims.sessionId].nextGeneration
                  && (cfg.rotation > 0 ==> m.registry[claims.sessionId].lastRotated + cfg.rotation <= m'.highWater)
                  && m'.registry == m.registry[claims.sessionId := Rotated(m.registry[claims.sessionId], claims, m'.highWater)])
  {
    hide ValidSessionId, HasRefreshId, Tick, Commit, WithinLimits, Loadable, RecordsOk, Rotated;
    TickKeepsRest(m, r);
    TickKeepsOk(cfg, m, r);
    var m1 := Tick(m, r);
    var now := m1.highWater;
    if claims.expiresAt.Some? && claims.expiresAt.value > now && CheckRefresh(m1.registry, claims, now).Ok? {
      RotationKeepsOk(cfg, m1, claims);
      var rotated := m1.registry[claims.sessionId := Rotated(m1.registry[claims.sessionId], claims, now)];
      CommitKeepsOk(cfg, m1, rotated, now, outcome);
      assert Reported((), Commit(cfg, m1, rotated, now, outcome).1).Err? ==> Commit(cfg, m1, rotated, now, outcome).0 == m1;
    }
  }

  lemma RotationKeepsOk(cfg: Config, m: Manager, claims: RefreshClaims)
    requires ManagerOk(cfg, m) && claims.expiresAt.Some? && CheckRefresh(m.registry, claims, m.highWater).Ok?
    ensures var rotated := m.registry[claims.sessionId := Rotated(m.registry[claims.sessionId], claims, m.highWater)];
            WithinLimits(cfg, rotated) && RecordsOk(rotated)
  {
    hide WithinLimits;
    var id := claims.sessionId;
    UpdateKeepsLimits(cfg, m.registry, id, Rotated(m.registry[id], claims, m.highWater));
    assert ValidRecord(id, Rotated(m.registry[id], claims, m.highWater));
  }

  /** A restart resumes exactly the unexpired sessions of the file, and at a time not
      before the file's floor, whatever the wall clock says. */
  lemma EnableResumes(cfg: Config, disk: Option<Snapshot>, first: Reading, second: Reading, outcome: WriteOutcome)
    requires disk.Some? ==> Loadable(disk.value)
    ensures var (m, result) := Enable(cfg, Fresh(disk), first, second, outcome);
            && (result.Err? ==> m.disk == disk)
            && (result.Ok? ==>
                  && ManagerOk(cfg, m)
                  && m.registry == Live(Loaded(disk).sessions, m.highWater)
                  && m.highWater >= Loaded(disk).floor && m.floor >= Loaded(disk).floor)
  {
    hide WithinLimits, ValidRecord;
    var state := Loaded(disk);
    var m1 := Adopted(Fresh(disk), state, first, second);
    assert m1.registry == state.sessions;
    assert Live(state.sessions, m1.highWater).Keys <= state.sessions.Keys;
  }

  // ----- Steps keep the invariant -----

  lemma ShrinkKeepsHistory(cfg: Config, w: World, m: Manager, m': Manager)
    requires HistoryFits(cfg, w, m.registry, m.floor) && Shrinks(cfg, m, m')
    ensures HistoryFits(cfg, w, m'.registry, m'.floor)
  {
  }

  lemma PrepareKeepsInv(cfg: Config, w: World, e: Event)
    requires Inv(cfg, w) && w.sys.Up? && e.PrepareTime?
    ensures Inv(cfg, Step(cfg, w, e))
  {
    hide Commit, Live, WithinLimits, Loadable, Drop;
    PrepareCoversItsTime(cfg, w.sys.manager, e.r, e.outcome);
    ShrinkKeepsHistory(cfg, w, w.sys.manager, Step(cfg, w, e).sys.manager);
  }

  lemma LogInKeepsInv(cfg: Config, w: World, e: Event)
    requires Inv(cfg, w) && w.sys.Up? && e.LogIn? && Possible(cfg, w, e)
    ensures Inv(cfg, Step(cfg, w, e))
  {
    hide Generate, WithinLimits, Loadable, HistoryFits, Drawn;
    var m := w.sys.manager;
    InvFits(cfg, w);
    GenerateAddsOne(cfg, m, e.login, e.r, e.outcome);
    GrowKeepsHistory(cfg, w, m, Generate(cfg, m, e.login, e.r, e.outcome).0, Drawn(e.login.candidates));
  }

  lemma InvFits(cfg: Config, w: World)
    requires Inv(cfg, w) && w.sys.Up?
    ensures HistoryFits(cfg, w, w.sys.manager.registry, w.sys.manager.floor) && w.sys.manager.registry.Keys <= w.used
  {
  }

  /** New sessions under identifiers nobody knew leave the history as it was. */
  lemma GrowKeepsHistory(cfg: Config, w: World, m: Manager, m': Manager, drawn: set<string>)
    requires HistoryFits(cfg, w, m.registry, m.floor) && drawn !! w.used
    requires m'.registry.Keys <= m.registry.Keys + drawn && m'.floor >= m.floor
    requires forall id :: id in m'.registry && id in m.registry ==> m'.registry[id] == m.registry[id]
    ensures forall sys :: HistoryFits(cfg, w.(sys := sys, used := w.used + drawn), m'.registry, m'.floor)
  {
    hide Precedes;
  }

  lemma RotateKeepsInv(cfg: Config, w: World, e: Event)
    requires Inv(cfg, w) && w.sys.Up? && e.Rotate?
    ensures Inv(cfg, Step(cfg, w, e))
  {
    hide Commit, Live, WithinLimits, Loadable, Drop;
    ConsumeRotatesOne(cfg, w.sys.manager, e.claims, e.r, e.outcome);
  }

  lemma RevokeAllKeepsInv(cfg: Config, w: World, e: Event)
    requires Inv(cfg, w) && w.sys.Up? && e.RevokeAll?
    ensures Inv(cfg, Step(cfg, w, e))
  {
    hide Commit, Live, WithinLimits, Loadable, Drop;
    var m := w.sys.manager;
    DropShrinks(cfg, Tick(m, e.r), e.sessions.Keys, e.outcome);
    ShrinkKeepsHistory(cfg, w, m, Step(cfg, w, e).sys.manager);
  }

  lemma RevokeByUserKeepsInv(cfg: Config, w: World, e: Event)
    requires Inv(cfg, w) && w.sys.Up? && e.RevokeByUser?
    ensures Inv(cfg, Step(cfg, w, e))
  {
    hide Commit, Live, WithinLimits, Loadable, Drop;
    var m := w.sys.manager;
    DropShrinks(cfg, Tick(m, e.r), SessionsOf(m.registry, e.userId), e.outcome);
    ShrinkKeepsHistory(cfg, w, m, Step(cfg, w, e).sys.manager);
  }

  lemma CleanUpKeepsInv(cfg: Config, w: World, e: Event)
    requires Inv(cfg, w) && w.sys.Up? && e.CleanUp?
    ensures Inv(cfg, Step(cfg, w, e))
  {
    hide Commit, Live, WithinLimits, Loadable, Drop;
    DropShrinks(cfg, Tick(w.sys.manager, e.r), {}, e.outcome);
    ShrinkKeepsHistory(cfg, w, w.sys.manager, Step(cfg, w, e).sys.manager);
  }

  lemma StartKeepsInv(cfg: Config, w: World, e: Event)
    requires Inv(cfg, w) && e.Start?
    ensures Inv(cfg, Step(cfg, w, e))
  {
    EnableResumes(cfg, w.sys.Disk(), e.first, e.second, e.outcome);
  }

  lemma StepKeepsInv(cfg: Config, w: World, e: Event)
    requires Inv(cfg, w) && Possible(cfg, w, e)
    ensures Inv(cfg, Step(cfg, w, e))
  {
    if e.Start? {
      StartKeepsInv(cfg, w, e);
    } else if w.sys.Up? {
      match e
      case PrepareTime(_, _) => PrepareKeepsInv(cfg, w, e);
      case LogIn(_, _, _) => LogInKeepsInv(cfg, w, e);
      case Rotate(_, _, _) => RotateKeepsInv(cfg, w, e);
      case RevokeAll(_, _, _) => RevokeAllKeepsInv(cfg, w, e);
      case RevokeByUser(_, _, _) => RevokeByUserKeepsInv(cfg, w, e);
      case CleanUp(_, _) => CleanUpKeepsInv(cfg, w, e);
      case Stop =>
    }
  }

  lemma {:induction false} RunKeepsInv(cfg: Config, w: World, events: seq<Event>)
    requires Inv(cfg, w) && PossibleRun(cfg, w, events)
    ensures Inv(cfg, Run(cfg, w, events))
    decreases |events|
  {
    if events != [] {
      StepKeepsInv(cfg, w, events[0]);
      RunKeepsInv(cfg, Step(cfg, w, events[0]), events[1..]);
    }
  }

  // ----- Main results -----

  /** After any run: memory equals file, both session limits hold, and the file is
      one the strict loader accepts on the next start. */
  lemma RegistryMirrorsFile(cfg: Config, events: seq<Event>)
    requires PossibleRun(cfg, Initial, events)
    ensures var sys := Run(cfg, Initial, events).sys;
            && (sys.Up? ==> Mirrored(sys.manager) && WithinLimits(cfg, sys.manager.registry))
            && (sys.Disk().Some? ==> Loadable(sys.Disk().value))
  {
    RunKeepsInv(cfg, Initial, events);
  }

  /** Each (session, generation) is consumed at most once; generations only grow, and
      two rotations of one session are at least the rotation interval apart. */
  lemma GenerationsAreConsumedOnce(cfg: Config, events: seq<Event>, i: nat, j: nat)
    requires PossibleRun(cfg, Initial, events)
    requires i < j < |Run(cfg, Initial, events).consumed|
    ensures var consumed := Run(cfg, Initial, events).consumed;
            consumed[i].sessionId == consumed[j].sessionId ==>
              && consumed[i].generation < consumed[j].generation
              && (cfg.rotation > 0 ==> consumed[j].at - consumed[i].at >= cfg.rotation)
  {
    RunKeepsInv(cfg, Initial, events);
    var consumed := Run(cfg, Initial, events).consumed;
    assert Precedes(cfg, consumed[i], consumed[j]);
  }

  /** Validation time never goes back over restarts and wall-clock rollbacks, and
      every time handed out lies strictly below the floor now in the file. */
  lemma ValidationTimeNeverGoesBack(cfg: Config, events: seq<Event>, i: nat, j: nat)
    requires PossibleRun(cfg, Initial, events)
    requires i <= j < |Run(cfg, Initial, events).prepared|
    ensures var w := Run(cfg, Initial, events);
            w.prepared[i] <= w.prepared[j] < Loaded(w.sys.Disk()).floor
  {
    RunKeepsInv(cfg, Initial, events);
  }

  lemma ExpiryIsFinal(before: Registry, after: Registry, token: Option<AccessClaims>, now: Time, later: Time)
    requires now <= later
    requires CheckAccess(before, token, now) == Err(TokenExpired)
    ensures !CheckAccess(after, token, later).Ok?
  {
  }

  /** A token once rejected as expired is never accepted at a later validation time,
      whatever happened to the registry, the process and the clock in between. */
  lemma ExpiredStaysExpired(cfg: Config, events: seq<Event>, i: nat, j: nat, before: Registry, after: Registry,
                            token: Option<AccessClaims>)
    requires PossibleRun(cfg, Initial, events)
    requires i <= j < |Run(cfg, Initial, events).prepared|
    requires CheckAccess(before, token, Run(cfg, Initial, events).prepared[i]) == Err(TokenExpired)
    ensures !CheckAccess(after, token, Run(cfg, Initial, events).prepared[j]).Ok?
  {
    ValidationTimeNeverGoesBack(cfg, events, i, j);
    var prepared := Run(cfg, Initial, events).prepared;
    ExpiryIsFinal(before, after, token, prepared[i], prepared[j]);
  }

  lemma {:induction false} RunKeepsRevoked(cfg: Config, w: World, events: seq<Event>)
    ensures w.revoked <= Run(cfg, w, events).revoked
    decreases |events|
  {
    if events != [] {
      RunKeepsRevoked(cfg, Step(cfg, w, events[0]), events[1..]);
    }
  }

  lemma {:induction false} RunsCompose(cfg: Config, w: World, first: seq<Event>, second: seq<Event>)
    requires PossibleRun(cfg, w, first) && PossibleRun(cfg, Run(cfg, w, first), second)
    ensures PossibleRun(cfg, w, first + second)
    ensures Run(cfg, w, first + second) == Run(cfg, Run(cfg, w, first), second)
    decreases |first|
  {
    hide Step, Possible;
    if first == [] {
      assert first + second == second;
    } else {
      assert (first + second)[1..] == first[1..] + second;
      RunsCompose(cfg, Step(cfg, w, first[0]), first[1..], second);
    }
  }

  /** A session whose revocation was reported done is in no later registry and no later
      file, so none of its tokens validates again, even after restarts. */
  lemma RevokedNeverValidates(cfg: Config, first: seq<Event>, second: seq<Event>, token: AccessClaims, refresh: RefreshClaims,
                              now: Time)
    requires PossibleRun(cfg, Initial, first) && PossibleRun(cfg, Run(cfg, Initial, first), second)
    requires token.sessionId in Run(cfg, Initial, first).revoked && refresh.sessionId == token.sessionId
    requires refresh.expiresAt.Some?
    ensures var w := Run(cfg, Run(cfg, Initial, first), second);
            && token.sessionId !in Loaded(w.sys.Disk()).sessions
            && (w.sys.Up? ==>
                  && !CheckAccess(w.sys.manager.registry, Some(token), now).Ok?
                  && CheckRefresh(w.sys.manager.registry, refresh, now) == Err(TokenRevoked))
  {
    RunsCompose(cfg, Initial, first, second);
    RunKeepsInv(cfg, Initial, first + second);
    RunKeepsRevoked(cfg, Run(cfg, Initial, first), second);
  }

  // ----- Tokens that were handed out -----

  /** Both tokens of a login validate until they expire. */
  lemma LoginPairValidates(cfg: Config, m: Manager, login: Login, r: Reading, outcome: WriteOutcome, now: Time)
    requires Generate(cfg, m, login, r, outcome).1.Ok?
    requires forall id :: id in Drawn(login.candidates) ==> ValidSessionId(id)
    ensures var (m', result) := Generate(cfg, m, login, r, outcome);
            var access, refresh := result.value.access, result.value.refresh;
            && WellFormedRefresh(refresh)
            && (now < refresh.expiresAt.value ==> CheckRefresh(m'.registry, refresh, now).Ok?)
            && (now < refresh.expiresAt.value && m'.highWater - LEEWAY <= now < access.expiresAt.value + LEEWAY ==>
                  CheckAccess(m'.registry, Some(access), now) == Ok(access, false))
  {
    var m1 := Tick(m, r);
    var live := Live(m1.registry, Truncate(m1.highWater));
    FreshIdIsDrawn(login.candidates, live, MAX_ID_ATTEMPTS);
  }

  /** The pair a refresh signs for the session of `claims`, from the registry it saw. */
  function PairForSession(registry: Registry, u: User, claims: RefreshClaims, tokenId: string, now: Time,
                          accessDuration: Time): Result<TokenPair>
    requires claims.expiresAt.Some?
  {
    var expiresAt := Truncate(claims.expiresAt.value);
    if !ValidUser(u) || !ValidSessionId(claims.sessionId) || claims.expiresAt.value == 0 then Err(InvalidToken)
    else if claims.sessionId !in registry then Err(TokenRevoked)
    else
      var record := registry[claims.sessionId];
      if record.userId != u.id || record.expiresAt != expiresAt then Err(InvalidToken)
      else if record.expiresAt <= now then Err(TokenExpired)
      else if record.nextGeneration == MAX_GENERATION then Err(InvalidToken)
      else if claims.generation + 1 != record.nextGeneration + 1 then Err(InvalidToken)
      else Ok(Sign(u, claims.sessionId, expiresAt, record.nextGeneration + 1, tokenId, Truncate(now), accessDuration), false)
  }

  /** A refresh signs its pair first and consumes the old token later, with other
      requests in between. Once the consumption is accepted, the pair it signed holds
      the session's one current refresh token and the old token is reported as reused. */
  lemma RotationDeliversTheCurrentToken(cfg: Config, m: Manager, claims: RefreshClaims, r: Reading, outcome: WriteOutcome,
                                        seen: Registry, u: User, tokenId: string, signedAt: Time, accessDuration: Time,
                                        now: Time)
    requires WellFormedRefresh(claims) && tokenId != "" && u.id == claims.subject
    requires PairForSession(seen, u, claims, tokenId, signedAt, accessDuration).Ok?
    requires Consume(cfg, m, claims, r, outcome).1.Ok?
    requires Truncate(claims.expiresAt.value) == claims.expiresAt.value && now < claims.expiresAt.value
    ensures var m' := Consume(cfg, m, claims, r, outcome).0;
            var refresh := PairForSession(seen, u, claims, tokenId, signedAt, accessDuration).value.refresh;
            && WellFormedRefresh(refresh)
            && CheckRefresh(m'.registry, refresh, now).Ok?
            && CheckRefresh(m'.registry, claims, now) == Err(TokenReused)
  {
    var (m', result) := Consume(cfg, m, claims, r, outcome);
    assert m'.registry == m.registry[claims.sessionId := Rotated(m.registry[claims.sessionId], claims, m'.highWater)];
  }
}
