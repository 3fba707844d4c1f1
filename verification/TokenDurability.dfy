/** The session file under power losses: a write that could not be confirmed is visible but may
    be lost, and then a revoked session may be back. */
module TokenDurability {
  import opened Common
  import opened TokenRegistry
  import opened TokenRuns

  /** The world as the processes see it, and the file that is certain to survive a power loss. */
  datatype Storage = Storage(world: World, durable: Option<Snapshot>)

  /** An event of the manager, or a power loss that leaves the visible or the durable file. */
  datatype Incident = Happens(e: Event) | PowerLoss(keepsVisible: bool)

  predicate Confirmed(e: Event) {
    !e.Stop? && e.outcome.Written?
  }

  /** Every write moves the time floor or the registry; only that of a start may not. */
  predicate Wrote(cfg: Config, w: World, e: Event) {
    var w' := Step(cfg, w, e);
    w'.sys.Disk() != w.sys.Disk() || (e.Start? && w'.sys.Up?)
  }

  function Next(cfg: Config, s: Storage, i: Incident): Storage {
    match i
    case Happens(e) =>
      var w' := Step(cfg, s.world, e);
      Storage(w', if Wrote(cfg, s.world, e) && Confirmed(e) then w'.sys.Disk() else s.durable)
    case PowerLoss(keepsVisible) =>
      var kept := if keepsVisible then s.world.sys.Disk() else s.durable;
      Storage(s.world.(sys := Down(kept)), kept)
  }

  /** A power loss ends the process and leaves one of the two files, as chosen, for good. */
  lemma PowerLossLeavesOneFile(cfg: Config, s: Storage, keepsVisible: bool)
    ensures var s' := Next(cfg, s, PowerLoss(keepsVisible));
            && s'.world.sys == Down(s'.durable)
            && s'.durable == (if keepsVisible then s.world.sys.Disk() else s.durable)
            && s'.world == s.world.(sys := s'.world.sys)
  {
  }

  /** Only a write that is confirmed makes the visible file durable. */
  lemma ConfirmedWritesAreDurable(cfg: Config, s: Storage, e: Event)
    ensures var s' := Next(cfg, s, Happens(e));
            && s'.world == Step(cfg, s.world, e)
            && (s'.durable != s.durable ==> !e.Stop? && e.outcome.Written? && s'.durable == s'.world.sys.Disk())
            && (!e.Stop? && e.outcome.Written? && s'.world.sys.Disk() != s.world.sys.Disk() ==> s'.durable == s'.world.sys.Disk())
  {
    hide Step;
  }

  predicate MayHappen(cfg: Config, s: Storage, i: Incident) {
    i.Happens? ==> Possible(cfg, s.world, i.e)
  }

  function After(cfg: Config, s: Storage, run: seq<Incident>): Storage
    decreases |run|
  {
    if run == [] then s else After(cfg, Next(cfg, s, run[0]), run[1..])
  }

  predicate CanRun(cfg: Config, s: Storage, run: seq<Incident>)
    decreases |run|
  {
    run != [] ==> MayHappen(cfg, s, run[0]) && CanRun(cfg, Next(cfg, s, run[0]), run[1..])
  }

  const NewStorage := Storage(Initial, None)

  // ----- Sessions that are gone -----

  function SessionsOn(disk: Option<Snapshot>): set<string> {
    Loaded(disk).sessions.Keys
  }

  /** Neither the file nor the running process has the session. */
  predicate Gone(w: World, id: string) {
    id !in SessionsOn(w.sys.Disk()) && (w.sys.Up? ==> id !in w.sys.manager.registry)
  }

  /** What a step puts in registry and file: known sessions, and sessions drawn for it. */
  ghost predicate AddsOnly(w: World, w': World, drawn: set<string>) {
    && w.used <= w'.used
    && (forall id :: Gone(w, id) && id !in drawn ==> Gone(w', id))
  }

  /** The operation puts no session in registry or file but known ones and those of `extra`. */
  predicate Adds(m: Manager, m': Manager, extra: set<string>) {
    && m'.registry.Keys <= m.registry.Keys + extra
    && SessionsOn(m'.disk) <= SessionsOn(m.disk) + m.registry.Keys + extra
  }

  lemma TickAdds(m: Manager, r: Reading, extra: set<string>)
    ensures Adds(m, m, extra) && Adds(m, Tick(m, r), extra)
  {
    hide Tick;
    TickKeepsRest(m, r);
  }

  lemma CommitAdds(cfg: Config, m: Manager, r: Reading, registry: Registry, now: Time, outcome: WriteOutcome,
                   extra: set<string>)
    requires registry.Keys <= m.registry.Keys + extra
    ensures Adds(m, Commit(cfg, Tick(m, r), registry, now, outcome).0, extra)
  {
    hide Tick;
    TickKeepsRest(m, r);
  }

  lemma LiveIsFewer(registry: Registry, now: Time)
    ensures Live(registry, now).Keys <= registry.Keys
  {
  }

  lemma DropAdds(cfg: Config, m: Manager, r: Reading, ids: set<string>, outcome: WriteOutcome)
    ensures Adds(m, Drop(cfg, Tick(m, r), ids, outcome).0, {})
  {
    hide Commit, Tick, Adds, Live;
    TickKeepsRest(m, r);
    TickAdds(m, r, {});
    var m1 := Tick(m, r);
    LiveIsFewer(m1.registry, m1.highWater);
    CommitAdds(cfg, m, r, Live(m1.registry, m1.highWater) - ids, m1.highWater, outcome, {});
  }

  lemma GenerateAdds(cfg: Config, m: Manager, login: Login, r: Reading, outcome: WriteOutcome)
    ensures Adds(m, Generate(cfg, m, login, r, outcome).0, Drawn(login.candidates))
  {
    hide FirstFresh, Commit, WithinLimits, SessionsOf, Truncate, Sign, NewRecord, Drawn, Live, Tick, ValidUser, Adds;
    TickKeepsRest(m, r);
    TickAdds(m, r, Drawn(login.candidates));
    var m1 := Tick(m, r);
    var now := Truncate(m1.highWater);
    var live := Live(m1.registry, now);
    LiveIsFewer(m1.registry, now);
    FreshIdIsDrawn(login.candidates, live, MAX_ID_ATTEMPTS);
    var found := FirstFresh(login.candidates, live, MAX_ID_ATTEMPTS);
    if found.Some? {
      var record := NewRecord(cfg, login.user.id, Truncate(now + login.refreshDuration), now);
      CommitAdds(cfg, m, r, live[found.value := record], now, outcome, Drawn(login.candidates));
    }
  }

  lemma PrepareAdds(cfg: Config, m: Manager, r: Reading, outcome: WriteOutcome)
    ensures Adds(m, Prepare(cfg, m, r, outcome).0, {})
  {
    hide Commit, Tick, Adds, Live;
    TickKeepsRest(m, r);
    TickAdds(m, r, {});
    var m1 := Tick(m, r);
    LiveIsFewer(m1.registry, m1.highWater);
    CommitAdds(cfg, m, r, Live(m1.registry, m1.highWater), m1.highWater, outcome, {});
  }

  lemma ConsumeAdds(cfg: Config, m: Manager, claims: RefreshClaims, r: Reading, outcome: WriteOutcome)
    ensures Adds(m, Consume(cfg, m, claims, r, outcome).0, {})
  {
    hide Commit, Tick, Adds, Rotated, WellFormedRefresh;
    TickKeepsRest(m, r);
    TickAdds(m, r, {});
    var m1 := Tick(m, r);
    if claims.sessionId in m1.registry {
      var registry := m1.registry[claims.sessionId := Rotated(m1.registry[claims.sessionId], claims, m1.highWater)];
      CommitAdds(cfg, m, r, registry, m1.highWater, outcome, {});
    }
  }

  lemma EnableAddsNothing(cfg: Config, disk: Option<Snapshot>, first: Reading, second: Reading, outcome: WriteOutcome)
    ensures var m' := Enable(cfg, Fresh(disk), first, second, outcome).0;
            m'.registry.Keys <= SessionsOn(disk) && SessionsOn(m'.disk) <= SessionsOn(disk)
  {
    hide WithinLimits, Loadable, Live, Adopted, Conflicts;
    var m1 := Adopted(Fresh(disk), Loaded(disk), first, second);
    AdoptedHasSessions(disk, first, second);
    LiveIsFewer(m1.registry, m1.highWater);
  }

  lemma AdoptedHasSessions(disk: Option<Snapshot>, first: Reading, second: Reading)
    ensures var m1 := Adopted(Fresh(disk), Loaded(disk), first, second);
            m1.registry == Loaded(disk).sessions && m1.disk == disk && m1.persistent
  {
    hide Tick;
    TickKeepsRest(Manager(map[] + Loaded(disk).sessions, true, Max(Max(0, Loaded(disk).floor), first.wall), first.mono,
                          Max(0, Loaded(disk).floor), disk), second);
  }

  lemma ServeAddsOnly(cfg: Config, w: World, e: Event)
    requires w.sys.Up? && !e.Start? && !e.Stop?
    ensures AddsOnly(w, Step(cfg, w, e), if e.LogIn? then Drawn(e.login.candidates) else {})
  {
    hide Prepare, Generate, Consume, Drop, Tick, SessionsOn, Drawn;
    var m := w.sys.manager;
    TickAdds(m, ClockReading(1, 1), {});
    match e
    case PrepareTime(r, outcome) => PrepareAdds(cfg, m, r, outcome);
    case LogIn(login, r, outcome) => GenerateAdds(cfg, m, login, r, outcome);
    case Rotate(claims, r, outcome) => ConsumeAdds(cfg, m, claims, r, outcome);
    case RevokeAll(sessions, r, outcome) => DropAdds(cfg, m, r, sessions.Keys, outcome);
    case RevokeByUser(userId, r, outcome) =>
      TickKeepsRest(m, r);
      DropAdds(cfg, m, r, SessionsOf(m.registry, userId), outcome);
    case CleanUp(r, outcome) => DropAdds(cfg, m, r, {}, outcome);
  }

  lemma StepAddsOnly(cfg: Config, w: World, e: Event)
    ensures AddsOnly(w, Step(cfg, w, e), if e.LogIn? then Drawn(e.login.candidates) else {})
  {
    hide Enable, Serve, Drawn, SessionsOn;
    if e.Start? {
      EnableAddsNothing(cfg, w.sys.Disk(), e.first, e.second, e.outcome);
    } else if w.sys.Up? && !e.Stop? {
      ServeAddsOnly(cfg, w, e);
    }
  }

  // ----- When a revocation lasts -----

  /** The session is gone, was known, and no power loss can bring it back. */
  predicate GoneForGood(s: Storage, id: string) {
    id in s.world.used && Gone(s.world, id) && id !in SessionsOn(s.durable)
  }

  lemma IncidentKeepsGone(cfg: Config, s: Storage, i: Incident, id: string)
    requires MayHappen(cfg, s, i) && GoneForGood(s, id)
    ensures GoneForGood(Next(cfg, s, i), id)
  {
    hide Step, SessionsOn, Wrote, Drawn;
    if i.Happens? {
      StepAddsOnly(cfg, s.world, i.e);
    }
  }

  lemma {:induction false} RunKeepsGone(cfg: Config, s: Storage, run: seq<Incident>, id: string)
    requires CanRun(cfg, s, run) && GoneForGood(s, id)
    ensures GoneForGood(After(cfg, s, run), id)
    decreases |run|
  {
    if run != [] {
      hide GoneForGood, Next, MayHappen;
      IncidentKeepsGone(cfg, s, run[0], id);
      RunKeepsGone(cfg, Next(cfg, s, run[0]), run[1..], id);
    }
  }

  /** Whatever happens from here on, with power losses at any point, the session stays away. */
  ghost predicate StaysGone(cfg: Config, s: Storage, id: string) {
    forall run: seq<Incident> :: CanRun(cfg, s, run) ==> Gone(After(cfg, s, run).world, id)
  }

  /** A session that is gone stays away for good if and only if the last write that is certain
      to survive a power loss was made without it. */
  lemma GoneSessionStaysGoneExactlyWhen(cfg: Config, s: Storage, id: string)
    requires Gone(s.world, id) && id in s.world.used
    ensures StaysGone(cfg, s, id) <==> id !in SessionsOn(s.durable)
  {
    hide SessionsOn, Next, MayHappen;
    if id !in SessionsOn(s.durable) {
      forall run: seq<Incident> | CanRun(cfg, s, run)
        ensures Gone(After(cfg, s, run).world, id)
      {
        RunKeepsGone(cfg, s, run, id);
      }
    } else {
      var run := [PowerLoss(false)];
      LossRestores(cfg, s);
      OneIncident(cfg, s, run[0]);
    }
  }

  lemma OneIncident(cfg: Config, s: Storage, i: Incident)
    requires MayHappen(cfg, s, i)
    ensures CanRun(cfg, s, [i]) && After(cfg, s, [i]) == Next(cfg, s, i)
  {
    hide Next, MayHappen;
    assert [i][1..] == [];
    assert After(cfg, Next(cfg, s, i), []) == Next(cfg, s, i);
    assert CanRun(cfg, Next(cfg, s, i), []);
  }

  lemma LossRestores(cfg: Config, s: Storage)
    ensures MayHappen(cfg, s, PowerLoss(false)) && Next(cfg, s, PowerLoss(false)).world.sys == Down(s.durable)
  {
  }

  // ----- What power losses cannot break -----

  /** Memory and file agree, and the file is one the strict loader accepts. */
  ghost predicate WorldOk(cfg: Config, w: World) {
    && (w.sys.Up? ==> ManagerOk(cfg, w.sys.manager))
    && (w.sys.Disk().Some? ==> Loadable(w.sys.Disk().value) && WithinLimits(cfg, w.sys.Disk().value.sessions))
    && SessionsOn(w.sys.Disk()) <= w.used
  }

  ghost predicate StorageOk(cfg: Config, s: Storage) {
    && WorldOk(cfg, s.world)
    && (s.durable.Some? ==> Loadable(s.durable.value) && WithinLimits(cfg, s.durable.value.sessions))
    && SessionsOn(s.durable) <= s.world.used
  }

  lemma ServeKeepsWorldOk(cfg: Config, w: World, e: Event)
    requires WorldOk(cfg, w) && w.sys.Up? && !e.Start? && !e.Stop? && Possible(cfg, w, e)
    ensures WorldOk(cfg, Step(cfg, w, e))
  {
    hide Prepare, Generate, Consume, Drop, Live, WithinLimits, Loadable, Drawn;
    var m := w.sys.manager;
    match e
    case PrepareTime(r, outcome) => PrepareCoversItsTime(cfg, m, r, outcome);
    case LogIn(login, r, outcome) => GenerateAddsOne(cfg, m, login, r, outcome);
    case Rotate(claims, r, outcome) =>
      ConsumeRotatesOne(cfg, m, claims, r, outcome);
      ConsumeAdds(cfg, m, claims, r, outcome);
    case RevokeAll(sessions, r, outcome) => DropShrinks(cfg, Tick(m, r), sessions.Keys, outcome);
    case RevokeByUser(userId, r, outcome) => DropShrinks(cfg, Tick(m, r), SessionsOf(m.registry, userId), outcome);
    case CleanUp(r, outcome) => DropShrinks(cfg, Tick(m, r), {}, outcome);
  }

  lemma StepKeepsWorldOk(cfg: Config, w: World, e: Event)
    requires WorldOk(cfg, w) && Possible(cfg, w, e)
    ensures WorldOk(cfg, Step(cfg, w, e)) && w.used <= Step(cfg, w, e).used
  {
    StepAddsOnly(cfg, w, e);
    if e.Start? {
      EnableResumes(cfg, w.sys.Disk(), e.first, e.second, e.outcome);
      EnableAddsNothing(cfg, w.sys.Disk(), e.first, e.second, e.outcome);
      hide Enable, Live, WithinLimits, ValidRecord;
    } else if w.sys.Up? && !e.Stop? {
      ServeKeepsWorldOk(cfg, w, e);
    }
  }

  lemma IncidentKeepsStorageOk(cfg: Config, s: Storage, i: Incident)
    requires StorageOk(cfg, s) && MayHappen(cfg, s, i)
    ensures StorageOk(cfg, Next(cfg, s, i))
  {
    hide Step, SessionsOn, Loadable, ManagerOk, Wrote, Possible;
    if i.Happens? {
      StepKeepsWorldOk(cfg, s.world, i.e);
    }
  }

  lemma {:induction false} RunKeepsStorageOk(cfg: Config, s: Storage, run: seq<Incident>)
    requires StorageOk(cfg, s) && CanRun(cfg, s, run)
    ensures StorageOk(cfg, After(cfg, s, run))
    decreases |run|
  {
    hide StorageOk, Next, MayHappen;
    if run != [] {
      IncidentKeepsStorageOk(cfg, s, run[0]);
      RunKeepsStorageOk(cfg, Next(cfg, s, run[0]), run[1..]);
    }
  }

  /** After any run with power losses at any point, a running manager has exactly what is in its
      file, within both limits, and whatever file remains can be loaded. */
  lemma RegistryMirrorsFileAfterLosses(cfg: Config, run: seq<Incident>)
    requires CanRun(cfg, NewStorage, run)
    ensures var s := After(cfg, NewStorage, run);
            && (s.world.sys.Up? ==> Mirrored(s.world.sys.manager) && WithinLimits(cfg, s.world.sys.manager.registry))
            && (s.world.sys.Disk().Some? ==> Loadable(s.world.sys.Disk().value))
            && (s.durable.Some? ==> Loadable(s.durable.value))
  {
    RunKeepsStorageOk(cfg, NewStorage, run);
  }

  /** A revocation that is reported done lasts, whatever power losses follow, if and only if it
      wrote the file and that write was confirmed, or the durable file had lost the session before. */
  lemma ReportedRevocationLastsExactlyWhen(cfg: Config, run: seq<Incident>, sessions: map<string, Time>, r: Reading,
                                           outcome: WriteOutcome, id: string)
    requires CanRun(cfg, NewStorage, run) && After(cfg, NewStorage, run).world.sys.Up? && id in sessions
    requires Revoke(cfg, After(cfg, NewStorage, run).world.sys.manager, sessions, r, outcome).1.Ok?
    ensures var s, e := After(cfg, NewStorage, run), RevokeAll(sessions, r, outcome);
            StaysGone(cfg, Next(cfg, s, Happens(e)), id) <==>
              (Wrote(cfg, s.world, e) && outcome.Written?) || id !in SessionsOn(s.durable)
  {
    RunKeepsStorageOk(cfg, NewStorage, run);
    var s, e := After(cfg, NewStorage, run), RevokeAll(sessions, r, outcome);
    RevokedIsGone(cfg, s.world, sessions, r, outcome, id);
    GoneSessionStaysGoneExactlyWhen(cfg, Next(cfg, s, Happens(e)), id);
    hide Step, SessionsOn, Loadable, ManagerOk, StaysGone, Revoke;
  }

  lemma RevokedIsGone(cfg: Config, w: World, sessions: map<string, Time>, r: Reading, outcome: WriteOutcome, id: string)
    requires WorldOk(cfg, w) && w.sys.Up? && id in sessions
    requires Revoke(cfg, w.sys.manager, sessions, r, outcome).1.Ok?
    ensures var w' := Step(cfg, w, RevokeAll(sessions, r, outcome)); Gone(w', id) && id in w'.used
  {
    hide Drop, WithinLimits, Loadable;
    DropShrinks(cfg, Tick(w.sys.manager, r), sessions.Keys, outcome);
  }

  // ----- The report that promises too much -----

  /** Revoking again finds nothing to do and reports success without a warning, but the write
      of the first revocation may still be lost: the session is back after the next start. */
  lemma RepeatedRevocationCanBeUndone(cfg: Config, s: Storage, id: string, expiresAt: Time, r: Reading)
      returns (run: seq<Incident>)
    requires StorageOk(cfg, s) && s.world.sys.Up? && s.durable == s.world.sys.Disk() && cfg.LeaseUsable()
    requires id in s.world.sys.manager.registry && ValidSessionId(id) && expiresAt != 0
    requires s.world.sys.manager.registry[id].expiresAt > Max(s.world.sys.manager.floor, 1)
    ensures |run| == 4
    ensures var again := After(cfg, s, run[..1]).world.sys;
            && run[0].Happens? && run[0].e.RevokeAll? && run[1].Happens? && run[1].e.RevokeAll?
            && again.Up? && Revoke(cfg, again.manager, map[id := expiresAt], r, WrittenWithWarning).1 == Ok((), false)
            && run[2] == PowerLoss(false)
    ensures CanRun(cfg, s, run) && After(cfg, s, run).world.sys.Up? && id in After(cfg, s, run).world.sys.manager.registry
  {
    hide Next, Step, Revoke, Enable, SessionsOn, Tick, StorageOk, MayHappen, After, CanRun;
    var clock := ClockReading(1, 1);
    var sessions := map[id := expiresAt];
    var revoke, start := RevokeAll(sessions, r, WrittenWithWarning), Start(clock, clock, Written);
    run := [Happens(revoke), Happens(revoke), PowerLoss(false), Happens(start)];
    var s1 := Next(cfg, s, run[0]);
    var s2 := Next(cfg, s1, run[1]);
    var s3 := Next(cfg, s2, run[2]);
    StorageFacts(cfg, s, id);
    assert ValidRevocation(sessions) && id in sessions;
    SecondRevocation(cfg, s.world.sys.manager, sessions, r);
    SessionComesBack(cfg, s.durable, id);
    UnconfirmedStep(cfg, s, sessions, r);
    UnconfirmedStep(cfg, s1, sessions, r);
    LossRestores(cfg, s2);
    StartStep(cfg, s3, clock);
    FourIncidents(cfg, s, run);
    OneIncident(cfg, s, run[0]);
    assert run[..1] == [run[0]];
  }

  lemma StorageFacts(cfg: Config, s: Storage, id: string)
    requires StorageOk(cfg, s) && s.world.sys.Up? && s.durable == s.world.sys.Disk()
    ensures ManagerOk(cfg, s.world.sys.manager)
    ensures s.durable == Some(Snapshot(s.world.sys.manager.floor, s.world.sys.manager.registry)) && Loadable(s.durable.value)
    ensures WithinLimits(cfg, s.durable.value.sessions)
  {
  }

  lemma UnconfirmedStep(cfg: Config, s: Storage, sessions: map<string, Time>, r: Reading)
    requires s.world.sys.Up?
    ensures var i := Happens(RevokeAll(sessions, r, WrittenWithWarning));
            && MayHappen(cfg, s, i) && Next(cfg, s, i).durable == s.durable
            && Next(cfg, s, i).world.sys == Up(Revoke(cfg, s.world.sys.manager, sessions, r, WrittenWithWarning).0)
  {
    hide Revoke;
  }

  lemma StartStep(cfg: Config, s: Storage, clock: Reading)
    requires s.world.sys.Down? && Enable(cfg, Fresh(s.world.sys.disk), clock, clock, Written).1.Ok?
    ensures var i := Happens(Start(clock, clock, Written));
            && MayHappen(cfg, s, i)
            && Next(cfg, s, i).world.sys == Up(Enable(cfg, Fresh(s.world.sys.disk), clock, clock, Written).0)
  {
    hide Enable;
  }

  lemma FourIncidents(cfg: Config, s: Storage, run: seq<Incident>)
    requires |run| == 4 && MayHappen(cfg, s, run[0])
    requires var s1 := Next(cfg, s, run[0]); var s2 := Next(cfg, s1, run[1]);
             MayHappen(cfg, s1, run[1]) && MayHappen(cfg, s2, run[2]) && MayHappen(cfg, Next(cfg, s2, run[2]), run[3])
    ensures CanRun(cfg, s, run)
    ensures After(cfg, s, run) == Next(cfg, Next(cfg, Next(cfg, Next(cfg, s, run[0]), run[1]), run[2]), run[3])
  {
    hide Next, MayHappen, After, CanRun;
    var s1 := Next(cfg, s, run[0]);
    var s2 := Next(cfg, s1, run[1]);
    OneMoreIncident(cfg, s, run, 0);
    OneMoreIncident(cfg, s1, run, 1);
    OneMoreIncident(cfg, s2, run, 2);
    OneMoreIncident(cfg, Next(cfg, s2, run[2]), run, 3);
  }

  lemma OneMoreIncident(cfg: Config, s: Storage, run: seq<Incident>, n: nat)
    requires n < |run| && MayHappen(cfg, s, run[n])
    ensures var s' := Next(cfg, s, run[n]);
            CanRun(cfg, s, run[n..]) <==> CanRun(cfg, s', run[n + 1..])
    ensures After(cfg, s, run[n..]) == After(cfg, Next(cfg, s, run[n]), run[n + 1..])
    ensures n + 1 == |run| ==> CanRun(cfg, s, run[n..]) && After(cfg, s, run[n..]) == Next(cfg, s, run[n])
    ensures run[0..] == run
  {
    hide Next, MayHappen;
    assert run[n..][1..] == run[n + 1..] && run[n..][0] == run[n];
  }

  lemma SecondRevocation(cfg: Config, m: Manager, sessions: map<string, Time>, r: Reading)
    requires ManagerOk(cfg, m) && sessions != map[] && ValidRevocation(sessions)
    requires exists id :: id in sessions && id in m.registry
    ensures var (m1, first) := Revoke(cfg, m, sessions, r, WrittenWithWarning);
            && first == Ok((), true)
            && Revoke(cfg, m1, sessions, r, WrittenWithWarning).1 == Ok((), false)
  {
    hide Tick, WithinLimits, Drop, Loadable, ValidRevocation;
    var t := Tick(m, r);
    var (m1, first) := Drop(cfg, t, sessions.Keys, WrittenWithWarning);
    TickKeepsRest(m, r);
    TickKeepsOk(cfg, m, r);
    FirstDrop(cfg, t, sessions.Keys);
    SameReading(m, m1, r);
    TickKeepsRest(m1, r);
    SecondDrop(cfg, Tick(m1, r), t.registry, sessions.Keys);
  }

  lemma FirstDrop(cfg: Config, m: Manager, ids: set<string>)
    requires ManagerOk(cfg, m)
    requires exists id :: id in ids && id in m.registry
    ensures var (m', result) := Drop(cfg, m, ids, WrittenWithWarning);
            && result == Ok((), true) && m'.registry == Live(m.registry, m.highWater) - ids
            && m'.highWater == m.highWater && m'.observedAt == m.observedAt
  {
    hide Live, Commit, WithinLimits, Loadable;
    var next := Live(m.registry, m.highWater) - ids;
    var id :| id in ids && id in m.registry;
    assert id !in next;
    LiveKeepsOk(cfg, m, m.highWater, ids);
    UnconfirmedCommit(cfg, m, next, m.highWater);
  }

  lemma UnconfirmedCommit(cfg: Config, m: Manager, registry: Registry, now: Time)
    requires ManagerOk(cfg, m) && registry.Keys <= m.registry.Keys && now > 0
    ensures var (m', written) := Commit(cfg, m, registry, now, WrittenWithWarning);
            && written.WrittenWithWarning? && m'.registry == registry
            && m'.highWater == m.highWater && m'.observedAt == m.observedAt
  {
    hide WithinLimits, ValidRecord;
    SubsetIsSmaller(registry.Keys, m.registry.Keys);
  }

  lemma SecondDrop(cfg: Config, m: Manager, before: Registry, ids: set<string>)
    requires m.registry == Live(before, m.highWater) - ids
    ensures Drop(cfg, m, ids, WrittenWithWarning).1 == Ok((), false)
  {
    assert Live(m.registry, m.highWater) - ids == m.registry;
    hide Live, Commit;
  }

  lemma SameReading(m: Manager, m1: Manager, r: Reading)
    ensures m1.highWater == Tick(m, r).highWater && m1.observedAt == Tick(m, r).observedAt ==>
      Tick(m1, r).highWater == m1.highWater
  {
  }

  lemma SessionComesBack(cfg: Config, disk: Option<Snapshot>, id: string)
    requires disk.Some? && Loadable(disk.value) && WithinLimits(cfg, disk.value.sessions) && cfg.LeaseUsable()
    requires id in disk.value.sessions && disk.value.sessions[id].expiresAt > Max(disk.value.floor, 1)
    ensures var (m, result) := Enable(cfg, Fresh(disk), ClockReading(1, 1), ClockReading(1, 1), Written);
            result.Ok? && id in m.registry
  {
    hide WithinLimits, ValidRecord, Live;
    var state := disk.value;
    var m1 := Adopted(Fresh(disk), state, ClockReading(1, 1), ClockReading(1, 1));
    assert m1.registry == state.sessions;
    assert m1.highWater == Max(state.floor, 1);
    LiveStays(cfg, state.sessions, m1.highWater, id);
  }

  lemma LiveStays(cfg: Config, sessions: Registry, now: Time, id: string)
    requires WithinLimits(cfg, sessions) && id in sessions && sessions[id].expiresAt > now
    ensures var live := Live(sessions, now); id in live && WithinLimits(cfg, live) && |live| <= |sessions|
  {
    hide WithinLimits;
    var live := Live(sessions, now);
    assert live - {} == live;
    LiveKeepsRecords(cfg, sessions, now, {});
  }

  /** The manager after a first start and its first login, both with the clock at one reading. */
  function Started(cfg: Config, r: Reading): Manager {
    Manager(map[], true, r.wall, r.mono, r.wall + cfg.lease, Some(Snapshot(r.wall + cfg.lease, map[])))
  }

  lemma FirstStart(cfg: Config, r: Reading)
    requires cfg.LeaseUsable() && cfg.sessionLimit >= 0
    ensures Enable(cfg, Fresh(None), r, r, Written) == (Started(cfg, r), Ok((), false))
  {
    assert Live(map[], r.wall) == map[];
  }

  /** A login that lasts longer than the lease: its session is the only one, and outlives the floor. */
  predicate LastingLogin(cfg: Config, login: Login, id: string, r: Reading) {
    && ValidUser(login.user) && login.candidates == [Some(id)] && ValidSessionId(id)
    && cfg.LeaseUsable() && cfg.sessionLimit > 0 && cfg.userLimit > 0
    && r.wall > SECOND && r.wall > cfg.rotation + SECOND
    && login.refreshDuration >= cfg.lease + 2 * SECOND
  }

  lemma FirstLogin(cfg: Config, login: Login, id: string, r: Reading)
    requires LastingLogin(cfg, login, id, r)
    ensures var (m, result) := Generate(cfg, Started(cfg, r), login, r, Written);
            && result.Ok? && m.persistent && m.floor == r.wall + cfg.lease
            && m.disk == Some(Snapshot(m.floor, m.registry))
            && m.registry.Keys == {id} && m.registry[id].expiresAt > Max(m.floor, 1)
  {
    hide ValidUser, ValidSessionId, Sign;
    var m := Started(cfg, r);
    var now := Truncate(r.wall);
    assert r.wall - SECOND < now <= r.wall;
    assert Tick(m, r) == m;
    assert Live(m.registry, now) == map[] && SessionsOf(map[], login.user.id) == {};
    var expiresAt := Truncate(now + login.refreshDuration);
    assert expiresAt > now + login.refreshDuration - SECOND;
    assert FirstFresh(login.candidates, map[], MAX_ID_ATTEMPTS) == Some(id);
    var registry := map[][id := NewRecord(cfg, login.user.id, expiresAt, now)];
    assert registry.Keys == {id} && |registry.Keys| == |registry|;
  }

  /** Such a state is reached from new storage by a start and one login, all writes confirmed. */
  lemma SessionFromTheStart(cfg: Config, login: Login, id: string, r: Reading) returns (run: seq<Incident>)
    requires LastingLogin(cfg, login, id, r)
    ensures run == [Happens(Start(r, r, Written)), Happens(LogIn(login, r, Written))] && CanRun(cfg, NewStorage, run)
    ensures var s := After(cfg, NewStorage, run);
            && StorageOk(cfg, s) && s.world.sys.Up? && s.durable == s.world.sys.Disk()
            && id in s.world.sys.manager.registry
            && s.world.sys.manager.registry[id].expiresAt > Max(s.world.sys.manager.floor, 1)
  {
    hide Enable, Generate, ValidSessionId, ValidUser, After, CanRun, StorageOk;
    run := [Happens(Start(r, r, Written)), Happens(LogIn(login, r, Written))];
    FirstStart(cfg, r);
    FirstLogin(cfg, login, id, r);
    var s1 := Next(cfg, NewStorage, run[0]);
    assert s1.world.sys == Up(Started(cfg, r)) && MayHappen(cfg, NewStorage, run[0]);
    assert Drawn(login.candidates) == {id} by {
      assert login.candidates[0] == Some(id);
    }
    assert s1.world.used == {} && MayHappen(cfg, s1, run[1]);
    OneMoreIncident(cfg, NewStorage, run, 0);
    OneMoreIncident(cfg, s1, run, 1);
    NewStorageIsOk(cfg);
    RunKeepsStorageOk(cfg, NewStorage, run);
  }

  lemma NewStorageIsOk(cfg: Config)
    ensures StorageOk(cfg, NewStorage)
  {
  }

  lemma {:induction false} RunsJoin(cfg: Config, s: Storage, first: seq<Incident>, second: seq<Incident>)
    requires CanRun(cfg, s, first) && CanRun(cfg, After(cfg, s, first), second)
    ensures CanRun(cfg, s, first + second)
    ensures After(cfg, s, first + second) == After(cfg, After(cfg, s, first), second)
    decreases |first|
  {
    hide Next, MayHappen;
    if first == [] {
      assert first + second == second;
    } else {
      assert (first + second)[1..] == first[1..] + second;
      RunsJoin(cfg, Next(cfg, s, first[0]), first[1..], second);
    }
  }

  /** So the whole run exists: start, login, two revocations, the second of them reported done
      without a warning, a power loss, a start, and the session is there again. */
  lemma RevocationUndoneFromTheStart(cfg: Config, login: Login, id: string, expiresAt: Time, r: Reading)
      returns (run: seq<Incident>)
    requires LastingLogin(cfg, login, id, r) && expiresAt != 0
    ensures |run| == 6 && CanRun(cfg, NewStorage, run)
    ensures var again := After(cfg, NewStorage, run[..3]).world.sys;
            && run[2].Happens? && run[2].e.RevokeAll? && run[3].Happens? && run[3].e.RevokeAll? && run[4] == PowerLoss(false)
            && again.Up? && Revoke(cfg, again.manager, map[id := expiresAt], r, WrittenWithWarning).1 == Ok((), false)
    ensures var sys := After(cfg, NewStorage, run).world.sys; sys.Up? && id in sys.manager.registry
  {
    hide After, CanRun, StorageOk, Revoke, Next, ValidSessionId, ValidUser;
    var first := SessionFromTheStart(cfg, login, id, r);
    var s := After(cfg, NewStorage, first);
    var second := RepeatedRevocationCanBeUndone(cfg, s, id, expiresAt, r);
    run := first + second;
    RunsJoin(cfg, NewStorage, first, second);
    assert run[..3] == first + second[..1];
    PrefixCanRun(cfg, s, second, 1);
    RunsJoin(cfg, NewStorage, first, second[..1]);
  }

  lemma {:induction false} PrefixCanRun(cfg: Config, s: Storage, run: seq<Incident>, n: nat)
    requires CanRun(cfg, s, run) && n <= |run|
    ensures CanRun(cfg, s, run[..n])
    decreases n
  {
    hide Next, MayHappen;
    if n > 0 {
      PrefixCanRun(cfg, Next(cfg, s, run[0]), run[1..], n - 1);
      assert run[..n][1..] == run[1..][..n - 1];
    }
  }

  // ----- Times and generations after a power loss -----

  /** The manager is not behind the time, and would not be after a start from the file. */
  predicate Reached(w: World, t: Time) {
    Loaded(w.sys.Disk()).floor >= t && (w.sys.Up? ==> w.sys.manager.highWater >= t)
  }

  lemma ServeKeepsReached(cfg: Config, w: World, e: Event, t: Time)
    requires WorldOk(cfg, w) && w.sys.Up? && !e.Start? && !e.Stop? && Possible(cfg, w, e) && Reached(w, t)
    ensures Reached(Step(cfg, w, e), t)
  {
    hide Prepare, Generate, Consume, Drop, Live, WithinLimits, Loadable, Drawn;
    var m := w.sys.manager;
    match e
    case PrepareTime(r, outcome) => PrepareCoversItsTime(cfg, m, r, outcome);
    case LogIn(login, r, outcome) => GenerateAddsOne(cfg, m, login, r, outcome);
    case Rotate(claims, r, outcome) => ConsumeRotatesOne(cfg, m, claims, r, outcome);
    case RevokeAll(sessions, r, outcome) => DropShrinks(cfg, Tick(m, r), sessions.Keys, outcome);
    case RevokeByUser(userId, r, outcome) => DropShrinks(cfg, Tick(m, r), SessionsOf(m.registry, userId), outcome);
    case CleanUp(r, outcome) => DropShrinks(cfg, Tick(m, r), {}, outcome);
  }

  lemma StepKeepsReached(cfg: Config, w: World, e: Event, t: Time)
    requires WorldOk(cfg, w) && Possible(cfg, w, e) && Reached(w, t)
    ensures Reached(Step(cfg, w, e), t)
  {
    if e.Start? {
      hide Enable, Live, WithinLimits, ValidRecord;
      EnableResumes(cfg, w.sys.Disk(), e.first, e.second, e.outcome);
    } else if w.sys.Up? && !e.Stop? {
      ServeKeepsReached(cfg, w, e, t);
    }
  }

  lemma {:induction false} RunKeepsReached(cfg: Config, s: Storage, run: seq<Incident>, t: Time)
    requires StorageOk(cfg, s) && CanRun(cfg, s, run) && Reached(s.world, t) && Loaded(s.durable).floor >= t
    ensures Reached(After(cfg, s, run).world, t)
    decreases |run|
  {
    hide Step, Wrote, WorldOk, Possible;
    if run != [] {
      IncidentKeepsStorageOk(cfg, s, run[0]);
      if run[0].Happens? {
        StepKeepsReached(cfg, s.world, run[0].e, t);
      }
      RunKeepsReached(cfg, Next(cfg, s, run[0]), run[1..], t);
    }
  }

  /** Whatever happens from here on, with power losses at any point, no earlier time is handed out. */
  ghost predicate NeverUndercut(cfg: Config, s: Storage, t: Time) {
    forall run: seq<Incident>, r: Reading, outcome: WriteOutcome ::
      CanRun(cfg, s, run) && After(cfg, s, run).world.sys.Up? ==>
        NoEarlier(Prepare(cfg, After(cfg, s, run).world.sys.manager, r, outcome).1, t)
  }

  predicate NoEarlier(result: Result<Time>, t: Time) {
    result.Ok? ==> result.value >= t
  }

  lemma PreparesNoEarlier(cfg: Config, w: World, r: Reading, outcome: WriteOutcome, t: Time)
    requires WorldOk(cfg, w) && w.sys.Up? && Reached(w, t)
    ensures NoEarlier(Prepare(cfg, w.sys.manager, r, outcome).1, t)
  {
    hide Prepare, WithinLimits, Loadable;
    PrepareCoversItsTime(cfg, w.sys.manager, r, outcome);
  }

  /** A time that was handed out is never undercut, whatever power losses follow, if and only if
      the durable file covers it. Clocks are only known to be past the zero time. */
  lemma PreparedTimeLastsExactlyWhen(cfg: Config, run: seq<Incident>, t: Time)
    requires CanRun(cfg, NewStorage, run) && cfg.LeaseUsable() && cfg.sessionLimit >= 0 && t > 1
    requires Reached(After(cfg, NewStorage, run).world, t)
    ensures var s := After(cfg, NewStorage, run); NeverUndercut(cfg, s, t) <==> t <= Loaded(s.durable).floor
  {
    RunKeepsStorageOk(cfg, NewStorage, run);
    var s := After(cfg, NewStorage, run);
    hide StorageOk, WorldOk, Reached, Prepare, NoEarlier, CanRun, After, Next, Enable;
    if t <= Loaded(s.durable).floor {
      forall later: seq<Incident>, r: Reading, outcome: WriteOutcome
        | CanRun(cfg, s, later) && After(cfg, s, later).world.sys.Up?
        ensures NoEarlier(Prepare(cfg, After(cfg, s, later).world.sys.manager, r, outcome).1, t)
      {
        RunKeepsStorageOk(cfg, s, later);
        RunKeepsReached(cfg, s, later, t);
        StorageHasWorld(cfg, After(cfg, s, later));
        PreparesNoEarlier(cfg, After(cfg, s, later).world, r, outcome, t);
      }
    } else {
      var later := UndercutRun(cfg, s, t);
    }
  }

  lemma StorageHasWorld(cfg: Config, s: Storage)
    requires StorageOk(cfg, s)
    ensures WorldOk(cfg, s.world)
    ensures s.durable.Some? ==> Loadable(s.durable.value)
    ensures cfg.sessionLimit >= 0 ==> WithinLimits(cfg, Loaded(s.durable).sessions)
  {
  }

  /** A power loss and a start with a wall clock that was set back. */
  lemma UndercutRun(cfg: Config, s: Storage, t: Time) returns (later: seq<Incident>)
    requires StorageOk(cfg, s) && cfg.LeaseUsable() && cfg.sessionLimit >= 0
    requires Max(Loaded(s.durable).floor, 1) < t
    ensures CanRun(cfg, s, later) && After(cfg, s, later).world.sys.Up?
    ensures !NoEarlier(Prepare(cfg, After(cfg, s, later).world.sys.manager, ClockReading(1, 1), Written).1, t)
  {
    hide StorageOk, CanRun, After, Next, Enable, Prepare, MayHappen, WithinLimits, Loadable;
    var clock := ClockReading(1, 1);
    later := [PowerLoss(false), Happens(Start(clock, clock, Written))];
    var s1 := Next(cfg, s, later[0]);
    StorageHasWorld(cfg, s);
    StartsAtFloor(cfg, s.durable);
    LossRestores(cfg, s);
    StartStep(cfg, s1, clock);
    OneMoreIncident(cfg, s, later, 0);
    OneMoreIncident(cfg, s1, later, 1);
  }

  lemma StartsAtFloor(cfg: Config, disk: Option<Snapshot>)
    requires (disk.Some? ==> Loadable(disk.value)) && WithinLimits(cfg, Loaded(disk).sessions) && cfg.LeaseUsable()
    ensures var (m, result) := Enable(cfg, Fresh(disk), ClockReading(1, 1), ClockReading(1, 1), Written);
            && result.Ok?
            && Prepare(cfg, m, ClockReading(1, 1), Written).1 == Ok(Max(Loaded(disk).floor, 1), false)
  {
    hide WithinLimits, ValidRecord, Live;
    var state := Loaded(disk);
    var m1 := Adopted(Fresh(disk), state, ClockReading(1, 1), ClockReading(1, 1));
    assert m1.registry == state.sessions;
    assert m1.highWater == Max(state.floor, 1);
    LiveIsWithin(cfg, state.sessions, m1.highWater);
  }

  lemma LiveIsWithin(cfg: Config, sessions: Registry, now: Time)
    requires WithinLimits(cfg, sessions)
    ensures var live := Live(sessions, now); WithinLimits(cfg, live) && |live| <= |sessions|
  {
    hide WithinLimits;
    var live := Live(sessions, now);
    assert live - {} == live;
    LiveKeepsRecords(cfg, sessions, now, {});
  }

  /** On this file a token of the generation is refused as used before, or has no session. */
  predicate SpentOn(disk: Option<Snapshot>, id: string, generation: nat) {
    id in Loaded(disk).sessions ==> Loaded(disk).sessions[id].nextGeneration > generation
  }

  lemma ServeKeepsSpent(cfg: Config, w: World, e: Event, id: string, generation: nat)
    requires WorldOk(cfg, w) && w.sys.Up? && !e.Start? && !e.Stop? && Possible(cfg, w, e)
    requires id in w.used && SpentOn(w.sys.Disk(), id, generation)
    ensures SpentOn(Step(cfg, w, e).sys.Disk(), id, generation)
  {
    hide Prepare, Generate, Consume, Drop, Live, WithinLimits, Loadable, Drawn;
    var m := w.sys.manager;
    match e
    case PrepareTime(r, outcome) => PrepareCoversItsTime(cfg, m, r, outcome);
    case LogIn(login, r, outcome) => GenerateAddsOne(cfg, m, login, r, outcome);
    case Rotate(claims, r, outcome) =>
      ConsumeRotatesOne(cfg, m, claims, r, outcome);
      var m' := Consume(cfg, m, claims, r, outcome).0;
      assert id in m'.registry ==>
        id in m.registry && m'.registry[id].nextGeneration >= m.registry[id].nextGeneration;
    case RevokeAll(sessions, r, outcome) => DropShrinks(cfg, Tick(m, r), sessions.Keys, outcome);
    case RevokeByUser(userId, r, outcome) => DropShrinks(cfg, Tick(m, r), SessionsOf(m.registry, userId), outcome);
    case CleanUp(r, outcome) => DropShrinks(cfg, Tick(m, r), {}, outcome);
  }

  lemma StepKeepsSpent(cfg: Config, w: World, e: Event, id: string, generation: nat)
    requires WorldOk(cfg, w) && Possible(cfg, w, e) && id in w.used && SpentOn(w.sys.Disk(), id, generation)
    ensures SpentOn(Step(cfg, w, e).sys.Disk(), id, generation)
  {
    if e.Start? {
      hide Enable, WithinLimits, ValidRecord;
      EnableResumes(cfg, w.sys.Disk(), e.first, e.second, e.outcome);
    } else if w.sys.Up? && !e.Stop? {
      ServeKeepsSpent(cfg, w, e, id, generation);
    }
  }

  lemma {:induction false} RunKeepsSpent(cfg: Config, s: Storage, run: seq<Incident>, id: string, generation: nat)
    requires StorageOk(cfg, s) && CanRun(cfg, s, run) && id in s.world.used
    requires SpentOn(s.world.sys.Disk(), id, generation) && SpentOn(s.durable, id, generation)
    ensures SpentOn(After(cfg, s, run).world.sys.Disk(), id, generation)
    decreases |run|
  {
    hide Step, Wrote, WorldOk, Possible, SpentOn, SessionsOn;
    if run != [] {
      IncidentKeepsStorageOk(cfg, s, run[0]);
      if run[0].Happens? {
        StepKeepsWorldOk(cfg, s.world, run[0].e);
        StepKeepsSpent(cfg, s.world, run[0].e, id, generation);
      }
      RunKeepsSpent(cfg, Next(cfg, s, run[0]), run[1..], id, generation);
    }
  }

  ghost predicate StaysSpent(cfg: Config, s: Storage, id: string, generation: nat) {
    forall run: seq<Incident> :: CanRun(cfg, s, run) ==> SpentOn(After(cfg, s, run).world.sys.Disk(), id, generation)
  }

  /** A refresh token that was consumed stays spent, whatever power losses follow, if and only if
      the write of its consumption was confirmed or the durable file knows no session for it. */
  lemma ConsumptionLastsExactlyWhen(cfg: Config, run: seq<Incident>, claims: RefreshClaims, r: Reading, outcome: WriteOutcome)
    requires CanRun(cfg, NewStorage, run) && After(cfg, NewStorage, run).world.sys.Up?
    requires Consume(cfg, After(cfg, NewStorage, run).world.sys.manager, claims, r, outcome).1.Ok?
    ensures var s := After(cfg, NewStorage, run);
            StaysSpent(cfg, Next(cfg, s, Happens(Rotate(claims, r, outcome))), claims.sessionId, claims.generation) <==>
              outcome.Written? || SpentOn(s.durable, claims.sessionId, claims.generation)
  {
    RunKeepsStorageOk(cfg, NewStorage, run);
    var s, e := After(cfg, NewStorage, run), Rotate(claims, r, outcome);
    var s' := Next(cfg, s, Happens(e));
    StorageHasWorld(cfg, s);
    IncidentKeepsStorageOk(cfg, s, Happens(e));
    ConsumptionWrites(cfg, s.world, claims, r, outcome);
    hide StorageOk, WorldOk, CanRun, After, Step, SpentOn, Wrote;
    if SpentOn(s'.durable, claims.sessionId, claims.generation) {
      forall later: seq<Incident> | CanRun(cfg, s', later)
        ensures SpentOn(After(cfg, s', later).world.sys.Disk(), claims.sessionId, claims.generation)
      {
        RunKeepsSpent(cfg, s', later, claims.sessionId, claims.generation);
      }
    } else {
      LossRestores(cfg, s');
      OneIncident(cfg, s', PowerLoss(false));
    }
  }

  lemma ConsumptionWrites(cfg: Config, w: World, claims: RefreshClaims, r: Reading, outcome: WriteOutcome)
    requires WorldOk(cfg, w) && w.sys.Up? && Consume(cfg, w.sys.manager, claims, r, outcome).1.Ok?
    ensures var e := Rotate(claims, r, outcome);
            && Wrote(cfg, w, e) && SpentOn(Step(cfg, w, e).sys.Disk(), claims.sessionId, claims.generation)
            && claims.sessionId in w.used && claims.sessionId in Step(cfg, w, e).used
  {
    hide Consume, WithinLimits, Loadable;
    ConsumeRotatesOne(cfg, w.sys.manager, claims, r, outcome);
  }

  // ----- Runs in which every write is confirmed or fails -----

  predicate NeverUnconfirmed(run: seq<Incident>) {
    forall i :: 0 <= i < |run| && run[i].Happens? && !run[i].e.Stop? ==> !run[i].e.outcome.WrittenWithWarning?
  }

  /** The same run with every power loss replaced by an ordinary stop. */
  function WithoutLosses(run: seq<Incident>): (events: seq<Event>)
    ensures |events| == |run|
  {
    if run == [] then [] else [if run[0].Happens? then run[0].e else Stop] + WithoutLosses(run[1..])
  }

  lemma FailedCommitKeepsFile(cfg: Config, m: Manager, registry: Registry, now: Time)
    ensures Commit(cfg, m, registry, now, WriteFailed).0.disk == m.disk
  {
  }

  lemma FailedDropKeepsFile(cfg: Config, m: Manager, r: Reading, ids: set<string>)
    ensures Drop(cfg, Tick(m, r), ids, WriteFailed).0.disk == m.disk
  {
    hide Commit, Live, Tick;
    TickKeepsRest(m, r);
    var m1 := Tick(m, r);
    FailedCommitKeepsFile(cfg, m1, Live(m1.registry, m1.highWater) - ids, m1.highWater);
  }

  lemma FailedGenerateKeepsFile(cfg: Config, m: Manager, login: Login, r: Reading)
    ensures Generate(cfg, m, login, r, WriteFailed).0.disk == m.disk
  {
    hide FirstFresh, Commit, WithinLimits, SessionsOf, Truncate, Sign, NewRecord, Live, Tick, ValidUser;
    TickKeepsRest(m, r);
    var m1 := Tick(m, r);
    var now := Truncate(m1.highWater);
    var live := Live(m1.registry, now);
    var found := FirstFresh(login.candidates, live, MAX_ID_ATTEMPTS);
    if found.Some? {
      var record := NewRecord(cfg, login.user.id, Truncate(now + login.refreshDuration), now);
      FailedCommitKeepsFile(cfg, m1, live[found.value := record], now);
    }
  }

  lemma FailedPrepareKeepsFile(cfg: Config, m: Manager, r: Reading)
    ensures Prepare(cfg, m, r, WriteFailed).0.disk == m.disk
  {
    hide Commit, Tick, Live;
    TickKeepsRest(m, r);
    var m1 := Tick(m, r);
    FailedCommitKeepsFile(cfg, m1, Live(m1.registry, m1.highWater), m1.highWater);
  }

  lemma FailedConsumeKeepsFile(cfg: Config, m: Manager, claims: RefreshClaims, r: Reading)
    ensures Consume(cfg, m, claims, r, WriteFailed).0.disk == m.disk
  {
    hide Commit, Tick, Rotated, WellFormedRefresh;
    TickKeepsRest(m, r);
    var m1 := Tick(m, r);
    if claims.sessionId in m1.registry {
      var registry := m1.registry[claims.sessionId := Rotated(m1.registry[claims.sessionId], claims, m1.highWater)];
      FailedCommitKeepsFile(cfg, m1, registry, m1.highWater);
    }
  }

  lemma FailedEnableKeepsFile(cfg: Config, disk: Option<Snapshot>, first: Reading, second: Reading)
    ensures var (m, result) := Enable(cfg, Fresh(disk), first, second, WriteFailed); m.disk == disk && result.Err?
  {
    hide WithinLimits, Loadable, Live;
  }

  /** A write that fails, and no write at all, leave the file alone. */
  lemma FailedStepKeepsFile(cfg: Config, w: World, e: Event)
    ensures e.Stop? || e.outcome.WriteFailed? ==> Step(cfg, w, e).sys.Disk() == w.sys.Disk() && !Wrote(cfg, w, e)
  {
    hide Prepare, Generate, Consume, Drop, Tick, Enable;
    if e.Start? {
      FailedEnableKeepsFile(cfg, w.sys.Disk(), e.first, e.second);
    } else if w.sys.Up? {
      var m := w.sys.manager;
      match e
      case PrepareTime(r, _) => FailedPrepareKeepsFile(cfg, m, r);
      case LogIn(login, r, _) => FailedGenerateKeepsFile(cfg, m, login, r);
      case Rotate(claims, r, _) => FailedConsumeKeepsFile(cfg, m, claims, r);
      case RevokeAll(sessions, r, _) => FailedDropKeepsFile(cfg, m, r, sessions.Keys);
      case RevokeByUser(userId, r, _) =>
        TickKeepsRest(m, r);
        FailedDropKeepsFile(cfg, m, r, SessionsOf(m.registry, userId));
      case CleanUp(r, _) => FailedDropKeepsFile(cfg, m, r, {});
      case Stop =>
    }
  }

  lemma ConfirmedIncidentIsStep(cfg: Config, s: Storage, i: Incident)
    requires s.durable == s.world.sys.Disk() && MayHappen(cfg, s, i)
    requires i.Happens? && !i.e.Stop? ==> !i.e.outcome.WrittenWithWarning?
    ensures var e := if i.Happens? then i.e else Stop;
            var s' := Next(cfg, s, i);
            s'.world == Step(cfg, s.world, e) && s'.durable == s'.world.sys.Disk() && Possible(cfg, s.world, e)
  {
    if i.Happens? {
      FailedStepKeepsFile(cfg, s.world, i.e);
      hide Step;
    }
  }

  /** Where no write is left unconfirmed, power losses are no worse than stops: the run ends as
      the one with stops in their place, so all that holds of those holds of it. */
  lemma {:induction false} ConfirmedRunsAreRuns(cfg: Config, s: Storage, run: seq<Incident>)
    requires s.durable == s.world.sys.Disk() && CanRun(cfg, s, run) && NeverUnconfirmed(run)
    ensures PossibleRun(cfg, s.world, WithoutLosses(run))
    ensures After(cfg, s, run).world == Run(cfg, s.world, WithoutLosses(run))
    decreases |run|
  {
    hide Next, Step, MayHappen, Possible;
    if run != [] {
      ConfirmedIncidentIsStep(cfg, s, run[0]);
      assert forall i :: 0 <= i < |run[1..]| ==> run[1..][i] == run[i + 1];
      ConfirmedRunsAreRuns(cfg, Next(cfg, s, run[0]), run[1..]);
      assert WithoutLosses(run)[1..] == WithoutLosses(run[1..]);
    }
  }
}
