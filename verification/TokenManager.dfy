/** The token manager itself: fields updated in place, removed sessions put back
    when a write fails. Each method is proved to do what TokenRegistry says. */
module TokenManagement {
  import opened Common
  import opened TokenRegistry
  import TokenRuns
  import opened TokenValidity

  class TokenManager {
    const cfg: Config
    var registry: Registry
    var persistent: bool
    var highWater: Time
    var observedAt: Time
    var floor: Time
    /** The session file, as a restart would find it. */
    var disk: Option<Snapshot>

    ghost function Value(): Manager
      reads this
    {
      Manager(registry, persistent, highWater, observedAt, floor, disk)
    }

    constructor (cfg: Config, disk: Option<Snapshot>)
      ensures Value() == Fresh(disk) && this.cfg == cfg
    {
      this.cfg := cfg;
      registry := map[];
      persistent := false;
      highWater, observedAt, floor := 0, 0, 0;
      this.disk := disk;
    }

    method EffectiveNow(r: Reading) returns (now: Time)
      modifies this`highWater, this`observedAt
      ensures Value() == Tick(old(Value()), r) && now == highWater
    {
      if highWater == 0 {
        highWater := r.wall;
      } else if observedAt != 0 && r.mono > observedAt {
        highWater := highWater + (r.mono - observedAt);
      }
      if r.wall > highWater {
        highWater := r.wall;
      }
      observedAt := r.mono;
      now := highWater;
    }

    method ExtendRestartTimeLease(now: Time)
      modifies this`floor
      ensures Value() == ExtendLease(cfg, old(Value()), now)
    {
      if !persistent || cfg.lease <= 0 {
        return;
      }
      var candidate := now + cfg.lease;
      if candidate > floor {
        floor := candidate;
      }
    }

    method PersistState(outcome: WriteOutcome) returns (written: WriteOutcome)
      modifies this`disk
      ensures (Value(), written) == Persist(old(Value()), outcome)
    {
      if !persistent {
        return Written;
      }
      if floor == 0 || |registry| > MAX_TRACKED_SESSIONS {
        return WriteFailed;
      }
      if !outcome.WriteFailed? {
        disk := Some(Snapshot(floor, registry));
      }
      written := outcome;
    }

    /** Deletes the expired sessions and returns them, so that they can be put back. */
    method CleanupExpired(now: Time) returns (removed: Registry)
      modifies this`registry
      ensures registry == Live(old(registry), now) == Live(registry, now)
      ensures registry + removed == old(registry)
      ensures removed == map[] <==> registry == old(registry)
    {
      removed := map[];
      var pending := registry.Keys;
      while pending != {}
        invariant pending <= registry.Keys && registry.Keys + removed.Keys == old(registry).Keys
        invariant registry.Keys !! removed.Keys
        invariant forall id :: id in registry ==> registry[id] == old(registry)[id]
        invariant forall id :: id in removed ==> removed[id] == old(registry)[id]
        invariant forall id :: id in removed ==> removed[id].expiresAt <= now
        invariant forall id :: id in registry && id !in pending ==> registry[id].expiresAt > now
        decreases pending
      {
        var id :| id in pending;
        if registry[id].expiresAt <= now {
          removed := removed[id := registry[id]];
          registry := registry - {id};
        }
        pending := pending - {id};
      }
      assert registry + removed == old(registry);
    }

    method RestoreRemoved(removed: Registry)
      modifies this`registry
      ensures registry == old(registry) + removed
    {
      var pending := removed.Keys;
      while pending != {}
        invariant pending <= removed.Keys
        invariant registry.Keys == old(registry).Keys + (removed.Keys - pending)
        invariant forall id :: id in registry ==>
          registry[id] == if id in removed && id !in pending then removed[id] else old(registry)[id]
        decreases pending
      {
        var id :| id in pending;
        registry := registry[id := removed[id]];
        pending := pending - {id};
      }
    }

    method ActiveSessionCount(now: Time) returns (count: nat)
      ensures count == |Live(registry, now)|
    {
      count := 0;
      var pending := registry.Keys;
      ghost var all := Live(registry, now).Keys;
      assert all - pending == {};
      while pending != {}
        invariant pending <= registry.Keys
        invariant count == |all - pending|
        decreases pending
      {
        var id :| id in pending;
        CountOne(all, pending, id);
        if registry[id].expiresAt > now {
          count := count + 1;
        }
        pending := pending - {id};
      }
      assert all - {} == all;
    }

    method ActiveSessionCountForUser(userId: string, now: Time) returns (count: nat)
      ensures count == |SessionsOf(Live(registry, now), userId)|
    {
      count := 0;
      var pending := registry.Keys;
      ghost var all := SessionsOf(Live(registry, now), userId);
      assert all - pending == {};
      while pending != {}
        invariant pending <= registry.Keys
        invariant count == |all - pending|
        decreases pending
      {
        var id :| id in pending;
        CountOne(all, pending, id);
        if registry[id].userId == userId && registry[id].expiresAt > now {
          count := count + 1;
        }
        pending := pending - {id};
      }
      assert all - {} == all;
    }

    /** Counts sessions per user as it goes and stops at the first excess. */
    method ValidateActiveSessionLimits(now: Time) returns (ok: bool)
      ensures ok <==> WithinLimits(cfg, Live(registry, now))
    {
      hide Counted, SessionsOf, WithinLimits;
      ghost var live := Live(registry, now);
      LimitsByCount(cfg, live);
      var active := ActiveSessionCount(now);
      if active > cfg.sessionLimit {
        return false;
      }
      var perUser: map<string, nat> := map[];
      var pending := registry.Keys;
      NothingCounted(live, pending);
      while pending != {}
        invariant pending <= registry.Keys
        invariant forall u :: Counted(live, pending, u) == if u in perUser then perUser[u] else 0
        invariant forall u :: u in perUser ==> 0 < perUser[u] <= cfg.userLimit
        decreases pending
      {
        var id :| id in pending;
        var user := registry[id].userId;
        CountOnePerUser(live, pending, id);
        pending := pending - {id};
        if registry[id].expiresAt > now {
          var count := (if user in perUser then perUser[user] else 0) + 1;
          if count > cfg.userLimit {
            MoreToCount(live, pending, user);
            return false;
          }
          perUser := perUser[user := count];
        }
      }
      ok := true;
    }

    method PrepareValidationTime(r: Reading, outcome: WriteOutcome) returns (result: Result<Time>)
      modifies this
      ensures (Value(), result) == Prepare(cfg, old(Value()), r, outcome)
    {
      hide Tick, Max;
      TokenRuns.TickKeepsRest(Value(), r);
      var now := EffectiveNow(r);
      if !persistent {
        return Ok(now, false);
      }
      if cfg.lease <= 0 || cfg.renewalLead < 0 || cfg.renewalLead >= cfg.lease {
        return Err(StateUnavailable);
      }
      if floor != 0 && now + cfg.renewalLead < floor {
        return Ok(now, false);
      }
      var previousFloor := floor;
      var removed := CleanupExpired(now);
      ExtendRestartTimeLease(now);
      var written := PersistState(outcome);
      if !written.WriteFailed? {
        return Ok(now, false);
      }
      floor := previousFloor;
      RestoreRemoved(removed);
      if previousFloor == 0 || now >= previousFloor {
        return Err(StateUnavailable);
      }
      result := Ok(now, false);
    }

    method GenerateUniqueSessionId(candidates: seq<Option<string>>) returns (found: Option<string>)
      ensures found == FirstFresh(candidates, registry, MAX_ID_ATTEMPTS)
    {
      for attempt := 0 to MAX_ID_ATTEMPTS
        invariant attempt <= |candidates|
        invariant FirstFresh(candidates, registry, MAX_ID_ATTEMPTS)
               == FirstFresh(candidates[attempt..], registry, MAX_ID_ATTEMPTS - attempt)
      {
        if attempt == |candidates| || candidates[attempt].None? {
          return None;
        }
        if candidates[attempt].value !in registry {
          return candidates[attempt];
        }
      }
      found := None;
    }

    method GenerateTokenPair(login: Login, r: Reading, outcome: WriteOutcome) returns (result: Result<TokenPair>)
      modifies this
      ensures (Value(), result) == Generate(cfg, old(Value()), login, r, outcome)
    {
      hide Commit, FirstFresh, Sign, SessionsOf, NewRecord, Live, Truncate, Tick, ValidUser;
      if !ValidUser(login.user) {
        return Err(InvalidToken);
      }
      var effective := EffectiveNow(r);
      ghost var before := Value();
      var now := Truncate(effective);
      var removed := CleanupExpired(now);
      assert Value().(registry := registry + removed) == before;
      var active := ActiveSessionCount(now);
      var activeForUser := ActiveSessionCountForUser(login.user.id, now);
      if active >= cfg.sessionLimit || activeForUser >= cfg.userLimit {
        RestoreRemoved(removed);
        return Err(SessionLimit);
      }
      var found := GenerateUniqueSessionId(login.candidates);
      if found.None? {
        RestoreRemoved(removed);
        return Err(RandomSource);
      }
      var id := found.value;
      var expiresAt := Truncate(now + login.refreshDuration);
      if expiresAt <= now {
        RestoreRemoved(removed);
        return Err(TokenExpired);
      }
      var pair := Sign(login.user, id, expiresAt, 0, id, now, login.accessDuration);
      UnusedId(login.candidates, registry, MAX_ID_ATTEMPTS);
      var written := RegisterSession(id, NewRecord(cfg, login.user.id, expiresAt, now), removed, now, outcome);
      result := if written.WriteFailed? then Err(PersistFailed) else Ok(pair, written.WrittenWithWarning?);
    }

    /** The end of a login: the new session goes in force, or the removed ones come back. */
    method RegisterSession(id: string, record: Record, removed: Registry, now: Time, outcome: WriteOutcome)
      returns (written: WriteOutcome)
      requires id !in registry
      modifies this
      ensures var before := old(Value()).(registry := old(registry) + removed);
              (Value(), written) == Commit(cfg, before, old(registry)[id := record], now, outcome)
    {
      var previousFloor := floor;
      ghost var live := registry;
      registry := registry[id := record];
      ExtendRestartTimeLease(now);
      written := PersistState(outcome);
      if written.WriteFailed? {
        registry := registry - {id};
        assert registry == live;
        RestoreRemoved(removed);
        floor := previousFloor;
      }
    }

    method ConsumeRefreshToken(claims: RefreshClaims, r: Reading, outcome: WriteOutcome) returns (result: Result<()>)
      modifies this
      ensures (Value(), result) == Consume(cfg, old(Value()), claims, r, outcome)
    {
      if !WellFormedRefresh(claims) {
        return Err(InvalidToken);
      }
      var now := EffectiveNow(r);
      if claims.expiresAt.value <= now {
        return Err(TokenExpired);
      }
      var check := CheckRefresh(registry, claims, now);
      if check.Err? {
        return check;
      }
      if claims.generation == MAX_GENERATION {
        return Err(InvalidToken);
      }
      var previous := registry[claims.sessionId];
      if cfg.rotation > 0 && now < previous.lastRotated + cfg.rotation {
        return Err(RateLimited);
      }
      ghost var before := registry;
      registry := registry[claims.sessionId := Rotated(previous, claims, now)];
      var previousFloor := floor;
      ExtendRestartTimeLease(now);
      var written := PersistState(outcome);
      if written.WriteFailed? {
        registry := registry[claims.sessionId := previous];
        assert registry == before;
        floor := previousFloor;
        return Err(PersistFailed);
      }
      result := Ok((), written.WrittenWithWarning?);
    }

    /** Removes the listed sessions that exist and returns them. */
    method RemoveSessions(ids: set<string>) returns (removed: Registry)
      modifies this`registry
      ensures registry == old(registry) - ids
      ensures registry + removed == old(registry)
      ensures removed == map[] <==> registry == old(registry)
    {
      removed := map[];
      var pending := ids;
      while pending != {}
        invariant pending <= ids
        invariant registry == old(registry) - (ids - pending)
        invariant removed.Keys == old(registry).Keys * (ids - pending)
        invariant forall id :: id in removed ==> removed[id] == old(registry)[id]
        decreases pending
      {
        var id :| id in pending;
        if id in registry {
          removed := removed[id := registry[id]];
          registry := registry - {id};
        }
        pending := pending - {id};
      }
      assert registry + removed == old(registry);
    }

    /** The common end of every removal: write once, or put everything back. */
    method CommitRemoval(ids: set<string>, outcome: WriteOutcome) returns (result: Result<()>)
      modifies this
      ensures (Value(), result) == Drop(cfg, old(Value()), ids, outcome)
    {
      hide Live, Persist, ExtendLease;
      var now := highWater;
      ghost var before := registry;
      var removedExpired := CleanupExpired(now);
      ghost var live := registry;
      var removedRequested := RemoveSessions(ids);
      NothingRemovedTwice(before, live, ids, now);
      assert registry == Live(before, now) - ids && registry + removedRequested + removedExpired == before;
      if removedExpired == map[] && removedRequested == map[] {
        return Ok((), false);
      }
      var previousFloor := floor;
      var written := LeaseAndPersist(now, outcome);
      if written.WriteFailed? {
        RestoreRemoved(removedRequested);
        RestoreRemoved(removedExpired);
        floor := previousFloor;
        return Err(PersistFailed);
      }
      result := Ok((), written.WrittenWithWarning?);
    }

    method RevokeSessions(sessions: map<string, Time>, r: Reading, outcome: WriteOutcome) returns (result: Result<()>)
      modifies this
      ensures (Value(), result) == Revoke(cfg, old(Value()), sessions, r, outcome)
    {
      if |sessions| == 0 {
        return Ok((), false);
      }
      if !ValidRevocation(sessions) {
        return Err(InvalidToken);
      }
      var _ := EffectiveNow(r);
      result := CommitRemoval(sessions.Keys, outcome);
    }

    method RevokeByUser(userId: string, r: Reading, outcome: WriteOutcome) returns (result: Result<()>)
      modifies this
      ensures (Value(), result) == RevokeUser(cfg, old(Value()), userId, r, outcome)
    {
      if userId == "" {
        return Err(InvalidToken);
      }
      var _ := EffectiveNow(r);
      result := CommitRemoval(SessionsOf(registry, userId), outcome);
    }

    method CleanupExpiredSessions(r: Reading, outcome: WriteOutcome) returns (result: Result<()>)
      modifies this
      ensures (Value(), result) == Cleanup(cfg, old(Value()), r, outcome)
    {
      var _ := EffectiveNow(r);
      result := CommitRemoval({}, outcome);
    }

    /** Merges the loaded sessions one by one and stops at the first that differs from memory. */
    method AdoptSessions(sessions: Registry) returns (conflict: bool)
      modifies this`registry
      ensures conflict <==> Conflicts(old(registry), sessions)
      ensures !conflict ==> registry == old(registry) + sessions
    {
      var pending := sessions.Keys;
      while pending != {}
        invariant pending <= sessions.Keys
        invariant registry == old(registry) + (sessions - pending)
        invariant forall id :: id in sessions && id !in pending && id in old(registry) ==> old(registry)[id] == sessions[id]
        decreases pending
      {
        var id :| id in pending;
        if id in registry && registry[id] != sessions[id] {
          assert id in old(registry) && old(registry)[id] != sessions[id];
          return true;
        }
        registry := registry[id := sessions[id]];
        pending := pending - {id};
      }
      assert sessions - {} == sessions;
      conflict := false;
    }

    /** Takes over sessions, floor and clock of the loaded state. */
    method AdoptState(state: Snapshot, first: Reading, second: Reading) returns (conflict: bool)
      modifies this
      ensures disk == old(disk)
      ensures conflict <==> Conflicts(old(registry), state.sessions)
      ensures !conflict ==> Value() == Adopted(old(Value()), state, first, second)
    {
      persistent := true;
      conflict := AdoptSessions(state.sessions);
      if conflict {
        return;
      }
      if state.floor > highWater {
        highWater := state.floor;
      }
      if state.floor > floor {
        floor := state.floor;
      }
      if first.wall > highWater {
        highWater := first.wall;
      }
      observedAt := first.mono;
      var _ := EffectiveNow(second);
    }

    /** Extends the lease and writes the file; a failed write leaves the file alone. */
    method LeaseAndPersist(now: Time, outcome: WriteOutcome) returns (written: WriteOutcome)
      modifies this`floor, this`disk
      ensures (Value(), written) == Persist(ExtendLease(cfg, old(Value()), now), outcome)
      ensures written.WriteFailed? ==> disk == old(disk)
    {
      ExtendRestartTimeLease(now);
      written := PersistState(outcome);
    }

    /** Every failure puts path, sessions, floor and clock back as they were. */
    method EnableSessionPersistence(first: Reading, second: Reading, outcome: WriteOutcome) returns (result: Result<()>)
      modifies this
      ensures (Value(), result) == Enable(cfg, old(Value()), first, second, outcome)
    {
      hide Live, WithinLimits, Loadable, Conflicts, Adopted, Persist, ExtendLease;
      if disk.Some? && !Loadable(disk.value) {
        return Err(LoadFailed);
      }
      var state := Loaded(disk);
      var previous := (persistent, registry, floor, highWater, observedAt);
      var conflict := AdoptState(state, first, second);
      if conflict {
        RestoreEnable(previous);
        return Err(SessionConflict);
      }
      var _ := CleanupExpired(highWater);
      var withinLimits := ValidateActiveSessionLimits(highWater);
      if !withinLimits {
        RestoreEnable(previous);
        return Err(SessionLimit);
      }
      var written := LeaseAndPersist(highWater, outcome);
      if written.WriteFailed? {
        RestoreEnable(previous);
        return Err(PersistFailed);
      }
      result := Ok((), written.WrittenWithWarning?);
    }

    method RestoreEnable(previous: (bool, Registry, Time, Time, Time))
      modifies this
      ensures Value() == Manager(previous.1, previous.0, previous.3, previous.4, previous.2, old(disk))
    {
      persistent := previous.0;
      registry := previous.1;
      floor := previous.2;
      highWater := previous.3;
      observedAt := previous.4;
    }

    /** The second locked section of a validation: the session behind claims that have passed
        all other checks at the prepared time. */
    method LookUpSession(claims: AccessClaims, now: Time) returns (verdict: Result<AccessClaims>)
      requires !ExpiredClaims(claims, now) && ProperClaims(claims, now)
      ensures verdict == CheckAccess(registry, Some(claims), now)
    {
      if claims.sessionId !in registry {
        return Err(TokenRevoked);
      }
      var record := registry[claims.sessionId];
      if record.userId != claims.userId || record.expiresAt != claims.sessionExpiresAt.value {
        return Err(InvalidToken);
      }
      if record.expiresAt <= now {
        return Err(TokenExpired);
      }
      verdict := Ok(claims, false);
    }

    /** A validation: a time the file covers, the checks of the claims at that time, and the
        session. Other requests may run between the two locked sections; nothing is carried
        over but the time and the claims. */
    method ValidateAccessToken(token: Option<AccessClaims>, r: Reading, outcome: WriteOutcome)
      returns (verdict: Result<AccessClaims>)
      modifies this
      ensures var (m, time) := Prepare(cfg, old(Value()), r, outcome);
              && Value() == m
              && verdict == if time.Ok? then CheckAccess(m.registry, token, time.value) else Err(time.error)
      ensures verdict.Ok? ==>
        var time := Prepare(cfg, old(Value()), r, outcome).1;
        && time.Ok? && token == Some(verdict.value) && verdict.value.expiresAt.Some?
        && time.value < verdict.value.expiresAt.value + 1_000_000_000
    {
      var time := PrepareValidationTime(r, outcome);
      if time.Err? {
        return Err(time.error);
      }
      if token.None? {
        return Err(InvalidToken);
      }
      if ExpiredClaims(token.value, time.value) {
        return Err(TokenExpired);
      }
      if !ProperClaims(token.value, time.value) {
        return Err(InvalidToken);
      }
      verdict := LookUpSession(token.value, time.value);
      AccessAcceptedExactlyWhen(registry, token.value, time.value);
    }
  }

  lemma CountOne(all: set<string>, pending: set<string>, id: string)
    requires id in pending
    ensures |all - (pending - {id})| == |all - pending| + (if id in all then 1 else 0)
  {
    assert all - (pending - {id}) == (all - pending) + (if id in all then {id} else {});
  }

  ghost function Counted(live: Registry, pending: set<string>, user: string): nat {
    |SessionsOf(live, user) - pending|
  }

  lemma CountOnePerUser(live: Registry, pending: set<string>, id: string)
    requires id in pending
    ensures forall u :: Counted(live, pending - {id}, u)
                     == Counted(live, pending, u) + (if id in live && live[id].userId == u then 1 else 0)
  {
    forall u {
      CountOne(SessionsOf(live, u), pending, id);
    }
  }

  lemma NothingCounted(live: Registry, pending: set<string>)
    requires live.Keys <= pending
    ensures forall u :: Counted(live, pending, u) == 0
  {
    assert forall u :: SessionsOf(live, u) - pending == {};
  }

  lemma MoreToCount(live: Registry, pending: set<string>, user: string)
    ensures Counted(live, pending, user) <= Counted(live, {}, user)
  {
    var all := SessionsOf(live, user);
    assert all - {} == (all - pending) + (all * pending);
  }

  /** The limits, in terms of the full count per user. */
  lemma LimitsByCount(cfg: Config, live: Registry)
    ensures WithinLimits(cfg, live) <==>
      |live| <= cfg.sessionLimit && forall u :: Counted(live, {}, u) > 0 ==> Counted(live, {}, u) <= cfg.userLimit
  {
    forall u
      ensures Counted(live, {}, u) == |SessionsOf(live, u)|
      ensures Counted(live, {}, u) > 0 ==> exists id :: id in live && live[id].userId == u
      ensures (exists id :: id in live && live[id].userId == u) ==> Counted(live, {}, u) > 0
    {
      assert SessionsOf(live, u) - {} == SessionsOf(live, u);
      if Counted(live, {}, u) > 0 {
        var id :| id in SessionsOf(live, u);
      }
      assert forall id :: id in live && live[id].userId == u ==> id in SessionsOf(live, u);
    }
  }

  /** Removing in two rounds changes nothing only if neither round removed anything. */
  lemma NothingRemovedTwice(before: Registry, live: Registry, ids: set<string>, now: Time)
    requires live == Live(before, now)
    ensures live - ids == before ==> live == before && live - ids == live
  {
    assert live - ids == before ==> live.Keys == before.Keys;
  }
}
