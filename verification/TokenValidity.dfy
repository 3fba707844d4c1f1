/** What the token manager accepts, hands out and leaves in its registry, in terms of times, names
    and records alone: who is let in, until when, and which sessions remain. */
module TokenValidity {
  import opened Common
  import opened TokenRegistry
  import opened TokenRuns

  // ----- Access tokens -----

  /** The claims of a well-signed access token are in order at a time: whose they are, and when. */
  predicate InOrder(claims: AccessClaims, now: Time) {
    && claims.issuer == "mnemonas"
    && claims.userId != "" && claims.subject == claims.userId
    && claims.username != "" && claims.id != ""
    && |claims.sessionId| == 32
    && (forall i :: 0 <= i < 32 ==> claims.sessionId[i] in "0123456789abcdef")
    && (claims.issuedAt.Some? ==> claims.issuedAt.value <= now + 1_000_000_000)
    && (claims.notBefore.Some? ==> claims.notBefore.value <= now + 1_000_000_000)
    && claims.expiresAt.Some? && now < claims.expiresAt.value + 1_000_000_000
    && claims.sessionExpiresAt.Some? && claims.expiresAt.value <= claims.sessionExpiresAt.value
  }

  lemma HexDigits(c: char)
    ensures IsLowerHex(c) <==> c in "0123456789abcdef"
  {
    var digits := "0123456789abcdef";
    if IsLowerHex(c) {
      var k := if c <= '9' then c as int - '0' as int else c as int - 'a' as int + 10;
      assert digits[k] == c;
    }
  }

  lemma InOrderMeansProper(claims: AccessClaims, now: Time)
    ensures InOrder(claims, now) <==> ProperClaims(claims, now) && !ExpiredClaims(claims, now)
  {
    hide IsLowerHex;
    forall i | 0 <= i < |claims.sessionId|
      ensures IsLowerHex(claims.sessionId[i]) <==> claims.sessionId[i] in "0123456789abcdef"
    {
      HexDigits(claims.sessionId[i]);
    }
  }

  /** A token is accepted if and only if its claims are in order at that time and its session is
      registered for the same account, to the same end, and not over; every other answer has its
      own cause, and a token at or past its own expiry, with a second's leeway, is expired. */
  lemma AccessAcceptedExactlyWhen(registry: Registry, claims: AccessClaims, now: Time)
    ensures var verdict := CheckAccess(registry, Some(claims), now);
            var id := claims.sessionId;
            && (verdict == Ok(claims, false) <==>
                  && InOrder(claims, now) && id in registry
                  && registry[id].userId == claims.userId && registry[id].expiresAt == claims.sessionExpiresAt.value
                  && now < registry[id].expiresAt)
            && (verdict == Err(TokenExpired) <==>
                  || (claims.expiresAt.Some? && now >= claims.expiresAt.value + 1_000_000_000)
                  || (InOrder(claims, now) && id in registry
                      && registry[id].userId == claims.userId && registry[id].expiresAt == claims.sessionExpiresAt.value
                      && registry[id].expiresAt <= now))
            && (verdict == Err(TokenRevoked) <==> InOrder(claims, now) && id !in registry)
            && (verdict == Ok(claims, false) || verdict == Err(TokenExpired) || verdict == Err(TokenRevoked)
                || verdict == Err(InvalidToken))
  {
    hide ProperClaims, ExpiredClaims, InOrder;
    InOrderMeansProper(claims, now);
    ExpiredAtItsEnd(claims, now);
    ProperHasTimes(claims, now);
  }

  /** A token that was not signed here is invalid, whatever it says. */
  lemma ForgedIsInvalid(registry: Registry, now: Time)
    ensures CheckAccess(registry, None, now) == Err(InvalidToken)
  {
  }

  lemma ExpiredAtItsEnd(claims: AccessClaims, now: Time)
    ensures ExpiredClaims(claims, now) <==> claims.expiresAt.Some? && now >= claims.expiresAt.value + 1_000_000_000
  {
  }

  lemma ProperHasTimes(claims: AccessClaims, now: Time)
    ensures ProperClaims(claims, now) ==> claims.sessionExpiresAt.Some?
    ensures InOrder(claims, now) ==> claims.sessionExpiresAt.Some?
  {
  }

  /** In any run, once a validation time a second past the expiry of a token was handed out, that
      token is answered as expired at this and every later one, whatever session is registered. */
  lemma TokenEndsOnTime(cfg: Config, events: seq<Event>, i: nat, j: nat, registry: Registry, claims: AccessClaims)
    requires PossibleRun(cfg, Initial, events)
    requires i <= j < |Run(cfg, Initial, events).prepared|
    requires claims.expiresAt.Some?
    requires Run(cfg, Initial, events).prepared[i] >= claims.expiresAt.value + 1_000_000_000
    ensures CheckAccess(registry, Some(claims), Run(cfg, Initial, events).prepared[j]) == Err(TokenExpired)
  {
    hide InOrder, CheckAccess, PossibleRun, Run;
    ValidationTimeNeverGoesBack(cfg, events, i, j);
    AccessAcceptedExactlyWhen(registry, claims, Run(cfg, Initial, events).prepared[j]);
  }

  // ----- Tokens that are handed out -----

  /** The pair says whose it is and ends on time: issued at `now`, the access token ends after its
      own duration or with the session, whichever is first, in whole seconds. */
  predicate PairSays(pair: TokenPair, u: User, id: string, end: Time, generation: nat, now: Time, duration: Time) {
    var access, refresh := pair.access, pair.refresh;
    && access.issuer == refresh.issuer == "mnemonas"
    && access.subject == access.userId == refresh.subject == u.id
    && access.username == u.username && access.role == u.role
    && access.credentialVersion == refresh.credentialVersion == u.credentialVersion
    && access.sessionId == refresh.sessionId == id
    && refresh.generation == generation
    && access.issuedAt == access.notBefore == refresh.issuedAt == refresh.notBefore == Some(now)
    && access.sessionExpiresAt == refresh.expiresAt == Some(end)
    && access.expiresAt.Some? && access.expiresAt.value % 1_000_000_000 == 0
    && (now + duration <= end ==> now + duration - 1_000_000_000 < access.expiresAt.value <= now + duration)
    && (now + duration > end ==> end - 1_000_000_000 < access.expiresAt.value <= end)
    && refresh.id == access.id + "-refresh"
  }

  lemma SignedPairSays(u: User, id: string, end: Time, generation: nat, tokenId: string, now: Time, duration: Time)
    ensures var pair := Sign(u, id, end, generation, tokenId, now, duration);
            PairSays(pair, u, id, end, generation, now, duration) && pair.access.id == tokenId
  {
  }

  lemma WholeSeconds(t: Time)
    ensures Truncate(t) % 1_000_000_000 == 0 && Truncate(t) <= t < Truncate(t) + 1_000_000_000
    ensures t % 1_000_000_000 == 0 ==> Truncate(t) == t
    ensures t >= 0 ==> Truncate(t) >= 0
  {
  }

  /** What a successful login hands out and registers: the account's own pair, issued at the
      second of the effective clock, for a new session of generation zero that ends after the
      refresh duration and may rotate at once. */
  lemma LoginHandsOut(cfg: Config, m: Manager, login: Login, r: Reading, outcome: WriteOutcome)
    requires Generate(cfg, m, login, r, outcome).1.Ok?
    ensures var (m', result) := Generate(cfg, m, login, r, outcome);
            var id := result.value.refresh.sessionId;
            && id in m'.registry
            && var now, end := Truncate(m'.highWater), m'.registry[id].expiresAt;
               && PairSays(result.value, login.user, id, end, 0, now, login.accessDuration)
               && result.value.access.id == id
               && now <= m'.highWater < now + 1_000_000_000
               && end % 1_000_000_000 == 0 && end <= now + login.refreshDuration < end + 1_000_000_000 && now < end
               && m'.registry[id].userId == login.user.id && m'.registry[id].nextGeneration == 0
               && m'.registry[id].lastRotated + (if cfg.rotation > 0 then cfg.rotation else 0) == now
  {
    hide Generate, FirstFresh, Live, PairSays, Sign, Truncate;
    AcceptedLogin(cfg, m, login, r, outcome);
    AcceptedLoginEnds(cfg, m, login, r, outcome);
    var (m', result) := Generate(cfg, m, login, r, outcome);
    var now := Truncate(m'.highWater);
    var end := Truncate(now + login.refreshDuration);
    var id := FirstFresh(login.candidates, Live(m.registry, now), MAX_ID_ATTEMPTS).value;
    SignedPairSays(login.user, id, end, 0, id, now, login.accessDuration);
    assert id == result.value.refresh.sessionId by {
      SignedFor(login.user, id, end, 0, id, now, login.accessDuration);
    }
    WholeSeconds(m'.highWater);
    WholeSeconds(now + login.refreshDuration);
  }

  lemma SignedFor(u: User, id: string, end: Time, generation: nat, tokenId: string, now: Time, duration: Time)
    ensures Sign(u, id, end, generation, tokenId, now, duration).refresh.sessionId == id
  {
  }

  lemma AcceptedLoginEnds(cfg: Config, m: Manager, login: Login, r: Reading, outcome: WriteOutcome)
    requires Generate(cfg, m, login, r, outcome).1.Ok?
    ensures var now := Truncate(Generate(cfg, m, login, r, outcome).0.highWater);
            now < Truncate(now + login.refreshDuration) && ValidUser(login.user)
  {
    hide FirstFresh, Live, WithinLimits, SessionsOf, Truncate, Sign, NewRecord, ValidUser;
    TickKeepsRest(m, r);
  }

  /** The access token of a pair is accepted from a second before it was issued to a second after
      its expiry, as long as the session lasts, and at no other time. */
  lemma PairAcceptedExactlyWhen(registry: Registry, pair: TokenPair, u: User, id: string, end: Time, generation: nat,
                                issued: Time, duration: Time, now: Time)
    requires PairSays(pair, u, id, end, generation, issued, duration) && ValidUser(u) && ValidSessionId(id)
    requires pair.access.id != "" && id in registry && registry[id].userId == u.id && registry[id].expiresAt == end
    ensures CheckAccess(registry, Some(pair.access), now).Ok? <==>
              issued - 1_000_000_000 <= now < pair.access.expiresAt.value + 1_000_000_000 && now < end
  {
  }

  // ----- Logins -----

  /** The sessions of a registry that are not over at a time, and those of one account. */
  function Unexpired(registry: Registry, now: Time): set<string> {
    set id | id in registry && now < registry[id].expiresAt
  }

  function UnexpiredOf(registry: Registry, now: Time, userId: string): set<string> {
    set id | id in registry && now < registry[id].expiresAt && registry[id].userId == userId
  }

  lemma LiveIsUnexpired(registry: Registry, now: Time, userId: string)
    ensures Live(registry, now).Keys == Unexpired(registry, now)
    ensures forall id :: id in Live(registry, now) ==> Live(registry, now)[id] == registry[id]
    ensures SessionsOf(Live(registry, now), userId) == UnexpiredOf(registry, now, userId)
  {
  }

  /** A usable identifier is among the first candidates: all before it are in use, none was missing. */
  predicate UsableAt(candidates: seq<Option<string>>, taken: set<string>, attempts: nat, n: nat) {
    && n < attempts && n < |candidates|
    && (forall i :: 0 <= i < n ==> candidates[i].Some? && candidates[i].value in taken)
    && candidates[n].Some? && candidates[n].value !in taken
  }

  lemma {:induction false} FirstFreshExactly(candidates: seq<Option<string>>, registry: Registry, attempts: nat)
    ensures var found := FirstFresh(candidates, registry, attempts);
            && (found.Some? ==> exists n: nat :: UsableAt(candidates, registry.Keys, attempts, n) && candidates[n] == found)
            && (forall n: nat :: UsableAt(candidates, registry.Keys, attempts, n) ==> found == candidates[n])
    decreases attempts
  {
    var found := FirstFresh(candidates, registry, attempts);
    if attempts > 0 && candidates != [] && candidates[0].Some? && candidates[0].value in registry {
      FirstFreshExactly(candidates[1..], registry, attempts - 1);
      forall n: nat | UsableAt(candidates, registry.Keys, attempts, n)
        ensures found == candidates[n]
      {
        assert n > 0;
        assert UsableAt(candidates[1..], registry.Keys, attempts - 1, n - 1);
      }
      if found.Some? {
        var n: nat :| UsableAt(candidates[1..], registry.Keys, attempts - 1, n) && candidates[1..][n] == found;
        assert UsableAt(candidates, registry.Keys, attempts, n + 1) && candidates[n + 1] == found;
      }
    } else if found.Some? {
      assert UsableAt(candidates, registry.Keys, attempts, 0) && candidates[0] == found;
    }
  }

  /** A login succeeds if and only if the account is proper, both limits leave room among the
      sessions not over yet, an unused identifier was drawn in time, the session would not end
      before it starts, and the file can be written; each refusal has its own cause. */
  lemma LoginAcceptedExactlyWhen(cfg: Config, m: Manager, login: Login, r: Reading, outcome: WriteOutcome)
    requires ManagerOk(cfg, m)
    ensures var result := Generate(cfg, m, login, r, outcome).1;
            var now := Truncate(Tick(m, r).highWater);
            var taken := Unexpired(m.registry, now);
            var proper := 0 < |login.user.id| <= 256 && login.user.username != "";
            var room := |taken| < cfg.sessionLimit && |UnexpiredOf(m.registry, now, login.user.id)| < cfg.userLimit;
            var drawn := exists n: nat :: UsableAt(login.candidates, taken, 32, n);
            var lasts := now < Truncate(now + login.refreshDuration);
            && (result.Ok? <==> proper && room && drawn && lasts && |taken| < 4096 && !outcome.WriteFailed?)
            && (result.Ok? ==> result.warned == outcome.WrittenWithWarning?)
            && (result == Err(InvalidToken) <==> !proper)
            && (result == Err(SessionLimit) <==> proper && !room)
            && (result == Err(RandomSource) <==> proper && room && !drawn)
            && (result == Err(TokenExpired) <==> proper && room && drawn && !lasts)
  {
    hide Live, WithinLimits, SessionsOf, Truncate, Sign, FirstFresh, UsableAt, Unexpired, UnexpiredOf, Loadable,
         Tick, Commit, NewRecord;
    TickKeepsRest(m, r);
    TickKeepsOk(cfg, m, r);
    var m1 := Tick(m, r);
    var now := Truncate(m1.highWater);
    var live := Live(m1.registry, now);
    LiveIsUnexpired(m.registry, now, login.user.id);
    SizesOfLive(m.registry, now);
    DrawnExactlyWhen(login.candidates, live, Unexpired(m.registry, now));
    var found := FirstFresh(login.candidates, live, MAX_ID_ATTEMPTS);
    WholeSeconds(m1.highWater);
    if found.Some? {
      UnusedId(login.candidates, live, MAX_ID_ATTEMPTS);
      var record := NewRecord(cfg, login.user.id, Truncate(now + login.refreshDuration), now);
      UnusedAdds(live, found.value, record);
      CommitFailsExactlyWhen(cfg, m1, live[found.value := record], now, outcome);
    }
  }

  lemma UnusedId(candidates: seq<Option<string>>, registry: Registry, attempts: nat)
    requires FirstFresh(candidates, registry, attempts).Some?
    ensures FirstFresh(candidates, registry, attempts).value !in registry
  {
    FirstFreshExactly(candidates, registry, attempts);
  }

  lemma DrawnExactlyWhen(candidates: seq<Option<string>>, live: Registry, taken: set<string>)
    requires taken == live.Keys
    ensures FirstFresh(candidates, live, MAX_ID_ATTEMPTS).Some? <==> exists n: nat :: UsableAt(candidates, taken, 32, n)
  {
    hide UsableAt, FirstFresh;
    FirstFreshExactly(candidates, live, MAX_ID_ATTEMPTS);
    UsableIsSome(candidates, taken);
  }

  lemma UsableIsSome(candidates: seq<Option<string>>, taken: set<string>)
    ensures forall n: nat :: UsableAt(candidates, taken, 32, n) ==> n < |candidates| && candidates[n].Some?
  {
  }

  lemma SizesOfLive(registry: Registry, now: Time)
    ensures |Live(registry, now)| == |Unexpired(registry, now)|
  {
    assert Live(registry, now).Keys == Unexpired(registry, now);
  }

  lemma UnusedAdds(live: Registry, id: string, record: Record)
    requires id !in live
    ensures |live[id := record]| == |live| + 1
  {
    assert live[id := record].Keys == live.Keys + {id};
  }

  lemma CommitFailsExactlyWhen(cfg: Config, m: Manager, registry: Registry, now: Time, outcome: WriteOutcome)
    requires ManagerOk(cfg, m) && now >= 0
    ensures Commit(cfg, m, registry, now, outcome).1 == if |registry| > 4096 then WriteFailed else outcome
  {
    hide WithinLimits, ValidRecord;
  }

  // ----- Refresh tokens -----

  /** The refresh token is for this session, by its account and to its end. */
  predicate ForSession(registry: Registry, claims: RefreshClaims) {
    && claims.sessionId in registry && claims.expiresAt.Some?
    && registry[claims.sessionId].userId == claims.subject
    && registry[claims.sessionId].expiresAt == claims.expiresAt.value
  }

  /** A well-formed refresh token passes at a time if and only if it is for a session that is not
      over and has the session's next generation; a smaller one was used before. */
  lemma RefreshAcceptedExactlyWhen(registry: Registry, claims: RefreshClaims, now: Time)
    requires claims.expiresAt.Some?
    ensures var answer := CheckRefresh(registry, claims, now);
            var lasting := ForSession(registry, claims) && now < claims.expiresAt.value;
            && (answer.Ok? <==> lasting && claims.generation == registry[claims.sessionId].nextGeneration)
            && (answer == Err(TokenReused) <==> lasting && claims.generation < registry[claims.sessionId].nextGeneration)
            && (answer == Err(TokenRevoked) <==> claims.sessionId !in registry)
            && (answer == Err(TokenExpired) <==> ForSession(registry, claims) && claims.expiresAt.value <= now)
            && (answer == Err(InvalidToken) <==>
                  (claims.sessionId in registry && !ForSession(registry, claims))
                  || (lasting && claims.generation > registry[claims.sessionId].nextGeneration))
  {
  }

  /** A rotation succeeds if and only if the token is well formed and for a session that is not
      over, has its next generation, which is not the last one, comes no sooner than the interval
      after the last rotation, and the file can be written. It then counts the generation up by
      one and notes the time, and touches nothing else. */
  lemma ConsumeAcceptedExactlyWhen(cfg: Config, m: Manager, claims: RefreshClaims, r: Reading, outcome: WriteOutcome)
    requires ManagerOk(cfg, m)
    ensures var (m', result) := Consume(cfg, m, claims, r, outcome);
            var now, id := Tick(m, r).highWater, claims.sessionId;
            && (result.Ok? <==>
                  && claims.subject != "" && ValidSessionId(id) && HasRefreshId(claims.id)
                  && ForSession(m.registry, claims) && now < claims.expiresAt.value
                  && claims.generation == m.registry[id].nextGeneration && claims.generation != 0xffff_ffff_ffff_ffff
                  && (cfg.rotation > 0 ==> m.registry[id].lastRotated + cfg.rotation <= now)
                  && !outcome.WriteFailed?)
            && (result.Ok? ==>
                  && result.warned == outcome.WrittenWithWarning?
                  && m'.registry.Keys == m.registry.Keys
                  && (forall other :: other in m.registry && other != id ==> m'.registry[other] == m.registry[other])
                  && m'.registry[id] == Record(claims.subject, claims.expiresAt.value, claims.generation + 1, now))
            && (result == Err(TokenExpired) <==> WellFormedRefresh(claims) && claims.expiresAt.value <= now)
            && (result == Err(TokenRevoked) <==>
                  WellFormedRefresh(claims) && now < claims.expiresAt.value && id !in m.registry)
            && (result == Err(TokenReused) <==>
                  && WellFormedRefresh(claims) && ForSession(m.registry, claims) && now < claims.expiresAt.value
                  && claims.generation < m.registry[id].nextGeneration)
            && (result == Err(RateLimited) <==>
                  && WellFormedRefresh(claims) && ForSession(m.registry, claims) && now < claims.expiresAt.value
                  && claims.generation == m.registry[id].nextGeneration && claims.generation != 0xffff_ffff_ffff_ffff
                  && cfg.rotation > 0 && now < m.registry[id].lastRotated + cfg.rotation)
  {
    hide ValidSessionId, HasRefreshId, Tick, Commit, WithinLimits, Loadable, RecordsOk, Rotated;
    TickKeepsRest(m, r);
    TickKeepsOk(cfg, m, r);
    var m1 := Tick(m, r);
    var now, id := m1.highWater, claims.sessionId;
    if claims.expiresAt.Some? {
      RefreshAcceptedExactlyWhen(m.registry, claims, now);
    }
    if id in m.registry {
      var rotated := m1.registry[id := Rotated(m1.registry[id], claims, now)];
      assert rotated.Keys == m1.registry.Keys;
      OkCommits(cfg, m1, rotated, now, outcome);
      CommitsRegistry(cfg, m1, rotated, now, outcome);
      RotatedSays(m1.registry[id], claims, now);
    }
  }

  /** The identifier of a refresh token is the one of its access token with a fixed ending. */
  lemma RefreshIdExactly(id: string)
    ensures HasRefreshId(id) <==> exists a: string :: a != "" && id == a + "-refresh"
  {
    if HasRefreshId(id) {
      assert id == id[..|id| - |REFRESH_SUFFIX|] + "-refresh";
    }
    if exists a: string :: a != "" && id == a + "-refresh" {
      var a: string :| a != "" && id == a + "-refresh";
      assert id[|a|..] == "-refresh";
    }
  }

  lemma RotatedSays(record: Record, claims: RefreshClaims, now: Time)
    ensures Rotated(record, claims, now) == Record(record.userId, record.expiresAt, claims.generation + 1, now)
  {
  }

  lemma CommitsRegistry(cfg: Config, m: Manager, registry: Registry, now: Time, outcome: WriteOutcome)
    requires Mirrored(m)
    ensures var (m', written) := Commit(cfg, m, registry, now, outcome);
            !written.WriteFailed? ==> m'.registry == registry
  {
    CommitIsAtomic(cfg, m, registry, now, outcome);
  }

  /** A commit of no more sessions than there are only fails when the write does. */
  lemma OkCommits(cfg: Config, m: Manager, registry: Registry, now: Time, outcome: WriteOutcome)
    requires ManagerOk(cfg, m) && registry.Keys <= m.registry.Keys && now >= 0
    ensures Commit(cfg, m, registry, now, outcome).1 == outcome
  {
    hide WithinLimits, ValidRecord, Commit;
    SubsetIsSmaller(registry.Keys, m.registry.Keys);
    CommitFailsExactlyWhen(cfg, m, registry, now, outcome);
  }

  /** A pair for the next generation is signed if and only if account and session are proper, the
      session is the account's, has the end of the token, is not over and is at the generation of
      the token, which is not the last. It says whose it is and ends on time. */
  lemma PairedExactlyWhen(registry: Registry, u: User, claims: RefreshClaims, tokenId: string, now: Time, duration: Time)
    requires claims.expiresAt.Some?
    ensures var result := PairForSession(registry, u, claims, tokenId, now, duration);
            var id, end := claims.sessionId, Truncate(claims.expiresAt.value);
            && (result.Ok? <==>
                  && 0 < |u.id| <= 256 && u.username != "" && ValidSessionId(id) && claims.expiresAt.value != 0
                  && id in registry && registry[id].userId == u.id && registry[id].expiresAt == end && now < end
                  && registry[id].nextGeneration == claims.generation != 0xffff_ffff_ffff_ffff)
            && (result.Ok? ==>
                  PairSays(result.value, u, id, end, claims.generation + 1, Truncate(now), duration)
                  && result.value.access.id == tokenId)
            && (result.Ok? ==> !result.warned)
            && var proper := 0 < |u.id| <= 256 && u.username != "" && ValidSessionId(id) && claims.expiresAt.value != 0;
               && (result == Err(TokenRevoked) <==> proper && id !in registry)
               && (result == Err(TokenExpired) <==>
                     proper && id in registry && registry[id].userId == u.id && registry[id].expiresAt == end && end <= now)
  {
    hide Sign, PairSays, Truncate, ValidSessionId;
    SignedPairSays(u, claims.sessionId, Truncate(claims.expiresAt.value), claims.generation + 1, tokenId, Truncate(now), duration);
  }

  // ----- The clock -----

  /** Between two looks the effective clock moves on by what the monotonic clock did, or to the
      wall clock if that is later: it neither stands still while time passes nor runs back. */
  lemma ClockFollowsMonotonic(m: Manager, first: Reading, second: Reading)
    ensures var a := Tick(m, first);
            var b := Tick(a, second);
            var passed := if first.mono < second.mono then second.mono - first.mono else 0;
            && a.highWater >= m.highWater && a.highWater >= first.wall
            && b.highWater == (if a.highWater + passed < second.wall then second.wall else a.highWater + passed)
  {
  }

  /** A validation time is handed out if and only if the lease is usable and the file covers the
      time or can be written. The file is written exactly if the time comes within the renewal
      lead of the floor; it then has the unexpired sessions and a floor a lease ahead. */
  lemma PreparedExactlyWhen(cfg: Config, m: Manager, r: Reading, outcome: WriteOutcome)
    requires ManagerOk(cfg, m)
    ensures var (m', result) := Prepare(cfg, m, r, outcome);
            var now := Tick(m, r).highWater;
            var usable := 0 <= cfg.renewalLead < cfg.lease;
            && (result == Ok(now, false) <==> usable && (now < m.floor || !outcome.WriteFailed?))
            && (result != Ok(now, false) ==> result == Err(StateUnavailable))
            && (if usable && m.floor <= now + cfg.renewalLead && !outcome.WriteFailed?
                then m'.floor == (if m.floor < now + cfg.lease then now + cfg.lease else m.floor)
                     && m'.registry.Keys == Unexpired(m.registry, now) && m'.disk == Some(Snapshot(m'.floor, m'.registry))
                else m'.floor == m.floor && m'.registry == m.registry && m'.disk == m.disk)
  {
    hide Tick, Commit, Live, WithinLimits, RecordsOk, ValidRecord, Unexpired;
    TickKeepsRest(m, r);
    TickKeepsOk(cfg, m, r);
    var m1 := Tick(m, r);
    var now := m1.highWater;
    LiveIsUnexpired(m.registry, now, "");
    UnexpiredIsPart(m.registry, now);
    OkCommits(cfg, m1, Live(m1.registry, now), now, outcome);
    CommitWrites(cfg, m1, Live(m1.registry, now), now, outcome);
  }

  lemma UnexpiredIsPart(registry: Registry, now: Time)
    ensures Unexpired(registry, now) <= registry.Keys
  {
  }

  lemma CommitWrites(cfg: Config, m: Manager, registry: Registry, now: Time, outcome: WriteOutcome)
    requires Mirrored(m)
    ensures var (m', written) := Commit(cfg, m, registry, now, outcome);
            !written.WriteFailed? ==>
              && m'.registry == registry && m'.disk == Some(Snapshot(m'.floor, registry))
              && m'.floor == (if cfg.lease > 0 && m.floor < now + cfg.lease then now + cfg.lease else m.floor)
  {
  }

  /** A manager that keeps no file hands out every time, and no change can fail. */
  lemma WithoutFileNothingFails(cfg: Config, m: Manager, registry: Registry, now: Time, r: Reading, outcome: WriteOutcome)
    requires !m.persistent
    ensures Prepare(cfg, m, r, outcome) == (Tick(m, r), Ok(Tick(m, r).highWater, false))
    ensures Commit(cfg, m, registry, now, outcome) == (m.(registry := registry), Written)
  {
    hide Live;
  }

  // ----- Revocation and cleanup -----

  /** After a cleanup or a revocation exactly the sessions remain that are not over and were not
      meant; it fails exactly if there was something to drop and the file could not be written. */
  lemma DropLeavesExactly(cfg: Config, m: Manager, ids: set<string>, outcome: WriteOutcome)
    requires ManagerOk(cfg, m)
    ensures var (m', result) := Drop(cfg, m, ids, outcome);
            var left := Unexpired(m.registry, m.highWater) - ids;
            && (result.Ok? <==> left == m.registry.Keys || !outcome.WriteFailed?)
            && (result.Ok? ==> m'.registry.Keys == left)
            && (result.Ok? ==> (result.warned <==> left != m.registry.Keys && outcome.WrittenWithWarning?))
            && (result.Err? ==> result == Err(PersistFailed) && m' == m)
            && (forall id :: id in m'.registry ==> id in m.registry && m'.registry[id] == m.registry[id])
  {
    hide Live, Commit, WithinLimits, Loadable, Unexpired;
    var now := m.highWater;
    var next := Live(m.registry, now) - ids;
    LiveIsUnexpired(m.registry, now, "");
    UnexpiredIsPart(m.registry, now);
    assert next.Keys == Unexpired(m.registry, now) - ids;
    assert next == m.registry <==> next.Keys == m.registry.Keys;
    OkCommits(cfg, m, next, now, outcome);
    CommitIsAtomic(cfg, m, next, now, outcome);
  }

  /** Revocation by identifiers: nothing to revoke is done at once, identifiers or times that
      cannot be are refused, and else the named sessions are dropped. */
  lemma RevokedExactlyWhen(cfg: Config, m: Manager, sessions: map<string, Time>, r: Reading, outcome: WriteOutcome)
    requires ManagerOk(cfg, m)
    ensures var (m', result) := Revoke(cfg, m, sessions, r, outcome);
            var proper := forall id :: id in sessions ==> ValidSessionId(id) && sessions[id] != 0;
            var left := Unexpired(m.registry, Tick(m, r).highWater) - sessions.Keys;
            && (result.Ok? <==> sessions == map[] || (proper && (left == m.registry.Keys || !outcome.WriteFailed?)))
            && (result.Ok? && sessions != map[] ==> m'.registry.Keys == left)
            && (sessions == map[] ==> result == Ok((), false))
            && (result == Err(InvalidToken) <==> !proper)
            && (result.Err? || sessions == map[] ==> m'.registry == m.registry && m'.disk == m.disk)
  {
    hide Tick, Drop, WithinLimits, Loadable, Unexpired, ValidSessionId;
    TickKeepsRest(m, r);
    TickKeepsOk(cfg, m, r);
    DropLeavesExactly(cfg, Tick(m, r), sessions.Keys, outcome);
  }

  /** Revocation by account drops every session of the account and no other that is not over. */
  lemma RevokedByUserExactlyWhen(cfg: Config, m: Manager, userId: string, r: Reading, outcome: WriteOutcome)
    requires ManagerOk(cfg, m)
    ensures var (m', result) := RevokeUser(cfg, m, userId, r, outcome);
            var now := Tick(m, r).highWater;
            var left := set id | id in m.registry && now < m.registry[id].expiresAt && m.registry[id].userId != userId;
            && (result.Ok? <==> userId != "" && (left == m.registry.Keys || !outcome.WriteFailed?))
            && (result.Ok? ==> m'.registry.Keys == left)
            && (result == Err(InvalidToken) <==> userId == "")
            && (result.Err? ==> m'.registry == m.registry && m'.disk == m.disk)
  {
    hide Tick, Drop, WithinLimits, Loadable;
    TickKeepsRest(m, r);
    TickKeepsOk(cfg, m, r);
    var m1 := Tick(m, r);
    DropLeavesExactly(cfg, m1, SessionsOf(m1.registry, userId), outcome);
    assert Unexpired(m1.registry, m1.highWater) - SessionsOf(m1.registry, userId)
        == set id | id in m.registry && m1.highWater < m.registry[id].expiresAt && m.registry[id].userId != userId;
  }

  /** A cleanup drops exactly the sessions that are over. */
  lemma CleanedExactlyWhen(cfg: Config, m: Manager, r: Reading, outcome: WriteOutcome)
    requires ManagerOk(cfg, m)
    ensures var (m', result) := Cleanup(cfg, m, r, outcome);
            var left := Unexpired(m.registry, Tick(m, r).highWater);
            && (result.Ok? <==> left == m.registry.Keys || !outcome.WriteFailed?)
            && m'.registry.Keys == if result.Ok? then left else m.registry.Keys
  {
    hide Tick, Drop, WithinLimits, Loadable, Unexpired;
    TickKeepsRest(m, r);
    TickKeepsOk(cfg, m, r);
    var m1 := Tick(m, r);
    DropLeavesExactly(cfg, m1, {}, outcome);
    var left := Unexpired(m.registry, m1.highWater);
    assert left - {} == left;
    assert Cleanup(cfg, m, r, outcome) == Drop(cfg, m1, {}, outcome);
  }

  // ----- Start -----

  /** When a start goes on: at the later of the floor and the wall clock, moved on by the second look. */
  function StartTime(floor: Time, first: Reading, second: Reading): Time {
    var from := if floor < first.wall then first.wall else floor;
    var passed := if first.mono < second.mono then second.mono - first.mono else 0;
    if from + passed < second.wall then second.wall else from + passed
  }

  lemma AdoptedAtStartTime(disk: Option<Snapshot>, state: Snapshot, first: Reading, second: Reading)
    ensures var m := Adopted(Fresh(disk), state, first, second);
            var floor := if state.floor > 0 then state.floor else 0;
            && m.registry == state.sessions && m.persistent && m.floor == floor && m.disk == disk
            && m.highWater == StartTime(floor, first, second) > 0
  {
    assert map[] + state.sessions == state.sessions;
  }

  /** The sessions not over at a time keep both limits. */
  predicate Fits(cfg: Config, sessions: Registry, now: Time) {
    && |Unexpired(sessions, now)| <= cfg.sessionLimit
    && forall id :: id in Unexpired(sessions, now) ==>
         |UnexpiredOf(sessions, now, sessions[id].userId)| <= cfg.userLimit
  }

  lemma LimitsOfUnexpired(cfg: Config, sessions: Registry, now: Time)
    ensures WithinLimits(cfg, Live(sessions, now)) <==> Fits(cfg, sessions, now)
  {
    hide Live, SessionsOf, Unexpired, UnexpiredOf;
    SizesOfLive(sessions, now);
    LiveIsUnexpired(sessions, now, "");
    UnexpiredIsPart(sessions, now);
    var live := Live(sessions, now);
    forall id | id in live
      ensures live[id] == sessions[id] && SessionsOf(live, live[id].userId) == UnexpiredOf(sessions, now, sessions[id].userId)
    {
      LiveIsUnexpired(sessions, now, sessions[id].userId);
    }
  }

  lemma PersistsExactlyWhen(cfg: Config, m: Manager, now: Time, outcome: WriteOutcome)
    requires m.persistent && m.floor >= 0 && now > 0 && |m.registry| <= 4096
    ensures var (m', written) := Persist(ExtendLease(cfg, m, now), outcome);
            && (written == if cfg.lease <= 0 && m.floor == 0 then WriteFailed else outcome)
            && (!written.WriteFailed? ==>
                  && m'.registry == m.registry && m'.highWater == m.highWater && m'.disk == Some(Snapshot(m'.floor, m.registry))
                  && m'.floor == if cfg.lease > 0 && m.floor < now + cfg.lease then now + cfg.lease else m.floor)
  {
  }

  /** A start over a file the loader accepts succeeds if and only if the unexpired sessions keep
      both limits and the file can be written, which needs a floor. It keeps exactly those
      sessions, goes on at the start time, and writes a floor a lease ahead of it. */
  lemma StartedExactlyWhen(cfg: Config, disk: Option<Snapshot>, first: Reading, second: Reading, outcome: WriteOutcome)
    requires disk.Some? ==> Loadable(disk.value)
    ensures var (m, result) := Enable(cfg, Fresh(disk), first, second, outcome);
            var sessions := if disk.Some? then disk.value.sessions else map[];
            var floor := if disk.Some? && disk.value.floor > 0 then disk.value.floor else 0;
            var now := StartTime(floor, first, second);
            && (result.Ok? <==> Fits(cfg, sessions, now) && !outcome.WriteFailed? && (cfg.lease > 0 || floor > 0))
            && (result == Err(SessionLimit) <==> !Fits(cfg, sessions, now))
            && (result.Err? ==> m == Fresh(disk) && (result == Err(SessionLimit) || result == Err(PersistFailed)))
            && (result.Ok? ==> (result.warned <==> outcome.WrittenWithWarning?))
            && (result.Ok? ==>
                  && m.highWater == now && m.registry.Keys == Unexpired(sessions, now)
                  && m.disk == Some(Snapshot(m.floor, m.registry))
                  && m.floor == if cfg.lease > 0 && floor < now + cfg.lease then now + cfg.lease else floor)
  {
    hide WithinLimits, Fits, Unexpired, Live, Adopted, StartTime, Persist, ExtendLease, ValidRecord;
    var state := Loaded(disk);
    AdoptedAtStartTime(disk, state, first, second);
    NoConflicts(state.sessions);
    var m1 := Adopted(Fresh(disk), state, first, second);
    var now := m1.highWater;
    LimitsOfUnexpired(cfg, state.sessions, now);
    LiveIsUnexpired(state.sessions, now, "");
    UnexpiredIsPart(state.sessions, now);
    var live := Live(state.sessions, now);
    SubsetIsSmaller(live.Keys, state.sessions.Keys);
    PersistsExactlyWhen(cfg, m1.(registry := live), now, outcome);
  }

  /** A start is refused for a conflict if and only if the file has another record than the manager
      for some session; it then changes nothing. */
  lemma ConflictStopsStart(cfg: Config, m: Manager, first: Reading, second: Reading, outcome: WriteOutcome)
    requires m.disk.Some? && Loadable(m.disk.value)
    ensures var (m', result) := Enable(cfg, m, first, second, outcome);
            && (result == Err(SessionConflict) <==>
                  exists id :: id in m.registry && id in m.disk.value.sessions && m.registry[id] != m.disk.value.sessions[id])
            && (result.Err? ==> m' == m)
  {
    hide WithinLimits, Live, Adopted, Persist, ExtendLease, ValidRecord, Conflicts;
    ConflictsExactly(m.registry, m.disk.value.sessions);
    var m1 := Adopted(m, m.disk.value, first, second);
    var live := Live(m1.registry, m1.highWater);
    var written := Persist(ExtendLease(cfg, m1.(registry := live), m1.highWater), outcome).1;
    assert Reported((), written).Err? ==> written.WriteFailed?;
  }

  lemma ConflictsExactly(registry: Registry, loaded: Registry)
    ensures Conflicts(registry, loaded) <==> exists id :: id in registry && id in loaded && registry[id] != loaded[id]
  {
  }

  lemma NoConflicts(loaded: Registry)
    ensures !Conflicts(map[], loaded)
  {
  }

  /** A file the loader refuses stops the start, whatever else holds. */
  lemma BadFileStopsStart(cfg: Config, disk: Snapshot, first: Reading, second: Reading, outcome: WriteOutcome)
    ensures Enable(cfg, Fresh(Some(disk)), first, second, outcome).1 == Err(LoadFailed) <==>
              disk.floor == 0 || |disk.sessions| > 4096
              || exists id :: id in disk.sessions && !(ValidSessionId(id)
                   && 0 < |disk.sessions[id].userId| <= 256 && disk.sessions[id].expiresAt != 0
                   && disk.sessions[id].lastRotated != 0 && disk.sessions[id].lastRotated <= disk.sessions[id].expiresAt)
  {
    hide WithinLimits, Live, Adopted, Persist, ExtendLease, ValidSessionId;
  }

  // ----- What the history of a run records -----

  /** Every validation time that is handed out, every accepted rotation and every revocation that is
      reported done is recorded, in this order, and nothing else is. */
  lemma HistoryRecordsExactly(cfg: Config, w: World, e: Event)
    requires w.sys.Up? && !e.Start? && !e.Stop?
    ensures var m, w' := w.sys.manager, Step(cfg, w, e);
            && (e.PrepareTime? ==>
                  var (m', result) := Prepare(cfg, m, e.r, e.outcome);
                  w'.sys == Up(m') && w'.prepared == if result.Ok? then w.prepared + [result.value] else w.prepared)
            && (e.LogIn? ==> w'.sys == Up(Generate(cfg, m, e.login, e.r, e.outcome).0))
            && (e.Rotate? ==>
                  var (m', result) := Consume(cfg, m, e.claims, e.r, e.outcome);
                  && w'.sys == Up(m')
                  && var last := Consumption(e.claims.sessionId, e.claims.generation, m'.highWater);
                     w'.consumed == if result.Ok? then w.consumed + [last] else w.consumed)
            && (e.RevokeAll? ==>
                  var (m', result) := Revoke(cfg, m, e.sessions, e.r, e.outcome);
                  w'.sys == Up(m') && w'.revoked == if result.Ok? then w.revoked + e.sessions.Keys else w.revoked)
            && (e.RevokeByUser? ==>
                  var (m', result) := RevokeUser(cfg, m, e.userId, e.r, e.outcome);
                  && w'.sys == Up(m')
                  && w'.revoked == if result.Ok?
                                   then w.revoked + (set id | id in m.registry && m.registry[id].userId == e.userId)
                                   else w.revoked)
            && (e.CleanUp? ==> w'.sys == Up(Cleanup(cfg, m, e.r, e.outcome).0))
            && (!e.PrepareTime? ==> w'.prepared == w.prepared) && (!e.Rotate? ==> w'.consumed == w.consumed)
            && (!e.RevokeAll? && !e.RevokeByUser? ==> w'.revoked == w.revoked)
  {
    hide Prepare, Generate, Consume, Revoke, RevokeUser, Cleanup;
  }
}
