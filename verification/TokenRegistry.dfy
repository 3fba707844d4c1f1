/** The login session registry as values: what every operation of the token
    manager does to the in-memory registry, the clock, the restart time floor and
    the session file, for every outcome of the file write. */
module TokenRegistry {
  import opened Common

  /** Nanoseconds; zero is the zero time, which marks an unset value. */
  type Time = int

  const SECOND: Time := 1_000_000_000
  const LEEWAY: Time := SECOND
  const MAX_TRACKED_SESSIONS: nat := 4096
  const MAX_USER_ID_BYTES: nat := 256
  const MAX_GENERATION: nat := 0xffff_ffff_ffff_ffff
  const MAX_ID_ATTEMPTS: nat := 32

  /** Default values: lease 60 s, renewal lead 15 s, rotation 30 s, limits 4096 and 64. */
  datatype Config = Config(lease: Time, renewalLead: Time, rotation: Time, sessionLimit: int, userLimit: int)
  {
    predicate LeaseUsable() {
      0 <= renewalLead < lease
    }
  }

  datatype Record = Record(userId: string, expiresAt: Time, nextGeneration: nat, lastRotated: Time)

  type Registry = map<string, Record>

  datatype Snapshot = Snapshot(floor: Time, sessions: Registry)

  /** A write replaces the file, replaces it without confirmed durability, or leaves it alone. */
  datatype WriteOutcome = Written | WrittenWithWarning | WriteFailed

  /** One look at the wall clock and the monotonic clock; both are after the zero time. */
  datatype ClockReading = ClockReading(wall: Time, mono: Time)

  type Reading = r: ClockReading | r.wall > 0 && r.mono > 0 witness ClockReading(1, 1)

  datatype Manager = Manager(registry: Registry, persistent: bool, highWater: Time, observedAt: Time,
                             floor: Time, disk: Option<Snapshot>)

  datatype User = User(id: string, username: string, role: string, credentialVersion: nat)

  datatype AccessClaims = AccessClaims(issuer: string, subject: string, expiresAt: Option<Time>,
                                       issuedAt: Option<Time>, notBefore: Option<Time>, id: string,
                                       userId: string, username: string, role: string, sessionId: string,
                                       sessionExpiresAt: Option<Time>, credentialVersion: nat)

  datatype RefreshClaims = RefreshClaims(issuer: string, subject: string, expiresAt: Option<Time>,
                                         issuedAt: Option<Time>, notBefore: Option<Time>, id: string,
                                         credentialVersion: nat, sessionId: string, generation: nat)

  datatype TokenPair = TokenPair(access: AccessClaims, refresh: RefreshClaims)

  datatype TokenError = InvalidToken | TokenExpired | TokenRevoked | TokenReused | RateLimited | SessionLimit
                      | StateUnavailable | RandomSource | SessionConflict | LoadFailed | PersistFailed

  /** `warned` marks a change that is in force although its durability is unconfirmed. */
  datatype Result<T> = Ok(value: T, warned: bool) | Err(error: TokenError)

  const ISSUER := "mnemonas"
  const REFRESH_SUFFIX := "-refresh"

  // ----- Clock, lease and file -----

  function Max(a: Time, b: Time): Time {
    if a < b then b else a
  }

  /** Reads the effective clock: it follows the monotonic clock and never runs back. */
  function Tick(m: Manager, r: Reading): Manager {
    var advanced := if m.highWater == 0 then r.wall
                    else if m.observedAt != 0 && r.mono > m.observedAt then m.highWater + (r.mono - m.observedAt)
                    else m.highWater;
    m.(highWater := Max(advanced, r.wall), observedAt := r.mono)
  }

  function Truncate(t: Time): Time {
    t - t % SECOND
  }

  function ExtendLease(cfg: Config, m: Manager, now: Time): Manager {
    if !m.persistent || cfg.lease <= 0 then m else m.(floor := Max(m.floor, now + cfg.lease))
  }

  function Persist(m: Manager, outcome: WriteOutcome): (Manager, WriteOutcome) {
    if !m.persistent then (m, Written)
    else if m.floor == 0 || |m.registry| > MAX_TRACKED_SESSIONS || outcome.WriteFailed? then (m, WriteFailed)
    else (m.(disk := Some(Snapshot(m.floor, m.registry))), outcome)
  }

  /** Puts a new registry in force together with an extended lease, or changes nothing. */
  function Commit(cfg: Config, m: Manager, registry: Registry, now: Time, outcome: WriteOutcome): (Manager, WriteOutcome) {
    var (m', written) := Persist(ExtendLease(cfg, m.(registry := registry), now), outcome);
    if written.WriteFailed? then (m, written) else (m', written)
  }

  function Reported<T>(value: T, written: WriteOutcome): Result<T> {
    match written
    case Written => Ok(value, false)
    case WrittenWithWarning => Ok(value, true)
    case WriteFailed => Err(PersistFailed)
  }

  // ----- Registry -----

  function Live(registry: Registry, now: Time): Registry {
    map id | id in registry && registry[id].expiresAt > now :: registry[id]
  }

  function SessionsOf(registry: Registry, userId: string): set<string> {
    set id | id in registry && registry[id].userId == userId
  }

  predicate WithinLimits(cfg: Config, registry: Registry) {
    && |registry| <= cfg.sessionLimit
    && forall id :: id in registry ==> |SessionsOf(registry, registry[id].userId)| <= cfg.userLimit
  }

  predicate IsLowerHex(c: char) {
    '0' <= c <= '9' || 'a' <= c <= 'f'
  }

  predicate ValidSessionId(id: string) {
    |id| == 32 && forall i :: 0 <= i < |id| ==> IsLowerHex(id[i])
  }

  predicate ValidRecord(id: string, record: Record) {
    && ValidSessionId(id)
    && 0 < |record.userId| <= MAX_USER_ID_BYTES
    && record.expiresAt != 0
    && record.lastRotated != 0
    && record.lastRotated <= record.expiresAt
  }

  /** What the strict loader accepts from the session file. */
  predicate Loadable(s: Snapshot) {
    && s.floor != 0
    && |s.sessions| <= MAX_TRACKED_SESSIONS
    && forall id :: id in s.sessions ==> ValidRecord(id, s.sessions[id])
  }

  // ----- Operations -----

  /** Hands out a validation time only while the session file covers it. */
  function Prepare(cfg: Config, m: Manager, r: Reading, outcome: WriteOutcome): (Manager, Result<Time>) {
    var m1 := Tick(m, r);
    var now := m1.highWater;
    if !m1.persistent then (m1, Ok(now, false))
    else if !cfg.LeaseUsable() then (m1, Err(StateUnavailable))
    else if m1.floor != 0 && now + cfg.renewalLead < m1.floor then (m1, Ok(now, false))
    else
      var (m2, written) := Commit(cfg, m1, Live(m1.registry, now), now, outcome);
      if !written.WriteFailed? then (m2, Ok(now, false))
      else if m1.floor == 0 || now >= m1.floor then (m1, Err(StateUnavailable))
      else (m1, Ok(now, false))
  }

  predicate ValidUser(u: User) {
    0 < |u.id| <= MAX_USER_ID_BYTES && u.username != ""
  }

  /** The first candidate ID that no registered session uses; a failed read ends the search. */
  function FirstFresh(candidates: seq<Option<string>>, registry: Registry, attempts: nat): Option<string> {
    if attempts == 0 || candidates == [] || candidates[0].None? then None
    else if candidates[0].value !in registry then candidates[0]
    else FirstFresh(candidates[1..], registry, attempts - 1)
  }

  /** The two tokens of a session; the times in a token are whole seconds. */
  function Sign(u: User, sessionId: string, sessionExpiresAt: Time, generation: nat, tokenId: string,
                now: Time, accessDuration: Time): TokenPair
  {
    var accessExpiry := if now + accessDuration > sessionExpiresAt then sessionExpiresAt else now + accessDuration;
    TokenPair(
      AccessClaims(ISSUER, u.id, Some(Truncate(accessExpiry)), Some(now), Some(now), tokenId, u.id, u.username, u.role,
                   sessionId, Some(sessionExpiresAt), u.credentialVersion),
      RefreshClaims(ISSUER, u.id, Some(sessionExpiresAt), Some(now), Some(now), tokenId + REFRESH_SUFFIX,
                    u.credentialVersion, sessionId, generation))
  }

  datatype Login = Login(user: User, candidates: seq<Option<string>>, accessDuration: Time, refreshDuration: Time)

  function NewRecord(cfg: Config, userId: string, expiresAt: Time, now: Time): Record {
    Record(userId, expiresAt, 0, if cfg.rotation > 0 then now - cfg.rotation else now)
  }

  function Generate(cfg: Config, m: Manager, login: Login, r: Reading, outcome: WriteOutcome): (Manager, Result<TokenPair>) {
    if !ValidUser(login.user) then (m, Err(InvalidToken))
    else
      var m1 := Tick(m, r);
      var now := Truncate(m1.highWater);
      var live := Live(m1.registry, now);
      var found := FirstFresh(login.candidates, live, MAX_ID_ATTEMPTS);
      var expiresAt := Truncate(now + login.refreshDuration);
      if |live| >= cfg.sessionLimit || |SessionsOf(live, login.user.id)| >= cfg.userLimit then (m1, Err(SessionLimit))
      else if found.None? then (m1, Err(RandomSource))
      else if expiresAt <= now then (m1, Err(TokenExpired))
      else
        var id := found.value;
        var pair := Sign(login.user, id, expiresAt, 0, id, now, login.accessDuration);
        var (m2, written) := Commit(cfg, m1, live[id := NewRecord(cfg, login.user.id, expiresAt, now)], now, outcome);
        (m2, Reported(pair, written))
  }

  predicate HasRefreshId(id: string) {
    |id| > |REFRESH_SUFFIX| && id[|id| - |REFRESH_SUFFIX|..] == REFRESH_SUFFIX
  }

  predicate WellFormedRefresh(claims: RefreshClaims) {
    claims.subject != "" && ValidSessionId(claims.sessionId) && claims.expiresAt.Some? && HasRefreshId(claims.id)
  }

  function CheckRefresh(registry: Registry, claims: RefreshClaims, now: Time): Result<()>
    requires claims.expiresAt.Some?
  {
    if claims.sessionId !in registry then Err(TokenRevoked)
    else
      var record := registry[claims.sessionId];
      if record.userId != claims.subject || record.expiresAt != claims.expiresAt.value then Err(InvalidToken)
      else if record.expiresAt <= now then Err(TokenExpired)
      else if claims.generation < record.nextGeneration then Err(TokenReused)
      else if claims.generation > record.nextGeneration then Err(InvalidToken)
      else Ok((), false)
  }

  function Rotated(record: Record, claims: RefreshClaims, now: Time): Record {
    record.(nextGeneration := claims.generation + 1, lastRotated := now)
  }

  /** Uses up a refresh token: the only step that moves a session to its next generation. */
  function Consume(cfg: Config, m: Manager, claims: RefreshClaims, r: Reading, outcome: WriteOutcome): (Manager, Result<()>) {
    if !WellFormedRefresh(claims) then (m, Err(InvalidToken))
    else
      var m1 := Tick(m, r);
      var now := m1.highWater;
      if claims.expiresAt.value <= now then (m1, Err(TokenExpired))
      else
        var check := CheckRefresh(m1.registry, claims, now);
        if check.Err? then (m1, check)
        else if claims.generation == MAX_GENERATION then (m1, Err(InvalidToken))
        else
          var record := m1.registry[claims.sessionId];
          if cfg.rotation > 0 && now < record.lastRotated + cfg.rotation then (m1, Err(RateLimited))
          else
            var (m2, written) := Commit(cfg, m1, m1.registry[claims.sessionId := Rotated(record, claims, now)], now, outcome);
            (m2, Reported((), written))
  }

  /** Drops the expired sessions and the given ones; with nothing to drop, nothing is written. */
  function Drop(cfg: Config, m: Manager, ids: set<string>, outcome: WriteOutcome): (Manager, Result<()>) {
    var next := Live(m.registry, m.highWater) - ids;
    if next == m.registry then (m, Ok((), false))
    else
      var (m', written) := Commit(cfg, m, next, m.highWater, outcome);
      (m', Reported((), written))
  }

  predicate ValidRevocation(sessions: map<string, Time>) {
    forall id :: id in sessions ==> ValidSessionId(id) && sessions[id] != 0
  }

  function Revoke(cfg: Config, m: Manager, sessions: map<string, Time>, r: Reading, outcome: WriteOutcome): (Manager, Result<()>) {
    if sessions == map[] then (m, Ok((), false))
    else if !ValidRevocation(sessions) then (m, Err(InvalidToken))
    else Drop(cfg, Tick(m, r), sessions.Keys, outcome)
  }

  function RevokeUser(cfg: Config, m: Manager, userId: string, r: Reading, outcome: WriteOutcome): (Manager, Result<()>) {
    if userId == "" then (m, Err(InvalidToken))
    else
      var m1 := Tick(m, r);
      Drop(cfg, m1, SessionsOf(m1.registry, userId), outcome)
  }

  function Cleanup(cfg: Config, m: Manager, r: Reading, outcome: WriteOutcome): (Manager, Result<()>) {
    Drop(cfg, Tick(m, r), {}, outcome)
  }

  /** A manager just created over an existing, or missing, session file. */
  function Fresh(disk: Option<Snapshot>): Manager {
    Manager(map[], false, 0, 0, 0, disk)
  }

  predicate Conflicts(registry: Registry, loaded: Registry) {
    exists id :: id in loaded && id in registry && registry[id] != loaded[id]
  }

  function Loaded(disk: Option<Snapshot>): Snapshot {
    if disk.Some? then disk.value else Snapshot(0, map[])
  }

  /** The manager after adopting the loaded state, before the first write. */
  function Adopted(m: Manager, state: Snapshot, first: Reading, second: Reading): Manager {
    Tick(Manager(m.registry + state.sessions, true, Max(Max(m.highWater, state.floor), first.wall), first.mono,
                 Max(m.floor, state.floor), m.disk), second)
  }

  /** Switches persistence on: adopts the file's sessions and time floor, or changes nothing. */
  function Enable(cfg: Config, m: Manager, first: Reading, second: Reading, outcome: WriteOutcome): (Manager, Result<()>) {
    if m.disk.Some? && !Loadable(m.disk.value) then (m, Err(LoadFailed))
    else
      var state := Loaded(m.disk);
      if Conflicts(m.registry, state.sessions) then (m, Err(SessionConflict))
      else
        var m1 := Adopted(m, state, first, second);
        var live := Live(m1.registry, m1.highWater);
        if !WithinLimits(cfg, live) then (m, Err(SessionLimit))
        else
          var (m2, written) := Persist(ExtendLease(cfg, m1.(registry := live), m1.highWater), outcome);
          if written.WriteFailed? then (m, Err(PersistFailed)) else (m2, Reported((), written))
  }

  // ----- Access tokens -----

  /** Checks of the signed claims at one validation time; a forged token has no claims. */
  predicate ExpiredClaims(claims: AccessClaims, now: Time) {
    claims.expiresAt.Some? && now >= claims.expiresAt.value + LEEWAY
  }

  predicate ProperClaims(claims: AccessClaims, now: Time) {
    && claims.issuer == ISSUER
    && claims.expiresAt.Some?
    && (claims.issuedAt.Some? ==> now >= claims.issuedAt.value - LEEWAY)
    && (claims.notBefore.Some? ==> now >= claims.notBefore.value - LEEWAY)
    && claims.userId != "" && claims.subject == claims.userId && claims.username != "" && claims.id != ""
    && ValidSessionId(claims.sessionId)
    && claims.sessionExpiresAt.Some?
    && claims.sessionExpiresAt.value >= claims.expiresAt.value
  }

  function CheckAccess(registry: Registry, token: Option<AccessClaims>, now: Time): Result<AccessClaims> {
    if token.None? then Err(InvalidToken)
    else
      var claims := token.value;
      if ExpiredClaims(claims, now) then Err(TokenExpired)
      else if !ProperClaims(claims, now) then Err(InvalidToken)
      else if claims.sessionId !in registry then Err(TokenRevoked)
      else
        var record := registry[claims.sessionId];
        if record.userId != claims.userId || record.expiresAt != claims.sessionExpiresAt.value then Err(InvalidToken)
        else if record.expiresAt <= now then Err(TokenExpired)
        else Ok(claims, false)
  }
}
