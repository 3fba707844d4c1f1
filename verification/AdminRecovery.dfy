/** Offline administrator password recovery as a crash protocol: the credential file
    first, then the session revocation, then the user record. Writes may become
    visible without being durable, and the process may stop or the power may fail
    between any two of them, over any number of runs. */
module AdminRecovery {
  import opened Common
  import opened RecoveryCredential

  /** The account; `password` is what its password hash matches. */
  datatype User = User(id: string, username: string, isAdmin: bool, disabled: bool, password: string,
                       mustChange: bool, version: nat)

  /** The authentication directory: credential file, leftover temporary files, session owners, user record. */
  datatype Files = Files(credential: Option<string>, temps: bool, sessions: map<string, string>, user: User)

  /** What a reader sees now, and what is certain to survive a power loss. */
  datatype Disk = Disk(visible: Files, durable: Files)

  /** A write takes effect durably, takes effect visibly only, or fails without effect. */
  datatype Outcome = Done | Unconfirmed | Failed

  datatype Error = NotFound | NotAdmin | UserDisabled | InvalidUser | CleanupFailed | CredentialConflict
                 | VersionExhausted | NoPassword | NotDurable | CredentialWrite | SessionWrite | UserWrite

  datatype Result = Recovered(resumed: bool, alreadyAvailable: bool, warned: bool) | Stopped(error: Error)

  datatype Status = Pending | Committed | Conflict

  // ----- Reading the credential -----

  datatype Loaded = NoFile | RecoveryFile(credential: Credential) | BootstrapFile(username: string, password: string) | BadFile

  function Load(data: Option<string>): Loaded {
    if data.None? then NoFile
    else if IsRecoveryData(data.value) then
      var c := Parse(data.value);
      if c.Some? then RecoveryFile(c.value) else BadFile
    else
      var b := ParseBootstrap(data.value);
      if b.Some? then BootstrapFile(b.value.0, b.value.1) else BadFile
  }

  function Classify(u: User, c: Credential): Status {
    if c.username != u.username || c.userId != u.id then Conflict
    else if u.version == c.previousVersion then (if u.password == c.password then Conflict else Pending)
    else if c.previousVersion != MAX_VERSION && u.version == c.previousVersion + 1 && u.mustChange && u.password == c.password
    then Committed
    else Conflict
  }

  predicate BootstrapMatches(u: User, username: string, password: string) {
    username == u.username && u.mustChange && u.password == password
  }

  /** The check before the normal service starts: temporary files, a pending recovery
      or a credential that fits no state keep it from starting. */
  function StartupGate(f: Files): Result {
    if f.temps then Stopped(CredentialConflict)
    else if f.credential.None? || !IsRecoveryData(f.credential.value) then Recovered(false, false, false)
    else
      var loaded := Load(f.credential);
      if !loaded.RecoveryFile? || Classify(f.user, loaded.credential) != Committed then Stopped(CredentialConflict)
      else Recovered(false, true, false)
  }

  // ----- Writes -----

  function Sync(d: Disk): Disk {
    Disk(d.visible, d.visible)
  }

  /** A change that replaces visible files at once; confirming it syncs the whole directory. */
  function Replace(d: Disk, files: Files, outcome: Outcome): Disk {
    match outcome
    case Done => Disk(files, files)
    case Unconfirmed => Disk(files, d.durable)
    case Failed => d
  }

  function WithoutUser(sessions: map<string, string>, userId: string): map<string, string> {
    map id | id in sessions && sessions[id] != userId :: sessions[id]
  }

  predicate HasSessions(f: Files, userId: string) {
    exists id :: id in f.sessions && f.sessions[id] == userId
  }

  function Reset(u: User, c: Credential): User {
    u.(password := c.password, mustChange := true, version := u.version + 1)
  }

  /** The account name is stored trimmed, so it is also what the credential file carries. */
  predicate ProperUser(u: User) {
    && ValidUsername(u.username) && !Text.HasControl(u.username)
    && ValidUserId(u.id)
    && 0 < u.version <= MAX_VERSION
  }

  predicate CredentialFor(u: User, c: Credential) {
    && WellFormed(c)
    && c.username == u.username && c.userId == u.id && c.previousVersion == u.version
    && c.password != u.password && u.version < MAX_VERSION
  }

  /** Every single disk change a recovery may make, and what it knows when it makes it. */
  datatype Write =
    | RemoveTemps(outcome: Outcome)
    | CreateTemp
    | LinkCredential(c: Credential)
    | DropTemp
    | SyncDirectory
    | ReplaceSessions(userId: string, outcome: Outcome)
    | ReplaceUser(c: Credential, outcome: Outcome)

  function Perform(d: Disk, w: Write): Disk {
    match w
    case RemoveTemps(outcome) => Replace(d, d.visible.(temps := false), outcome)
    case CreateTemp => Disk(d.visible.(temps := true), d.durable)
    case LinkCredential(c) => Disk(d.visible.(credential := Some(Marshal(c))), d.durable)
    case DropTemp => Disk(d.visible.(temps := false), d.durable)
    case SyncDirectory => Sync(d)
    case ReplaceSessions(userId, outcome) =>
      Replace(d, d.visible.(sessions := WithoutUser(d.visible.sessions, userId)), outcome)
    case ReplaceUser(c, outcome) => Replace(d, d.visible.(user := Reset(d.visible.user, c)), outcome)
  }

  /** A credential is only ever linked where none is, and the user record is only replaced
      under a durable credential that was made for it, after its sessions are gone. */
  predicate Permitted(d: Disk, w: Write) {
    match w
    case LinkCredential(c) => d.visible.credential.None? && CredentialFor(d.visible.user, c)
    case ReplaceUser(c, _) =>
      && d.durable.credential == d.visible.credential
      && Load(d.visible.credential) == RecoveryFile(c)
      && CredentialFor(d.visible.user, c)
      && !HasSessions(d.visible, d.visible.user.id)
    case _ => true
  }

  /** After a power loss each file is the visible or the durable one, on its own. */
  predicate MayRemain(d: Disk, f: Files) {
    && (f.credential == d.visible.credential || f.credential == d.durable.credential)
    && (f.temps == d.visible.temps || f.temps == d.durable.temps)
    && (f.sessions == d.visible.sessions || f.sessions == d.durable.sessions)
    && (f.user == d.visible.user || f.user == d.durable.user)
  }

  // ----- The invariant -----

  /** A credential file and a user record from which nothing is lost: the record is the original
      one, or it is the reset one and the credential file holds its password. */
  predicate SafePair(u0: User, credential: Option<string>, user: User) {
    && (credential.Some? ==> Load(credential).RecoveryFile? && CredentialFor(u0, Load(credential).credential))
    && (user == u0 ||
        (credential.Some? && Load(credential).RecoveryFile? && user == Reset(u0, Load(credential).credential)))
  }

  predicate Safe(u0: User, f: Files) {
    SafePair(u0, f.credential, f.user)
  }

  predicate Inv(u0: User, d: Disk) {
    && ProperUser(u0)
    && Safe(u0, d.visible) && Safe(u0, d.durable)
    && (d.durable.credential.Some? ==> d.visible.credential == d.durable.credential)
    && (d.visible.user != u0 ==> d.durable.credential.Some?)
  }

  lemma MarshalLoads(c: Credential)
    requires WellFormed(c)
    ensures IsRecoveryData(Marshal(c)) && Load(Some(Marshal(c))) == RecoveryFile(c)
  {
    MarshalIsRecoveryData(c);
    MarshalRoundTrips(c);
  }

  lemma NoFileMeansNone(credential: Option<string>)
    ensures Load(credential).NoFile? <==> credential.None?
  {
  }

  lemma LinkedIsSafe(u0: User, c: Credential)
    requires CredentialFor(u0, c)
    ensures SafePair(u0, Some(Marshal(c)), u0)
  {
    MarshalLoads(c);
  }

  /** A credential that fits the visible user record shows that the record is still the original. */
  lemma ResetIsSafe(u0: User, credential: Option<string>, user: User, c: Credential)
    requires SafePair(u0, credential, user) && Load(credential) == RecoveryFile(c) && CredentialFor(user, c)
    ensures user == u0 && SafePair(u0, credential, Reset(user, c))
  {
    hide Load, WellFormed;
    NoFileMeansNone(credential);
  }

  lemma WriteKeepsInv(u0: User, d: Disk, w: Write)
    requires Inv(u0, d) && Permitted(d, w)
    ensures Inv(u0, Perform(d, w))
  {
    hide Marshal, WithoutUser, ProperUser, HasSessions, Reset, CredentialFor, Load;
    match w
    case LinkCredential(c) =>
      assert d.visible.user == u0;
      LinkedIsSafe(u0, c);
    case ReplaceUser(c, _) =>
      ResetIsSafe(u0, d.visible.credential, d.visible.user, c);
    case _ =>
  }

  lemma PowerLossKeepsInv(u0: User, d: Disk, f: Files)
    requires Inv(u0, d) && MayRemain(d, f)
    ensures Inv(u0, Disk(f, f)) && Safe(u0, f)
  {
  }

  // ----- Any number of runs -----

  datatype Event = Performs(w: Write) | PowerLoss(f: Files)

  predicate Possible(d: Disk, e: Event) {
    match e
    case Performs(w) => Permitted(d, w)
    case PowerLoss(f) => MayRemain(d, f)
  }

  function Next(d: Disk, e: Event): Disk {
    match e
    case Performs(w) => Perform(d, w)
    case PowerLoss(f) => Disk(f, f)
  }

  function After(d: Disk, events: seq<Event>): Disk {
    if events == [] then d else Next(After(d, events[..|events| - 1]), events[|events| - 1])
  }

  predicate PossibleRun(d: Disk, events: seq<Event>) {
    events == [] ||
    (PossibleRun(d, events[..|events| - 1]) && Possible(After(d, events[..|events| - 1]), events[|events| - 1]))
  }

  lemma Extend(d: Disk, events: seq<Event>, w: Write) returns (more: seq<Event>)
    requires PossibleRun(d, events) && Permitted(After(d, events), w)
    ensures more == events + [Performs(w)]
    ensures PossibleRun(d, more) && After(d, more) == Perform(After(d, events), w)
  {
    more := events + [Performs(w)];
    assert more[..|more| - 1] == events;
  }

  lemma {:induction false} RunKeepsInv(u0: User, d: Disk, events: seq<Event>)
    requires Inv(u0, d) && PossibleRun(d, events)
    ensures Inv(u0, After(d, events))
    decreases |events|
  {
    hide Inv;
    if events != [] {
      var init, last := events[..|events| - 1], events[|events| - 1];
      RunKeepsInv(u0, d, init);
      match last
      case Performs(w) => WriteKeepsInv(u0, After(d, init), w);
      case PowerLoss(f) => PowerLossKeepsInv(u0, After(d, init), f);
    }
  }

  /** A directory on which no recovery has begun. */
  predicate Untouched(u0: User, d: Disk) {
    ProperUser(u0) && d.visible == d.durable && d.visible.user == u0 && d.visible.credential.None?
  }

  /** At every point of any number of runs with crashes and power losses, whatever survives
      is the untouched user record, or the reset one together with a readable credential
      file for it; the credential version is the old one or exactly one higher. */
  lemma NothingIsLost(u0: User, d: Disk, events: seq<Event>, f: Files)
    requires Untouched(u0, d) && PossibleRun(d, events) && MayRemain(After(d, events), f)
    ensures f.user == u0 || (Load(f.credential).RecoveryFile? && f.user == Reset(u0, Load(f.credential).credential)
                             && f.user.password == Load(f.credential).credential.password)
    ensures f.user.version == u0.version || f.user.version == u0.version + 1
  {
    RunKeepsInv(u0, d, events);
    PowerLossKeepsInv(u0, After(d, events), f);
  }

  lemma CredentialTellsStatus(u0: User, c: Credential)
    requires CredentialFor(u0, c)
    ensures Classify(u0, c) == Pending && Classify(Reset(u0, c), c) == Committed
    ensures Reset(u0, c) != u0
  {
  }

  /** The startup gate opens exactly when no temporary file is left and the recovery has
      either not begun or been committed; every state in between is refused. */
  lemma GateRefusesPending(u0: User, d: Disk, events: seq<Event>, f: Files)
    requires Untouched(u0, d) && PossibleRun(d, events) && MayRemain(After(d, events), f)
    ensures StartupGate(f).Recovered? <==> !f.temps && (f.credential.None? || f.user != u0)
  {
    RunKeepsInv(u0, d, events);
    PowerLossKeepsInv(u0, After(d, events), f);
    if f.credential.Some? {
      CredentialTellsStatus(u0, Load(f.credential).credential);
    }
  }

  // ----- Old sessions -----

  /** The user record is replaced without confirmation while sessions of the account may come back. */
  predicate Risky(u0: User, d: Disk, e: Event) {
    e.Performs? && e.w.ReplaceUser? && e.w.outcome.Unconfirmed? && HasSessions(d.durable, u0.id)
  }

  ghost predicate NeverRisky(u0: User, d: Disk, events: seq<Event>) {
    forall i :: 0 <= i < |events| ==> !Risky(u0, After(d, events[..i]), events[i])
  }

  /** Once the new password is anywhere, the old sessions are nowhere. */
  predicate SessionsGone(u0: User, d: Disk) {
    d.visible.user != u0 || d.durable.user != u0 ==> !HasSessions(d.visible, u0.id) && !HasSessions(d.durable, u0.id)
  }

  lemma EventKeepsSessionsGone(u0: User, d: Disk, e: Event)
    requires Inv(u0, d) && SessionsGone(u0, d) && Possible(d, e) && !Risky(u0, d, e)
    ensures SessionsGone(u0, Next(d, e))
  {
    hide Inv, SessionsGone, Next, Possible, Risky;
    if e.PowerLoss? {
      LossKeepsSessionsGone(u0, d, e.f);
    } else if e.w.ReplaceUser? {
      UserWriteKeepsSessionsGone(u0, d, e.w);
    } else {
      OtherWriteKeepsSessionsGone(u0, d, e.w);
    }
  }

  lemma LossKeepsSessionsGone(u0: User, d: Disk, f: Files)
    requires SessionsGone(u0, d) && Possible(d, PowerLoss(f))
    ensures SessionsGone(u0, Next(d, PowerLoss(f)))
  {
  }

  lemma UserWriteKeepsSessionsGone(u0: User, d: Disk, w: Write)
    requires Inv(u0, d) && SessionsGone(u0, d) && w.ReplaceUser? && Possible(d, Performs(w)) && !Risky(u0, d, Performs(w))
    ensures SessionsGone(u0, Next(d, Performs(w)))
  {
    hide ProperUser, Load, CredentialFor;
  }

  lemma OtherWriteKeepsSessionsGone(u0: User, d: Disk, w: Write)
    requires SessionsGone(u0, d) && !w.ReplaceUser?
    ensures SessionsGone(u0, Next(d, Performs(w)))
  {
    hide Marshal;
  }

  lemma {:induction false} RunKeepsSessionsGone(u0: User, d: Disk, events: seq<Event>)
    requires Untouched(u0, d) && PossibleRun(d, events) && NeverRisky(u0, d, events)
    ensures SessionsGone(u0, After(d, events))
    decreases |events|
  {
    if events != [] {
      hide Inv, SessionsGone, Next, Possible, Risky, ProperUser;
      var n := |events| - 1;
      assert forall i :: 0 <= i < n ==> events[..n][..i] == events[..i];
      RunKeepsSessionsGone(u0, d, events[..n]);
      RunKeepsInv(u0, d, events[..n]);
      EventKeepsSessionsGone(u0, After(d, events[..n]), events[n]);
    }
  }

  lemma {:induction false} PrefixIsPossible(d: Disk, events: seq<Event>, n: nat)
    requires PossibleRun(d, events) && n <= |events|
    ensures PossibleRun(d, events[..n])
    ensures n < |events| ==> Possible(After(d, events[..n]), events[n])
    decreases |events| - n
  {
    if n == |events| {
      assert events[..n] == events;
    } else {
      PrefixIsPossible(d, events, n + 1);
      assert events[..n + 1][..n] == events[..n];
    }
  }

  /** At every point of the run, an account that survives with the new password survives
      without any session of the old one. */
  ghost predicate NoOldSessions(u0: User, d: Disk, events: seq<Event>) {
    forall n: nat, f: Files :: n <= |events| && MayRemain(After(d, events[..n]), f) && f.user != u0 ==> !HasSessions(f, u0.id)
  }

  /** A risky write can survive without the session write before it. */
  lemma RiskyWriteKeepsSessions(u0: User, d: Disk, e: Event) returns (f: Files)
    requires Inv(u0, d) && Possible(d, e) && Risky(u0, d, e)
    ensures MayRemain(Next(d, e), f) && f.user != u0 && HasSessions(f, u0.id)
  {
    hide Load, Marshal, WellFormed;
    ResetIsSafe(u0, d.visible.credential, d.visible.user, e.w.c);
    CredentialTellsStatus(u0, e.w.c);
    f := Next(d, e).visible.(sessions := d.durable.sessions);
  }

  /** The new password never survives beside an old session if and only if no unconfirmed write
      of the user record was made while such a session was still on the durable file. */
  lemma NewPasswordHasNoOldSessions(u0: User, d: Disk, events: seq<Event>)
    requires Untouched(u0, d) && PossibleRun(d, events)
    ensures NoOldSessions(u0, d, events) <==> NeverRisky(u0, d, events)
  {
    hide Untouched, PossibleRun, After, Risky, HasSessions, Inv, Next, Possible;
    if NeverRisky(u0, d, events) {
      forall n: nat, f: Files | n <= |events| && MayRemain(After(d, events[..n]), f) && f.user != u0
        ensures !HasSessions(f, u0.id)
      {
        PrefixIsPossible(d, events, n);
        assert forall i :: 0 <= i < n ==> events[..n][..i] == events[..i];
        RunKeepsSessionsGone(u0, d, events[..n]);
        SessionsStayGone(u0, After(d, events[..n]), f);
      }
    } else {
      var i :| 0 <= i < |events| && Risky(u0, After(d, events[..i]), events[i]);
      PrefixIsPossible(d, events, i);
      StartIsSafe(u0, d);
      RunKeepsInv(u0, d, events[..i]);
      var f := RiskyWriteKeepsSessions(u0, After(d, events[..i]), events[i]);
      AfterOneMore(d, events, i);
    }
  }

  lemma StartIsSafe(u0: User, d: Disk)
    requires Untouched(u0, d)
    ensures Inv(u0, d)
  {
  }

  lemma SessionsStayGone(u0: User, d: Disk, f: Files)
    requires SessionsGone(u0, d) && MayRemain(d, f) && f.user != u0
    ensures !HasSessions(f, u0.id)
  {
  }

  lemma AfterOneMore(d: Disk, events: seq<Event>, i: nat)
    requires i < |events|
    ensures After(d, events[..i + 1]) == Next(After(d, events[..i]), events[i])
  {
    assert events[..i + 1][..i] == events[..i];
  }

  /** An unconfirmed session write can be lost while the user record written after it stays. */
  lemma UnconfirmedRevocationCanBeUndone(u0: User, d: Disk, c: Credential) returns (events: seq<Event>, f: Files)
    requires Untouched(u0, d) && CredentialFor(u0, c) && HasSessions(d.visible, u0.id)
    ensures PossibleRun(d, events) && MayRemain(After(d, events), f)
    ensures f.user == Reset(u0, c) && f.user != u0 && HasSessions(f, u0.id)
  {
    MarshalLoads(c);
    events := [];
    hide *;
    events := Extend(d, events, LinkCredential(c));
    events := Extend(d, events, SyncDirectory);
    events := Extend(d, events, ReplaceSessions(u0.id, Unconfirmed));
    events := Extend(d, events, ReplaceUser(c, Unconfirmed));
    f := After(d, events).visible.(sessions := d.visible.sessions);
  }

  // ----- The recovery itself -----

  /** The faults of one run, one per step; `password` is the generated one, if there is one. */
  datatype Faults = Faults(cleanup: Outcome, confirm: bool, temp: bool, link: bool, dropTemp: bool, syncNew: bool,
                           reconfirm: bool, sessions: Outcome, user: Outcome, password: Option<string>)

  predicate Faultless(f: Faults) {
    && f.cleanup.Done? && f.confirm && f.temp && f.link && f.dropTemp && f.syncNew && f.reconfirm
    && f.sessions.Done? && f.user.Done? && f.password.Some?
  }

  /** The generator only returns passwords that pass the check and differ from the current one. */
  predicate GoodPassword(u: User, f: Faults) {
    f.password.Some? ==> ValidPassword(f.password.value) && '\n' !in f.password.value && f.password.value != u.password
  }

  predicate Eligible(u: User) {
    ProperUser(u) && u.isAdmin && !u.disabled
  }

  predicate NeedsReset(u: User, loaded: Loaded) {
    loaded.NoFile? || (loaded.RecoveryFile? && Classify(u, loaded.credential) == Pending)
  }

  /** From here a run without faults ends committed. */
  predicate RerunSucceeds(d: Disk, username: string) {
    var u, loaded := d.visible.user, Load(d.visible.credential);
    && Eligible(u) && u.username == username
    && (loaded.NoFile? || (loaded.RecoveryFile? && Classify(u, loaded.credential) != Conflict))
    && (NeedsReset(u, loaded) ==> u.version < MAX_VERSION)
  }

  /** The account after a finished recovery: reset with the credential, unless it already was. */
  function Finished(u: User, loaded: Loaded, c: Credential): User {
    if NeedsReset(u, loaded) then Reset(u, c) else u
  }

  /** What the steps on the directory do; they are always permitted. */
  lemma DirectorySteps(d: Disk)
    ensures Permitted(d, CreateTemp) && Perform(d, CreateTemp) == Disk(d.visible.(temps := true), d.durable)
    ensures Permitted(d, DropTemp) && Perform(d, DropTemp) == Disk(d.visible.(temps := false), d.durable)
    ensures Permitted(d, SyncDirectory) && Perform(d, SyncDirectory) == Sync(d)
  {
  }

  lemma LinkStep(d: Disk, c: Credential)
    requires d.visible.credential.None? && CredentialFor(d.visible.user, c)
    ensures Permitted(d, LinkCredential(c))
    ensures Perform(d, LinkCredential(c)) == Disk(d.visible.(credential := Some(Marshal(c))), d.durable)
  {
  }

  lemma ResetKeepsSessions(f: Files, c: Credential)
    requires !HasSessions(f, f.user.id)
    ensures var f' := f.(user := Reset(f.user, c)); !HasSessions(f', f'.user.id)
  {
  }

  lemma CleanupStep(d: Disk, outcome: Outcome)
    ensures var d' := Perform(d, RemoveTemps(outcome));
            && d'.visible == d.visible.(temps := d'.visible.temps)
            && (d'.durable.credential == d.durable.credential || d'.durable == d'.visible)
            && (outcome.Done? ==> d' == Sync(d'))
  {
  }

  lemma ProperIsBounded(u: User)
    ensures ProperUser(u) ==> u.version <= MAX_VERSION
  {
  }

  lemma NewCredentialFits(u: User, f: Faults)
    requires ProperUser(u) && GoodPassword(u, f) && f.password.Some? && u.version < MAX_VERSION
    ensures CredentialFor(u, Credential(u.username, u.id, u.version, f.password.value))
  {
    NoControlNoNewline(u.username);
  }

  lemma PendingFits(u: User, credential: Option<string>, c: Credential)
    requires Load(credential) == RecoveryFile(c) && Classify(u, c) == Pending && u.version < MAX_VERSION
    ensures CredentialFor(u, c)
  {
    ParsedFieldsHaveNoNewline(credential.value);
  }

  /** Wherever earlier runs were cut short, and whatever survived, a rerun for the same
      account can go through to the end. */
  lemma RerunAlwaysSucceeds(u0: User, d: Disk, events: seq<Event>, f: Files)
    requires Untouched(u0, d) && PossibleRun(d, events) && MayRemain(After(d, events), f)
    requires Eligible(u0) && u0.version < MAX_VERSION
    ensures ProperUser(f.user) && RerunSucceeds(Disk(f, f), u0.username)
    ensures forall c: Credential :: f.credential.None? || Load(f.credential) == RecoveryFile(c) ==>
      Finished(f.user, Load(f.credential), c) == Reset(u0, c)
  {
    hide Load, WellFormed, PossibleRun, After, ValidUsername, ValidUserId;
    RunKeepsInv(u0, d, events);
    PowerLossKeepsInv(u0, After(d, events), f);
    NoFileMeansNone(f.credential);
    if f.credential.Some? {
      CredentialTellsStatus(u0, Load(f.credential).credential);
    }
  }

  datatype Prepared = Ready(credential: Option<Credential>, resumed: bool) | Halted(error: Error)

  // ----- One run, step by step -----

  function AfterCleanup(d: Disk, outcome: Outcome): (Disk, bool) {
    if !d.visible.temps then (d, true) else (Perform(d, RemoveTemps(outcome)), outcome.Done?)
  }

  function Confirmed(d: Disk, ok: bool): Disk {
    if ok then Perform(d, SyncDirectory) else d
  }

  /** The credential file is written beside its place, linked, and made durable. */
  function AfterWriteCredential(d: Disk, c: Credential, f: Faults): (Disk, bool) {
    if !f.temp then (d, false)
    else
      var temp := Perform(d, CreateTemp);
      if !f.link then (if f.dropTemp then Perform(temp, DropTemp) else temp, false)
      else
        var linked := Perform(temp, LinkCredential(c));
        if !f.dropTemp then (linked, false)
        else
          var dropped := Perform(linked, DropTemp);
          if !f.syncNew then (dropped, false) else (Perform(dropped, SyncDirectory), true)
  }

  function AfterNewCredential(d: Disk, f: Faults): (Disk, Prepared) {
    var u := d.visible.user;
    if u.version == MAX_VERSION then (d, Halted(VersionExhausted))
    else
      match f.password
      case None => (d, Halted(NoPassword))
      case Some(password) =>
        var c := Credential(u.username, u.id, u.version, password);
        var (written, ok) := AfterWriteCredential(d, c, f);
        if !ok then (written, Halted(CredentialWrite))
        else if Load(written.visible.credential) != RecoveryFile(c) then (written, Halted(CredentialConflict))
        else (Confirmed(written, f.reconfirm), if f.reconfirm then Ready(Some(c), false) else Halted(NotDurable))
  }

  /** The credential to recover with: the one that is there, or a new one. */
  function AfterPrepare(d: Disk, f: Faults): (Disk, Prepared) {
    var u, loaded := d.visible.user, Load(d.visible.credential);
    if loaded.BadFile? then (d, Halted(CredentialConflict))
    else if loaded.NoFile? then AfterNewCredential(d, f)
    else if !f.confirm then (d, Halted(NotDurable))
    else
      (Confirmed(d, true),
       match loaded
       case RecoveryFile(c) => if Classify(u, c) == Conflict then Halted(CredentialConflict) else Ready(Some(c), true)
       case BootstrapFile(username, password) =>
         if BootstrapMatches(u, username, password) then Ready(None, false) else Halted(CredentialConflict)
       case _ => Halted(CredentialConflict))
  }

  function AfterRevoke(d: Disk, userId: string, outcome: Outcome): (Disk, Outcome) {
    if WithoutUser(d.visible.sessions, userId) == d.visible.sessions then (d, Done)
    else (Perform(d, ReplaceSessions(userId, outcome)), outcome)
  }

  function AfterRecover(d: Disk, username: string, f: Faults): (Disk, Result) {
    var u := d.visible.user;
    if u.username != username then (d, Stopped(NotFound))
    else if !u.isAdmin then (d, Stopped(NotAdmin))
    else if u.disabled then (d, Stopped(UserDisabled))
    else
      var (cleaned, clean) := AfterCleanup(d, f.cleanup);
      if !clean then (cleaned, Stopped(CleanupFailed))
      else
        var (prepared, p) := AfterPrepare(cleaned, f);
        if p.Halted? then (prepared, Stopped(p.error))
        else
          var pending := p.credential.Some? && Classify(u, p.credential.value) == Pending;
          if pending && u.version == MAX_VERSION then (prepared, Stopped(VersionExhausted))
          else
            var (revoked, written) := AfterRevoke(prepared, u.id, f.sessions);
            if written.Failed? then (revoked, Stopped(SessionWrite))
            else if !pending then (revoked, Recovered(p.resumed, true, written.Unconfirmed?))
            else
              (Perform(revoked, ReplaceUser(p.credential.value, f.user)),
               if f.user.Failed? then Stopped(UserWrite)
               else Recovered(p.resumed, false, written.Unconfirmed? || f.user.Unconfirmed?))
  }

  class Recovery {
    var disk: Disk
    /** Where the directory started, and every change made to it since. */
    ghost const start: Disk
    ghost var events: seq<Event>

    /** All changes were permitted ones, so a run that stops anywhere is a possible run. */
    ghost predicate Valid()
      reads this
    {
      PossibleRun(start, events) && disk == After(start, events)
    }

    constructor (disk: Disk)
      ensures Valid() && this.disk == disk == start && events == []
    {
      this.disk := disk;
      start := disk;
      events := [];
    }

    method Write(w: Write)
      requires Valid() && Permitted(disk, w)
      modifies this
      ensures Valid() && disk == Perform(old(disk), w)
      ensures old(events) <= events
    {
      ghost var more := Extend(start, events, w);
      hide *;
      disk := Perform(disk, w);
      events := more;
    }

    method CleanupTempFiles(outcome: Outcome) returns (ok: bool)
      requires Valid()
      modifies this
      ensures Valid() && old(events) <= events
      ensures (disk, ok) == AfterCleanup(old(disk), outcome)
      ensures disk == old(disk) || disk == Perform(old(disk), RemoveTemps(outcome))
      ensures ok ==> !disk.visible.temps
      ensures outcome.Done? ==> ok
    {
      if !disk.visible.temps {
        return true;
      }
      Write(RemoveTemps(outcome));
      ok := outcome.Done?;
    }

    method ConfirmDurability(ok: bool)
      requires Valid()
      modifies this
      ensures Valid() && old(events) <= events
      ensures disk == Confirmed(old(disk), ok) == if ok then Sync(old(disk)) else old(disk)
    {
      if ok {
        Write(SyncDirectory);
      }
    }

    /** Writes a temporary file, links it as the credential file, drops the temporary file
        and syncs. Any fault stops here, with whatever is visible by then. */
    method WriteCredential(c: Credential, f: Faults) returns (ok: bool)
      requires Valid() && disk.visible.credential.None? && CredentialFor(disk.visible.user, c)
      requires !disk.visible.temps
      modifies this
      ensures Valid() && old(events) <= events && (disk, ok) == AfterWriteCredential(old(disk), c, f)
      ensures disk.visible == old(disk.visible).(credential := disk.visible.credential, temps := disk.visible.temps)
      ensures ok ==> disk == Sync(disk) && disk.visible == old(disk.visible).(credential := Some(Marshal(c)))
      ensures f.temp && f.link && f.dropTemp && f.syncNew ==> ok
    {
      hide Perform, Permitted, CredentialFor, Marshal, PossibleRun, After;
      if !f.temp {
        return false;
      }
      DirectorySteps(disk);
      Write(CreateTemp);
      DirectorySteps(disk);
      if !f.link {
        if f.dropTemp {
          Write(DropTemp);
        }
        return false;
      }
      LinkStep(disk, c);
      Write(LinkCredential(c));
      if !f.dropTemp {
        return false;
      }
      DirectorySteps(disk);
      Write(DropTemp);
      DirectorySteps(disk);
      if !f.syncNew {
        return false;
      }
      Write(SyncDirectory);
      ok := true;
    }

    /** Finds or creates the credential. The user record is only reached when the credential
        file is durable; no credential in the answer means a matching first-start password. */
    method PrepareCredential(f: Faults) returns (p: Prepared)
      requires Valid() && Eligible(disk.visible.user) && GoodPassword(disk.visible.user, f) && !disk.visible.temps
      modifies this
      ensures Valid() && old(events) <= events && (disk, p) == AfterPrepare(old(disk), f)
      ensures disk.visible == old(disk.visible).(credential := disk.visible.credential, temps := disk.visible.temps)
      ensures p.Ready? ==> disk == Sync(disk) && !disk.visible.temps
      ensures p.Ready? && p.credential.Some? ==>
        Load(disk.visible.credential) == RecoveryFile(p.credential.value)
        && Classify(disk.visible.user, p.credential.value) != Conflict
      ensures p.Ready? && p.credential.None? ==> Load(disk.visible.credential).BootstrapFile?
      ensures old(disk.visible.credential).Some? ==> disk.visible.credential == old(disk.visible.credential)
      ensures Faultless(f) && old(disk.visible.credential).None? && disk.visible.user.version < MAX_VERSION ==> p.Ready?
      ensures p.Ready? && old(disk.visible.credential).None? ==>
        p.credential.Some? && Classify(disk.visible.user, p.credential.value) == Pending
      ensures var loaded := Load(old(disk.visible.credential));
              Faultless(f) && loaded.RecoveryFile? && Classify(disk.visible.user, loaded.credential) != Conflict ==>
                p.Ready?
    {
      hide PossibleRun, After, Marshal, Load, Classify, ValidUsername, ValidUserId, ValidPassword;
      var u := disk.visible.user;
      var loaded := Load(disk.visible.credential);
      NoFileMeansNone(disk.visible.credential);
      if loaded.BadFile? {
        return Halted(CredentialConflict);
      }
      if !loaded.NoFile? {
        ConfirmDurability(f.confirm);
        if !f.confirm {
          return Halted(NotDurable);
        }
      }
      match loaded
      case RecoveryFile(c) =>
        if Classify(u, c) == Conflict {
          return Halted(CredentialConflict);
        }
        return Ready(Some(c), true);
      case BootstrapFile(username, password) =>
        if !BootstrapMatches(u, username, password) {
          return Halted(CredentialConflict);
        }
        return Ready(None, false);
      case NoFile =>
        if u.version == MAX_VERSION {
          return Halted(VersionExhausted);
        }
        if f.password.None? {
          return Halted(NoPassword);
        }
        var c := Credential(u.username, u.id, u.version, f.password.value);
        NewCredentialFits(u, f);
        var written := WriteCredential(c, f);
        if !written {
          return Halted(CredentialWrite);
        }
        MarshalLoads(c);
        CredentialTellsStatus(u, c);
        p := Halted(CredentialConflict);
        var persisted := Load(disk.visible.credential);
        if persisted == RecoveryFile(c) {
          ConfirmDurability(f.reconfirm);
          p := if f.reconfirm then Ready(Some(persisted.credential), false) else Halted(NotDurable);
        }
    }

    /** Removes the account's sessions with one write, if there are any. */
    method RevokeSessions(userId: string, outcome: Outcome) returns (written: Outcome)
      requires Valid()
      modifies this
      ensures Valid() && old(events) <= events && (disk, written) == AfterRevoke(old(disk), userId, outcome)
      ensures disk.visible == old(disk.visible).(sessions := disk.visible.sessions)
      ensures disk.durable.credential == old(disk.durable.credential) || disk.durable == disk.visible
      ensures !written.Failed? ==> !HasSessions(disk.visible, userId)
      ensures outcome.Done? ==> written.Done? && (old(disk) == Sync(old(disk)) ==> disk == Sync(disk))
    {
      var rest := WithoutUser(disk.visible.sessions, userId);
      if rest == disk.visible.sessions {
        assert !HasSessions(disk.visible, userId) by {
          assert forall id :: id in rest ==> rest[id] != userId;
        }
        return Done;
      }
      Write(ReplaceSessions(userId, outcome));
      written := outcome;
    }

    /** Writes the reset user record over the original one. */
    method CommitUser(c: Credential, outcome: Outcome)
      requires Valid() && Permitted(disk, ReplaceUser(c, outcome)) && disk.visible.user.version < MAX_VERSION
      modifies this
      ensures Valid() && old(events) <= events && disk == Perform(old(disk), ReplaceUser(c, outcome))
      ensures !outcome.Failed? ==>
        disk.visible == old(disk.visible).(user := Reset(old(disk.visible.user), c))
        && Classify(disk.visible.user, c) == Committed
      ensures !outcome.Failed? ==> !HasSessions(disk.visible, disk.visible.user.id)
      ensures outcome.Done? ==> disk == Sync(disk)
    {
      hide PossibleRun, After, HasSessions, Load;
      ResetKeepsSessions(disk.visible, c);
      CredentialTellsStatus(disk.visible.user, c);
      Write(ReplaceUser(c, outcome));
    }

    /** One recovery run. Whatever fails, the changes made are permitted ones; a reported
        success means the visible account is reset, or was before, and has no session. */
    method Recover(username: string, f: Faults) returns (r: Result)
      requires Valid() && ProperUser(disk.visible.user) && GoodPassword(disk.visible.user, f)
      modifies this
      ensures Valid() && old(events) <= events && (disk, r) == AfterRecover(old(disk), username, f)
      ensures old(disk.visible.user).username != username ==> r == Stopped(NotFound) && disk == old(disk)
      ensures old(disk.visible.user).username == username && !old(disk.visible.user).isAdmin ==>
        r == Stopped(NotAdmin) && disk == old(disk)
      ensures old(disk.visible.user).username == username && old(disk.visible.user).isAdmin && old(disk.visible.user).disabled ==>
        r == Stopped(UserDisabled) && disk == old(disk)
      ensures r.Recovered? ==> !HasSessions(disk.visible, disk.visible.user.id)
      ensures r.Recovered? && Load(disk.visible.credential).RecoveryFile? ==>
        Classify(disk.visible.user, Load(disk.visible.credential).credential) == Committed
      ensures Faultless(f) && RerunSucceeds(old(disk), username) ==>
        r.Recovered? && !r.warned && disk == Sync(disk) && !disk.visible.temps
        && Load(disk.visible.credential).RecoveryFile?
        && disk.visible.user == Finished(old(disk.visible.user), Load(old(disk.visible.credential)),
                                      Load(disk.visible.credential).credential)
    {
      hide PossibleRun, After, Marshal, Load, Classify, ProperUser, GoodPassword, CredentialFor, HasSessions, WithoutUser, Perform;
      var u := disk.visible.user;
      ProperIsBounded(u);
      CleanupStep(disk, f.cleanup);
      NoFileMeansNone(disk.visible.credential);
      if u.username != username {
        return Stopped(NotFound);
      }
      if !u.isAdmin {
        return Stopped(NotAdmin);
      }
      if u.disabled {
        return Stopped(UserDisabled);
      }
      var clean := CleanupTempFiles(f.cleanup);
      if !clean {
        return Stopped(CleanupFailed);
      }
      assert disk.visible.user == u;
      var prepared := PrepareCredential(f);
      if prepared.Halted? {
        return Stopped(prepared.error);
      }
      var pending := prepared.credential.Some? && Classify(u, prepared.credential.value) == Pending;
      if pending && u.version == MAX_VERSION {
        return Stopped(VersionExhausted);
      }
      var revoked := RevokeSessions(u.id, f.sessions);
      if revoked.Failed? {
        return Stopped(SessionWrite);
      }
      if !pending {
        return Recovered(prepared.resumed, true, revoked.Unconfirmed?);
      }
      var c := prepared.credential.value;
      PendingFits(u, disk.visible.credential, c);
      r := Stopped(CredentialConflict);
      if u.version == c.previousVersion && u.username == c.username && u.isAdmin && !u.disabled {
        CommitUser(c, f.user);
        r := if f.user.Failed? then Stopped(UserWrite)
             else Recovered(prepared.resumed, false, revoked.Unconfirmed? || f.user.Unconfirmed?);
      }
    }
  }
}
