/** When a run of the administrator recovery succeeds and what it leaves, and when the service
    may start, in terms of the account, the files and the faults alone. */
module RecoveryAnswers {
  import opened AdminRecovery
  import opened Common
  import opened RecoveryCredential
  import Text

  /** The credential was made for this account. */
  predicate ForAccount(u: User, c: Credential) {
    c.username == u.username && c.userId == u.id
  }

  /** It waits to be used: the account is as it was when it was made. */
  predicate Waits(u: User, c: Credential) {
    ForAccount(u, c) && u.version == c.previousVersion && u.password != c.password
  }

  /** It was used: the account has its password, one version further, and must change it. */
  predicate Used(u: User, c: Credential) {
    ForAccount(u, c) && c.previousVersion != MAX_VERSION && u.version == c.previousVersion + 1
    && u.mustChange && u.password == c.password
  }

  lemma StatusExactly(u: User, c: Credential)
    ensures Classify(u, c) == Pending <==> Waits(u, c)
    ensures Classify(u, c) == Committed <==> Used(u, c)
  {
  }

  /** The service may start if and only if no temporary file is left and the credential file is
      missing, is none of a recovery, or holds a credential that was used. */
  lemma StartsExactlyWhen(f: Files)
    ensures StartupGate(f).Recovered? <==>
              && !f.temps
              && (f.credential.None? || !IsRecoveryData(f.credential.value)
                  || (Parse(f.credential.value).Some? && Used(f.user, Parse(f.credential.value).value)))
    ensures StartupGate(f).Stopped? ==> StartupGate(f).error == CredentialConflict
    ensures StartupGate(f).Recovered? ==>
      StartupGate(f) == Recovered(false, f.credential.Some? && IsRecoveryData(f.credential.value), false)
  {
    hide IsRecoveryData, Parse, Classify, ParseBootstrap;
    forall c: Credential {
      StatusExactly(f.user, c);
    }
  }

  /** How the file is read: no file, a recovery credential, a first-start password, or neither. */
  lemma ReadExactly(data: string)
    ensures var loaded := Load(Some(data));
            && (loaded.RecoveryFile? <==> IsRecoveryData(data) && Parse(data).Some?)
            && (loaded.RecoveryFile? ==> Parse(data) == Some(loaded.credential))
            && (loaded.BootstrapFile? <==> !IsRecoveryData(data) && ParseBootstrap(data).Some?)
            && (loaded.BootstrapFile? ==> ParseBootstrap(data) == Some((loaded.username, loaded.password)))
            && !loaded.NoFile? && Load(None).NoFile?
  {
    hide IsRecoveryData, Parse, ParseBootstrap;
  }

  // ----- A run -----

  /** The account may be recovered, and nothing is in the way. */
  predicate Starts(d: Disk, username: string, f: Faults) {
    && d.visible.user.username == username && d.visible.user.isAdmin && !d.visible.user.disabled
    && (d.visible.temps ==> f.cleanup.Done?)
  }

  /** The sessions of the account can be ended, or there are none. */
  predicate EndsSessions(d: Disk, f: Faults) {
    HasSessions(d.visible, d.visible.user.id) ==> !f.sessions.Failed?
  }

  /** Sessions were ended by a write that could not be confirmed. */
  predicate Warns(d: Disk, f: Faults) {
    HasSessions(d.visible, d.visible.user.id) && f.sessions.Unconfirmed?
  }

  /** The sessions of all other accounts. */
  ghost predicate OnlyOthers(before: map<string, string>, after: map<string, string>, userId: string) {
    && (forall id :: id in after <==> id in before && before[id] != userId)
    && (forall id :: id in after ==> after[id] == before[id])
  }

  lemma RevokesExactly(d: Disk, outcome: Outcome)
    ensures var (d', written) := AfterRevoke(d, d.visible.user.id, outcome);
            && (written.Failed? <==> HasSessions(d.visible, d.visible.user.id) && outcome.Failed?)
            && (written.Unconfirmed? <==> HasSessions(d.visible, d.visible.user.id) && outcome.Unconfirmed?)
            && (!written.Failed? ==> OnlyOthers(d.visible.sessions, d'.visible.sessions, d.visible.user.id))
            && d'.visible == d.visible.(sessions := d'.visible.sessions)
  {
    WithoutMeansOthers(d.visible.sessions, d.visible.user.id);
    hide WithoutUser, HasSessions, OnlyOthers;
    SomeOrNone(d.visible, d.visible.user.id);
  }

  lemma WithoutMeansOthers(sessions: map<string, string>, userId: string)
    ensures OnlyOthers(sessions, WithoutUser(sessions, userId), userId)
  {
  }

  lemma SomeOrNone(f: Files, userId: string)
    ensures WithoutUser(f.sessions, userId) == f.sessions <==> !HasSessions(f, userId)
  {
    if WithoutUser(f.sessions, userId) == f.sessions {
      assert forall id :: id in f.sessions ==> id in WithoutUser(f.sessions, userId);
    }
  }

  lemma CleansExactly(d: Disk, outcome: Outcome)
    ensures var (d', ok) := AfterCleanup(d, outcome);
            && (ok <==> d.visible.temps ==> outcome.Done?)
            && d'.visible == d.visible.(temps := d'.visible.temps) && (ok ==> !d'.visible.temps)
  {
  }

  lemma ResetsExactly(d: Disk, c: Credential, outcome: Outcome)
    ensures !outcome.Failed? ==>
      Perform(d, ReplaceUser(c, outcome)).visible ==
      d.visible.(user := d.visible.user.(password := c.password, mustChange := true, version := d.visible.user.version + 1))
  {
  }

  lemma SyncsOnly(d: Disk)
    ensures Confirmed(d, true).visible == d.visible
  {
  }

  /** With the credential of an earlier run: it is finished if it waits, and left if it was used. */
  lemma ResumesExactly(d: Disk, username: string, f: Faults, c: Credential)
    requires Load(d.visible.credential) == RecoveryFile(c)
    ensures var (d', r) := AfterRecover(d, username, f);
            var u := d.visible.user;
            var ready := Starts(d, username, f) && f.confirm && EndsSessions(d, f);
            && (r.Recovered? <==>
                  ready && ((Waits(u, c) && u.version != MAX_VERSION && !f.user.Failed?) || Used(u, c)))
            && (r.Recovered? ==>
                  && r.resumed && (r.alreadyAvailable <==> Used(u, c))
                  && (r.warned <==> Warns(d, f) || (!Used(u, c) && f.user.Unconfirmed?))
                  && d'.visible.credential == d.visible.credential && !d'.visible.temps
                  && OnlyOthers(d.visible.sessions, d'.visible.sessions, u.id)
                  && d'.visible.user == if Used(u, c) then u
                                        else u.(password := c.password, mustChange := true, version := u.version + 1))
  {
    hide Load, Classify, HasSessions, OnlyOthers, Waits, Used, AfterCleanup, AfterRevoke, AfterNewCredential, Confirmed, Perform;
    StatusExactly(d.visible.user, c);
    CleansExactly(d, f.cleanup);
    var cleaned := AfterCleanup(d, f.cleanup).0;
    SyncsOnly(cleaned);
    var prepared := Confirmed(cleaned, true);
    RevokesExactly(prepared, f.sessions);
    SameSessions(d.visible, prepared.visible);
    ResetsExactly(AfterRevoke(prepared, d.visible.user.id, f.sessions).0, c, f.user);
  }

  lemma SameSessions(f: Files, g: Files)
    requires f.sessions == g.sessions
    ensures forall userId :: HasSessions(f, userId) == HasSessions(g, userId)
  {
  }

  /** With a first-start password: the run succeeds if it is still the account's and has to be
      changed, ends the sessions, and changes nothing else. */
  lemma BootstrapsExactly(d: Disk, username: string, f: Faults)
    requires Load(d.visible.credential).BootstrapFile?
    ensures var (d', r) := AfterRecover(d, username, f);
            var u, file := d.visible.user, Load(d.visible.credential);
            && (r.Recovered? <==>
                  && Starts(d, username, f) && f.confirm && EndsSessions(d, f)
                  && file.username == u.username && file.password == u.password && u.mustChange)
            && (r.Recovered? ==>
                  && !r.resumed && r.alreadyAvailable && (r.warned <==> Warns(d, f))
                  && d'.visible == d.visible.(sessions := d'.visible.sessions, temps := false)
                  && OnlyOthers(d.visible.sessions, d'.visible.sessions, u.id))
  {
    hide Load, Classify, HasSessions, OnlyOthers, AfterCleanup, AfterRevoke, AfterNewCredential, Confirmed, Perform;
    CleansExactly(d, f.cleanup);
    var cleaned := AfterCleanup(d, f.cleanup).0;
    SyncsOnly(cleaned);
    var prepared := Confirmed(cleaned, true);
    RevokesExactly(prepared, f.sessions);
    SameSessions(d.visible, prepared.visible);
  }

  lemma WritesCredentialExactly(d: Disk, c: Credential, f: Faults)
    ensures var (d', ok) := AfterWriteCredential(d, c, f);
            && (ok <==> f.temp && f.link && f.dropTemp && f.syncNew)
            && (ok ==> d'.visible == d.visible.(credential := Some(Marshal(c)), temps := false))
            && (!f.link || !f.temp ==> d'.visible.credential == d.visible.credential)
            && (f.temp && !f.link ==> (d'.visible.temps <==> !f.dropTemp))
            && (f.temp && f.link && !f.dropTemp ==> d'.visible == d.visible.(credential := Some(Marshal(c)), temps := true))
  {
    hide Marshal;
  }

  lemma NewWaits(u: User, f: Faults)
    requires ProperUser(u) && GoodPassword(u, f) && f.password.Some? && u.version != MAX_VERSION
    ensures var c := Credential(u.username, u.id, u.version, f.password.value); Waits(u, c) && WellFormed(c)
  {
    NewCredentialFits(u, f);
  }

  lemma MakesCredentialExactly(d: Disk, f: Faults)
    requires ProperUser(d.visible.user) && GoodPassword(d.visible.user, f)
    ensures var (d', p) := AfterNewCredential(d, f);
            var u := d.visible.user;
            && (p.Ready? <==> u.version != MAX_VERSION && f.password.Some?
                              && f.temp && f.link && f.dropTemp && f.syncNew && f.reconfirm)
            && (p.Ready? ==>
                  var c := Credential(u.username, u.id, u.version, f.password.value);
                  && p == Ready(Some(c), false) && Waits(u, c) && Load(d'.visible.credential) == RecoveryFile(c)
                  && d'.visible == d.visible.(credential := d'.visible.credential, temps := false))
  {
    hide Load, AfterWriteCredential, Confirmed, Marshal, ProperUser, GoodPassword, CredentialFor, Waits, WellFormed;
    var u := d.visible.user;
    if u.version != MAX_VERSION && f.password.Some? {
      var c := Credential(u.username, u.id, u.version, f.password.value);
      NewWaits(u, f);
      WritesCredentialExactly(d, c, f);
      MarshalLoads(c);
      SyncsOnly(AfterWriteCredential(d, c, f).0);
    }
  }

  /** Without a credential file: the run succeeds if and only if every step does, and leaves the
      account with the new password, which is in the file. */
  lemma StartsAnewExactly(d: Disk, username: string, f: Faults)
    requires d.visible.credential.None? && ProperUser(d.visible.user) && GoodPassword(d.visible.user, f)
    ensures var (d', r) := AfterRecover(d, username, f);
            var u := d.visible.user;
            && (r.Recovered? <==>
                  && Starts(d, username, f) && u.version != MAX_VERSION && f.password.Some?
                  && f.temp && f.link && f.dropTemp && f.syncNew && f.reconfirm
                  && EndsSessions(d, f) && !f.user.Failed?)
            && (r.Recovered? ==>
                  && !r.resumed && !r.alreadyAvailable && (r.warned <==> Warns(d, f) || f.user.Unconfirmed?)
                  && Load(d'.visible.credential) == RecoveryFile(Credential(u.username, u.id, u.version, f.password.value))
                  && !d'.visible.temps && OnlyOthers(d.visible.sessions, d'.visible.sessions, u.id)
                  && d'.visible.user == u.(password := f.password.value, mustChange := true, version := u.version + 1))
  {
    hide Load, Classify, HasSessions, OnlyOthers, AfterCleanup, AfterRevoke, AfterNewCredential, Confirmed, Perform, Waits, Used,
         ProperUser, GoodPassword;
    var u := d.visible.user;
    NoFileMeansNone(d.visible.credential);
    CleansExactly(d, f.cleanup);
    var cleaned := AfterCleanup(d, f.cleanup).0;
    MakesCredentialExactly(cleaned, f);
    var (prepared, p) := AfterNewCredential(cleaned, f);
    if p.Ready? {
      StatusExactly(u, p.credential.value);
      RevokesExactly(prepared, f.sessions);
      SameSessions(d.visible, prepared.visible);
      var revoked := AfterRevoke(prepared, u.id, f.sessions).0;
      ResetsExactly(revoked, p.credential.value, f.user);
    }
  }

  /** A file that is neither stops the run before it changes anything but leftover files. */
  lemma BadFileStops(d: Disk, username: string, f: Faults)
    requires Load(d.visible.credential).BadFile?
    ensures var (d', r) := AfterRecover(d, username, f);
            r.Stopped? && d'.visible == d.visible.(temps := d'.visible.temps)
  {
    hide Load;
    CleansExactly(d, f.cleanup);
  }

  /** What a run that starts anew is stopped by is the first thing that goes wrong. */
  lemma StopsAtFirstFault(d: Disk, username: string, f: Faults)
    requires d.visible.credential.None? && ProperUser(d.visible.user) && GoodPassword(d.visible.user, f)
    ensures var r := AfterRecover(d, username, f).1;
            var u := d.visible.user;
            r.Stopped? ==>
              r.error == if u.username != username then NotFound
                         else if !u.isAdmin then NotAdmin
                         else if u.disabled then UserDisabled
                         else if d.visible.temps && !f.cleanup.Done? then CleanupFailed
                         else if u.version == MAX_VERSION then VersionExhausted
                         else if f.password.None? then NoPassword
                         else if !(f.temp && f.link && f.dropTemp && f.syncNew) then CredentialWrite
                         else if !f.reconfirm then NotDurable
                         else if HasSessions(d.visible, u.id) && f.sessions.Failed? then SessionWrite
                         else UserWrite
  {
    hide Load, Classify, HasSessions, OnlyOthers, AfterCleanup, AfterRevoke, AfterNewCredential, Confirmed, Perform, Waits, Used,
         ProperUser, GoodPassword;
    var u := d.visible.user;
    NoFileMeansNone(d.visible.credential);
    CleansExactly(d, f.cleanup);
    var cleaned := AfterCleanup(d, f.cleanup).0;
    MakesCredentialExactly(cleaned, f);
    NewCredentialStops(cleaned, f);
    var (prepared, p) := AfterNewCredential(cleaned, f);
    if p.Ready? {
      StatusExactly(u, p.credential.value);
      RevokesExactly(prepared, f.sessions);
      SameSessions(d.visible, prepared.visible);
    }
  }

  lemma NewCredentialStops(d: Disk, f: Faults)
    requires ProperUser(d.visible.user) && GoodPassword(d.visible.user, f)
    ensures var p := AfterNewCredential(d, f).1;
            p.Halted? ==>
              p.error == if d.visible.user.version == MAX_VERSION then VersionExhausted
                         else if f.password.None? then NoPassword
                         else if !(f.temp && f.link && f.dropTemp && f.syncNew) then CredentialWrite
                         else NotDurable
  {
    hide Load, AfterWriteCredential, Confirmed, Marshal, ProperUser, GoodPassword, CredentialFor, Waits, WellFormed;
    var u := d.visible.user;
    if u.version != MAX_VERSION && f.password.Some? {
      var c := Credential(u.username, u.id, u.version, f.password.value);
      NewWaits(u, f);
      WritesCredentialExactly(d, c, f);
      MarshalLoads(c);
    }
  }

  /** With a credential file: what stops the run, once it has started. */
  lemma StopsWithFile(d: Disk, username: string, f: Faults)
    requires d.visible.credential.Some? && Starts(d, username, f)
    ensures var r := AfterRecover(d, username, f).1;
            var loaded := Load(d.visible.credential);
            && (!loaded.BadFile? && !f.confirm ==> r == Stopped(NotDurable))
            && (loaded.BadFile? ==> r == Stopped(CredentialConflict))
            && (loaded.RecoveryFile? && f.confirm && Classify(d.visible.user, loaded.credential) == Conflict ==>
                  r == Stopped(CredentialConflict))
            && (loaded.BootstrapFile? && f.confirm && !BootstrapMatches(d.visible.user, loaded.username, loaded.password) ==>
                  r == Stopped(CredentialConflict))
            && (loaded.RecoveryFile? && f.confirm && Classify(d.visible.user, loaded.credential) == Pending ==>
                  && (d.visible.user.version == MAX_VERSION ==> r == Stopped(VersionExhausted))
                  && (d.visible.user.version != MAX_VERSION && !EndsSessions(d, f) ==> r == Stopped(SessionWrite))
                  && (d.visible.user.version != MAX_VERSION && EndsSessions(d, f) && f.user.Failed? ==> r == Stopped(UserWrite)))
            && (loaded.RecoveryFile? && f.confirm && Classify(d.visible.user, loaded.credential) == Committed ==>
                  !EndsSessions(d, f) ==> r == Stopped(SessionWrite))
  {
    hide Load, Classify, HasSessions, OnlyOthers, AfterCleanup, AfterRevoke, AfterNewCredential, Confirmed, Perform,
         BootstrapMatches;
    CleansExactly(d, f.cleanup);
    FileIsLoaded(d.visible.credential);
    var cleaned := AfterCleanup(d, f.cleanup).0;
    SyncsOnly(cleaned);
    var prepared := Confirmed(cleaned, true);
    RevokesExactly(prepared, f.sessions);
    SameSessions(d.visible, prepared.visible);
  }

  lemma FileIsLoaded(data: Option<string>)
    ensures data.Some? ==> !Load(data).NoFile?
  {
    hide IsRecoveryData, Parse, ParseBootstrap;
  }
}
