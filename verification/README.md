# Verified models of MnemoNAS

MnemoNAS is a network storage server: a Go daemon that authenticates users, serves files and
resumable uploads and enforces quotas and directory access rules, and a Rust data plane that
chunks files and keeps them in a content-addressed store. This project models the parts of it
that keep state across interleavings, errors and crashes, and proves what they guarantee.
`dafny verify dfyconfig.toml` checks everything.

| files | what they model |
|---|---|
| `TokenRegistry`, `TokenManager`, `TokenRuns` | login sessions: a registry mirrored to a file, rotating refresh generations, rollback of failed writes, a clock that survives restarts; specification functions, the class that is proved equal to them, and runs over any events |
| `TokenValidity` | whom and what the token manager accepts, hands out and keeps, in terms of times, names and records |
| `TokenDurability`, `RefreshRequests` | the same runs with power losses that may undo unconfirmed writes, and refresh requests that interleave section by section |
| `LoginAttempts`, `LoginTracker`, `LoginGuarantees`, `LoginWindow` | the login rate limiter: specification, the class with its map, counters and linked lists, what holds over runs, and which failures count and are forgotten |
| `RecoveryCredential`, `AdminRecovery`, `RecoveryAnswers` | offline administrator recovery: the credential file format, the recovery as a protocol over writes that may be visible without being durable, and when a run succeeds |
| `ActivityLog`, `UploadProtocol`, `UploadOutcome`, `UploadCommit`, `Decimal` | committing a resumable upload beside other writers, crashes and reconciliation, how every such request ends, and the idempotent activity log |
| `CommitLocks`, `HashLocks` | the two tables of per-identifier locks, as steps of any number of tasks |
| `Chunking`, `Manifest` | content-defined chunking, batch and streaming, and the check of file manifests |
| `ObjectPaths`, `Cas`, `CasStore`, `CasRuns`, `Listing` | the content-addressed store: paths, specification, the class, runs with restarts, paginated listing |
| `Uploads`, `FileService` | streaming a file into the store with rollback, and reading it back |
| `Text`, `Paths`, `FileTree`, `Quota`, `QuotaFlows`, `AccessRules` | path strings, byte counts of moves and copies, quota checks and reservations, when they account for what happens, directory access rules |
| `Common` | the option type and a lemma on sets that the others share |
| `Generations`, `HandlerGenerations` | generations of a switchable handler, as values and as objects |

How the models are built: a component whose methods update its fields is a class, and each
method is proved equal to a specification function on values or to a step of a protocol; the
guarantees are lemmas about those functions and about every run of them. Clock readings, file
system outcomes, drawn identifiers, other writers and faults are parameters, so every theorem
holds for all of them. Hashing, compression, JSON and the rolling hash of the chunker are
function parameters too; where a result needs that contents do not share a hash, it says so for
the contents that are involved.

Findings where the code does less than its shape suggests; each has a lemma with the case and,
where the code does meet the property, the exact condition:

- Paths of rules and quotas are cleaned by a function that refuses `?`, `#` and `\` and trims white
  space; request paths go through another one, but are cleaned by the first when they are compared.
  Moves and copies are charged for what the cleaned paths say, and quotas hold for the changes they
  grant, exactly if that balances, or is enough for, what really moves
  (`QuotaFlows.ChargedExactlyWhen`, `QuotaFlows.KeepsQuotaExactlyWhen`). It is not for a refused
  source moved under a quota path (`QuotaFlows.RefusedMovesInFree`) or for `/a ` moved below `/a`
  (`QuotaFlows.BlankMovesInFree`), and a copy to `/a ` is charged to `/a`
  (`QuotaFlows.BlankCopyIsCharged`). The most specific access rule applies exactly on paths the
  cleaner leaves alone (`AccessRules.MostSpecificExactlyWhen`), and none at all on those it refuses
  (`AccessRules.RefusedTargetHasNoRule`). Cleaning is not idempotent (`Paths.CleaningTwiceDiffers`).
- A comment at `internal/auth/token.go:937` calls the revocation of a missing session idempotent because it
  is rejected for good. After an unconfirmed write it is not: revoking again reports success without
  a write, and a power loss brings the session back (`TokenDurability.RepeatedRevocationCanBeUndone`,
  with the exact condition in `TokenDurability.ReportedRevocationLastsExactlyWhen`). Consumed tokens and
  validation times have such conditions too (`TokenDurability.ConsumptionLastsExactlyWhen`,
  `TokenDurability.PreparedTimeLastsExactlyWhen`).
- An upload session that began without a target can publish twice when the published file is
  removed before reconciliation (`UploadProtocol.SecondPublicationExactly`).
- After two unconfirmed writes a power loss can keep the reset administrator together with the
  old sessions (`AdminRecovery.UnconfirmedRevocationCanBeUndone`); `AdminRecovery.NewPasswordHasNoOldSessions`
  says exactly which runs do.
- The entry of a write lock is left in the table when its last user is cancelled, or goes without
  having been alone when it looked (`HashLocks.LeftOverExactlyWhen`); the next task for the object
  uses it again.
- The access evaluator reports an invalid path as denied also to administrators, whom the
  authorizer does not check (`AccessRules.EvaluatorAgreesExactlyWhen`).
- A rebuilt index counts a hash twice exactly if both its forms exist
  (`CasStorage.CasStore.RebuildIndex`).

## Model

| member | source | states |
|---|---|---|
| TokenRuns.RegistryMirrorsFile | internal/auth/token.go:183-255 | after any run of logins, refreshes, revocations, cleanups, failed writes and restarts: memory and time floor equal the file, both session limits hold, and the file is one the strict loader accepts |
| TokenRuns.ValidationTimeNeverGoesBack | internal/auth/token.go:532-560 | every validation time handed out is at least every earlier one and strictly below the floor in the file, over any restarts and wall-clock rollbacks |
| TokenRuns.ExpiredStaysExpired | internal/auth/token.go:764-807 | a token rejected as expired at one validation time is accepted at no later one, whatever happened in between |
| TokenRuns.GenerationsAreConsumedOnce | internal/auth/token.go:899-937 | each (session, generation) is consumed successfully at most once, generations of a session only grow, and two rotations of it lie at least the rotation interval apart |
| TokenRuns.RevokedNeverValidates | internal/auth/token.go:939-1015 | without power losses, a session whose revocation was reported done is in no later registry and no later file, and none of its tokens validates again |
| TokenRuns.StepKeepsInv | internal/auth/token.go:185-1047 | every single operation, with any write outcome, and every start or stop keeps the invariant the run results rest on |
| TokenRuns.CommitIsAtomic | internal/auth/token.go:487-530 | a write that fails hard leaves the manager exactly as it was; otherwise memory and file change together |
| TokenRuns.PrepareCoversItsTime | internal/auth/token.go:532-560 | a prepared time is the effective clock, at least every earlier one and strictly below the floor; nothing is added to the registry |
| TokenRuns.LoginAddsExactlyOne | internal/auth/token.go:571-634 | a login that succeeds puts exactly one session beside the live ones, under a drawn identifier none of them has, and hands out the tokens of that session |
| TokenRuns.FailedLoginChangesNothing | internal/auth/token.go:562-634 | a failed login changes neither registry, floor nor file |
| TokenRuns.GenerateAddsOne | internal/auth/token.go:571-634 | a login keeps the manager well formed and within both limits, and no surviving session changes |
| TokenRuns.ConsumeRotatesOne | internal/auth/token.go:899-937 | a successful consumption advances exactly the one generation; every refused or failed one leaves registry and file alone |
| TokenRuns.DropShrinks | internal/auth/token.go:944-1047 | revocation and cleanup only ever remove sessions, and a reported success means that exactly the live ones that were not named remain |
| TokenRuns.EnableResumes | internal/auth/token.go:185-255 | a start adopts exactly the live sessions of the file, never lets the clock fall behind its floor, and a refused start leaves the file alone |
| TokenRuns.LoginPairValidates | internal/auth/token.go:571-634 | both tokens of a successful login validate until they expire |
| TokenRuns.RotationDeliversTheCurrentToken | internal/auth/handler.go:833-873 | when the old token is consumed after the new pair was signed, the signed pair holds the one current refresh token and the old one is reported as reused |
| TokenManagement.TokenManager.EffectiveNow | internal/auth/token.go:162-175 | the clock is the largest of the wall reading, the floor and every earlier effective time |
| TokenManagement.TokenManager.EnableSessionPersistence | internal/auth/token.go:185-255 | the step-by-step start, with every undo on failure, is the specification function Enable |
| TokenManagement.TokenManager.ExtendRestartTimeLease | internal/auth/token.go:522-530 | raises the floor to now plus the lease, never lowers it |
| TokenManagement.TokenManager.PersistState | internal/auth/token.go:487-512 | refuses a zero floor or too many sessions, and otherwise replaces the file as the write outcome says |
| TokenManagement.TokenManager.PrepareValidationTime | internal/auth/token.go:532-560 | extends and writes the lease only when needed, and restores the floor when the write fails |
| TokenManagement.TokenManager.GenerateTokenPair | internal/auth/token.go:571-634 | the login with all its rollbacks is the specification function Generate |
| TokenManagement.TokenManager.GenerateUniqueSessionId | internal/auth/token.go:643-654 | returns the first drawn identifier not in use within the allowed attempts |
| TokenManagement.TokenManager.ConsumeRefreshToken | internal/auth/token.go:899-937 | the rotation with its rollback is the specification function Consume |
| TokenManagement.TokenManager.RevokeSessions | internal/auth/token.go:944-981 | revocation by identifiers is the specification function Revoke |
| TokenManagement.TokenManager.RevokeByUser | internal/auth/token.go:983-1015 | revocation by account is the specification function RevokeUser |
| TokenManagement.TokenManager.CleanupExpiredSessions | internal/auth/token.go:1017-1036 | the public cleanup is the specification function Cleanup |
| TokenManagement.TokenManager.CleanupExpired | internal/auth/token.go:1038-1047 | removes exactly the expired sessions and returns exactly what it removed |
| TokenManagement.TokenManager.RestoreRemoved | internal/auth/token.go:562-569 | puts removed sessions back |
| TokenManagement.TokenManager.ActiveSessionCount | internal/auth/token.go:1049-1057 | the loop counts exactly the live sessions |
| TokenManagement.TokenManager.ActiveSessionCountForUser | internal/auth/token.go:1059-1067 | the loop counts exactly the live sessions of one account |
| TokenManagement.TokenManager.ValidateActiveSessionLimits | internal/auth/token.go:1069-1084 | accepts exactly when the total and every per-account number of live sessions are within their limits |
| TokenManagement.TokenManager.ValidateAccessToken | internal/auth/token.go:764-807 | with nothing between its two locked sections, the verdict is that of the claims at the prepared time, no verdict is given without one, and an accepted token is less than a second past its own expiry at that time |
| TokenManagement.TokenManager.LookUpSession | internal/auth/token.go:796-806 | the second locked section: the session behind claims that passed all other checks, in whatever registry it meets |
| TokenValidity.AccessAcceptedExactlyWhen | internal/auth/token.go:764-807 | a well-signed access token is accepted if and only if issuer, names, identifiers and times are in order, the time is less than a second past its own expiry, and its session is registered for the same account and end and not over; expired, revoked and invalid each have their exact cause |
| TokenValidity.TokenEndsOnTime | internal/auth/token.go:764-807 | in any run, once a validation time a second past the expiry of a token was handed out, the token is answered as expired at this and every later one |
| TokenValidity.LoginHandsOut | internal/auth/token.go:571-634 | a successful login hands out the account's own pair, issued at the second of the clock, for a session that ends after the refresh duration, has generation zero and may rotate at once; the access token ends after its own duration or with the session |
| TokenValidity.PairAcceptedExactlyWhen | internal/auth/token.go:709-807 | the access token of a pair is accepted from a second before it was issued to a second after its expiry while its session lasts, and at no other time |
| TokenValidity.LoginAcceptedExactlyWhen | internal/auth/token.go:571-654 | a login succeeds if and only if the account is proper, both limits leave room, an unused identifier was drawn within the attempts, the session would last and the file can be written; each refusal has its exact cause |
| TokenValidity.RefreshAcceptedExactlyWhen | internal/auth/token.go:867-886 | the verdict on a refresh token is accepted, reused, revoked, expired or invalid, each exactly by the record of its session |
| TokenValidity.ConsumeAcceptedExactlyWhen | internal/auth/token.go:899-937 | a rotation succeeds if and only if the token is for a lasting session at its next generation, the interval has passed and the file can be written; it then counts up by one, notes the time and touches nothing else; each refusal has its exact cause |
| TokenValidity.PairedExactlyWhen | internal/auth/token.go:656-760 | a pair for the next generation is signed if and only if account and session are proper, match, and the session lasts and is at the generation of the token; it says whose it is and ends on time |
| TokenValidity.ClockFollowsMonotonic | internal/auth/token.go:162-175 | between two looks the clock moves on by what the monotonic clock did, or to the wall clock if that is later |
| TokenValidity.PreparedExactlyWhen | internal/auth/token.go:532-560 | a validation time is handed out if and only if the lease is usable and the file covers the time or can be written; the file is written exactly within the renewal lead, with the unexpired sessions and a floor a lease ahead |
| TokenValidity.DropLeavesExactly | internal/auth/token.go:1017-1047 | after a cleanup or revocation exactly the sessions remain that are not over and were not meant; it fails exactly if there was something to drop and the file could not be written |
| TokenValidity.RevokedExactlyWhen | internal/auth/token.go:944-981 | revocation by identifiers: when it succeeds, and exactly which sessions remain |
| TokenValidity.RevokedByUserExactlyWhen | internal/auth/token.go:983-1015 | revocation by account: when it succeeds, and exactly which sessions remain |
| TokenValidity.StartedExactlyWhen | internal/auth/token.go:185-255 | a start over a loadable file succeeds if and only if the unexpired sessions keep both limits and the file can be written; it keeps exactly those, goes on at the later of floor and wall clock, and leads the floor by a lease |
| TokenValidity.BadFileStopsStart | internal/auth/token.go:185-255 | a start is stopped for its file exactly by a zero floor, too many sessions or a record that cannot be |
| TokenDurability.GoneSessionStaysGoneExactlyWhen | internal/auth/token.go:939-1036 | a session that is in neither memory nor file stays away through any run with power losses if and only if the last confirmed file has lost it too |
| TokenDurability.ReportedRevocationLastsExactlyWhen | internal/auth/token.go:939-981 | in any run with power losses, a revocation reported done lasts if and only if it wrote the file and that write was confirmed, or the durable file had lost the session before |
| TokenDurability.RepeatedRevocationCanBeUndone | internal/auth/token.go:962-970 | revoking again after an unconfirmed write reports success without a warning and without a write: the run in which a power loss then brings the session back |
| TokenDurability.RevocationUndoneFromTheStart | internal/auth/token.go:962-970 | that run from new storage: a start, a login, both revocations, the power loss, and a start that has the session again |
| TokenDurability.PreparedTimeLastsExactlyWhen | internal/auth/token.go:532-560 | a validation time that was handed out is never undercut, whatever power losses follow, if and only if the floor of the durable file covers it |
| TokenDurability.ConsumptionLastsExactlyWhen | internal/auth/token.go:899-937 | a consumed refresh token stays spent, whatever power losses follow, if and only if the write of its consumption was confirmed or the durable file knows no session for which it would be current |
| TokenDurability.RegistryMirrorsFileAfterLosses | internal/auth/token.go:183-255 | after any run with power losses a running manager has exactly what is in its file, within both limits, and every file that may remain can be loaded |
| TokenDurability.ConfirmedRunsAreRuns | internal/auth/token.go:487-512 | where no write is left unconfirmed, a run with power losses ends as the run with stops in their place |
| TokenDurability.IncidentKeepsStorageOk | internal/auth/token.go:185-1047 | every operation and every power loss keeps memory, visible file and durable file in order |
| RefreshRequests.OneTokenDeliversOnce | internal/auth/handler.go:774-873 | however refresh requests interleave with each other and everything else, two that were answered with a pair for one session brought different tokens and got different ones |
| RefreshRequests.ConsumedTokenEndsSession | internal/auth/handler.go:794-937 | a request whose token was consumed before is never answered with a pair; it finishes by ending the session, unless the session is over, the account is refused, the token is not proper or the file cannot be written |
| RefreshRequests.ReusedTokenEndsSession | internal/auth/handler.go:923-937 | without power losses, once a request has answered a reused token, the session is in no later file and none of its tokens validates |
| RefreshRequests.EndingLastsExactlyWhen | internal/auth/handler.go:923-937 | in any run with power losses, the session that a request has ended stays away if and only if the ending wrote the file and that write was confirmed, or the durable file had lost the session before |
| RefreshRequests.ActKeepsOk | internal/auth/handler.go:774-937 | every section of every request, and everything else the manager does in between, keeps the invariant |
| RefreshRequests.PairMeansAdmitted | internal/auth/handler.go:809-833 | in any run, a request answered with a pair brought a token with the current credential version of an admitted account, and the pair is that account's, for the next generation of the same session |
| RefreshRequests.UnadmittedNeverSigns | internal/auth/handler.go:809-833 | in any run, a request of an account that is not admitted, or with an outdated credential version, is at no time past its checks |
| RefreshRequests.EndedMeansUsedBefore | internal/auth/handler.go:794-937 | in any run, a request ends its session only for a token that some accepted rotation had used before |
| RefreshRequests.AloneDeliversExactlyWhen | internal/auth/handler.go:774-873 | a request that nothing comes between, of an account that can have tokens, is answered with a pair if and only if the token is in order and current, the account is admitted and the rotation interval is over |
| RefreshRequests.SecondLookOnlyEnds | internal/auth/handler.go:901-921 | after a pair could not be made, the request only notices a reused token or is told that its token is invalid; it never signs again |
| LoginGuarantees.OrderIsAlwaysExact | internal/auth/handler.go:124-269 | after any run the recency order lists exactly the keys that are not locked, each once |
| LoginGuarantees.LocksLast | internal/auth/handler.go:144-176 | no run of failures, checks and resets for other keys, however full the tracker, ends a lock before its expiry |
| LoginGuarantees.LimitLocks | internal/auth/handler.go:144-176 | a failure answers locked exactly if the key was locked, or the failure finds room and reaches the limit, be it the first; a new lock holds for its whole duration and no longer; a failure that finds no room leaves nothing behind |
| LoginGuarantees.UncountedExactlyWhen | internal/auth/handler.go:144-218 | for keys with an address, a failure goes uncounted if and only if the key has no live entry and, after pruning and without its own entry, the per-address limit is reached with every entry of that address locked, or the total limit with every entry locked |
| LoginGuarantees.CapacityIsAlwaysKept | internal/auth/handler.go:206-234 | for keys with an address both limits hold after every run |
| LoginGuarantees.PruningIsInvisible | internal/auth/handler.go:124-204 | with a non-decreasing clock, one failure window and room for every entry, the tracker answers every call like one that never prunes |
| LoginGuarantees.ApplyKeepsCapacity | internal/auth/handler.go:206-234 | for keys with an address, the total and the per-address limit hold after every operation |
| LoginGuarantees.EmptyAddressBreaksPerIpLimit | internal/auth/handler.go:206-234 | remark, as the caller never passes an empty address: a run of three failures from the empty tracker that ends above the limit of the empty address |
| LoginGuarantees.EmptyAddressKeepsLimitExactlyWhen | internal/auth/handler.go:206-234 | remark on the same: with the empty address at its limit, a first failure keeps both limits if and only if there is no unlocked failure or the oldest of all has no address either |
| LoginTracking.LoginAttemptTracker.IsLocked | internal/auth/handler.go:124-142 | lookup with lazy deletion, on map, counters and lists at once, is the specification function IsLocked |
| LoginTracking.LoginAttemptTracker.RecordFailure | internal/auth/handler.go:144-176 | recording a failure keeps map, counters and both kinds of lists consistent and is the specification function RecordFailure, about which LoginWindow says what counts |
| LoginTracking.LoginAttemptTracker.PruneExpiredIfDue | internal/auth/handler.go:178-200 | the pruning loop deletes exactly the dead entries when it is due |
| LoginTracking.LoginAttemptTracker.EnsureFailureCapacity | internal/auth/handler.go:206-218 | evicts at most the entries the two limits demand, or refuses |
| LoginTracking.LoginAttemptTracker.EvictOldestUnlockedFailure | internal/auth/handler.go:220-234 | removes exactly the first key of the list it looks at |
| LoginTracking.LoginAttemptTracker.TouchUnlockedFailureOrder | internal/auth/handler.go:236-252 | moves the key to the end of the global and of its own list, keeping every other position |
| LoginTracking.LoginAttemptTracker.RemoveUnlockedFailureOrder | internal/auth/handler.go:254-269 | takes the key off both lists and drops an empty per-address list |
| LoginTracking.LoginAttemptTracker.DeleteEntry | internal/auth/handler.go:344-356 | removes the entry from map, counters and lists together |
| LoginTracking.LoginAttemptTracker.Reset | internal/auth/handler.go:358-363 | forgets one key and nothing else |
| LoginTracking.UnlinkKeepsLinks | internal/auth/handler.go:254-269 | taking one key off both lists leaves every other entry pointing at its own nodes and every per-address list equal to the global one filtered |
| LoginTracking.AppendKeepsLinks | internal/auth/handler.go:236-252 | appending one key to both lists keeps the same |
| LoginWindow.NextCountsWithinWindow | internal/auth/handler.go:144-204 | after a failure that was counted and did not lock, the next one of the key counts one more if and only if it comes no more than a window later; past the window it starts again at one |
| LoginWindow.StreakLocksExactly | internal/auth/handler.go:144-204 | over any run with room, a failure of a key not locked before answers locked if and only if the failures in a row, each no more than a window after the one before it, have reached the limit |
| LoginWindow.LimitthFailureLocks | internal/auth/handler.go:144-204 | failures of one key never more than a window apart lock at exactly the one that reaches the limit, whatever other keys do |
| LoginWindow.SparseFailuresNeverLock | internal/auth/handler.go:144-204 | failures of one key always more than a window apart never lock it, however many they are |
| LoginWindow.PrunesExactlyWhenDue | internal/auth/handler.go:178-204 | pruning is due if nothing was pruned yet, the clock ran back or a minute or a shorter window has passed; exactly the entries go that are out of date then |
| LoginWindow.OrderIsByTime | internal/auth/handler.go:236-252 | after any run with a clock that does not run back, the recency order is sorted by the time of the last failure |
| LoginWindow.OldestIsForgotten | internal/auth/handler.go:220-234 | what is forgotten to make room is an unlocked key of the address, or of any, with the oldest last failure of all those |
| LoginWindow.CheckDropsOutOfDate | internal/auth/handler.go:124-142 | a look at a key answers exactly whether it is locked, and drops its entry exactly if that is out of date |
| AdminRecovery.NothingIsLost | internal/auth/admin_recovery.go:113-244 | at every crash or power-loss point of any number of runs the surviving user record is the original one, or the reset one with a readable credential file that holds its password; the credential version is the old one or exactly one higher |
| AdminRecovery.GateRefusesPending | internal/auth/admin_recovery.go:248-299 | the startup gate opens exactly when no temporary file is left and the recovery has either not begun or been committed |
| AdminRecovery.RerunAlwaysSucceeds | internal/auth/admin_recovery.go:157-199 | from whatever survives any crashes, a rerun for the same account meets the condition under which Recover without faults ends committed |
| AdminRecovery.NewPasswordHasNoOldSessions | internal/auth/admin_recovery.go:204-240 | at every point of a run, an account that survives with the new password survives without its old sessions, if and only if the user record was never written without confirmation while the durable session file still held one |
| AdminRecovery.UnconfirmedRevocationCanBeUndone | internal/auth/admin_recovery.go:204-240 | an unconfirmed session write followed by the user write can be lost alone: a run in which the reset account keeps its old sessions |
| AdminRecovery.WriteKeepsInv | internal/auth/admin_recovery.go:113-244 | every single disk change a recovery makes, with any outcome, keeps the pairing of durable credential and user record |
| AdminRecovery.PowerLossKeepsInv | internal/auth/admin_recovery.go:178-199 | a power loss that keeps, file by file, the visible or the durable content keeps it too |
| AdminRecovery.CredentialTellsStatus | internal/auth/admin_recovery.go:704-718 | a credential made for an account classifies it as pending before the reset and as committed after it |
| AdminRecovery.Recovery.Recover | internal/auth/admin_recovery.go:113-244 | one run, stopping at any fault, only makes permitted changes; success means no session is left and the account is committed; a faultless run from any state that allows one ends committed |
| AdminRecovery.Recovery.PrepareCredential | internal/auth/admin_recovery.go:145-202 | the user record is only reached with a durable, non-conflicting credential; an existing credential file is never replaced |
| AdminRecovery.Recovery.WriteCredential | internal/auth/admin_recovery.go:301-353 | success means the file is durable; failure leaves the credential absent or visible but complete |
| AdminRecovery.Recovery.CleanupTempFiles | internal/auth/admin_recovery.go:355-399 | success means no temporary file is visible |
| AdminRecovery.Recovery.ConfirmDurability | internal/auth/admin_recovery.go:456-468 | success makes everything visible durable |
| AdminRecovery.Recovery.RevokeSessions | internal/auth/admin_recovery.go:724-743 | unless the write fails no session of the account is visible afterwards; without one, nothing is written |
| AdminRecovery.Recovery.CommitUser | internal/auth/admin_recovery.go:211-240 | a user write that does not fail leaves the account reset and classified as committed |
| RecoveryAnswers.ResumesExactly | internal/auth/admin_recovery.go:113-244 | with the credential of an earlier run, the run succeeds if and only if the account matches, the directory and sessions can be written, and the credential waits and can be used or was used; it leaves exactly the reset account, or the account as it was, without its sessions |
| RecoveryAnswers.BootstrapsExactly | internal/auth/admin_recovery.go:167-171 | with a first-start password, the run succeeds if and only if it is still the account's and has to be changed, and only ends the sessions |
| RecoveryAnswers.StartsAnewExactly | internal/auth/admin_recovery.go:113-244 | without a credential file, the run succeeds if and only if every step does, and leaves the account with the new password, which is in the file, and no session |
| RecoveryAnswers.StartsExactlyWhen | internal/auth/admin_recovery.go:248-299 | the service may start if and only if no temporary file is left and the credential file is missing, is none of a recovery, or holds a credential that was used |
| RecoveryCredential.ParsedExactlyWhen | internal/auth/admin_recovery.go:607-656 | a text is a credential if and only if it has exactly the seven lines of one in their order, with the marker, the schema number one, a version from 1 to 2^64-1 and fields that pass their checks |
| RecoveryCredential.BootstrapExactlyWhen | internal/auth/admin_recovery.go:677-702 | a first-start file is read if and only if it has one user name line and one password line and both values pass their checks |
| RecoveryCredential.MarshalRoundTrips | internal/auth/admin_recovery.go:519-535 | the strict parser reads a written credential back exactly if every field passes its check and holds no line break |
| RecoveryCredential.ParsedFieldsHaveNoNewline | internal/auth/admin_recovery.go:607-656 | whatever the parser accepts is well formed |
| RecoveryCredential.MarshalIsRecoveryData | internal/auth/admin_recovery.go:559-561 | a written credential is always recognised as recovery data |
| Decimal.ParseCanonicalUploadInteger | internal/api/upload_sessions.go:1161-1175 | accepts exactly the formatted integers from 0 to 2^63-1, so no two headers mean the same offset |
| Decimal.FormatRoundTrips | internal/api/upload_sessions.go:1161-1175 | every formatted number is canonical and reads back as itself |
| Decimal.CanonicalIsFormatted | internal/api/upload_sessions.go:1161-1175 | every canonical text is the format of its value |
| UploadProtocol.VerdictIsExact | internal/api/upload_sessions.go:949-1012 | wherever a commit stopped, reconciliation yields ready exactly if the target has its original identity at that moment, goes on to committed exactly if publication had started and the target holds the payload, and conflict otherwise |
| UploadProtocol.PublishesAtMostOnce | internal/api/upload_sessions.go:529-747 | a session publishes at most once, and one that is ready or cancelled has not published, unless it began without a target and somebody removed what it published |
| UploadProtocol.SecondPublicationExactly | internal/api/upload_sessions.go:998-1000 | a session can publish twice exactly if it was created for a target that did not exist |
| UploadProtocol.RemovalAllowsSecondPublication | internal/api/upload_sessions.go:998-1000 | the run that does it: publish, stop, outside removal, reconciliation, publish again |
| UploadProtocol.CommittedIsLoggedOnce | internal/api/upload_sessions.go:834-872 | a session that was ever committed has exactly one activity entry until that falls off the log, and never two |
| UploadProtocol.CommittedMeansPublished | internal/api/upload_sessions.go:834-855 | committed is only written after a publication of this session or while the target is held still with the payload in it |
| UploadProtocol.ReconciliationSettles | internal/api/upload_sessions.go:949-1012 | one look and one decision without other writers in between settle any interrupted commit |
| UploadProtocol.FinishedStaysFinished | internal/uploadsession/store.go:856-1022 | committed, conflict and cancelled sessions can only expire, and never touch target or log again |
| UploadProtocol.EvidenceStillTrue | internal/api/upload_sessions.go:1024-1052 | a second look that agrees in identity and size proves the first look still true |
| UploadProtocol.StepKeepsPublishedOnce | internal/api/upload_sessions.go:529-747 | every step of a commit and of others keeps the at-most-once invariant |
| UploadProtocol.StepKeepsLog | internal/api/upload_sessions.go:834-872 | every step keeps the log invariant, for any trimming |
| UploadOutcome.AnswerExactlyWhen | internal/api/upload_sessions.go:529-747 | for every state, every move of others, every stop and fault: the request uploads, asks to retry, reports a changed target or an earlier commit exactly under the stated condition on session, targets met and faults |
| UploadOutcome.CalmAnswer | internal/api/upload_sessions.go:529-747 | undisturbed and admitted, a ready session whose target is as it was uploads if and only if the write succeeds; any other target is reported; an unresolved commit is settled first |
| UploadOutcome.ReconciledExactlyWhen | internal/api/upload_sessions.go:949-1012 | an unresolved commit is settled if and only if two looks at the target agree and nothing stops; ready for the target as it was, committed for the payload after a started publication, in conflict for anything else |
| UploadOutcome.FailedWriteLeaves | internal/api/upload_sessions.go:714-745 | after a failed write the session is ready for the target as it was, in conflict for any other, and unresolved only after a stop |
| UploadOutcome.PublishesOnlyOverOriginal | internal/api/upload_sessions.go:598-655 | nothing is admitted or published over a target that is not as the session began with it |
| UploadOutcome.PublishesOnceInRun | internal/api/upload_sessions.go:529-747 | in any run in which nobody removes the published target, or of a session for an existing file, there is at most one publication |
| UploadCommit.Task.Commit | internal/api/upload_sessions.go:529-747 | the request as written only takes steps of the protocol and ends as the specification function Outcome says; it answers uploaded exactly for an admitted, undisturbed session with its original target, and then the target holds the payload, published once, and the log the session's entry |
| UploadCommit.Task.Reconcile | internal/api/upload_sessions.go:949-1012 | settles the session or leaves it committing; it never publishes |
| UploadCommit.Task.WriteFileIfUnchanged | internal/api/upload_sessions.go:627-655 | reports success only after publishing exactly once, and a conflict only without publishing, be it found before the payload is read or after |
| UploadCommit.Task.AfterFailedWrite | internal/api/upload_sessions.go:714-745 | a failed write is judged by the target and never ends committed |
| ActivityLog.Store.LogOnce | internal/activity/activity.go:1664-1716 | no effect for a repeated entry, a conflict for different content under the key, otherwise inserted in front and trimmed; memory and file agree |
| ActivityLog.Store.Log | internal/activity/activity.go:1624-1658 | inserts in front and trims, or changes nothing when saving fails |
| ActivityLog.Store.UpdateEntries | internal/activity/activity.go:831-852 | memory follows only a successful save |
| ActivityLog.LogOnceIsIdempotent | internal/activity/activity.go:1664-1716 | repeating an insertion changes nothing, and one insertion leaves exactly one entry under its key |
| ActivityLog.LogOnceKeepsKeysUnique | internal/activity/activity.go:1664-1716 | idempotent insertions never give two entries the same key |
| ActivityLog.InsertsInFront | internal/activity/activity.go:1624-1658 | an insertion puts the entry in front, keeps the order of the others and drops the oldest beyond the limit |
| CommitLocks.AtMostOneHolder | internal/api/upload_sessions.go:111-150 | for any number of tasks acquiring, cancelling and releasing, two never hold the lock of one session |
| CommitLocks.EntryExactlyWhileUsed | internal/api/upload_sessions.go:143-150 | the table has a lock exactly while some task waits for it, holds it or is leaving it |
| CommitLocks.FreeLockCanBeTaken | internal/api/upload_sessions.go:128-134 | a lock nobody holds can be taken by any waiting task: no token is lost |
| CommitLocks.EveryTaskCanLeave | internal/api/upload_sessions.go:111-150 | whatever the others do, every task can leave on its own, one that holds the lock by freeing it, and nothing else about any task changes |
| HashLocks.AtMostOneHolder | dataplane/src/cas.rs:240-253 | two tasks never write or delete one object at a time, although lock objects come and go |
| HashLocks.EntryLeavesLast | dataplane/src/cas.rs:352-367 | an entry is only removed by a task that is the last one still needing it |
| HashLocks.OnlyUser | dataplane/src/cas.rs:359-367 | two counted references are the table's and the user's own |
| HashLocks.LastTaskCleans | dataplane/src/cas.rs:359-367 | a finished task that is alone with its lock removes the entry |
| HashLocks.EntryCanBeLeftOver | dataplane/src/cas.rs:352-367 | a run after which an entry is in the table that nobody uses |
| HashLocks.LeftOverExactlyWhen | dataplane/src/cas.rs:352-367 | a step leaves an entry behind if and only if its last user is cancelled or goes without having removed it |
| Chunking.StreamingEqualsBatch | dataplane/src/cdc.rs:157-229 | however a byte string is split into feeds, the streamed chunks equal the batch chunks in offsets, lengths, data and hashes, and hold exactly its bytes |
| Chunking.ChunkStream | dataplane/src/cdc.rs:157-229 | feeding any list of pieces to a new chunker and finishing it yields the batch chunking of the pieces put together |
| Chunking.ChunkBatch | dataplane/src/cdc.rs:83-124 | the batch loop yields the one chunking of its input |
| Chunking.StreamingChunker.Feed | dataplane/src/cdc.rs:157-167 | keeps the buffer below twice the maximum size; the chunks it returns are final whatever is fed later |
| Chunking.StreamingChunker.Finish | dataplane/src/cdc.rs:169-172 | completes the chunking of everything fed |
| Chunking.StreamingChunker.ProcessBuffer | dataplane/src/cdc.rs:179-229 | cuts only where later bytes cannot change the cut |
| Chunking.ChunkingIsUnique | dataplane/src/cdc.rs:83-124 | a file has only one chunking |
| Chunking.CutIsLocal | dataplane/src/cdc.rs:179-229 | a cut strictly inside a buffer is unchanged when bytes are appended |
| Chunking.PayloadIsCutRange | dataplane/src/cdc.rs:83-124 | chunks hold the bytes of their range, in order and without gaps |
| Chunking.CutExactly | dataplane/src/cdc.rs:83-124 | a chunk ends with the data if that is no longer than the minimum size, and else at the first position from the minimum size on whose hash is hit, but not beyond the maximum size |
| Chunking.ChunkSizes | dataplane/src/cdc.rs:83-124 | every chunk but the last has at least the minimum size, none more than the maximum, and one in between ends where a mask hits |
| Manifest.Validate | dataplane/src/cdc.rs:285-313 | accepts exactly the manifests whose chunks have valid hashes, are not empty and tile the file without gap or overlap |
| Cas.PutKeepsCounted | dataplane/src/cas.rs:255-343 | after every put, whatever fails and whatever happened to the files, the counters are the number of entries and the sum of their sizes |
| Cas.DeleteKeepsCounted | dataplane/src/cas.rs:627-664 | after every delete the counters are exact as well |
| Cas.PutKeepsSound | dataplane/src/cas.rs:255-343 | a put keeps every object file readable under its own hash, loses none, and makes no entry stale |
| Cas.SoundReads | dataplane/src/cas.rs:559-594 | in a sound store every object that exists is read back with the hash it was asked by |
| Cas.DeletesExactly | dataplane/src/cas.rs:601-664 | what a deletion answers, found or not, and what it leaves: entry, removable files and statistics of an object that is indexed and has a file that can be removed, and otherwise everything |
| Cas.PutsExactly | dataplane/src/cas.rs:240-343 | what a put answers and counts: data already there only adds to the logical size, other data is written in the smaller form, indexed and counted, unless a step fails |
| CasRuns.EverythingIndexedIsReadable | dataplane/src/cas.rs:240-664 | over any run of puts, deletes and restarts with faults and changing compression settings, the counters are exact and every entry reads back as the content put under its hash |
| CasRuns.RebuildRecovers | dataplane/src/cas.rs:921-1044 | whenever the store stops, a rebuild finds every indexed object with its size, and besides only objects whose put failed after the rename |
| CasRuns.PutKeepsInv | dataplane/src/cas.rs:255-343 | a put, with any fault, keeps at most one file per object and every file true to its content |
| CasRuns.DeleteKeepsInv | dataplane/src/cas.rs:627-664 | so does a delete |
| CasRuns.RestartKeepsInv | dataplane/src/cas.rs:921-1044 | so does a restart, also with other compression settings |
| CasStorage.CasStore.Put | dataplane/src/cas.rs:255-343 | the step-by-step put, with stale entries and every fault, is the specification function AfterPut |
| CasStorage.CasStore.Delete | dataplane/src/cas.rs:627-664 | the step-by-step delete is the specification function AfterDelete |
| CasStorage.CasStore.Read | dataplane/src/cas.rs:559-594 | reading, compressed form first and hash checked, is the specification function Get |
| CasStorage.CasStore.RebuildIndex | dataplane/src/cas.rs:921-1044 | from any order of the files: exactly the hashes with a file are indexed, with the size of one of their files; the object count exceeds the index by the number of hashes with two forms, and both counters are exact without such a hash |
| CasStorage.CasStore.RollbackLogicalSize | dataplane/src/cas.rs:521-526 | takes back exactly the given bytes |
| ObjectPaths.HashToPath | dataplane/src/cas.rs:863-880 | the shard loop yields the object's path |
| ObjectPaths.ParseObjectPath | dataplane/src/cas.rs:882-918 | accepts exactly the paths of objects and returns the object whose path it is |
| ObjectPaths.PathsAreDistinct | dataplane/src/cas.rs:863-880 | different objects, and the two forms of one object, never share a path |
| ObjectPaths.ObjectsAreNotTemporary | dataplane/src/cas.rs:955-958 | no object is ever skipped as a temporary file |
| Listing.ListObjects | dataplane/src/cas.rs:795-832 | a page is the next hashes after the cursor in order, as many as the limit allows, with a cursor exactly if more follow |
| Listing.PagesStrictlyIncrease | dataplane/src/cas.rs:795-832 | however the index changes between pages, no hash comes twice or out of order |
| Listing.NothingIsMissed | dataplane/src/cas.rs:795-832 | a hash indexed throughout is on some page of a walk that has ended |
| Listing.PageCount | dataplane/src/cas.rs:795-832 | on an unchanged index no walk is longer than one page for each started limit of hashes, or one page if there is none, and it has ended exactly if it is that long |
| FileTransfer.FileService.PutFile | dataplane/src/service.rs:226-436 | accepts only streams with the metadata once and first, some data and no more than the size limit, and without faults all of those; an accepted upload leaves the chunks of exactly the bytes sent under their manifest; a rejected one is rolled back from where it stopped, but for those of its objects of which no file could be removed |
| FileTransfer.FileService.GetFile | dataplane/src/service.rs:443-501 | completes exactly for a manifest that parses, is valid and whose chunks all read with their stated sizes |
| FileTransfer.FileService.Receive | dataplane/src/service.rs:247-338 | the message loop: reads an acceptable stream to its end unless storing fails; reaching the end means metadata once and first, the size limit kept, and every chunk cut so far stored in order |
| FileTransfer.FileService.StoreUploadedChunk | dataplane/src/service.rs:76-106 | one chunk more is referenced and accounted for, or nothing changes |
| FileTransfer.FileService.RollbackPutFileFailure | dataplane/src/service.rs:108-139 | takes back the logical size and deletes the created objects, last first; what is left are those of which no file could be removed |
| FileTransfer.FileService.StoreManifest | dataplane/src/service.rs:383-416 | the manifest stored is the one of the collected chunks; a failure leaves the upload accounted for |
| FileTransfer.RefusedMessage | dataplane/src/service.rs:247-311 | every message refused where it stands makes the whole stream unacceptable |
| Uploads.UploadReadsBack | dataplane/src/service.rs:443-501 | the file of an accepted upload comes back byte for byte, as long as none of the contents in the store share a hash |
| Uploads.ManifestTiles | dataplane/src/cdc.rs:285-313 | the manifest of a chunked file is a gap-free tiling that passes validation |
| Uploads.DeleteAllRestores | dataplane/src/service.rs:117-124 | after the deletions the index is the one before, plus exactly the created hashes none of whose files could be removed |
| Uploads.RollbackRestores | dataplane/src/service.rs:108-139 | with no stale entry before, a failed upload leaves index, counters and logical size as they were but for the created objects of which no file could be removed; there are none if and only if one file of each could |
| Uploads.NothingLeftMeansRestored | dataplane/src/service.rs:108-139 | the index is exactly as before if and only if nothing was left; then object count and unique size are too |
| Uploads.PutIsTracked | dataplane/src/service.rs:76-106 | storing or failing to store a chunk keeps the account of what the upload added, also for repeated and shared chunks |
| FileTree.MoveConserves | internal/api/quota.go:1104-1145 | a move changes the bytes under any path by exactly what its mapping counts as arriving minus what it counts as leaving |
| FileTree.CopyAdds | internal/api/quota.go:845-883 | a copy adds exactly what its mapping counts |
| FileTree.LandsUnder | internal/api/quota.go:197-223 | a relocated file lands under the quota path exactly if its source lies under the mapped path |
| FileTree.MoveKeepsTree | internal/api/quota.go:1032-1102 | a move to a free place leaves a tree of as many files |
| FileTree.FileInfoLogicalSize | internal/api/quota.go:374-414 | the recursive scan returns the exact total, and an error exactly if it exceeds 63 bits |
| Paths.WithinMeansPrefix | internal/api/quota.go:35-42 | the string test for lying in a base means exactly that the base's names come first |
| Paths.MappingIsExact | internal/api/quota.go:197-227 | for any three paths, the string mapping is the mapping of the names of what the cleaner makes of them |
| Paths.AcceptedExactlyWhen | internal/api/path_rules.go:9-21 | the cleaner leaves a clean path alone if and only if it holds no refused and no control character and does not end in white space |
| Paths.CleaningTwiceDiffers | internal/api/path_rules.go:9-21 | every clean path that ends in white space can be the path of a rule, but is another path when it is cleaned again |
| Paths.NamesOfRender | internal/api/server.go:2274-2295 | rendering and parsing clean paths are inverse |
| Paths.ValidatedIsClean | internal/api/server.go:2274-2295 | a validated path is clean |
| Paths.ValidatedHasNoControl | internal/api/server.go:2274-2295 | a validated path has no control character |
| Paths.ValidatedExactlyWhen | internal/api/server.go:2274-2295 | a request path is accepted if and only if it has no control character and, with slashes for backslashes, no segment that is a dot or two; all its names are kept in order |
| Paths.RulePathExactlyWhen | internal/api/path_rules.go:9-21 | a rule's path is taken if and only if, trimmed, it begins with a slash and has none of the refused characters, no control character and no segment that is a dot or two; it has the names of its segments |
| Paths.NamesOfSegment | internal/api/server.go:2274-2295 | what one more segment does to the names of a path, two dots taking the last name back |
| Quota.MappedSizeIsBytes | internal/api/quota.go:1139-1145 | what is measured are the bytes of the mapping of the cleaned paths, or an error beyond 63 bits |
| Quota.ChargeIsExact | internal/api/quota.go:845-883 | on paths the cleaner leaves alone, a move or copy is charged exactly for its growth |
| QuotaFlows.ChargedExactlyWhen | internal/api/quota.go:874-1145 | for any source and destination that are neither equal nor nested, a move or copy is charged exactly for its growth in every tree it can meet if and only if what it is charged for by the cleaned paths balances what flows by the paths as they are |
| QuotaFlows.KeepsQuotaExactlyWhen | internal/api/quota.go:773-1145 | a rule keeps every change it grants within its quota, in every such tree and for every quota, if and only if the flows never undercharge |
| QuotaFlows.GrantedStaysWithinQuota | internal/api/quota.go:773-1145 | a granted move or copy to a free destination leaves the usage of every rule whose flows do not undercharge at most at its quota, or where it was, whatever other rules and reservations there are |
| QuotaFlows.AcceptedPathsBalance | internal/api/quota.go:874-1145 | on paths the cleaner leaves alone the flows balance and never undercharge |
| QuotaFlows.BlankMovesInFree | internal/api/quota.go:1104-1145 | moving a directory whose name ends in a blank below the one without it fills the quota of that one and is charged nothing, in every tree |
| QuotaFlows.BlankCopyIsCharged | internal/api/quota.go:874-883 | copying to a name that ends in a blank is charged in full to the quota of the name without it, where it adds nothing |
| QuotaFlows.RefusedMovesInFree | internal/api/quota.go:1104-1145 | moving a source that the cleaner refuses under a quota path is charged nothing and adds all of it |
| Quota.DirectoryQuotaChecks | internal/api/quota.go:845-872 | every applicable rule that the change adds to gets a check with its usage, quota and growth, and every check comes from such a rule; there is an error exactly if a size one of them needs overflows |
| Quota.Prepare | internal/quota/reservation.go:280-353 | a reservation is granted exactly when in every scope all claims fit together beside what is reserved |
| Quota.AggregateClaims | internal/quota/reservation.go:297-328 | claims of a scope are combined to the largest usage, smallest limit and total growth; only a total beyond 63 bits is an error |
| Quota.GrantedChecksFit | internal/quota/reservation.go:330-347 | each granted check fits its own quota beside everything reserved |
| Quota.GrantedExactlyWhen | internal/quota/reservation.go:280-353 | a reservation is granted if and only if in every scope that grows the total growth is below 2^63 and fits, beside what is reserved there, whatever usage and limit of the scope one takes |
| Quota.AggregateExactly | internal/quota/reservation.go:297-328 | the claims of a scope come to the largest usage and the smallest limit among them and the sum of what they ask for |
| Quota.ChecksExactly | internal/api/quota.go:845-872 | the checks are for rules with a path and a positive quota only, each with that quota and the bytes below its path, and there is one whenever such a rule grows |
| Generations.ClosedExactlyWhenOver | cmd/nasd/main.go:226-261 | a closable handler has been given to be closed exactly if it was replaced and nothing leases it, and never twice |
| Generations.RetiredExactlyWhileLeased | cmd/nasd/main.go:756-786 | the retired list is exactly the replaced generations with active leases, each once |
| Generations.PublishKeeps | cmd/nasd/main.go:226-261 | publishing a handler that is not refused keeps the invariant |
| Generations.TakeKeeps | cmd/nasd/main.go:649-664 | taking a lease keeps it |
| Generations.GiveKeeps | cmd/nasd/main.go:756-774 | ending a lease keeps it, closing the handler exactly when it was the last one of a replaced generation |
| Generations.WaitingIsNotLive | cmd/nasd/main.go:357-385 | nothing that waits to be closed is in use, so the liveness check never holds a handler back |
| Generations.RefusedExactlyWhen | cmd/nasd/main.go:311-343 | a handler is refused if and only if it has to be closed one day and cannot be compared, has a zero identity or was published before |
| HandlerGenerations.SwitchableHandler.Update | cmd/nasd/main.go:226-261 | the same handler only changes the prefix; a closable handler that is incomparable, without lifecycle identity or published before is refused without effect; otherwise it becomes current and the one before is retired |
| HandlerGenerations.SwitchableHandler.AcquireForRequest | cmd/nasd/main.go:649-664 | a request leases the current generation exactly if its prefix matches |
| HandlerGenerations.SwitchableHandler.AcquirePathChangeGenerations | cmd/nasd/main.go:719-742 | leases the current and every retired generation that wants notifications, in this order, and no other |
| HandlerGenerations.SwitchableHandler.ReleaseGenerations | cmd/nasd/main.go:756-774 | ends exactly the given leases and hands over for closing what that drained |
| HandlerGenerations.SwitchableHandler.RegisterHandlerLifecycle | cmd/nasd/main.go:311-343 | refuses exactly the closable handlers that were published before or have a zero lifecycle identity |
| HandlerGenerations.SwitchableHandler.CollectClosableHandlers | cmd/nasd/main.go:357-373 | empties the waiting list and hands over all of it |
| HandlerGenerations.SwitchableHandler.RemoveRetiredGeneration | cmd/nasd/main.go:776-786 | takes the first occurrence off the retired list |
| AccessRules.EvaluatorAgreesExactlyWhen | internal/api/access_rules.go:112-158 | the evaluator shows what the request authorizer does exactly on valid paths and for everyone the authorizer does not wave through |
| AccessRules.SnapshotAgrees | internal/api/access_rules.go:54-102 | the snapshot taken along a deletion decides every path like the write authorizer |
| AccessRules.WriteImpliesRead | internal/api/access_rules.go:268-301 | who may write may read; the lenient read fails only when looking for a readable directory below fails |
| AccessRules.RuleAdmitsExactly | internal/api/access_rules.go:268-301 | under a rule, an ordinary user writes exactly if the user name, the role or a group is on its list for writing, and reads exactly if one is on its lists for reading or writing |
| AccessRules.ReadersDoNotWrite | internal/api/access_rules.go:268-301 | who is on the reading lists only reads and does not write |
| AccessRules.HomeAdmitsExactly | internal/api/access_rules.go:104-158 | without a rule, an ordinary user may write exactly below the home directory |
| AccessRules.ReadAdmitsExactly | internal/api/access_rules.go:197-264 | without a rule, reading is allowed exactly in the home directory and on the way to an existing directory that a rule opens, and fails exactly if the storage fails at the first rule that would decide |
| AccessRules.OthersAreDecidedAtOnce | internal/api/access_rules.go:104-158 | administrators, disabled accounts, missing accounts and invalid paths are decided without rules |
| AccessRules.WriteRuleAllowsRead | internal/api/access_rules.go:268-301 | a rule that grants writing grants reading |
| AccessRules.MostSpecificApplies | internal/api/access_rules.go:169-195 | for a path the cleaner leaves alone, the rule applied covers it and lies at or below every other covering rule, and there is none only if none covers it |
| AccessRules.MostSpecificExactlyWhen | internal/api/access_rules.go:169-195 | for the path of a request this holds under all rules if and only if the cleaner leaves the path alone |
| AccessRules.OrderDoesNotMatter | internal/api/access_rules.go:169-195 | listing order does not matter unless two rules are for the same path |
| AccessRules.MatchDirectoryAccessRuleIn | internal/api/access_rules.go:169-195 | the loop finds the first of the longest covering rules |
| AccessRules.HasExistingReadableDescendantRule | internal/api/access_rules.go:197-264 | the list of readable rules below a path, and the first of them whose directory exists |
| AccessRules.RefusedTargetHasNoRule | internal/api/access_rules.go:174-177 | no rule applies to a path, whatever the rules are, if and only if the cleaner refuses it |
| AccessRules.RefusedTargetIsJudgedByHome | internal/api/access_rules.go:268-301 | for such a path only the home directory decides |

## Left out

- HTTP, cookies, JSON envelopes, logging, alerts and e-mail: only the calls into trackers, stores and the token manager matter to the guarantees.
- Signing of tokens: claims travel as values, and a forged token is one without claims; the `exp` check of section 4.1.4 of RFC 7519 is a comparison with one second of leeway.
- TokenRuns.ConsumeRotatesOne: wall-clock readings are assumed positive and later than the rotation interval plus one second after the epoch, because a new record is back-dated by the rotation interval.
- TokenRuns.RevokedNeverValidates: a write with a warning counts as done; what a power loss may undo is the subject of `TokenDurability`.
- TokenManagement.TokenManager.ValidateAccessToken: the method runs its two locked sections back to back; that later registries and restarts in between change nothing is stated by `TokenRuns.ExpiredStaysExpired` and `TokenRuns.RevokedNeverValidates`, which take any registry and time.
- RefreshRequests.ReusedTokenEndsSession: the runs have no power losses; `RefreshRequests.EndingLastsExactlyWhen` says what they may undo.
- RefreshRequests.ConsumedTokenEndsSession: one token per request; a browser that sends several cookies has them tried in turn. Answers and cookies are not modelled.
- Changing token lifetimes while the server runs, and download sessions.
- Session identifiers drawn twice by the random source are only excluded within one registry, as the code does.
- The separate per-address limiter of credential checks in the login handler.
- LoginGuarantees.PruningIsInvisible: states nothing once a capacity limit is reached, where evicted entries are forgotten by design.
- LoginWindow.StreakLocksExactly: for runs with room and a clock that does not run back, as for `LoginGuarantees.PruningIsInvisible`; the single step in `LoginWindow.NextCountsWithinWindow` needs neither.
- TokenValidity.LoginAcceptedExactlyWhen: for managers in the state that every run with a session file leaves them in; of one that keeps no file only `TokenValidity.WithoutFileNothingFails` speaks.
- RefreshRequests.AloneDeliversExactlyWhen: all writes succeed and an identifier is drawn; what failures do is said section by section.
- Finding the administrator by name: user names are compared as stored, without folding case.
- AdminRecovery.Recovery.Recover: file modes, symbolic links and files over the size limit are refused before the model begins; nobody else writes while it runs.
- Lengths of user names, identifiers and passwords are counted in characters, not in bytes.
- UploadProtocol.PublishesAtMostOnce: the target write is a compare-and-set on an identity token never reused for another file; the storage transaction behind it, its staging and recovery are not part of this model.
- Uploading chunks into a session, its limits and staging: only the life of a session from ready on is modelled.
- UploadCommit.Task.Commit: quota admission is one yes-or-no step, and leases only matter through what they keep others from doing.
- Activity entries of other requests never use the reserved key of an upload session; paths, details and timestamps of entries are already normalised.
- The FastCDC crate is not part of this model: the cut scans with an abstract rolling hash and two masks between the same minimum, average and maximum sizes, and the results hold for every such hash.
- `compressed_size` and the hit and miss counters: the code itself keeps the former only approximately after a delete.
- Counter wrap-around in the data plane: the counters are integers; their exactness shows that the subtractions never go below zero.
- CasStorage.CasStore.RebuildIndex: the directory walk is any order of all regular files; unreadable directories and files are not modelled.
- CasRuns.EverythingIndexedIsReadable: files changed or removed behind the store's back are left to the per-operation lemmas of `Cas`, which allow them.
- Scrubbing, symbolic-link checks and temporary-file names in the store.
- Concurrent uploads: a rollback restores the state only if nobody else adds to the store in between, so the model runs one upload at a time.
- The deduplication ratio and the list of chunk hashes in the upload response, and the channel between the reader of a download and its receiver.
- QuotaFlows.GrantedStaysWithinQuota: quotas of user accounts, uploads and trash use the same reservation but are not modelled; read permission on copied files is checked elsewhere.
- QuotaFlows.ChargedExactlyWhen: says nothing of a source and destination that are equal or nested, which the handlers refuse.
- Cleaning of paths that do not start with a slash.
- AccessRules.EvaluatorAgreesExactlyWhen: the texts and sources shown with a decision are not modelled, and case folding is a parameter.
- HandlerGenerations.SwitchableHandler.AcquirePathChangeGenerations: which of several handlers with shared state is only told to invalidate its cache is not modelled.
- The server lifecycle around the handler, archive downloads, quota trend history, trash, backups, disk health and the web client.
- Text: upper and lower case and Unicode normalisation play no part; characters are Unicode scalars.
