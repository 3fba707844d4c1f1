/** What the login rate limiter guarantees over any run: locks last, pruning is
    invisible, and the capacity limits hold. */
module LoginGuarantees {
  import opened Common
  import opened LoginAttempts

  datatype Op =
    | Check(key: Key, now: Time, window: Time)
    | Fail(key: Key, policy: Policy, now: Time)
    | Reset(key: Key)

  function Apply(lim: Limits, t: Tracker, op: Op): (Tracker, bool) {
    match op
    case Check(key, now, window) => IsLocked(t, key, now, window)
    case Fail(key, policy, now) => RecordFailure(lim, t, key, policy, now)
    case Reset(key) => (Delete(t, key), false)
  }

  function Run(lim: Limits, t: Tracker, ops: seq<Op>): (Tracker, seq<bool>)
    decreases |ops|
  {
    if ops == [] then (t, [])
    else
      var (t1, answer) := Apply(lim, t, ops[0]);
      var (t2, answers) := Run(lim, t1, ops[1..]);
      (t2, [answer] + answers)
  }

  const Empty := Tracker(map[], [], 0)

  /** A lock never starts at the zero time, which would read as no lock. */
  predicate Proper(op: Op) {
    op.Fail? ==> op.now + op.policy.lockDuration != 0
  }

  lemma ApplyKeepsOrder(lim: Limits, t: Tracker, op: Op)
    requires Ordered(t) && Proper(op)
    ensures Ordered(Apply(lim, t, op).0)
  {
    match op
    case Check(key, now, window) =>
      PruneKeepsOrder(t, now, window);
      DeleteKeepsOrder(Prune(t, now, window), key);
    case Fail(key, policy, now) => RecordKeepsOrder(lim, t, key, policy, now);
    case Reset(key) => DeleteKeepsOrder(t, key);
  }

  lemma {:induction false} OrderIsAlwaysExact(lim: Limits, t: Tracker, ops: seq<Op>)
    requires Ordered(t) && forall i :: 0 <= i < |ops| ==> Proper(ops[i])
    ensures Ordered(Run(lim, t, ops).0)
    decreases |ops|
  {
    if ops != [] {
      ApplyKeepsOrder(lim, t, ops[0]);
      OrderIsAlwaysExact(lim, Apply(lim, t, ops[0]).0, ops[1..]);
    }
  }

  // ----- Locks last -----

  predicate LockedUntil(t: Tracker, key: Key, until: Time) {
    key in t.entries && t.entries[key].lockedUntil == until && until != 0
  }

  /** The operation neither resets the key nor reads a clock at or past the lock's end. */
  predicate Before(op: Op, key: Key, until: Time) {
    match op
    case Check(_, now, _) => now < until
    case Fail(_, _, now) => now < until
    case Reset(k) => k != key
  }

  lemma EvictSparesLocked(t: Tracker, ip: string, key: Key, until: Time)
    requires Ordered(t) && LockedUntil(t, key, until)
    ensures LockedUntil(Evict(t, ip).0, key, until)
  {
    var candidates := if ip != "" then OfIp(t.order, ip) else t.order;
    if candidates != [] {
      assert candidates[0] in t.order;
    }
  }

  lemma PruneSparesLocked(t: Tracker, now: Time, window: Time, key: Key, until: Time)
    requires LockedUntil(t, key, until) && now < until
    ensures LockedUntil(Prune(t, now, window), key, until)
  {
  }

  lemma EnsureCapacitySparesLocked(lim: Limits, t: Tracker, ip: string, key: Key, until: Time)
    requires Ordered(t) && LockedUntil(t, key, until)
    ensures LockedUntil(EnsureCapacity(lim, t, ip).0, key, until)
  {
    hide Evict, Ordered, LockedUntil;
    EvictSparesLocked(t, ip, key, until);
    EvictKeepsOrder(t, ip);
    EvictSparesLocked(t, "", key, until);
    EvictSparesLocked(Evict(t, ip).0, "", key, until);
  }

  lemma FailKeepsLock(lim: Limits, t: Tracker, other: Key, p: Policy, now: Time, key: Key, until: Time)
    requires Ordered(t) && LockedUntil(t, key, until) && now < until
    ensures LockedUntil(RecordFailure(lim, t, other, p, now).0, key, until)
    ensures other == key ==> RecordFailure(lim, t, other, p, now).1
  {
    hide Prune, EnsureCapacity, KeepIf, Kept;
    var t1 := Prune(t, now, p.window);
    PruneSparesLocked(t, now, p.window, key, until);
    if other != key {
      PruneKeepsOrder(t, now, p.window);
      DeleteKeepsOrder(t1, other);
      EnsureCapacitySparesLocked(lim, Delete(t1, other), other.ip, key, until);
    }
  }

  lemma ApplyKeepsLock(lim: Limits, t: Tracker, op: Op, key: Key, until: Time)
    requires Ordered(t) && LockedUntil(t, key, until) && Before(op, key, until)
    ensures LockedUntil(Apply(lim, t, op).0, key, until)
    ensures !op.Reset? && op.key == key ==> Apply(lim, t, op).1
  {
    hide Prune, EnsureCapacity, RecordFailure, KeepIf, Kept;
    match op
    case Check(_, now, window) => PruneSparesLocked(t, now, window, key, until);
    case Fail(other, p, now) => FailKeepsLock(lim, t, other, p, now, key, until);
    case Reset(_) =>
  }

  /** No run of failures, checks and resets for other keys ends a lock early, however
      the clock moves below the lock's end; every answer about the key says locked. */
  lemma {:induction false} LocksLast(lim: Limits, t: Tracker, ops: seq<Op>, key: Key, until: Time)
    requires Ordered(t) && LockedUntil(t, key, until)
    requires forall i :: 0 <= i < |ops| ==> Before(ops[i], key, until) && Proper(ops[i])
    ensures var (t', answers) := Run(lim, t, ops);
            && LockedUntil(t', key, until)
            && |answers| == |ops|
            && forall i :: 0 <= i < |ops| && !ops[i].Reset? && ops[i].key == key ==> answers[i]
    decreases |ops|
  {
    if ops != [] {
      ApplyKeepsLock(lim, t, ops[0], key, until);
      ApplyKeepsOrder(lim, t, ops[0]);
      LocksLast(lim, Apply(lim, t, ops[0]).0, ops[1..], key, until);
    }
  }

  predicate HasLiveEntry(t: Tracker, key: Key, now: Time, window: Time) {
    key in t.entries && !Dead(t.entries[key], now, window)
  }

  /** The failures of the key that still count. */
  function LiveFailures(t: Tracker, key: Key, now: Time, window: Time): int {
    if HasLiveEntry(t, key, now, window) then t.entries[key].failures else 0
  }

  lemma PruneKeepsLiving(t: Tracker, key: Key, now: Time, window: Time)
    ensures var t1 := Prune(t, now, window);
            && RefCheck(t1.entries, key, now) == RefCheck(t.entries, key, now)
            && LiveFailures(t1, key, now, window) == LiveFailures(t, key, now, window)
            && HasLiveEntry(t1, key, now, window) == HasLiveEntry(t, key, now, window)
  {
    hide KeepIf;
  }

  /** A failure of the key finds its live entry or room for a new one. */
  predicate FindsRoom(lim: Limits, t: Tracker, key: Key, p: Policy, now: Time) {
    HasLiveEntry(t, key, now, p.window) || EnsureCapacity(lim, Delete(Prune(t, now, p.window), key), key.ip).1
  }

  /** A failure answers locked exactly if the key was locked, or the failure finds room and
      reaches the limit, be it the first one; a new lock holds for its whole duration and no
      longer. Without room the failure leaves nothing behind. */
  lemma LimitLocks(lim: Limits, t: Tracker, key: Key, p: Policy, now: Time)
    requires p.lockDuration > 0 && now > 0
    ensures var (t', locked) := RecordFailure(lim, t, key, p, now);
            var was := RefCheck(t.entries, key, now);
            && (key in t'.entries <==> FindsRoom(lim, t, key, p, now))
            && (locked <==> was || (FindsRoom(lim, t, key, p, now) && LiveFailures(t, key, now, p.window) + 1 >= p.limit))
            && (locked && !was ==> LockedUntil(t', key, now + p.lockDuration)
                                   && !IsLocked(t', key, now + p.lockDuration, p.window).1)
  {
    hide Prune, KeepIf, EnsureCapacity;
    PruneKeepsLiving(t, key, now, p.window);
    var t1 := Prune(t, now, p.window);
    EnsureCapacityAddsNothing(lim, Delete(t1, key), key.ip);
    LapsedIsUnlocked(RecordFailure(lim, t, key, p, now).0, key, now + p.lockDuration, p.window);
  }

  /** A limit is reached, and every entry that could make room is locked. */
  predicate NoRoom(lim: Limits, entries: Entries, ip: string) {
    || (lim.maxPerIp > 0 && |EntriesOf(entries, ip)| >= lim.maxPerIp
        && forall k :: k in entries && k.ip == ip ==> entries[k].lockedUntil != 0)
    || (lim.maxEntries > 0 && |entries| >= lim.maxEntries && forall k :: k in entries ==> entries[k].lockedUntil != 0)
  }

  lemma EvictsExactlyUnlocked(t: Tracker, ip: string)
    requires Ordered(t)
    ensures !Evict(t, ip).1 <==> forall k :: k in t.entries && (ip != "" ==> k.ip == ip) ==> t.entries[k].lockedUntil != 0
  {
    hide KeepIf, Delete;
    var candidates := if ip != "" then OfIp(t.order, ip) else t.order;
    assert forall k :: k in candidates <==> k in t.entries && t.entries[k].lockedUntil == 0 && (ip != "" ==> k.ip == ip);
    assert candidates != [] ==> candidates[0] in candidates;
  }

  lemma RoomExactlyWhen(lim: Limits, t: Tracker, ip: string)
    requires Ordered(t) && WithinCapacity(lim, t.entries) && ip != ""
    ensures EnsureCapacity(lim, t, ip).1 <==> !NoRoom(lim, t.entries, ip)
  {
    hide Evict, Ordered;
    EvictsExactlyUnlocked(t, ip);
    EvictsExactlyUnlocked(t, "");
    if Evict(t, ip).1 {
      EvictFrees(t, ip);
    }
  }

  /** For keys with an address, a failure goes uncounted if and only if the key has no live
      entry, a capacity limit is reached without it, and whatever could make room is locked. */
  lemma UncountedExactlyWhen(lim: Limits, t: Tracker, key: Key, p: Policy, now: Time)
    requires Ordered(t) && WithinCapacity(lim, t.entries) && key.ip != ""
    ensures !FindsRoom(lim, t, key, p, now) <==>
            !HasLiveEntry(t, key, now, p.window) && NoRoom(lim, Prune(t, now, p.window).entries - {key}, key.ip)
  {
    hide Prune, KeepIf, EnsureCapacity, NoRoom, WithinCapacity, Ordered;
    var t1 := Prune(t, now, p.window);
    PruneKeepsOrder(t, now, p.window);
    DeleteKeepsOrder(t1, key);
    PruneDropsOnly(t, now, p.window);
    DeleteDropsOnly(t1, key);
    FewerEntries(lim, t.entries, Delete(t1, key).entries);
    RoomExactlyWhen(lim, Delete(t1, key), key.ip);
  }

  lemma PruneDropsOnly(t: Tracker, now: Time, window: Time)
    ensures Prune(t, now, window).entries.Keys <= t.entries.Keys
  {
    hide KeepIf;
  }

  lemma DeleteDropsOnly(t: Tracker, key: Key)
    ensures Delete(t, key).entries == t.entries - {key} && Delete(t, key).entries.Keys <= t.entries.Keys
  {
    hide KeepIf;
    assert key !in t.entries ==> t.entries - {key} == t.entries;
  }

  lemma EnsureCapacityAddsNothing(lim: Limits, t: Tracker, ip: string)
    ensures EnsureCapacity(lim, t, ip).0.entries.Keys <= t.entries.Keys
  {
    hide KeepIf;
  }

  lemma LapsedIsUnlocked(t: Tracker, key: Key, now: Time, window: Time)
    ensures IsLocked(t, key, now, window).1 <==> RefCheck(t.entries, key, now)
  {
    hide KeepIf;
  }

  // ----- Pruning is invisible -----

  /** The reference: a plain map that is never pruned and has no capacity. */
  function RefCheck(m: Entries, key: Key, now: Time): bool {
    key in m && m[key].lockedUntil > now
  }

  function RefFail(m: Entries, key: Key, p: Policy, now: Time): (Entries, bool) {
    if RefCheck(m, key, now) then (m, true)
    else
      var e := if key in m && !Dead(m[key], now, p.window) then m[key] else NoFailures;
      var e' := Failed(e, p, now);
      (m[key := e'], e'.lockedUntil != 0)
  }

  function RefApply(m: Entries, op: Op): (Entries, bool) {
    match op
    case Check(key, now, _) => (m, RefCheck(m, key, now))
    case Fail(key, policy, now) => RefFail(m, key, policy, now)
    case Reset(key) => (m - {key}, false)
  }

  function RefRun(m: Entries, ops: seq<Op>): (Entries, seq<bool>)
    decreases |ops|
  {
    if ops == [] then (m, [])
    else
      var (m1, answer) := RefApply(m, ops[0]);
      var (m2, answers) := RefRun(m1, ops[1..]);
      (m2, [answer] + answers)
  }

  /** The tracker holds part of the reference, and all it dropped is dead for good. */
  ghost predicate Simulates(t: Tracker, m: Entries, now: Time, window: Time) {
    && (forall k :: k in t.entries ==> k in m && m[k] == t.entries[k])
    && (forall k :: k in m && k !in t.entries ==> Dead(m[k], now, window))
  }

  predicate AtOrAfter(op: Op, now: Time, window: Time) {
    match op
    case Check(_, n, w) => now <= n && w == window
    case Fail(_, p, n) => now <= n && p.window == window
    case Reset(_) => true
  }

  function TimeOf(op: Op, now: Time): Time {
    if op.Reset? then now else op.now
  }

  /** No capacity limit is hit: the key is already there, or there is room for it. */
  predicate HasRoom(lim: Limits, t: Tracker, op: Op) {
    op.Fail? ==>
      var t1 := Delete(Prune(t, op.now, op.policy.window), op.key);
      && (lim.maxPerIp > 0 ==> |EntriesOf(t1.entries, op.key.ip)| < lim.maxPerIp)
      && (lim.maxEntries > 0 ==> |t1.entries| < lim.maxEntries)
  }

  lemma PruneSimulates(t: Tracker, m: Entries, now: Time, now': Time, window: Time)
    requires Simulates(t, m, now, window) && now <= now'
    ensures Simulates(Prune(t, now', window), m, now', window)
  {
  }

  /** With room for the key, recording a failure depends on the key's own entry only. */
  lemma RoomyFail(lim: Limits, t: Tracker, key: Key, p: Policy, now: Time)
    requires HasRoom(lim, t, Fail(key, p, now))
    ensures var t1 := Prune(t, now, p.window);
            var (t', answer) := RecordFailure(lim, t, key, p, now);
            if key in t1.entries && t1.entries[key].lockedUntil > now then answer && t' == t1
            else
              var alive := key in t1.entries && !Dead(t1.entries[key], now, p.window);
              var e := Failed(if alive then t1.entries[key] else NoFailures, p, now);
              t'.entries == t1.entries[key := e] && answer == (e.lockedUntil != 0)
  {
    hide Prune, KeepIf, Kept;
  }

  lemma FailSimulates(lim: Limits, t: Tracker, m: Entries, key: Key, p: Policy, now: Time)
    requires Simulates(Prune(t, now, p.window), m, now, p.window) && HasRoom(lim, t, Fail(key, p, now))
    ensures RecordFailure(lim, t, key, p, now).1 == RefFail(m, key, p, now).1
    ensures Simulates(RecordFailure(lim, t, key, p, now).0, RefFail(m, key, p, now).0, now, p.window)
  {
    hide Prune, RecordFailure, KeepIf, HasRoom, Simulates, Dead, Failed;
    RoomyFail(lim, t, key, p, now);
    var t1 := Prune(t, now, p.window);
    SameAnswer(t1, m, key, now, p.window);
    if !RefCheck(m, key, now) {
      var e := Failed(if HasLiveEntry(t1, key, now, p.window) then t1.entries[key] else NoFailures, p, now);
      UpdateSimulates(t1, RecordFailure(lim, t, key, p, now).0, m, key, e, now, p.window);
    }
  }

  /** What both know about the key comes to the same. */
  lemma SameAnswer(t: Tracker, m: Entries, key: Key, now: Time, window: Time)
    requires Simulates(t, m, now, window)
    ensures RefCheck(t.entries, key, now) == RefCheck(m, key, now)
    ensures HasLiveEntry(t, key, now, window) == (key in m && !Dead(m[key], now, window))
    ensures HasLiveEntry(t, key, now, window) ==> m[key] == t.entries[key]
    ensures RefCheck(t.entries, key, now) ==> HasLiveEntry(t, key, now, window)
  {
  }

  lemma UpdateSimulates(t: Tracker, t': Tracker, m: Entries, key: Key, e: Entry, now: Time, window: Time)
    requires Simulates(t, m, now, window) && t'.entries == t.entries[key := e]
    ensures Simulates(t', m[key := e], now, window)
  {
  }

  lemma ApplySimulates(lim: Limits, t: Tracker, m: Entries, op: Op, now: Time, window: Time)
    requires Simulates(t, m, now, window) && AtOrAfter(op, now, window) && HasRoom(lim, t, op)
    ensures Apply(lim, t, op).1 == RefApply(m, op).1
    ensures Simulates(Apply(lim, t, op).0, RefApply(m, op).0, TimeOf(op, now), window)
  {
    hide Prune, RecordFailure, KeepIf, HasRoom;
    if !op.Reset? {
      PruneSimulates(t, m, now, op.now, window);
    }
    if op.Fail? {
      FailSimulates(lim, t, m, op.key, op.policy, op.now);
    }
  }

  predicate RoomyRun(lim: Limits, t: Tracker, ops: seq<Op>, now: Time, window: Time)
    decreases |ops|
  {
    ops != [] ==>
      && AtOrAfter(ops[0], now, window) && HasRoom(lim, t, ops[0])
      && RoomyRun(lim, Apply(lim, t, ops[0]).0, ops[1..], TimeOf(ops[0], now), window)
  }

  lemma {:induction false} RunSimulates(lim: Limits, t: Tracker, m: Entries, ops: seq<Op>, now: Time, window: Time)
    requires Simulates(t, m, now, window) && RoomyRun(lim, t, ops, now, window)
    ensures Run(lim, t, ops).1 == RefRun(m, ops).1
    decreases |ops|
  {
    if ops != [] {
      ApplySimulates(lim, t, m, ops[0], now, window);
      RunSimulates(lim, Apply(lim, t, ops[0]).0, RefApply(m, ops[0]).0, ops[1..], TimeOf(ops[0], now), window);
    }
  }

  /** With a clock that does not run back, a fixed window and no capacity limit hit, the
      tracker answers every question like the one that never forgets anything. */
  lemma PruningIsInvisible(lim: Limits, ops: seq<Op>, now: Time, window: Time)
    requires RoomyRun(lim, Empty, ops, now, window)
    ensures Run(lim, Empty, ops).1 == RefRun(map[], ops).1
  {
    RunSimulates(lim, Empty, map[], ops, now, window);
  }

  // ----- Capacity -----

  lemma FewerEntries(lim: Limits, entries: Entries, entries': Entries)
    requires WithinCapacity(lim, entries) && entries'.Keys <= entries.Keys
    ensures WithinCapacity(lim, entries') && |entries'| <= |entries|
    ensures forall ip :: |EntriesOf(entries', ip)| <= |EntriesOf(entries, ip)|
  {
    SubsetIsSmaller(entries'.Keys, entries.Keys);
    forall ip
      ensures |EntriesOf(entries', ip)| <= |EntriesOf(entries, ip)|
    {
      SubsetIsSmaller(EntriesOf(entries', ip), EntriesOf(entries, ip));
    }
  }

  /** A successful eviction for a real address frees one of its own places. */
  lemma EvictFrees(t: Tracker, ip: string)
    requires Ordered(t) && Evict(t, ip).1
    ensures var t' := Evict(t, ip).0;
            && t'.entries.Keys <= t.entries.Keys
            && |t'.entries| == |t.entries| - 1
            && (ip != "" ==> |EntriesOf(t'.entries, ip)| == |EntriesOf(t.entries, ip)| - 1)
  {
    var candidates := if ip != "" then OfIp(t.order, ip) else t.order;
    var oldest := candidates[0];
    var t' := Evict(t, ip).0;
    assert t'.entries.Keys == t.entries.Keys - {oldest};
    if ip != "" {
      assert EntriesOf(t'.entries, ip) == EntriesOf(t.entries, ip) - {oldest};
    }
  }

  lemma EnsureCapacityMakesRoom(lim: Limits, t: Tracker, ip: string)
    requires Ordered(t) && WithinCapacity(lim, t.entries) && ip != ""
    ensures var (t', ok) := EnsureCapacity(lim, t, ip);
            && t'.entries.Keys <= t.entries.Keys
            && WithinCapacity(lim, t'.entries)
            && (ok && lim.maxEntries > 0 ==> |t'.entries| < lim.maxEntries)
            && (ok && lim.maxPerIp > 0 ==> |EntriesOf(t'.entries, ip)| < lim.maxPerIp)
  {
    var (t1, ok1) := if lim.maxPerIp > 0 && |EntriesOf(t.entries, ip)| >= lim.maxPerIp then Evict(t, ip) else (t, true);
    if ok1 {
      if lim.maxPerIp > 0 && |EntriesOf(t.entries, ip)| >= lim.maxPerIp {
        EvictFrees(t, ip);
        EvictKeepsOrder(t, ip);
      }
      FewerEntries(lim, t.entries, t1.entries);
      if lim.maxEntries > 0 && |t1.entries| >= lim.maxEntries && Evict(t1, "").1 {
        EvictFrees(t1, "");
        FewerEntries(lim, t1.entries, Evict(t1, "").0.entries);
      }
    }
  }

  /** Both capacity limits hold after every operation whose key has a non-empty address. */
  lemma ApplyKeepsCapacity(lim: Limits, t: Tracker, op: Op)
    requires Ordered(t) && WithinCapacity(lim, t.entries) && op.key.ip != ""
    ensures WithinCapacity(lim, Apply(lim, t, op).0.entries)
  {
    match op
    case Check(key, now, window) =>
      FewerEntries(lim, t.entries, IsLocked(t, key, now, window).0.entries);
    case Reset(key) =>
      FewerEntries(lim, t.entries, Delete(t, key).entries);
    case Fail(key, p, now) =>
      var t1 := Prune(t, now, p.window);
      FewerEntries(lim, t.entries, t1.entries);
      PruneKeepsOrder(t, now, p.window);
      if key in t1.entries && t1.entries[key].lockedUntil > now {
      } else if key in t1.entries && !Dead(t1.entries[key], now, p.window) {
        SameKeysSameCapacity(lim, t1.entries, AddFailure(t1, key, t1.entries[key], p, now).0.entries);
      } else {
        var t2 := Delete(t1, key);
        DeleteKeepsOrder(t1, key);
        FewerEntries(lim, t1.entries, t2.entries);
        EnsureCapacityMakesRoom(lim, t2, key.ip);
        var (t3, ok) := EnsureCapacity(lim, t2, key.ip);
        if ok {
          OneMoreEntry(lim, t3.entries, key, Failed(NoFailures, p, now));
        }
      }
  }

  /** So they hold after every run. */
  lemma {:induction false} CapacityIsAlwaysKept(lim: Limits, t: Tracker, ops: seq<Op>)
    requires Ordered(t) && WithinCapacity(lim, t.entries)
    requires forall i :: 0 <= i < |ops| ==> Proper(ops[i]) && ops[i].key.ip != ""
    ensures WithinCapacity(lim, Run(lim, t, ops).0.entries)
    decreases |ops|
  {
    hide Apply, WithinCapacity, Ordered;
    if ops != [] {
      ApplyKeepsCapacity(lim, t, ops[0]);
      ApplyKeepsOrder(lim, t, ops[0]);
      CapacityIsAlwaysKept(lim, Apply(lim, t, ops[0]).0, ops[1..]);
    }
  }

  lemma SameKeysSameCapacity(lim: Limits, entries: Entries, entries': Entries)
    requires WithinCapacity(lim, entries) && entries'.Keys == entries.Keys
    ensures WithinCapacity(lim, entries')
  {
    FewerEntries(lim, entries, entries');
  }

  lemma OneMoreEntry(lim: Limits, entries: Entries, key: Key, e: Entry)
    requires WithinCapacity(lim, entries) && key !in entries
    requires lim.maxEntries > 0 ==> |entries| < lim.maxEntries
    requires lim.maxPerIp > 0 ==> |EntriesOf(entries, key.ip)| < lim.maxPerIp
    ensures WithinCapacity(lim, entries[key := e])
  {
    var next := entries[key := e];
    assert next.Keys == entries.Keys + {key};
    forall ip
      ensures |EntriesOf(next, ip)| == |EntriesOf(entries, ip)| + (if key.ip == ip then 1 else 0)
    {
      OneMoreKey(entries, key, e, ip);
    }
  }

  lemma OneMoreKey(entries: Entries, key: Key, e: Entry, ip: string)
    requires key !in entries
    ensures |EntriesOf(entries[key := e], ip)| == |EntriesOf(entries, ip)| + (if key.ip == ip then 1 else 0)
  {
    assert EntriesOf(entries[key := e], ip) == EntriesOf(entries, ip) + (if key.ip == ip then {key} else {});
  }

  /** The address has to be there: for the empty one the per-address limit evicts the oldest
      failure of all, and is only kept if there is none or that one has no address either. */
  lemma EmptyAddressKeepsLimitExactlyWhen(lim: Limits, t: Tracker, key: Key, p: Policy, now: Time)
    requires Ordered(t) && WithinCapacity(lim, t.entries) && key !in t.entries && key.ip == ""
    requires 0 < lim.maxPerIp == |EntriesOf(t.entries, "")|
    ensures WithinCapacity(lim, RecordFirst(lim, t, key, p, now).0.entries) <==> t.order == [] || t.order[0].ip == ""
  {
    hide KeepIf;
    if t.order != [] {
      var oldest := t.order[0];
      assert oldest in t.order;
      var t' := Evict(t, "").0;
      assert t'.entries.Keys == t.entries.Keys - {oldest};
      assert EntriesOf(t'.entries, "") == EntriesOf(t.entries, "") - {oldest};
      FewerEntries(lim, t.entries, t'.entries);
      assert EnsureCapacity(lim, t, "") == (t', true);
      var e := Failed(NoFailures, p, now);
      OneMoreKey(t'.entries, key, e, "");
      if oldest.ip == "" {
        OneMoreEntry(lim, t'.entries, key, e);
      }
    }
  }

  lemma FirstFailure(lim: Limits, t: Tracker, key: Key, p: Policy, now: Time, roomy: Tracker)
    requires p.limit > 1 && key !in Prune(t, now, p.window).entries
    requires EnsureCapacity(lim, Prune(t, now, p.window), key.ip) == (roomy, true) && key !in roomy.order
    ensures RecordFailure(lim, t, key, p, now).0 ==
            Tracker(roomy.entries[key := Entry(1, now, 0)], roomy.order + [key], roomy.lastPruned)
  {
    hide Prune, EnsureCapacity;
    KeepIfAll(roomy.order, k => k != key);
  }

  /** The shortest run of the kind, with a limit of one per address. */
  lemma EmptyAddressBreaksPerIpLimit(p: Policy)
    requires p.limit > 1 && p.window == 0
    ensures var other, first, second := Key("a", "10.0.0.1"), Key("b", ""), Key("c", "");
            var t := Run(Limits(0, 1), Empty, [Fail(other, p, 1), Fail(first, p, 2), Fail(second, p, 3)]).0;
            |EntriesOf(t.entries, "")| == 2
  {
    hide RecordFailure, KeepIf;
    var lim, other, first, second := Limits(0, 1), Key("a", "10.0.0.1"), Key("b", ""), Key("c", "");
    var t0 := Tracker(map[], [], 1);
    var t1 := Tracker(map[other := Entry(1, 1, 0)], [other], 1);
    var t2 := Tracker(map[other := Entry(1, 1, 0), first := Entry(1, 2, 0)], [other, first], 1);
    var t3 := Tracker(map[first := Entry(1, 2, 0)], [first], 1);
    assert Prune(Empty, 1, 0) == t0 && EntriesOf(t0.entries, other.ip) == {};
    FirstFailure(lim, Empty, other, p, 1, t0);
    assert EntriesOf(t1.entries, "") == {};
    FirstFailure(lim, t1, first, p, 2, t1);
    assert EntriesOf(t2.entries, "") == {first};
    OldestGoes(t2, t3, other, first);
    FirstFailure(lim, t2, second, p, 3, t3);
    var t := RecordFailure(lim, t2, second, p, 3).0;
    assert EntriesOf(t.entries, "") == {first, second};
    RunOfThree(lim, Empty, t1, t2, Fail(other, p, 1), Fail(first, p, 2), Fail(second, p, 3));
  }

  lemma OldestGoes(t: Tracker, rest: Tracker, oldest: Key, other: Key)
    requires oldest != other && t.order == [oldest, other] && t.entries.Keys == {oldest, other}
    requires rest == Tracker(t.entries - {oldest}, [other], t.lastPruned)
    ensures Evict(t, "") == (rest, true)
  {
    assert t.order[..1] == [oldest] && [oldest][..0] == [];
    assert Without(t.order, oldest) == Without([oldest], oldest) + [other];
    assert Without([oldest], oldest) == [] && [] + [other] == [other];
    assert Without(t.order, oldest) == [other];
    assert Delete(t, oldest) == rest;
  }

  lemma RunOfThree(lim: Limits, t0: Tracker, t1: Tracker, t2: Tracker, a: Op, b: Op, c: Op)
    requires Apply(lim, t0, a).0 == t1 && Apply(lim, t1, b).0 == t2
    ensures Run(lim, t0, [a, b, c]).0 == Apply(lim, t2, c).0
  {
    hide Apply;
    assert [a, b, c][1..] == [b, c] && [b, c][1..] == [c] && [c][1..] == [];
    assert Run(lim, t2, [c]).0 == Apply(lim, t2, c).0;
    assert Run(lim, t1, [b, c]).0 == Run(lim, t2, [c]).0;
  }
}
