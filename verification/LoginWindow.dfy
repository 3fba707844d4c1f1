/** Which failures count towards a lock, in terms of the times between them, and whose failures
    are forgotten first when room runs out. */
module LoginWindow {
  import opened LoginAttempts
  import opened LoginGuarantees

  // ----- Counting -----

  /** Failures of one key in a row, each no more than a window after the one before. */
  datatype Streak = Streak(failures: nat, last: Time)

  function Counted(s: Streak, op: Op, key: Key, window: Time): Streak {
    if op.key != key || op.Check? then s
    else if op.Reset? then Streak(0, 0)
    else if s.failures > 0 && (window <= 0 || op.now - s.last <= window) then Streak(s.failures + 1, op.now)
    else Streak(1, op.now)
  }

  function StreakAfter(ops: seq<Op>, key: Key, window: Time): Streak {
    if ops == [] then Streak(0, 0) else Counted(StreakAfter(ops[..|ops| - 1], key, window), ops[|ops| - 1], key, window)
  }

  /** The operation is a failure of the key. */
  predicate IsFailure(op: Op, key: Key) {
    op.Fail? && op.key == key
  }

  lemma StreakSnoc(ops: seq<Op>, n: nat, key: Key, window: Time)
    requires n < |ops|
    ensures StreakAfter(ops[..n + 1], key, window) == Counted(StreakAfter(ops[..n], key, window), ops[n], key, window)
  {
    assert ops[..n + 1][..n] == ops[..n];
  }

  // ----- The reference counts streaks -----

  lemma {:induction false} RefRunAt(m: Entries, ops: seq<Op>, n: nat)
    requires n < |ops|
    ensures var (before, answer) := (RefRun(m, ops[..n]).0, RefRun(m, ops).1);
            && |answer| == |ops|
            && answer[n] == RefApply(before, ops[n]).1
            && RefRun(m, ops[..n + 1]).0 == RefApply(before, ops[n]).0
    decreases |ops|
  {
    hide RefApply;
    var (m1, answer) := RefApply(m, ops[0]);
    if n == 0 {
      assert ops[..1] == [ops[0]] && [ops[0]][1..] == [];
      RefRunLength(m1, ops[1..]);
    } else {
      RefRunAt(m1, ops[1..], n - 1);
      assert ops[..n][1..] == ops[1..][..n - 1];
      assert ops[..n + 1][1..] == ops[1..][..n];
    }
  }

  lemma {:induction false} RefRunLength(m: Entries, ops: seq<Op>)
    ensures |RefRun(m, ops).1| == |ops|
    decreases |ops|
  {
    if ops != [] {
      RefRunLength(RefApply(m, ops[0]).0, ops[1..]);
    }
  }

  /** What the reference holds of the key is its streak, as long as that led to no lock. */
  predicate Holds(m: Entries, key: Key, s: Streak) {
    if s.failures == 0 then key !in m else key in m && m[key] == Entry(s.failures, s.last, 0) && s.last > 0
  }

  /** A failure of the key happens after the zero time, and a lock would last. */
  predicate Timed(op: Op, key: Key, window: Time) {
    IsFailure(op, key) ==> op.now > 0 && op.policy.lockDuration > 0 && op.policy.window == window
  }

  lemma RefCounts(m: Entries, op: Op, key: Key, window: Time, s: Streak)
    requires Holds(m, key, s) && Timed(op, key, window)
    ensures var (m', answer) := RefApply(m, op);
            var s' := Counted(s, op, key, window);
            && (IsFailure(op, key) ==> (answer <==> s'.failures >= op.policy.limit))
            && (IsFailure(op, key) && answer ==> key in m' && m'[key].lockedUntil == op.now + op.policy.lockDuration)
            && (!(IsFailure(op, key) && answer) ==> Holds(m', key, s'))
            && (op.Check? && op.key == key && op.now >= 0 ==> !answer)
  {
  }

  lemma {:induction false} RefHoldsStreak(ops: seq<Op>, key: Key, window: Time, n: nat)
    requires n <= |ops|
    requires forall j :: 0 <= j < n ==> Timed(ops[j], key, window)
    requires forall j :: 0 <= j < n && IsFailure(ops[j], key) ==>
      StreakAfter(ops[..j + 1], key, window).failures < ops[j].policy.limit
    ensures Holds(RefRun(map[], ops[..n]).0, key, StreakAfter(ops[..n], key, window))
    decreases n
  {
    hide RefApply, Counted, RefRun, Holds;
    if n == 0 {
      NothingHeld(ops[..0], key, window);
    } else {
      RefHoldsStreak(ops, key, window, n - 1);
      RefRunAt(map[], ops, n - 1);
      StreakSnoc(ops, n - 1, key, window);
      RefCounts(RefRun(map[], ops[..n - 1]).0, ops[n - 1], key, window, StreakAfter(ops[..n - 1], key, window));
    }
  }

  lemma NothingHeld(ops: seq<Op>, key: Key, window: Time)
    requires ops == []
    ensures Holds(RefRun(map[], ops).0, key, StreakAfter(ops, key, window))
  {
  }

  // ----- Main results -----

  lemma {:induction false} RoomyWindow(lim: Limits, t: Tracker, ops: seq<Op>, now: Time, window: Time, j: nat)
    requires RoomyRun(lim, t, ops, now, window) && j < |ops|
    ensures ops[j].Fail? ==> ops[j].policy.window == window && now <= ops[j].now
    decreases |ops|
  {
    if j > 0 {
      RoomyWindow(lim, Apply(lim, t, ops[0]).0, ops[1..], TimeOf(ops[0], now), window, j - 1);
    }
  }

  /** With room, and a clock that does not run back, a failure of a key that was not locked before
      answers locked if and only if the failures in a row, each no more than a window after the
      one before it, have reached the limit. */
  lemma StreakLocksExactly(lim: Limits, ops: seq<Op>, now: Time, window: Time, key: Key, n: nat)
    requires RoomyRun(lim, Empty, ops, now, window) && now > 0
    requires n < |ops| && IsFailure(ops[n], key)
    requires forall j :: 0 <= j <= n && IsFailure(ops[j], key) ==> ops[j].policy.lockDuration > 0
    requires forall j :: 0 <= j < n && IsFailure(ops[j], key) ==>
      StreakAfter(ops[..j + 1], key, window).failures < ops[j].policy.limit
    ensures |Run(lim, Empty, ops).1| == |ops|
    ensures Run(lim, Empty, ops).1[n] <==> StreakAfter(ops[..n + 1], key, window).failures >= ops[n].policy.limit
  {
    hide RefApply, Counted, RefRun, Run, Holds, RoomyRun;
    PruningIsInvisible(lim, ops, now, window);
    forall j | 0 <= j <= n
      ensures Timed(ops[j], key, window)
    {
      RoomyWindow(lim, Empty, ops, now, window, j);
    }
    RefHoldsStreak(ops, key, window, n);
    RefRunAt(map[], ops, n);
    StreakSnoc(ops, n, key, window);
    RefCounts(RefRun(map[], ops[..n]).0, ops[n], key, window, StreakAfter(ops[..n], key, window));
  }

  /** The failures of the key so far. */
  function FailuresOf(ops: seq<Op>, key: Key): nat {
    if ops == [] then 0 else FailuresOf(ops[..|ops| - 1], key) + (if IsFailure(ops[|ops| - 1], key) then 1 else 0)
  }

  /** Position `i` is the last failure of the key before position `n`. */
  predicate LastBefore(ops: seq<Op>, key: Key, i: int, n: int) {
    0 <= i < n <= |ops| && IsFailure(ops[i], key) && forall j :: i < j < n ==> !IsFailure(ops[j], key)
  }

  /** The failures of the key among the first `n` operations are never more than a window apart. */
  ghost predicate Close(ops: seq<Op>, key: Key, window: Time, n: nat)
    requires n <= |ops|
  {
    forall i, j :: LastBefore(ops, key, i, j) && j < n && IsFailure(ops[j], key) ==> ops[j].now - ops[i].now <= window
  }

  /** They are always more than a window apart. */
  ghost predicate Apart(ops: seq<Op>, key: Key, window: Time, n: nat)
    requires n <= |ops|
  {
    forall i, j :: LastBefore(ops, key, i, j) && j < n && IsFailure(ops[j], key) ==> ops[j].now - ops[i].now > window
  }

  /** None of the first `n` operations resets the key. */
  predicate Unreset(ops: seq<Op>, key: Key, n: nat) {
    forall j :: 0 <= j < n && j < |ops| ==> !(ops[j].Reset? && ops[j].key == key)
  }

  lemma LastOne(ops: seq<Op>, key: Key, i: int, n: nat)
    requires n < |ops|
    ensures IsFailure(ops[n], key) ==> LastBefore(ops, key, n, n + 1)
    ensures LastBefore(ops, key, i, n) && !IsFailure(ops[n], key) ==> LastBefore(ops, key, i, n + 1)
  {
  }

  /** The streak ends with the last failure of the key. */
  ghost predicate EndsAtLast(ops: seq<Op>, key: Key, s: Streak, n: nat) {
    s.failures > 0 ==> exists i :: LastBefore(ops, key, i, n) && s.last == ops[i].now
  }

  lemma StreakStep(ops: seq<Op>, key: Key, window: Time, s: Streak, n: nat)
    requires n < |ops| && Unreset(ops, key, n + 1) && EndsAtLast(ops, key, s, n)
    ensures EndsAtLast(ops, key, Counted(s, ops[n], key, window), n + 1)
    ensures !IsFailure(ops[n], key) ==> Counted(s, ops[n], key, window) == s
  {
    if IsFailure(ops[n], key) {
      LastOne(ops, key, n, n);
    } else if s.failures > 0 {
      var i :| LastBefore(ops, key, i, n) && s.last == ops[i].now;
      LastOne(ops, key, i, n);
    }
  }

  lemma CloseCounts(ops: seq<Op>, key: Key, window: Time, s: Streak, n: nat)
    requires n < |ops| && window > 0 && Close(ops, key, window, n + 1) && EndsAtLast(ops, key, s, n)
    ensures IsFailure(ops[n], key) ==> Counted(s, ops[n], key, window).failures == s.failures + 1
  {
  }

  lemma ApartRestarts(ops: seq<Op>, key: Key, window: Time, s: Streak, n: nat)
    requires n < |ops| && window > 0 && Apart(ops, key, window, n + 1) && EndsAtLast(ops, key, s, n)
    ensures IsFailure(ops[n], key) ==> Counted(s, ops[n], key, window).failures == 1
  {
  }

  lemma {:induction false} StreakOfFailures(ops: seq<Op>, key: Key, window: Time, n: nat, m: nat)
    requires n <= m <= |ops| && window > 0 && Unreset(ops, key, m) && Close(ops, key, window, m)
    ensures StreakAfter(ops[..n], key, window).failures == FailuresOf(ops[..n], key)
    ensures EndsAtLast(ops, key, StreakAfter(ops[..n], key, window), n)
    decreases n
  {
    hide Counted, EndsAtLast;
    if n > 0 {
      StreakOfFailures(ops, key, window, n - 1, m);
      StreakSnoc(ops, n - 1, key, window);
      assert ops[..n][..n - 1] == ops[..n - 1];
      var s := StreakAfter(ops[..n - 1], key, window);
      CloseIsClose(ops, key, window, n, m);
      StreakStep(ops, key, window, s, n - 1);
      CloseCounts(ops, key, window, s, n - 1);
    } else {
      NoneEndsAtLast(ops, key);
    }
  }

  lemma NoneEndsAtLast(ops: seq<Op>, key: Key)
    ensures EndsAtLast(ops, key, Streak(0, 0), 0)
  {
  }

  lemma CloseIsClose(ops: seq<Op>, key: Key, window: Time, n: nat, m: nat)
    requires n <= m <= |ops|
    ensures Close(ops, key, window, m) ==> Close(ops, key, window, n)
    ensures Apart(ops, key, window, m) ==> Apart(ops, key, window, n)
  {
  }

  /** Failures of one key, never more than a window apart and not reset in between, lock at exactly
      the failure that reaches the limit and at none before it, whatever other keys do. */
  lemma LimitthFailureLocks(lim: Limits, ops: seq<Op>, now: Time, window: Time, limit: int, key: Key, n: nat)
    requires RoomyRun(lim, Empty, ops, now, window) && now > 0 && window > 0
    requires n < |ops| && IsFailure(ops[n], key) && Unreset(ops, key, n + 1) && Close(ops, key, window, n + 1)
    requires forall j :: 0 <= j <= n && IsFailure(ops[j], key) ==> ops[j].policy.limit == limit && ops[j].policy.lockDuration > 0
    requires FailuresOf(ops[..n], key) < limit
    ensures |Run(lim, Empty, ops).1| == |ops|
    ensures Run(lim, Empty, ops).1[n] <==> FailuresOf(ops[..n + 1], key) == limit
  {
    hide Run, RoomyRun, StreakAfter, Counted, Close, EndsAtLast;
    StreakOfFailures(ops, key, window, n + 1, n + 1);
    forall j | 0 <= j < n && IsFailure(ops[j], key)
      ensures StreakAfter(ops[..j + 1], key, window).failures < ops[j].policy.limit
    {
      StreakOfFailures(ops, key, window, j + 1, n + 1);
      MoreFailures(ops, key, j + 1, n);
    }
    StreakLocksExactly(lim, ops, now, window, key, n);
    assert ops[..n + 1][..n] == ops[..n];
  }

  lemma {:induction false} MoreFailures(ops: seq<Op>, key: Key, i: nat, n: nat)
    requires i <= n <= |ops|
    ensures FailuresOf(ops[..i], key) <= FailuresOf(ops[..n], key)
    decreases n
  {
    if i < n {
      MoreFailures(ops, key, i, n - 1);
      assert ops[..n][..n - 1] == ops[..n - 1];
    }
  }

  lemma {:induction false} StreakOfOne(ops: seq<Op>, key: Key, window: Time, n: nat, m: nat)
    requires n <= m <= |ops| && window > 0 && Unreset(ops, key, m) && Apart(ops, key, window, m)
    ensures StreakAfter(ops[..n], key, window).failures <= 1
    ensures EndsAtLast(ops, key, StreakAfter(ops[..n], key, window), n)
    decreases n
  {
    hide Counted, EndsAtLast;
    if n > 0 {
      StreakOfOne(ops, key, window, n - 1, m);
      StreakSnoc(ops, n - 1, key, window);
      var s := StreakAfter(ops[..n - 1], key, window);
      CloseIsClose(ops, key, window, n, m);
      StreakStep(ops, key, window, s, n - 1);
      ApartRestarts(ops, key, window, s, n - 1);
    } else {
      NoneEndsAtLast(ops, key);
    }
  }

  /** Failures of one key that are always more than a window apart never lock it, however many
      they are, if the limit is more than one. */
  lemma SparseFailuresNeverLock(lim: Limits, ops: seq<Op>, now: Time, window: Time, key: Key, n: nat)
    requires RoomyRun(lim, Empty, ops, now, window) && now > 0 && window > 0
    requires n < |ops| && IsFailure(ops[n], key) && Unreset(ops, key, n + 1) && Apart(ops, key, window, n + 1)
    requires forall j :: 0 <= j <= n && IsFailure(ops[j], key) ==> ops[j].policy.limit > 1 && ops[j].policy.lockDuration > 0
    ensures |Run(lim, Empty, ops).1| == |ops| && !Run(lim, Empty, ops).1[n]
  {
    hide Run, RoomyRun, StreakAfter, Counted, Apart, EndsAtLast;
    StreakOfOne(ops, key, window, n + 1, n + 1);
    forall j | 0 <= j < n && IsFailure(ops[j], key)
      ensures StreakAfter(ops[..j + 1], key, window).failures < ops[j].policy.limit
    {
      StreakOfOne(ops, key, window, j + 1, n + 1);
    }
    StreakLocksExactly(lim, ops, now, window, key, n);
  }

  /** Every entry has at least one failure. */
  predicate Positive(entries: Entries) {
    forall k :: k in entries ==> entries[k].failures > 0
  }

  lemma ApplyKeepsPositive(lim: Limits, t: Tracker, op: Op)
    requires Positive(t.entries)
    ensures Positive(Apply(lim, t, op).0.entries)
  {
    hide Prune, EnsureCapacity, Delete, KeepIf, Positive;
    match op
    case Check(key, now, window) =>
      PruneKeepsPositive(t, now, window);
      DeleteKeepsPositive(Prune(t, now, window), key);
    case Reset(key) => DeleteKeepsPositive(t, key);
    case Fail(key, p, now) =>
      var t1 := Prune(t, now, p.window);
      PruneKeepsPositive(t, now, p.window);
      DeleteKeepsPositive(t1, key);
      EnsureCapacityKeepsPositive(lim, Delete(t1, key), key.ip);
      AddFailureKeepsPositive(EnsureCapacity(lim, Delete(t1, key), key.ip).0, key, NoFailures, p, now);
      if key in t1.entries {
        PositiveAt(t1.entries, key);
        AddFailureKeepsPositive(t1, key, t1.entries[key], p, now);
      }
  }

  lemma PositiveAt(entries: Entries, key: Key)
    requires Positive(entries) && key in entries
    ensures entries[key].failures > 0
  {
  }

  lemma DeleteKeepsPositive(t: Tracker, key: Key)
    requires Positive(t.entries)
    ensures Positive(Delete(t, key).entries)
  {
    hide KeepIf;
  }

  lemma EnsureCapacityKeepsPositive(lim: Limits, t: Tracker, ip: string)
    requires Positive(t.entries)
    ensures Positive(EnsureCapacity(lim, t, ip).0.entries)
  {
    hide KeepIf;
  }

  lemma AddFailureKeepsPositive(t: Tracker, key: Key, e: Entry, p: Policy, now: Time)
    requires Positive(t.entries) && e.failures >= 0
    ensures Positive(AddFailure(t, key, e, p, now).0.entries)
  {
    hide KeepIf;
  }

  /** A failure that was counted and did not lock leaves the key's own entry behind. */
  lemma CountedFailure(lim: Limits, t: Tracker, key: Key, p: Policy, now: Time)
    requires Positive(t.entries) && now > 0 && p.lockDuration > 0
    ensures var (t', locked) := RecordFailure(lim, t, key, p, now);
            key in t'.entries && !locked ==>
              t'.entries[key].lastFailure == now && t'.entries[key].lockedUntil == 0 && t'.entries[key].failures > 0
  {
    hide Prune, EnsureCapacity, KeepIf;
    PruneKeepsPositive(t, now, p.window);
    EnsureCapacityAddsNothing(lim, Delete(Prune(t, now, p.window), key), key.ip);
  }

  lemma PruneKeepsPositive(t: Tracker, now: Time, window: Time)
    requires Positive(t.entries)
    ensures Positive(Prune(t, now, window).entries)
  {
    hide KeepIf;
  }

  /** After a failure that was counted and did not lock, the next one of the key counts one more
      if and only if it comes no more than a window later, whatever room there is. Past the window
      it starts again at one, or goes uncounted for want of room. */
  lemma NextCountsWithinWindow(lim: Limits, t: Tracker, key: Key, p: Policy, q: Policy, now: Time, later: Time)
    requires Positive(t.entries) && now > 0 && later > 0 && q.window > 0 && p.lockDuration > 0 && q.lockDuration > 0
    requires var (t', locked) := RecordFailure(lim, t, key, p, now); key in t'.entries && !locked
    ensures var t' := RecordFailure(lim, t, key, p, now).0;
            var n := t'.entries[key].failures;
            var (t'', locked) := RecordFailure(lim, t', key, q, later);
            && (later - now <= q.window <==> key in t''.entries && t''.entries[key].failures == n + 1)
            && (later - now <= q.window ==> (locked <==> n + 1 >= q.limit))
            && (later - now > q.window ==> key !in t''.entries || t''.entries[key].failures == 1)
  {
    hide RecordFailure, Prune, EnsureCapacity, KeepIf;
    CountedFailure(lim, t, key, p, now);
    NextOfEntry(lim, RecordFailure(lim, t, key, p, now).0, key, q, now, later);
  }

  lemma NextOfEntry(lim: Limits, t: Tracker, key: Key, q: Policy, now: Time, later: Time)
    requires now > 0 && later > 0 && q.window > 0 && q.lockDuration > 0
    requires key in t.entries && t.entries[key].failures > 0
    requires t.entries[key].lastFailure == now && t.entries[key].lockedUntil == 0
    ensures var (t'', locked) := RecordFailure(lim, t, key, q, later);
            && (later - now <= q.window <==> key in t''.entries && t''.entries[key].failures == t.entries[key].failures + 1)
            && (later - now <= q.window ==> (locked <==> t.entries[key].failures + 1 >= q.limit))
            && (later - now > q.window ==> key !in t''.entries || t''.entries[key].failures == 1)
  {
    hide EnsureCapacity, KeepIf, Prune;
    var t1 := Prune(t, later, q.window);
    PruneOfEntry(t, key, q.window, later);
    EnsureCapacityAddsNothing(lim, Delete(t1, key), key.ip);
  }

  lemma PruneOfEntry(t: Tracker, key: Key, window: Time, later: Time)
    requires key in t.entries && t.entries[key].lockedUntil == 0 && later > 0 && window > 0 && t.entries[key].lastFailure > 0
    ensures var t1 := Prune(t, later, window);
            && (later - t.entries[key].lastFailure <= window ==> key in t1.entries)
            && (key in t1.entries ==> t1.entries[key] == t.entries[key])
  {
    hide KeepIf;
  }

  // ----- Pruning and room -----

  /** What is out of date at a time: a lock that is over, or an unlocked failure before the window. */
  predicate OutOfDate(e: Entry, now: Time, window: Time) {
    if e.lockedUntil != 0 then e.lockedUntil <= now
    else 0 <= now && window > 0 && e.lastFailure != 0 && now - e.lastFailure > window
  }

  /** If nothing was pruned yet, the clock ran back, or a minute has passed since, or the window if
      that is shorter, exactly the entries go that are out of date; else none goes. */
  lemma PrunesExactlyWhenDue(t: Tracker, now: Time, window: Time)
    ensures var t1 := Prune(t, now, window);
            var minute := 60_000_000_000;
            var due := t.lastPruned == 0 || now < t.lastPruned
                       || now - t.lastPruned >= if 0 < window && window < minute then window else minute;
            && (forall k :: k in t1.entries <==> k in t.entries && !(due && OutOfDate(t.entries[k], now, window)))
            && (forall k :: k in t1.entries ==> t1.entries[k] == t.entries[k])
            && t1.lastPruned == if due then now else t.lastPruned
  {
    hide KeepIf;
  }

  /** A look at a key answers whether it is locked, and drops its entry if that is out of date. */
  lemma CheckDropsOutOfDate(lim: Limits, t: Tracker, key: Key, now: Time, window: Time)
    ensures var (t', locked) := IsLocked(t, key, now, window);
            && (locked <==> key in t.entries && t.entries[key].lockedUntil > now)
            && (key in t'.entries <==> key in t.entries && !OutOfDate(t.entries[key], now, window))
            && (key in t'.entries ==> t'.entries[key] == t.entries[key])
  {
    hide KeepIf, Prune;
    PrunesExactlyWhenDue(t, now, window);
  }

  /** A success forgets the failures of its own key and nothing else. */
  lemma ResetForgetsOneKey(t: Tracker, key: Key, other: Key)
    ensures var t' := Delete(t, key);
            && key !in t'.entries
            && (other != key ==> (other in t'.entries <==> other in t.entries) && (other in t.order <==> other in t'.order))
            && (other != key && other in t.entries ==> t'.entries[other] == t.entries[other])
            && t'.lastPruned == t.lastPruned
  {
    hide KeepIf;
  }

  function LastOf(entries: Entries, key: Key): Time {
    if key in entries then entries[key].lastFailure else 0
  }

  predicate Sorted(order: seq<Key>, entries: Entries) {
    forall i, j :: 0 <= i < j < |order| ==> LastOf(entries, order[i]) <= LastOf(entries, order[j])
  }

  /** The order lists the keys by the time of their last failure, none of them after `now`. */
  predicate ByTime(t: Tracker, now: Time) {
    && (forall k :: k in t.order ==> k in t.entries && t.entries[k].lastFailure <= now)
    && Sorted(t.order, t.entries)
  }

  lemma SortedSnoc(order: seq<Key>, last: Key, entries: Entries)
    ensures Sorted(order + [last], entries) <==>
              Sorted(order, entries) && forall k :: k in order ==> LastOf(entries, k) <= LastOf(entries, last)
  {
    hide LastOf;
    var next := order + [last];
    if Sorted(next, entries) {
      assert forall i :: 0 <= i < |order| ==> next[i] == order[i];
      assert next[|order|] == last;
    }
  }

  /** A part of the order is still by time. */
  lemma {:induction false} KeepIfSorted(order: seq<Key>, f: Key -> bool, entries: Entries)
    requires Sorted(order, entries)
    ensures Sorted(KeepIf(order, f), entries)
    decreases |order|
  {
    hide Sorted, LastOf;
    if order == [] {
      assert Sorted(order, entries);
    } else {
      var init, last := order[..|order| - 1], order[|order| - 1];
      assert order == init + [last];
      SortedSnoc(init, last, entries);
      KeepIfSorted(init, f, entries);
      SortedSnoc(KeepIf(init, f), last, entries);
    }
  }

  lemma FirstIsOldest(order: seq<Key>, entries: Entries, other: Key)
    requires Sorted(order, entries) && other in order
    ensures LastOf(entries, order[0]) <= LastOf(entries, other)
  {
    var i :| 0 <= i < |order| && order[i] == other;
  }

  lemma SameSorted(order: seq<Key>, entries: Entries, entries': Entries)
    requires Sorted(order, entries) && forall k :: k in order ==> LastOf(entries', k) == LastOf(entries, k)
    ensures Sorted(order, entries')
  {
    assert forall i :: 0 <= i < |order| ==> order[i] in order;
  }

  /** A tracker that keeps part of the order is still by time. */
  lemma PartIsByTime(t: Tracker, t': Tracker, f: Key -> bool, now: Time)
    requires ByTime(t, now) && t'.order == KeepIf(t.order, f)
    requires forall k :: k in t'.order ==> k in t'.entries && t'.entries[k] == t.entries[k]
    ensures ByTime(t', now)
  {
    hide KeepIf, Sorted;
    KeepIfSorted(t.order, f, t.entries);
    SameSorted(t'.order, t.entries, t'.entries);
  }

  lemma PruneKeepsTime(t: Tracker, now: Time, now': Time, window: Time)
    requires Ordered(t) && ByTime(t, now) && now <= now'
    ensures ByTime(Prune(t, now', window), now')
  {
    hide KeepIf, Alive, Dead;
    assert ByTime(t, now');
    if PruneDue(t, now', window) {
      hide ByTime;
      AliveIsPart(t.entries, now', window);
      var alive := Alive(t.entries, now', window);
      PartIsByTime(t, Prune(t, now', window), k => k in alive.Keys, now');
    }
  }

  lemma AliveIsPart(entries: Entries, now: Time, window: Time)
    ensures forall k :: k in Alive(entries, now, window) ==> k in entries && Alive(entries, now, window)[k] == entries[k]
  {
  }

  lemma DeleteKeepsTime(t: Tracker, key: Key, now: Time)
    requires Ordered(t) && ByTime(t, now)
    ensures ByTime(Delete(t, key), now)
  {
    hide KeepIf, ByTime;
    if key in t.entries {
      PartIsByTime(t, Delete(t, key), k => k != key, now);
    }
  }

  lemma EvictKeepsTime(t: Tracker, ip: string, now: Time)
    requires Ordered(t) && ByTime(t, now)
    ensures ByTime(Evict(t, ip).0, now)
  {
    hide Delete, ByTime, Ordered, KeepIf;
    var candidates := if ip != "" then OfIp(t.order, ip) else t.order;
    if candidates != [] {
      DeleteKeepsTime(t, candidates[0], now);
    }
  }

  lemma EnsureCapacityKeepsTime(lim: Limits, t: Tracker, ip: string, now: Time)
    requires Ordered(t) && ByTime(t, now)
    ensures ByTime(EnsureCapacity(lim, t, ip).0, now)
  {
    hide Evict, ByTime, Ordered;
    EvictKeepsTime(t, ip, now);
    EvictKeepsOrder(t, ip);
    EvictKeepsTime(t, "", now);
    EvictKeepsTime(Evict(t, ip).0, "", now);
  }

  lemma AddFailureKeepsTime(t: Tracker, key: Key, e: Entry, p: Policy, now: Time)
    requires Ordered(t) && ByTime(t, now)
    ensures ByTime(AddFailure(t, key, e, p, now).0, now)
  {
    hide KeepIf, ByTime;
    var rest := t.(order := Without(t.order, key));
    PartIsByTime(t, rest, k => k != key, now);
    LatestComesLast(rest, key, Failed(e, p, now), now);
  }

  lemma LatestComesLast(t: Tracker, key: Key, e: Entry, now: Time)
    requires ByTime(t, now) && key !in t.order && e.lastFailure == now
    ensures ByTime(t.(entries := t.entries[key := e]), now)
    ensures ByTime(t.(entries := t.entries[key := e], order := t.order + [key]), now)
  {
    hide Sorted;
    var entries := t.entries[key := e];
    SameSorted(t.order, t.entries, entries);
    SortedSnoc(t.order, key, entries);
  }

  lemma ApplyKeepsTime(lim: Limits, t: Tracker, op: Op, now: Time)
    requires Ordered(t) && ByTime(t, now) && (!op.Reset? ==> now <= op.now)
    ensures ByTime(Apply(lim, t, op).0, TimeOf(op, now))
  {
    hide Prune, KeepIf, EnsureCapacity, Delete, AddFailure, ByTime, Ordered;
    match op
    case Check(key, n, window) =>
      PruneKeepsTime(t, now, n, window);
      PruneKeepsOrder(t, n, window);
      DeleteKeepsTime(Prune(t, n, window), key, n);
    case Reset(key) => DeleteKeepsTime(t, key, now);
    case Fail(key, p, n) =>
      var t1 := Prune(t, n, p.window);
      PruneKeepsTime(t, now, n, p.window);
      PruneKeepsOrder(t, n, p.window);
      if key in t1.entries && t1.entries[key].lockedUntil > n {
      } else if key in t1.entries && !Dead(t1.entries[key], n, p.window) {
        AddFailureKeepsTime(t1, key, t1.entries[key], p, n);
      } else {
        var t2 := Delete(t1, key);
        DeleteKeepsTime(t1, key, n);
        DeleteKeepsOrder(t1, key);
        EnsureCapacityKeepsTime(lim, t2, key.ip, n);
        EnsureCapacityKeepsOrder(lim, t2, key.ip);
        AddFailureKeepsTime(EnsureCapacity(lim, t2, key.ip).0, key, NoFailures, p, n);
      }
  }

  /** The clock does not run back over the operations. */
  predicate Forward(ops: seq<Op>, now: Time)
    decreases |ops|
  {
    ops != [] ==> (!ops[0].Reset? ==> now <= ops[0].now) && Forward(ops[1..], TimeOf(ops[0], now))
  }

  function TimeAfter(ops: seq<Op>, now: Time): Time
    decreases |ops|
  {
    if ops == [] then now else TimeAfter(ops[1..], TimeOf(ops[0], now))
  }

  lemma {:induction false} OrderIsByTime(lim: Limits, t: Tracker, ops: seq<Op>, now: Time)
    requires Ordered(t) && ByTime(t, now) && Forward(ops, now)
    requires forall i :: 0 <= i < |ops| ==> Proper(ops[i])
    ensures Ordered(Run(lim, t, ops).0) && ByTime(Run(lim, t, ops).0, TimeAfter(ops, now))
    decreases |ops|
  {
    hide Apply, Ordered, ByTime;
    if ops != [] {
      ApplyKeepsTime(lim, t, ops[0], now);
      ApplyKeepsOrder(lim, t, ops[0]);
      OrderIsByTime(lim, Apply(lim, t, ops[0]).0, ops[1..], TimeOf(ops[0], now));
    }
  }

  /** With a clock that never ran back, what is forgotten to make room is an unlocked key of the
      address, or of any if none is given, with the oldest last failure of all those. */
  lemma OldestIsForgotten(t: Tracker, ip: string, now: Time)
    requires Ordered(t) && ByTime(t, now) && Evict(t, ip).1
    ensures exists k ::
              && k in t.entries && t.entries[k].lockedUntil == 0 && (ip != "" ==> k.ip == ip)
              && Evict(t, ip).0.entries == t.entries - {k}
              && forall other :: other in t.entries && t.entries[other].lockedUntil == 0 && (ip != "" ==> other.ip == ip) ==>
                   t.entries[k].lastFailure <= t.entries[other].lastFailure
  {
    hide KeepIf, Sorted;
    var candidates := if ip != "" then OfIp(t.order, ip) else t.order;
    KeepIfSorted(t.order, (k: Key) => k.ip == ip, t.entries);
    assert Sorted(candidates, t.entries);
    var k := candidates[0];
    assert k in candidates;
    forall other | other in t.entries && t.entries[other].lockedUntil == 0 && (ip != "" ==> other.ip == ip)
      ensures t.entries[k].lastFailure <= t.entries[other].lastFailure
    {
      assert other in t.order && other in candidates;
      FirstIsOldest(candidates, t.entries, other);
    }
  }

  /** Nothing is forgotten as long as both limits leave room. */
  lemma NothingForgottenWithRoom(lim: Limits, t: Tracker, ip: string)
    requires lim.maxPerIp > 0 ==> |EntriesOf(t.entries, ip)| < lim.maxPerIp
    requires lim.maxEntries > 0 ==> |t.entries| < lim.maxEntries
    ensures EnsureCapacity(lim, t, ip) == (t, true)
  {
  }
}
