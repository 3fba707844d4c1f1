/** The login rate limiter as values: failure counts and locks per user name and
    address, with lazy pruning and eviction of the oldest unlocked failure. */
module LoginAttempts {
  /** Nanoseconds; zero is the zero time. */
  type Time = int

  const PRUNE_INTERVAL: Time := 60_000_000_000

  datatype Key = Key(digest: string, ip: string)

  datatype Entry = Entry(failures: int, lastFailure: Time, lockedUntil: Time)

  type Entries = map<Key, Entry>

  /** `order` lists the keys that are not locked, least recent failure first. */
  datatype Tracker = Tracker(entries: Entries, order: seq<Key>, lastPruned: Time)

  /** A limit of zero or less means no limit. */
  datatype Limits = Limits(maxEntries: int, maxPerIp: int)

  datatype Policy = Policy(limit: int, window: Time, lockDuration: Time)

  // ----- Filtered sequences -----

  function KeepIf<T(!new)>(s: seq<T>, f: T -> bool): (r: seq<T>)
    ensures forall x :: x in r <==> x in s && f(x)
    ensures |r| <= |s|
  {
    if s == [] then []
    else
      var rest := KeepIf(s[..|s| - 1], f);
      var last := s[|s| - 1];
      if f(last) then rest + [last] else rest
  }

  ghost predicate Distinct<T>(s: seq<T>) {
    forall i, j :: 0 <= i < j < |s| ==> s[i] != s[j]
  }

  lemma {:induction false} KeepIfAgrees<T(!new)>(s: seq<T>, f: T -> bool, g: T -> bool)
    requires forall x :: x in s ==> f(x) == g(x)
    ensures KeepIf(s, f) == KeepIf(s, g)
    decreases |s|
  {
    if s != [] {
      KeepIfAgrees(s[..|s| - 1], f, g);
    }
  }

  lemma {:induction false} KeepIfTwice<T(!new)>(s: seq<T>, f: T -> bool, g: T -> bool)
    ensures KeepIf(KeepIf(s, f), g) == KeepIf(s, x => f(x) && g(x))
    decreases |s|
  {
    if s != [] {
      var init, last := s[..|s| - 1], s[|s| - 1];
      KeepIfTwice(init, f, g);
      if f(last) {
        assert (KeepIf(init, f) + [last])[..|KeepIf(init, f)|] == KeepIf(init, f);
      }
    }
  }

  lemma {:induction false} KeepIfAll<T(!new)>(s: seq<T>, f: T -> bool)
    requires forall x :: x in s ==> f(x)
    ensures KeepIf(s, f) == s
    decreases |s|
  {
    if s != [] {
      KeepIfAll(s[..|s| - 1], f);
    }
  }

  lemma {:induction false} KeepIfNone<T(!new)>(s: seq<T>, f: T -> bool)
    requires forall x :: x in s ==> !f(x)
    ensures KeepIf(s, f) == []
    decreases |s|
  {
    if s != [] {
      KeepIfNone(s[..|s| - 1], f);
    }
  }

  lemma KeepIfSnoc<T(!new)>(s: seq<T>, last: T, f: T -> bool)
    ensures KeepIf(s + [last], f) == KeepIf(s, f) + (if f(last) then [last] else [])
  {
    assert (s + [last])[..|s|] == s;
  }

  lemma {:induction false} KeepIfDistinct<T(!new)>(s: seq<T>, f: T -> bool)
    requires Distinct(s)
    ensures Distinct(KeepIf(s, f))
    decreases |s|
  {
    if s != [] {
      var init, last := s[..|s| - 1], s[|s| - 1];
      KeepIfDistinct(init, f);
      assert last !in init;
    }
  }

  function Without(order: seq<Key>, key: Key): seq<Key> {
    KeepIf(order, k => k != key)
  }

  function Kept(order: seq<Key>, keys: set<Key>): seq<Key> {
    KeepIf(order, k => k in keys)
  }

  function OfIp(order: seq<Key>, ip: string): seq<Key> {
    KeepIf(order, (k: Key) => k.ip == ip)
  }

  function KeysAt(keys: set<Key>, ip: string): set<Key> {
    set k | k in keys && k.ip == ip
  }

  function EntriesOf(entries: Entries, ip: string): set<Key> {
    KeysAt(entries.Keys, ip)
  }

  // ----- Operations -----

  predicate FailureExpired(e: Entry, now: Time, window: Time) {
    window > 0 && e.lastFailure != 0 && now - e.lastFailure > window
  }

  /** A lapsed lock, or an unlocked failure that left the window. */
  predicate Dead(e: Entry, now: Time, window: Time) {
    e.lockedUntil <= now && (e.lockedUntil != 0 || FailureExpired(e, now, window))
  }

  predicate PruneDue(t: Tracker, now: Time, window: Time) {
    var interval := if 0 < window < PRUNE_INTERVAL then window else PRUNE_INTERVAL;
    !(t.lastPruned != 0 && now >= t.lastPruned && now - t.lastPruned < interval)
  }

  function Alive(entries: Entries, now: Time, window: Time): Entries {
    map k | k in entries && !Dead(entries[k], now, window) :: entries[k]
  }

  function Prune(t: Tracker, now: Time, window: Time): Tracker {
    if !PruneDue(t, now, window) then t
    else
      var alive := Alive(t.entries, now, window);
      Tracker(alive, Kept(t.order, alive.Keys), now)
  }

  function Delete(t: Tracker, key: Key): Tracker {
    if key in t.entries then t.(entries := t.entries - {key}, order := Without(t.order, key)) else t
  }

  function IsLocked(t: Tracker, key: Key, now: Time, window: Time): (Tracker, bool) {
    var t1 := Prune(t, now, window);
    if key !in t1.entries then (t1, false)
    else if t1.entries[key].lockedUntil > now then (t1, true)
    else if Dead(t1.entries[key], now, window) then (Delete(t1, key), false)
    else (t1, false)
  }

  /** Drops the oldest unlocked failure of the address. The empty address stands for
      every address, also when it comes from a key. */
  function Evict(t: Tracker, ip: string): (Tracker, bool) {
    var candidates := if ip != "" then OfIp(t.order, ip) else t.order;
    if candidates == [] then (t, false) else (Delete(t, candidates[0]), true)
  }

  function EnsureCapacity(lim: Limits, t: Tracker, ip: string): (Tracker, bool) {
    var (t1, ok1) := if lim.maxPerIp > 0 && |EntriesOf(t.entries, ip)| >= lim.maxPerIp then Evict(t, ip) else (t, true);
    if !ok1 then (t1, false)
    else if lim.maxEntries > 0 && |t1.entries| >= lim.maxEntries then Evict(t1, "")
    else (t1, true)
  }

  const NoFailures := Entry(0, 0, 0)

  function Failed(e: Entry, p: Policy, now: Time): Entry {
    Entry(e.failures + 1, now, if e.failures + 1 >= p.limit then now + p.lockDuration else e.lockedUntil)
  }

  function AddFailure(t: Tracker, key: Key, e: Entry, p: Policy, now: Time): (Tracker, bool) {
    var e' := Failed(e, p, now);
    var rest := Without(t.order, key);
    (t.(entries := t.entries[key := e'], order := if e'.failures >= p.limit then rest else rest + [key]),
     e'.lockedUntil != 0)
  }

  function RecordFailure(lim: Limits, t: Tracker, key: Key, p: Policy, now: Time): (Tracker, bool) {
    var t1 := Prune(t, now, p.window);
    if key in t1.entries && t1.entries[key].lockedUntil > now then (t1, true)
    else if key in t1.entries && !Dead(t1.entries[key], now, p.window) then AddFailure(t1, key, t1.entries[key], p, now)
    else RecordFirst(lim, t1, key, p, now)
  }

  /** Drops what is left of the key, makes room for it and counts one failure. */
  function RecordFirst(lim: Limits, t: Tracker, key: Key, p: Policy, now: Time): (Tracker, bool) {
    var (t', ok) := EnsureCapacity(lim, Delete(t, key), key.ip);
    if !ok then (t', false) else AddFailure(t', key, NoFailures, p, now)
  }

  // ----- The invariant -----

  /** The order lists exactly the unlocked keys, once each. */
  ghost predicate Ordered(t: Tracker) {
    && Distinct(t.order)
    && (forall k :: k in t.order <==> k in t.entries && t.entries[k].lockedUntil == 0)
  }

  ghost predicate WithinCapacity(lim: Limits, entries: Entries) {
    && (lim.maxEntries > 0 ==> |entries| <= lim.maxEntries)
    && (lim.maxPerIp > 0 ==> forall ip :: |EntriesOf(entries, ip)| <= lim.maxPerIp)
  }

  lemma PruneKeepsOrder(t: Tracker, now: Time, window: Time)
    requires Ordered(t)
    ensures Ordered(Prune(t, now, window))
  {
    KeepIfDistinct(t.order, k => k in Alive(t.entries, now, window).Keys);
  }

  lemma DeleteKeepsOrder(t: Tracker, key: Key)
    requires Ordered(t)
    ensures Ordered(Delete(t, key))
  {
    KeepIfDistinct(t.order, k => k != key);
  }

  lemma EnsureCapacityKeepsOrder(lim: Limits, t: Tracker, ip: string)
    requires Ordered(t)
    ensures Ordered(EnsureCapacity(lim, t, ip).0)
  {
    forall u, x | Ordered(u) {
      EvictKeepsOrder(u, x);
    }
  }

  lemma EvictKeepsOrder(t: Tracker, ip: string)
    requires Ordered(t)
    ensures Ordered(Evict(t, ip).0)
  {
    var candidates := if ip != "" then OfIp(t.order, ip) else t.order;
    if candidates != [] {
      DeleteKeepsOrder(t, candidates[0]);
    }
  }

  lemma AddFailureKeepsOrder(t: Tracker, key: Key, e: Entry, p: Policy, now: Time)
    requires Ordered(t) && e.lockedUntil == 0 && now + p.lockDuration != 0
    ensures Ordered(AddFailure(t, key, e, p, now).0)
  {
    var rest := Without(t.order, key);
    KeepIfDistinct(t.order, k => k != key);
    assert key !in rest;
    assert Distinct(rest + [key]);
  }

  /** Every failure recorded keeps the order exact, as long as a lock never starts at the zero time. */
  lemma RecordKeepsOrder(lim: Limits, t: Tracker, key: Key, p: Policy, now: Time)
    requires Ordered(t) && now + p.lockDuration != 0
    ensures Ordered(RecordFailure(lim, t, key, p, now).0)
  {
    var t1 := Prune(t, now, p.window);
    PruneKeepsOrder(t, now, p.window);
    if key in t1.entries && t1.entries[key].lockedUntil > now {
    } else if key in t1.entries && !Dead(t1.entries[key], now, p.window) {
      AddFailureKeepsOrder(t1, key, t1.entries[key], p, now);
    } else {
      DeleteKeepsOrder(t1, key);
      EnsureCapacityKeepsOrder(lim, Delete(t1, key), key.ip);
      AddFailureKeepsOrder(EnsureCapacity(lim, Delete(t1, key), key.ip).0, key, NoFailures, p, now);
    }
  }
}
