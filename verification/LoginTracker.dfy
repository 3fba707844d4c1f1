/** The login rate limiter with its redundant bookkeeping: the attempt map, counters
    per address, one recency list of all unlocked failures and one per address, with
    every entry pointing at its own two list elements. */
module LoginTracking {
  import opened LoginAttempts

  /** A list element; its identity is what an entry points at. */
  class Element {
    const key: Key

    constructor (key: Key)
      ensures this.key == key
    {
      this.key := key;
    }
  }

  datatype AttemptState = AttemptState(failures: int, lastFailure: Time, lockedUntil: Time,
                                       globalElement: Element?, ipElement: Element?)

  type Attempts = map<Key, AttemptState>

  /** The recency lists, front first. An address without unlocked failures has no list. */
  datatype Lists = Lists(all: seq<Element>, byIp: map<string, seq<Element>>)

  function KeysOf(list: seq<Element>): seq<Key> {
    seq(|list|, i requires 0 <= i < |list| => list[i].key)
  }

  function Remove(list: seq<Element>, e: Element): (r: seq<Element>)
    ensures e !in r && (forall x | x in list :: x == e || x in r) && (forall x | x in r :: x in list)
  {
    if list == [] then []
    else
      var rest := Remove(list[..|list| - 1], e);
      if list[|list| - 1] == e then rest else rest + [list[|list| - 1]]
  }

  /** The only element of its key. */
  ghost predicate Sole(list: seq<Element>, e: Element) {
    forall x | x in list :: x.key == e.key ==> x == e
  }

  lemma {:induction false} RemoveDropsKey(list: seq<Element>, e: Element)
    requires Sole(list, e)
    ensures KeysOf(Remove(list, e)) == Without(KeysOf(list), e.key)
    decreases |list|
  {
    if list != [] {
      var init, last := list[..|list| - 1], list[|list| - 1];
      RemoveDropsKey(init, e);
      assert list == init + [last];
      KeysOfAppend(init, last);
      KeepIfSnoc(KeysOf(init), last.key, k => k != e.key);
      assert Remove(list, e) == Remove(init, e) + (if last == e then [] else [last]);
      KeysOfAppend(Remove(init, e), last);
      hide KeysOf, Remove, KeepIf;
    }
  }

  lemma KeysOfAppend(list: seq<Element>, e: Element)
    ensures KeysOf(list + [e]) == KeysOf(list) + [e.key]
  {
  }

  lemma {:induction false} RemoveAbsent(list: seq<Element>, e: Element)
    requires e !in list
    ensures Remove(list, e) == list
    decreases |list|
  {
    if list != [] {
      RemoveAbsent(list[..|list| - 1], e);
    }
  }

  function EntryOf(s: AttemptState): Entry {
    Entry(s.failures, s.lastFailure, s.lockedUntil)
  }

  function EntriesIn(attempts: Attempts): Entries {
    map k | k in attempts :: EntryOf(attempts[k])
  }

  // ----- The links between entries and lists -----

  ghost predicate EntryLinked(key: Key, s: AttemptState, lists: Lists) {
    if s.lockedUntil != 0 then s.globalElement == null && s.ipElement == null
    else
      && s.globalElement != null && s.globalElement.key == key && s.globalElement in lists.all
      && s.ipElement != null && s.ipElement.key == key
      && key.ip in lists.byIp && s.ipElement in lists.byIp[key.ip]
  }

  ghost predicate Linked(attempts: Attempts, lists: Lists) {
    && (forall k :: k in attempts ==> EntryLinked(k, attempts[k], lists))
    && (forall e | e in lists.all :: e.key in attempts && attempts[e.key].globalElement == e)
    && (forall ip :: ip in lists.byIp ==> IpListLinked(attempts, lists, ip))
  }

  /** A list per address holds exactly that address's part of the global list, in the same order. */
  ghost predicate IpListLinked(attempts: Attempts, lists: Lists, ip: string)
    requires ip in lists.byIp
  {
    && lists.byIp[ip] != []
    && KeysOf(lists.byIp[ip]) == OfIp(KeysOf(lists.all), ip)
    && (forall e | e in lists.byIp[ip] :: e.key in attempts && attempts[e.key].ipElement == e)
  }

  function Unlink(lists: Lists, s: AttemptState, ip: string): Lists {
    Lists(
      if s.globalElement != null then Remove(lists.all, s.globalElement) else lists.all,
      if s.ipElement == null || ip !in lists.byIp then lists.byIp
      else
        var rest := Remove(lists.byIp[ip], s.ipElement);
        if rest == [] then lists.byIp - {ip} else lists.byIp[ip := rest])
  }

  function MoveToBack(list: seq<Element>, e: Element): seq<Element> {
    Remove(list, e) + [e]
  }

  function ListOf(lists: Lists, ip: string): seq<Element> {
    if ip in lists.byIp then lists.byIp[ip] else []
  }

  function Touch(lists: Lists, global: Element, local: Element, ip: string): Lists {
    Lists(MoveToBack(lists.all, global), lists.byIp[ip := MoveToBack(ListOf(lists, ip), local)])
  }

  /** The state of `key` was replaced or removed; all others are as before. */
  ghost predicate OthersKept(attempts: Attempts, attempts': Attempts, key: Key) {
    forall k :: k != key ==> (k in attempts <==> k in attempts') && (k in attempts ==> attempts[k] == attempts'[k])
  }

  lemma {:induction false} OfIpWithout(order: seq<Key>, key: Key, ip: string)
    ensures OfIp(Without(order, key), ip) == Without(OfIp(order, ip), key)
    ensures ip != key.ip ==> OfIp(Without(order, key), ip) == OfIp(order, ip)
    decreases |order|
  {
    if order != [] {
      var init, last := order[..|order| - 1], order[|order| - 1];
      OfIpWithout(init, key, ip);
      KeepIfSnoc(Without(init, key), last, (k: Key) => k.ip == ip);
      KeepIfSnoc(OfIp(init, ip), last, k => k != key);
    }
  }

  lemma KeysOfMember(list: seq<Element>, e: Element)
    requires e in list
    ensures e.key in KeysOf(list)
  {
    var i :| 0 <= i < |list| && list[i] == e;
    assert KeysOf(list)[i] == e.key;
  }

  lemma MemberOfKeys(list: seq<Element>, key: Key)
    requires key in KeysOf(list)
    ensures exists e :: e in list && e.key == key
  {
    var i :| 0 <= i < |list| && KeysOf(list)[i] == key;
    assert list[i] in list;
  }

  /** What the lemmas about one part of the lists start from. */
  ghost predicate Unlinks(attempts: Attempts, attempts': Attempts, lists: Lists, key: Key) {
    && Linked(attempts, lists) && key in attempts && attempts[key].lockedUntil == 0
    && OthersKept(attempts, attempts', key)
  }

  /** The two elements of an unlocked key, each the only one of its key in its list. */
  lemma ElementsOf(attempts: Attempts, lists: Lists, key: Key)
    requires Linked(attempts, lists) && key in attempts && attempts[key].lockedUntil == 0
    ensures var s := attempts[key];
            && s.globalElement != null && s.globalElement.key == key && Sole(lists.all, s.globalElement)
            && s.ipElement != null && s.ipElement.key == key
            && key.ip in lists.byIp && Sole(lists.byIp[key.ip], s.ipElement)
  {
    hide KeysOf, KeepIf;
    assert EntryLinked(key, attempts[key], lists);
    assert IpListLinked(attempts, lists, key.ip);
  }

  lemma UnlinkKeepsAll(attempts: Attempts, attempts': Attempts, lists: Lists, key: Key)
    requires Unlinks(attempts, attempts', lists, key)
    ensures var all := Unlink(lists, attempts[key], key.ip).all;
            && (forall e | e in all :: e.key in attempts' && attempts'[e.key].globalElement == e)
            && KeysOf(all) == Without(KeysOf(lists.all), key)
  {
    hide KeysOf, KeepIf, IpListLinked, EntryLinked;
    ElementsOf(attempts, lists, key);
    RemoveDropsKey(lists.all, attempts[key].globalElement);
  }

  lemma UnlinkKeepsOwnList(attempts: Attempts, attempts': Attempts, lists: Lists, key: Key)
    requires Unlinks(attempts, attempts', lists, key)
    ensures var lists' := Unlink(lists, attempts[key], key.ip);
            key.ip in lists'.byIp ==> IpListLinked(attempts', lists', key.ip)
  {
    hide KeysOf, KeepIf, EntryLinked;
    ElementsOf(attempts, lists, key);
    UnlinkKeepsAll(attempts, attempts', lists, key);
    assert IpListLinked(attempts, lists, key.ip);
    RemoveDropsKey(lists.byIp[key.ip], attempts[key].ipElement);
    OfIpWithout(KeysOf(lists.all), key, key.ip);
  }

  lemma UnlinkKeepsOtherList(attempts: Attempts, attempts': Attempts, lists: Lists, key: Key, ip: string)
    requires Unlinks(attempts, attempts', lists, key) && ip != key.ip
    ensures var lists' := Unlink(lists, attempts[key], key.ip);
            ip in lists'.byIp ==> IpListLinked(attempts', lists', ip)
  {
    hide KeysOf, KeepIf, EntryLinked, Remove;
    UnlinkKeepsAll(attempts, attempts', lists, key);
    OfIpWithout(KeysOf(lists.all), key, ip);
    if ip in lists.byIp {
      assert IpListLinked(attempts, lists, ip);
      OthersInList(attempts, lists, key, ip);
    }
  }

  /** Taking a key off both lists keeps every other link, and the global list loses just that key. */
  lemma UnlinkKeepsLinks(attempts: Attempts, attempts': Attempts, lists: Lists, key: Key)
    requires Linked(attempts, lists) && key in attempts && attempts[key].lockedUntil == 0
    requires OthersKept(attempts, attempts', key)
    requires key in attempts' ==> EntryLinked(key, attempts'[key], Lists([], map[]))
    ensures var lists' := Unlink(lists, attempts[key], key.ip);
            && Linked(attempts', lists')
            && KeysOf(lists'.all) == Without(KeysOf(lists.all), key)
  {
    hide KeysOf, Without, EntryLinked, IpListLinked, Unlink;
    assert Unlinks(attempts, attempts', lists, key);
    var lists' := Unlink(lists, attempts[key], key.ip);
    UnlinkKeepsAll(attempts, attempts', lists, key);
    forall ip | ip in lists'.byIp
      ensures IpListLinked(attempts', lists', ip)
    {
      if ip == key.ip {
        UnlinkKeepsOwnList(attempts, attempts', lists, key);
      } else {
        UnlinkKeepsOtherList(attempts, attempts', lists, key, ip);
      }
    }
    forall k | k in attempts'
      ensures EntryLinked(k, attempts'[k], lists')
    {
      if k == key {
        LockedIsLinked(key, attempts'[key], lists');
      } else {
        EntryStaysLinked(attempts, attempts', lists, key, k);
      }
    }
  }

  lemma LockedIsLinked(key: Key, s: AttemptState, lists: Lists)
    requires EntryLinked(key, s, Lists([], map[])) || (s.lockedUntil != 0 && s.globalElement == null && s.ipElement == null)
    ensures EntryLinked(key, s, lists)
  {
  }

  lemma EntryStaysLinked(attempts: Attempts, attempts': Attempts, lists: Lists, key: Key, k: Key)
    requires Linked(attempts, lists) && key in attempts && attempts[key].lockedUntil == 0
    requires OthersKept(attempts, attempts', key) && k in attempts' && k != key
    ensures EntryLinked(k, attempts'[k], Unlink(lists, attempts[key], key.ip))
  {
    hide KeysOf, KeepIf, IpListLinked;
    ElementsOf(attempts, lists, key);
    assert EntryLinked(k, attempts[k], lists);
  }

  lemma OthersInList(attempts: Attempts, lists: Lists, key: Key, ip: string)
    requires Linked(attempts, lists) && ip in lists.byIp && ip != key.ip
    ensures forall e | e in lists.byIp[ip] :: e.key != key
  {
    assert IpListLinked(attempts, lists, ip);
    forall e | e in lists.byIp[ip]
      ensures e.key.ip == ip
    {
      KeysOfMember(lists.byIp[ip], e);
    }
  }

  /** Both lists with one more element at the end. */
  function Appended(lists: Lists, global: Element, local: Element, ip: string): Lists {
    Lists(lists.all + [global], lists.byIp[ip := ListOf(lists, ip) + [local]])
  }

  ghost predicate Appends(attempts: Attempts, attempts': Attempts, lists: Lists, key: Key) {
    && Linked(attempts, lists) && key !in attempts
    && OthersKept(attempts, attempts', key) && key in attempts'
    && (var s := attempts'[key];
        s.lockedUntil == 0 && s.globalElement != null && s.ipElement != null
        && s.globalElement.key == key && s.ipElement.key == key)
    && (key.ip !in lists.byIp ==> OfIp(KeysOf(lists.all), key.ip) == [])
  }

  lemma AppendKeepsOwnList(attempts: Attempts, attempts': Attempts, lists: Lists, key: Key)
    requires Appends(attempts, attempts', lists, key)
    ensures var s := attempts'[key];
            IpListLinked(attempts', Appended(lists, s.globalElement, s.ipElement, key.ip), key.ip)
  {
    hide KeysOf, KeepIf, EntryLinked;
    var s, ip := attempts'[key], key.ip;
    KeysOfAppend(lists.all, s.globalElement);
    KeysOfAppend(ListOf(lists, ip), s.ipElement);
    KeysOfNothing();
    KeepIfSnoc(KeysOf(lists.all), key, (k: Key) => k.ip == ip);
    assert ip in lists.byIp ==> IpListLinked(attempts, lists, ip);
  }

  lemma KeysOfNothing()
    ensures KeysOf([]) == []
  {
  }

  lemma AppendKeepsOtherList(attempts: Attempts, attempts': Attempts, lists: Lists, key: Key, ip: string)
    requires Appends(attempts, attempts', lists, key) && ip != key.ip && ip in lists.byIp
    ensures var s := attempts'[key];
            IpListLinked(attempts', Appended(lists, s.globalElement, s.ipElement, key.ip), ip)
  {
    hide KeysOf, KeepIf, EntryLinked;
    KeysOfAppend(lists.all, attempts'[key].globalElement);
    KeepIfSnoc(KeysOf(lists.all), key, (k: Key) => k.ip == ip);
    assert IpListLinked(attempts, lists, ip);
  }

  lemma AppendKeepsEntry(attempts: Attempts, attempts': Attempts, lists: Lists, key: Key, k: Key)
    requires Appends(attempts, attempts', lists, key) && k in attempts'
    ensures var s := attempts'[key];
            EntryLinked(k, attempts'[k], Appended(lists, s.globalElement, s.ipElement, key.ip))
  {
    hide KeysOf, KeepIf, IpListLinked;
    assert k != key ==> EntryLinked(k, attempts[k], lists);
  }

  /** Appending an unlisted key to both lists. */
  lemma AppendKeepsLinks(attempts: Attempts, attempts': Attempts, lists: Lists, key: Key)
    requires Linked(attempts, lists) && key !in attempts
    requires OthersKept(attempts, attempts', key) && key in attempts'
    requires var s := attempts'[key];
             s.lockedUntil == 0 && s.globalElement != null && s.ipElement != null
             && s.globalElement.key == key && s.ipElement.key == key
    requires key.ip !in lists.byIp ==> OfIp(KeysOf(lists.all), key.ip) == []
    ensures var s := attempts'[key];
            var lists' := Appended(lists, s.globalElement, s.ipElement, key.ip);
            Linked(attempts', lists') && KeysOf(lists'.all) == KeysOf(lists.all) + [key]
  {
    hide KeysOf, KeepIf, EntryLinked, IpListLinked;
    assert Appends(attempts, attempts', lists, key);
    var s := attempts'[key];
    var lists' := Appended(lists, s.globalElement, s.ipElement, key.ip);
    KeysOfAppend(lists.all, s.globalElement);
    forall ip | ip in lists'.byIp
      ensures IpListLinked(attempts', lists', ip)
    {
      if ip == key.ip {
        AppendKeepsOwnList(attempts, attempts', lists, key);
      } else {
        AppendKeepsOtherList(attempts, attempts', lists, key, ip);
      }
    }
    forall k | k in attempts'
      ensures EntryLinked(k, attempts'[k], lists')
    {
      AppendKeepsEntry(attempts, attempts', lists, key, k);
    }
  }

  lemma NoneOfIp(list: seq<Element>, ip: string)
    requires forall e :: e in list ==> e.key.ip != ip
    ensures OfIp(KeysOf(list), ip) == []
  {
    forall k | k in KeysOf(list)
      ensures k.ip != ip
    {
      MemberOfKeys(list, k);
    }
    KeepIfNone(KeysOf(list), (k: Key) => k.ip == ip);
  }

  /** Without a list for the address, no key of it is in the global list. */
  lemma NoListNoKeys(attempts: Attempts, lists: Lists, ip: string)
    requires Linked(attempts, lists) && ip !in lists.byIp
    ensures OfIp(KeysOf(lists.all), ip) == []
  {
    forall e | e in lists.all
      ensures e.key.ip in lists.byIp
    {
      assert EntryLinked(e.key, attempts[e.key], lists);
    }
    NoneOfIp(lists.all, ip);
  }

  // ----- The tracker -----

  function CountOf(counts: map<string, int>, ip: string): int {
    if ip in counts then counts[ip] else 0
  }

  ghost predicate Counted(attempts: Attempts, counts: map<string, int>) {
    forall ip :: CountOf(counts, ip) == |KeysAt(attempts.Keys, ip)| && (ip in counts ==> counts[ip] > 0)
  }

  class LoginAttemptTracker {
    const limits: Limits
    var attempts: Attempts
    var entriesByIp: map<string, int>
    var unlockedFailures: seq<Element>
    var unlockedFailuresByIp: map<string, seq<Element>>
    var lastPrunedAt: Time

    function RecencyLists(): Lists
      reads this
    {
      Lists(unlockedFailures, unlockedFailuresByIp)
    }

    ghost function Value(): Tracker
      reads this
    {
      Tracker(EntriesIn(attempts), KeysOf(unlockedFailures), lastPrunedAt)
    }

    /** The counters count the keys per address; the lists and the entries fit together. */
    ghost predicate Valid()
      reads this
    {
      && Ordered(Value())
      && Linked(attempts, RecencyLists())
      && Counted(attempts, entriesByIp)
    }

    constructor (limits: Limits)
      ensures Valid() && this.limits == limits && Value() == Tracker(map[], [], 0)
    {
      this.limits := limits;
      attempts, entriesByIp := map[], map[];
      unlockedFailures, unlockedFailuresByIp := [], map[];
      lastPrunedAt := 0;
    }

    /** Takes an unlocked entry off both lists; an empty list per address is dropped. */
    method RemoveUnlockedFailureOrder(s: AttemptState, ip: string)
      modifies this`unlockedFailures, this`unlockedFailuresByIp
      ensures RecencyLists() == Unlink(old(RecencyLists()), s, ip)
    {
      if s.globalElement != null {
        unlockedFailures := Remove(unlockedFailures, s.globalElement);
      }
      if s.ipElement == null {
        return;
      }
      if ip in unlockedFailuresByIp {
        var perIp := Remove(unlockedFailuresByIp[ip], s.ipElement);
        if perIp == [] {
          unlockedFailuresByIp := unlockedFailuresByIp - {ip};
        } else {
          unlockedFailuresByIp := unlockedFailuresByIp[ip := perIp];
        }
      }
    }

    method DeleteEntry(key: Key)
      requires Valid()
      modifies this
      ensures Valid()
      ensures Value() == Delete(old(Value()), key)
    {
      hide Linked, Counted, Ordered, Unlink, Without, EntriesIn;
      if key !in attempts {
        NotAnEntry(attempts, key);
        return;
      }
      var s := attempts[key];
      DeleteKeepsOrder(Value(), key);
      UnlinkIfLinked(attempts, attempts - {key}, RecencyLists(), key);
      EntriesWithout(attempts, key);
      UncountKey(attempts, entriesByIp, key);
      RemoveUnlockedFailureOrder(s, key.ip);
      attempts := attempts - {key};
      if CountOf(entriesByIp, key.ip) <= 1 {
        entriesByIp := entriesByIp - {key.ip};
      } else {
        entriesByIp := entriesByIp[key.ip := entriesByIp[key.ip] - 1];
      }
    }
  
    /** One turn of the pruning loop; `left` are the keys of `before` not deleted yet. */
    method PruneKey(key: Key, now: Time, window: Time, ghost before: Tracker, ghost left: set<Key>)
      requires Valid() && Ordered(before)
      requires Value() == Restricted(before, left) && key in before.entries && key in left
      modifies this
      ensures Valid()
      ensures Value() == Restricted(before, if Dead(before.entries[key], now, window) then left - {key} else left)
    {
      hide Delete, Ordered, Linked, Counted, Restricted, EntriesIn, Dead;
      RestrictedEntry(before, left, key);
      EntriesInIsExact(attempts);
      if Dead(EntryOf(attempts[key]), now, window) {
        DeleteRestricts(before, left, key);
        DeleteEntry(key);
      }
    }

    method PruneExpiredIfDue(now: Time, window: Time)
      requires Valid()
      modifies this
      ensures Valid()
      ensures Value() == Prune(old(Value()), now, window)
    {
      var interval := if 0 < window < PRUNE_INTERVAL then window else PRUNE_INTERVAL;
      if lastPrunedAt != 0 && now >= lastPrunedAt && now - lastPrunedAt < interval {
        return;
      }
      ghost var before := Value();
      ghost var alive := Alive(before.entries, now, window).Keys;
      var pending := attempts.Keys;
      NothingDeleted(before, alive + pending);
      EntriesInIsExact(attempts);
      hide *;
      while pending != {}
        invariant Valid()
        invariant pending <= before.entries.Keys
        invariant Value() == Restricted(before, alive + pending)
        decreases pending
      {
        var key :| key in pending;
        AliveOrDead(before.entries, now, window, key);
        PruneKey(key, now, window, before, alive + pending);
        OneLessPending(alive, pending, key);
        pending := pending - {key};
      }
      assert alive + {} == alive;
      RestrictedToAlive(before, now, window);
      NotePruned(now);
    }

    method NotePruned(now: Time)
      requires Valid()
      modifies this`lastPrunedAt
      ensures Valid()
      ensures Value() == old(Value()).(lastPruned := now)
    {
      OrderIgnoresPruneTime(Value(), now);
      lastPrunedAt := now;
    }

    method IsLocked(key: Key, now: Time, window: Time) returns (locked: bool)
      requires Valid()
      modifies this
      ensures Valid()
      ensures (Value(), locked) == LoginAttempts.IsLocked(old(Value()), key, now, window)
    {
      PruneExpiredIfDue(now, window);
      if key !in attempts {
        return false;
      }
      var e := EntryOf(attempts[key]);
      if e.lockedUntil > now {
        return true;
      }
      if e.lockedUntil != 0 || FailureExpired(e, now, window) {
        DeleteEntry(key);
      }
      locked := false;
    }

    method EvictOldestUnlockedFailure(ip: string) returns (evicted: bool)
      requires Valid()
      modifies this
      ensures Valid()
      ensures (Value(), evicted) == Evict(old(Value()), ip)
    {
      var order := unlockedFailures;
      if ip != "" {
        if ip !in unlockedFailuresByIp {
          NoListNoKeys(attempts, RecencyLists(), ip);
          return false;
        }
        assert IpListLinked(attempts, RecencyLists(), ip);
        order := unlockedFailuresByIp[ip];
      }
      if |order| == 0 {
        return false;
      }
      DeleteEntry(order[0].key);
      evicted := true;
    }

    method EnsureFailureCapacity(ip: string) returns (ok: bool)
      requires Valid()
      modifies this
      ensures Valid()
      ensures (Value(), ok) == EnsureCapacity(limits, old(Value()), ip)
    {
      EntriesInIsExact(attempts);
      if limits.maxPerIp > 0 && CountOf(entriesByIp, ip) >= limits.maxPerIp {
        var evicted := EvictOldestUnlockedFailure(ip);
        if !evicted {
          return false;
        }
      }
      EntriesInIsExact(attempts);
      if limits.maxEntries > 0 && |attempts| >= limits.maxEntries {
        var evicted := EvictOldestUnlockedFailure("");
        if !evicted {
          return false;
        }
      }
      ok := true;
    }

    /** Puts a key at the back of both lists, creating what is missing. */
    method TouchUnlockedFailureOrder(key: Key, s: AttemptState) returns (s': AttemptState)
      requires (s.globalElement == null) == (s.ipElement == null)
      modifies this`unlockedFailures, this`unlockedFailuresByIp
      ensures s'.globalElement != null && s'.ipElement != null
      ensures s' == s.(globalElement := s'.globalElement, ipElement := s'.ipElement)
      ensures s.globalElement != null ==> s'.globalElement == s.globalElement && s'.ipElement == s.ipElement
      ensures s.globalElement == null ==> fresh(s'.globalElement) && fresh(s'.ipElement)
      ensures s.globalElement == null ==> s'.globalElement.key == key && s'.ipElement.key == key
      ensures RecencyLists() == Touch(old(RecencyLists()), s'.globalElement, s'.ipElement, key.ip)
    {
      s' := s;
      if s.globalElement == null {
        var element := new Element(key);
        RemoveAbsent(unlockedFailures, element);
        unlockedFailures := unlockedFailures + [element];
        s' := s'.(globalElement := element);
      } else {
        unlockedFailures := MoveToBack(unlockedFailures, s.globalElement);
      }
      var perIp := if key.ip in unlockedFailuresByIp then unlockedFailuresByIp[key.ip] else [];
      if s.ipElement == null {
        var element := new Element(key);
        RemoveAbsent(perIp, element);
        unlockedFailuresByIp := unlockedFailuresByIp[key.ip := perIp + [element]];
        s' := s'.(ipElement := element);
      } else {
        unlockedFailuresByIp := unlockedFailuresByIp[key.ip := MoveToBack(perIp, s.ipElement)];
      }
    }
  
    method RecordFailure(key: Key, p: Policy, now: Time) returns (locked: bool)
      requires Valid() && now + p.lockDuration != 0
      modifies this
      ensures Valid()
      ensures (Value(), locked) == LoginAttempts.RecordFailure(limits, old(Value()), key, p, now)
    {
      hide KeepIf, Linked, Counted, Ordered, EnsureCapacity, PruneDue, EntriesIn;
      PruneExpiredIfDue(now, p.window);
      EntriesInIsExact(attempts);
      var known := key in attempts;
      if known && attempts[key].lockedUntil > now {
        return true;
      }
      var e := if known then EntryOf(attempts[key]) else NoFailures;
      if known && ((e.lockedUntil != 0 && e.lockedUntil <= now) || FailureExpired(e, now, p.window)) {
        locked := ReplaceFailure(key, p, now);
      } else if known {
        locked := AddFailureTo(key, attempts[key], p, now);
      } else {
        locked := AddFirstFailure(key, p, now);
      }
    }

    method ReplaceFailure(key: Key, p: Policy, now: Time) returns (locked: bool)
      requires Valid() && now + p.lockDuration != 0
      modifies this
      ensures Valid()
      ensures (Value(), locked) == RecordFirst(limits, old(Value()), key, p, now)
    {
      EntriesInIsExact(attempts - {key});
      ghost var rest := Delete(Value(), key);
      DeletedTwice(Value(), key);
      DeleteEntry(key);
      hide *;
      EntriesInIsExact(attempts);
      locked := AddFirstFailure(key, p, now);
    }

    /** A key without an entry needs room before its first failure is counted. */
    method AddFirstFailure(key: Key, p: Policy, now: Time) returns (locked: bool)
      requires Valid() && key !in attempts && now + p.lockDuration != 0
      modifies this
      ensures Valid()
      ensures (Value(), locked) == RecordFirst(limits, old(Value()), key, p, now)
    {
      EntriesInIsExact(attempts);
      NothingToDelete(Value(), key);
      EnsureCapacityOnlyDrops(limits, Value(), key.ip);
      var ok := EnsureFailureCapacity(key.ip);
      if !ok {
        return false;
      }
      EntriesInIsExact(attempts);
      locked := AddFailureTo(key, AttemptState(0, 0, 0, null, null), p, now);
    }

    /** The state replaces the key's own unlocked state, or belongs to a new key. */
    ghost predicate Continues(key: Key, s: AttemptState)
      reads this
    {
      if key in attempts then
        attempts[key].lockedUntil == 0
        && s.globalElement == attempts[key].globalElement && s.ipElement == attempts[key].ipElement
      else s.globalElement == null && s.ipElement == null
    }

    /** Stores a locked state for the key and takes the key off the lists. */
    method StoreLocked(key: Key, s: AttemptState)
      requires Linked(attempts, RecencyLists()) && s.lockedUntil != 0 && Continues(key, s)
      modifies this`attempts, this`unlockedFailures, this`unlockedFailuresByIp
      ensures Linked(attempts, RecencyLists())
      ensures attempts.Keys == old(attempts).Keys + {key}
      ensures var t := old(Value());
              Value() == t.(entries := t.entries[key := EntryOf(s)], order := Without(t.order, key))
    {
      hide Linked, Without, KeysOf, EntriesIn, Unlink;
      var s' := s.(globalElement := null, ipElement := null);
      LockKeepsLinks(attempts, RecencyLists(), key, s, s');
      EntriesWith(attempts, key, s');
      RemoveUnlockedFailureOrder(s, key.ip);
      attempts := attempts[key := s'];
    }

    /** Stores an unlocked state for the key and moves the key to the back of its lists. */
    method StoreUnlocked(key: Key, s: AttemptState)
      requires Linked(attempts, RecencyLists()) && s.lockedUntil == 0 && Continues(key, s)
      modifies this`attempts, this`unlockedFailures, this`unlockedFailuresByIp
      ensures Linked(attempts, RecencyLists())
      ensures attempts.Keys == old(attempts).Keys + {key}
      ensures var t := old(Value());
              Value() == t.(entries := t.entries[key := EntryOf(s)], order := Without(t.order, key) + [key])
    {
      ghost var was, lists := attempts, RecencyLists();
      LinkedStates(attempts, lists, key);
      hide Linked, Touch, Without, KeysOf, EntriesIn;
      var s' := TouchUnlockedFailureOrder(key, s);
      TouchKeepsLinks(was, lists, key, s');
      EntriesWith(was, key, s');
      attempts := attempts[key := s'];
    }

    method StoreState(key: Key, s: AttemptState)
      requires Linked(attempts, RecencyLists()) && Continues(key, s)
      modifies this`attempts, this`unlockedFailures, this`unlockedFailuresByIp
      ensures Linked(attempts, RecencyLists())
      ensures attempts.Keys == old(attempts).Keys + {key}
      ensures var t := old(Value());
              var rest := Without(t.order, key);
              Value() == t.(entries := t.entries[key := EntryOf(s)], order := if s.lockedUntil != 0 then rest else rest + [key])
    {
      hide Linked, Without, KeysOf, EntriesIn;
      if s.lockedUntil != 0 {
        StoreLocked(key, s);
      } else {
        StoreUnlocked(key, s);
      }
    }

    /** The end of a recorded failure: count it, then lock the key or move it to the back. */
    method AddFailureTo(key: Key, s: AttemptState, p: Policy, now: Time) returns (locked: bool)
      requires Valid() && now + p.lockDuration != 0
      requires s.lockedUntil == 0 && Continues(key, s)
      modifies this
      ensures Valid()
      ensures (Value(), locked) == AddFailure(old(Value()), key, EntryOf(s), p, now)
    {
      ghost var was, counts := attempts, entriesByIp;
      AddFailureKeepsOrder(Value(), key, EntryOf(s), p, now);
      hide Linked, Counted, Ordered, Without, EntriesIn, KeysOf, Continues;
      var s' := s.(failures := s.failures + 1, lastFailure := now,
                   lockedUntil := if s.failures + 1 >= p.limit then now + p.lockDuration else 0);
      SameElements(key, s, s');
      ghost var before := Value();
      StoredIsAdded(before, key, s, s', p, now);
      hide AddFailure;
      if key !in attempts {
        entriesByIp := Incremented(entriesByIp, key.ip);
      }
      assert Value() == before;
      StoreState(key, s');
      CountUpdated(was, attempts, counts, key);
      locked := s'.lockedUntil != 0;
    }

    lemma SameElements(key: Key, s: AttemptState, s': AttemptState)
      requires Continues(key, s) && s'.globalElement == s.globalElement && s'.ipElement == s.ipElement
      ensures Continues(key, s')
    {
    }

    method Reset(key: Key)
      requires Valid()
      modifies this
      ensures Valid()
      ensures Value() == Delete(old(Value()), key)
    {
      DeleteEntry(key);
    }
  }

  lemma StoredIsAdded(t: Tracker, key: Key, s: AttemptState, s': AttemptState, p: Policy, now: Time)
    requires s.lockedUntil == 0 && now + p.lockDuration != 0
    requires EntryOf(s') == Failed(EntryOf(s), p, now)
    ensures var rest := Without(t.order, key);
            AddFailure(t, key, EntryOf(s), p, now)
            == (t.(entries := t.entries[key := EntryOf(s')], order := if s'.lockedUntil != 0 then rest else rest + [key]),
                s'.lockedUntil != 0)
  {
  }

  lemma DeletedTwice(t: Tracker, key: Key)
    ensures Delete(Delete(t, key), key) == Delete(t, key)
    ensures key !in Delete(t, key).entries
  {
  }

  lemma NothingToDelete(t: Tracker, key: Key)
    requires key !in t.entries
    ensures Delete(t, key) == t
  {
  }

  lemma EnsureCapacityOnlyDrops(lim: Limits, t: Tracker, ip: string)
    ensures EnsureCapacity(lim, t, ip).0.entries.Keys <= t.entries.Keys
  {
  }

  lemma LinkedStates(attempts: Attempts, lists: Lists, key: Key)
    requires Linked(attempts, lists)
    ensures key in attempts ==> (attempts[key].globalElement == null) == (attempts[key].ipElement == null)
    ensures key in attempts && attempts[key].globalElement != null ==>
      attempts[key].globalElement.key == key && attempts[key].ipElement.key == key
  {
    if key in attempts {
      assert EntryLinked(key, attempts[key], lists);
    }
  }

  /** Locking a key, known or new, leaves the lists right without it. */
  lemma LockKeepsLinks(attempts: Attempts, lists: Lists, key: Key, s: AttemptState, s': AttemptState)
    requires Linked(attempts, lists)
    requires if key in attempts then
               attempts[key].lockedUntil == 0
               && s.globalElement == attempts[key].globalElement && s.ipElement == attempts[key].ipElement
             else s.globalElement == null && s.ipElement == null
    requires s'.lockedUntil != 0 && s'.globalElement == null && s'.ipElement == null
    ensures var lists' := Unlink(lists, s, key.ip);
            && Linked(attempts[key := s'], lists')
            && KeysOf(lists'.all) == Without(KeysOf(lists.all), key)
  {
    hide KeysOf, KeepIf, IpListLinked, Linked;
    if key in attempts {
      UnlinkKeepsLinks(attempts, attempts[key := s'], lists, key);
    } else {
      LockedNewKeyKeepsLinks(attempts, lists, key, s');
    }
  }

  lemma LockedNewKeyKeepsLinks(attempts: Attempts, lists: Lists, key: Key, s': AttemptState)
    requires Linked(attempts, lists) && key !in attempts
    requires s'.lockedUntil != 0 && s'.globalElement == null && s'.ipElement == null
    ensures Linked(attempts[key := s'], lists) && KeysOf(lists.all) == Without(KeysOf(lists.all), key)
  {
    hide KeysOf, KeepIf, EntryLinked, IpListLinked;
    NewKeyIsUnlisted(attempts, lists, key);
    KeepIfAll(KeysOf(lists.all), k => k != key);
    forall ip | ip in lists.byIp
      ensures IpListLinked(attempts[key := s'], lists, ip)
    {
      IpListKeepsLinked(attempts, lists, key, s', ip);
    }
    assert EntryLinked(key, s', lists) by {
      LockedIsLinked(key, s', lists);
    }
  }

  lemma IpListKeepsLinked(attempts: Attempts, lists: Lists, key: Key, s: AttemptState, ip: string)
    requires key !in attempts && ip in lists.byIp && IpListLinked(attempts, lists, ip)
    ensures IpListLinked(attempts[key := s], lists, ip)
  {
    hide KeysOf, KeepIf;
  }

  lemma NewKeyIsUnlisted(attempts: Attempts, lists: Lists, key: Key)
    requires Linked(attempts, lists) && key !in attempts
    ensures key !in KeysOf(lists.all)
  {
    if key in KeysOf(lists.all) {
      MemberOfKeys(lists.all, key);
    }
  }

  /** Moving a known key to the back keeps every link. */
  lemma TouchKnown(attempts: Attempts, lists: Lists, key: Key, s: AttemptState)
    requires Linked(attempts, lists) && key in attempts && attempts[key].lockedUntil == 0
    requires s.lockedUntil == 0 && s.globalElement != null && s.ipElement != null
    requires s.globalElement == attempts[key].globalElement && s.ipElement == attempts[key].ipElement
    ensures var lists' := Touch(lists, s.globalElement, s.ipElement, key.ip);
            && Linked(attempts[key := s], lists')
            && KeysOf(lists'.all) == Without(KeysOf(lists.all), key) + [key]
  {
    hide Linked, Without, KeysOf, Unlink, Touch, EntryLinked, KeepIf, ListOf;
    ElementsOf(attempts, lists, key);
    var rest := Unlink(lists, attempts[key], key.ip);
    UnlinkKeepsLinks(attempts, attempts - {key}, lists, key);
    if key.ip !in rest.byIp {
      NoListNoKeys(attempts - {key}, rest, key.ip);
    }
    TouchIsUnlinkAndAppend(lists, attempts[key], key.ip);
    AppendKeepsLinks(attempts - {key}, attempts[key := s], rest, key);
  }

  lemma TouchIsUnlinkAndAppend(lists: Lists, s: AttemptState, ip: string)
    requires s.globalElement != null && s.ipElement != null && ip in lists.byIp
    ensures var rest := Unlink(lists, s, ip);
            Touch(lists, s.globalElement, s.ipElement, ip)
            == Appended(rest, s.globalElement, s.ipElement, ip)
  {
  }

  /** Adding a new key at the back keeps every link. */
  lemma TouchNew(attempts: Attempts, lists: Lists, key: Key, s: AttemptState)
    requires Linked(attempts, lists) && key !in attempts
    requires s.lockedUntil == 0 && s.globalElement != null && s.ipElement != null
    requires s.globalElement.key == key && s.ipElement.key == key
    requires s.globalElement !in lists.all && s.ipElement !in ListOf(lists, key.ip)
    ensures var lists' := Touch(lists, s.globalElement, s.ipElement, key.ip);
            && Linked(attempts[key := s], lists')
            && KeysOf(lists'.all) == Without(KeysOf(lists.all), key) + [key]
  {
    hide Linked, KeysOf, KeepIf, Remove;
    NewKeyIsUnlisted(attempts, lists, key);
    KeepIfAll(KeysOf(lists.all), k => k != key);
    if key.ip !in lists.byIp {
      NoListNoKeys(attempts, lists, key.ip);
    }
    RemoveAbsent(lists.all, s.globalElement);
    RemoveAbsent(ListOf(lists, key.ip), s.ipElement);
    AppendKeepsLinks(attempts, attempts[key := s], lists, key);
  }

  lemma TouchKeepsLinks(attempts: Attempts, lists: Lists, key: Key, s: AttemptState)
    requires Linked(attempts, lists)
    requires s.lockedUntil == 0 && s.globalElement != null && s.ipElement != null
    requires s.globalElement.key == key && s.ipElement.key == key
    requires if key in attempts then
               attempts[key].lockedUntil == 0
               && s.globalElement == attempts[key].globalElement && s.ipElement == attempts[key].ipElement
             else s.globalElement !in lists.all && s.ipElement !in ListOf(lists, key.ip)
    ensures var lists' := Touch(lists, s.globalElement, s.ipElement, key.ip);
            && Linked(attempts[key := s], lists')
            && KeysOf(lists'.all) == Without(KeysOf(lists.all), key) + [key]
  {
    if key in attempts {
      TouchKnown(attempts, lists, key, s);
    } else {
      TouchNew(attempts, lists, key, s);
    }
  }

  lemma CountUpdated(attempts: Attempts, attempts': Attempts, counts: map<string, int>, key: Key)
    requires Counted(attempts, counts) && attempts'.Keys == attempts.Keys + {key}
    ensures Counted(attempts', if key in attempts then counts else Incremented(counts, key.ip))
  {
    if key in attempts {
      assert attempts'.Keys == attempts.Keys;
    } else {
      CountKey(attempts, attempts', counts, key);
    }
  }

  lemma EntriesWith(attempts: Attempts, key: Key, s: AttemptState)
    ensures attempts[key := s].Keys == attempts.Keys + {key}
    ensures EntriesIn(attempts[key := s]) == EntriesIn(attempts)[key := EntryOf(s)]
  {
  }

  /** A locked key is on no list, so taking it off changes nothing. */
  lemma UnlinkIfLinked(attempts: Attempts, attempts': Attempts, lists: Lists, key: Key)
    requires Linked(attempts, lists) && key in attempts
    requires OthersKept(attempts, attempts', key)
    requires key in attempts' ==> EntryLinked(key, attempts'[key], Lists([], map[]))
    requires key in attempts' ==> attempts[key].lockedUntil == 0
    ensures var lists' := Unlink(lists, attempts[key], key.ip);
            && Linked(attempts', lists')
            && KeysOf(lists'.all) == Without(KeysOf(lists.all), key)
  {
    if attempts[key].lockedUntil == 0 {
      UnlinkKeepsLinks(attempts, attempts', lists, key);
    } else {
      LockedIsUnlisted(attempts, lists, key);
      KeepIfAll(KeysOf(lists.all), k => k != key);
      forall ip | ip in lists.byIp
        ensures IpListLinked(attempts', lists, ip)
      {
        assert IpListLinked(attempts, lists, ip);
      }
      forall k | k in attempts'
        ensures EntryLinked(k, attempts'[k], lists)
      {
        assert EntryLinked(k, attempts[k], lists);
      }
    }
  }

  lemma LockedIsUnlisted(attempts: Attempts, lists: Lists, key: Key)
    requires Linked(attempts, lists) && key in attempts && attempts[key].lockedUntil != 0
    ensures key !in KeysOf(lists.all)
  {
    if key in KeysOf(lists.all) {
      MemberOfKeys(lists.all, key);
    }
  }

  lemma NotAnEntry(attempts: Attempts, key: Key)
    ensures key in EntriesIn(attempts) <==> key in attempts
  {
  }

  lemma EntriesWithout(attempts: Attempts, key: Key)
    requires key in attempts
    ensures key in EntriesIn(attempts)
    ensures EntriesIn(attempts - {key}) == EntriesIn(attempts) - {key}
  {
  }

  function Decremented(counts: map<string, int>, ip: string): map<string, int> {
    if CountOf(counts, ip) <= 1 then counts - {ip} else counts[ip := counts[ip] - 1]
  }

  function Incremented(counts: map<string, int>, ip: string): map<string, int> {
    counts[ip := CountOf(counts, ip) + 1]
  }

  lemma OneKeyMore(keys: set<Key>, key: Key, ip: string)
    requires key !in keys
    ensures |KeysAt(keys + {key}, ip)| == |KeysAt(keys, ip)| + (if ip == key.ip then 1 else 0)
  {
    assert KeysAt(keys + {key}, ip) == KeysAt(keys, ip) + (if ip == key.ip then {key} else {});
  }

  lemma UncountKey(attempts: Attempts, counts: map<string, int>, key: Key)
    requires Counted(attempts, counts) && key in attempts
    ensures Counted(attempts - {key}, Decremented(counts, key.ip))
  {
    var rest, counts' := attempts - {key}, Decremented(counts, key.ip);
    assert rest.Keys + {key} == attempts.Keys;
    forall ip
      ensures CountOf(counts', ip) == |KeysAt(rest.Keys, ip)| && (ip in counts' ==> counts'[ip] > 0)
    {
      OneKeyMore(rest.Keys, key, ip);
      assert CountOf(counts, ip) == |KeysAt(attempts.Keys, ip)|;
    }
  }

  lemma CountKey(attempts: Attempts, attempts': Attempts, counts: map<string, int>, key: Key)
    requires Counted(attempts, counts) && key !in attempts && attempts'.Keys == attempts.Keys + {key}
    ensures Counted(attempts', Incremented(counts, key.ip))
  {
    var counts' := Incremented(counts, key.ip);
    forall ip
      ensures CountOf(counts', ip) == |KeysAt(attempts'.Keys, ip)| && (ip in counts' ==> counts'[ip] > 0)
    {
      OneKeyMore(attempts.Keys, key, ip);
      assert CountOf(counts, ip) == |KeysAt(attempts.Keys, ip)|;
    }
  }

  // ----- Pruning key by key -----

  /** The tracker with only the given keys left. */
  function Restricted(t: Tracker, keys: set<Key>): Tracker {
    t.(entries := map k | k in t.entries && k in keys :: t.entries[k], order := Kept(t.order, keys))
  }

  lemma NothingDeleted(t: Tracker, keys: set<Key>)
    requires Ordered(t) && t.entries.Keys <= keys
    ensures Restricted(t, keys) == t
  {
    KeepIfAll(t.order, k => k in keys);
  }

  lemma {:induction false} KeptWithout(order: seq<Key>, keys: set<Key>, key: Key)
    ensures Without(Kept(order, keys), key) == Kept(order, keys - {key})
    decreases |order|
  {
    if order != [] {
      var init, last := order[..|order| - 1], order[|order| - 1];
      KeptWithout(init, keys, key);
      KeepIfSnoc(Kept(init, keys), last, k => k != key);
    }
  }

  lemma AliveOrDead(entries: Entries, now: Time, window: Time, key: Key)
    requires key in entries
    ensures key in Alive(entries, now, window).Keys <==> !Dead(entries[key], now, window)
  {
  }

  lemma OneLessPending(alive: set<Key>, pending: set<Key>, key: Key)
    requires key in pending
    ensures alive + (pending - {key}) == if key in alive then alive + pending else (alive + pending) - {key}
  {
  }

  lemma RestrictedEntry(t: Tracker, keys: set<Key>, key: Key)
    requires key in t.entries && key in keys
    ensures key in Restricted(t, keys).entries && Restricted(t, keys).entries[key] == t.entries[key]
  {
  }

  lemma EntriesInIsExact(attempts: Attempts)
    ensures EntriesIn(attempts).Keys == attempts.Keys
    ensures forall k :: k in attempts ==> EntriesIn(attempts)[k] == EntryOf(attempts[k])
  {
  }

  lemma OrderIgnoresPruneTime(t: Tracker, now: Time)
    requires Ordered(t)
    ensures Ordered(t.(lastPruned := now))
  {
  }

  lemma DeleteRestricts(t: Tracker, keys: set<Key>, key: Key)
    requires Ordered(t) && key in t.entries && key in keys
    ensures Delete(Restricted(t, keys), key) == Restricted(t, keys - {key})
  {
    KeptWithout(t.order, keys, key);
    assert Delete(Restricted(t, keys), key).entries == Restricted(t, keys - {key}).entries;
  }

  lemma RestrictedToAlive(t: Tracker, now: Time, window: Time)
    requires PruneDue(t, now, window)
    ensures Restricted(t, Alive(t.entries, now, window).Keys).(lastPruned := now) == Prune(t, now, window)
  {
  }
}
