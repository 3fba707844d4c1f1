/** Handler generations as values: what publishing, leasing and releasing do to them, and
    what every order of these steps keeps. */
module Generations {
  import opened Common

  /** A handler by its dynamic type and identity, with what its type can do. */
  datatype Handler = NoHandler
    | Handler(kind: nat, identity: nat, closable: bool, comparable: bool, notified: bool, lifecycleId: Option<nat>)

  predicate Closable(h: Handler) {
    h.Handler? && h.closable
  }

  /** Handlers of a type that cannot be compared are never equal. */
  predicate HandlersEqual(a: Handler, b: Handler) {
    a == b && (a.Handler? ==> a.comparable)
  }

  datatype Slot = Slot(handler: Handler, active: int, retired: bool)

  /** `slots` has every generation ever published, `leases` the leases out now, and `closed`
      the handlers handed over to be closed. */
  datatype State<!G(==)> = State(slots: map<G, Slot>, current: Option<G>, retired: seq<G>, pending: seq<Handler>,
                                 lifecycleIds: set<(nat, nat)>, fallbackClosers: set<Handler>,
                                 leases: multiset<G>, closed: seq<Handler>)

  predicate IsRegistered<G>(s: State<G>, h: Handler)
    requires h.Handler?
  {
    if h.lifecycleId.Some? then (h.kind, h.lifecycleId.value) in s.lifecycleIds else h in s.fallbackClosers
  }

  predicate Refused<G>(s: State<G>, h: Handler) {
    Closable(h) && (!h.comparable || h.lifecycleId == Some(0) || IsRegistered(s, h))
  }

  function Register<G>(s: State<G>, h: Handler): State<G> {
    if !Closable(h) then s
    else if h.lifecycleId.Some? then s.(lifecycleIds := s.lifecycleIds + {(h.kind, h.lifecycleId.value)})
    else s.(fallbackClosers := s.fallbackClosers + {h})
  }

  // ----- Steps -----

  predicate Waits(pending: seq<Handler>, h: Handler) {
    exists i :: 0 <= i < |pending| && HandlersEqual(pending[i], h)
  }

  function Queue(pending: seq<Handler>, h: Handler): seq<Handler> {
    if Closable(h) && !Waits(pending, h) then pending + [h] else pending
  }

  function Without<G(==)>(gs: seq<G>, g: G): seq<G> {
    if gs == [] then [] else if gs[0] == g then gs[1..] else [gs[0]] + Without(gs[1..], g)
  }

  function Retire<G>(s: State<G>, g: G): State<G>
    requires g in s.slots
  {
    var slot := s.slots[g].(retired := true);
    if slot.active == 0 then s.(slots := s.slots[g := slot], pending := Queue(s.pending, slot.handler))
    else s.(slots := s.slots[g := slot], retired := s.retired + [g])
  }

  function Publish<G>(s: State<G>, g: G, h: Handler): State<G>
    requires s.current.Some? ==> s.current.value in s.slots
  {
    var next := Register(s, h).(slots := s.slots[g := Slot(h, 0, false)], current := Some(g));
    if s.current.Some? then Retire(next, s.current.value) else next
  }

  function Take<G>(s: State<G>, g: G): State<G>
    requires g in s.slots
  {
    s.(slots := s.slots[g := s.slots[g].(active := s.slots[g].active + 1)], leases := s.leases + multiset{g})
  }

  function Unlease<G>(s: State<G>, g: G): State<G>
    requires g in s.slots
  {
    s.(slots := s.slots[g := s.slots[g].(active := s.slots[g].active - 1)], leases := s.leases - multiset{g})
  }

  function Give<G>(s: State<G>, g: G): State<G>
    requires g in s.slots
  {
    var less := Unlease(s, g);
    if !less.slots[g].retired || less.slots[g].active > 0 then less
    else less.(retired := Without(s.retired, g), pending := Queue(s.pending, s.slots[g].handler))
  }

  /** Everything that waits is handed over to be closed. */
  function Flush<G>(s: State<G>): State<G> {
    s.(pending := [], closed := s.closed + s.pending)
  }

  /** A handler is refused if and only if it has to be closed one day and could not be told from
      others: it cannot be compared, its identity is zero, or it was published before. */
  lemma RefusedExactlyWhen<G>(s: State<G>, h: Handler)
    ensures Refused(s, h) <==>
              && h.Handler? && h.closable
              && (|| !h.comparable || h.lifecycleId == Some(0)
                  || (h.lifecycleId.Some? && (h.kind, h.lifecycleId.value) in s.lifecycleIds)
                  || (h.lifecycleId.None? && h in s.fallbackClosers))
  {
  }

  /** Publishing notes the identity of a handler that has to be closed one day, and of no other;
      so the same one is refused from then on. */
  lemma PublishedIsKnown<G>(s: State<G>, g: G, h: Handler)
    requires s.current.Some? ==> s.current.value in s.slots
    ensures var s' := Publish(s, g, h);
            var closes := h.Handler? && h.closable;
            && s'.lifecycleIds == s.lifecycleIds + (if closes && h.lifecycleId.Some? then {(h.kind, h.lifecycleId.value)} else {})
            && s'.fallbackClosers == s.fallbackClosers + (if closes && h.lifecycleId.None? then {h} else {})
            && s'.current == Some(g) && g in s'.slots && s'.slots[g].handler == h
            && (closes ==> Refused(s', h))
  {
  }

  // ----- The invariant -----

  predicate Distinct<T(==)>(items: seq<T>) {
    forall i, j :: 0 <= i < j < |items| ==> items[i] != items[j]
  }

  /** Every replaced generation is marked, and only those. */
  predicate Marked<G>(s: State<G>) {
    && (s.current.Some? ==> s.current.value in s.slots)
    && (forall g :: g in s.slots ==> (s.slots[g].retired <==> s.current != Some(g)))
  }

  predicate Leased<G>(s: State<G>) {
    && (forall g :: g in s.slots ==> s.slots[g].active == s.leases[g])
    && (forall g :: g in s.leases ==> g in s.slots)
  }

  /** The retired list is exactly the replaced generations that still have leases. */
  predicate Listed<G>(s: State<G>) {
    && (forall g :: g in s.slots && s.slots[g].retired && s.slots[g].active > 0 ==> g in s.retired)
    && (forall g :: g in s.retired ==> g in s.slots && s.slots[g].retired && s.slots[g].active > 0)
    && Distinct(s.retired)
  }

  /** No closable handler is published twice. */
  predicate Unique<G>(s: State<G>) {
    && (forall g :: g in s.slots && Closable(s.slots[g].handler) ==>
          s.slots[g].handler.comparable && IsRegistered(s, s.slots[g].handler))
    && (forall a, b :: a in s.slots && b in s.slots && s.slots[a].handler == s.slots[b].handler ==>
          Closable(s.slots[a].handler) ==> a == b)
  }

  predicate IsOver(slot: Slot) {
    Closable(slot.handler) && slot.retired && slot.active == 0
  }

  predicate IsOverHandler<G>(s: State<G>, h: Handler) {
    exists g :: g in s.slots && s.slots[g].handler == h && IsOver(s.slots[g])
  }

  /** Closed, or waiting to be, once each: exactly the closable handlers replaced and drained. */
  predicate Closing<G>(s: State<G>) {
    && (forall g :: g in s.slots && IsOver(s.slots[g]) ==> s.slots[g].handler in s.closed || s.slots[g].handler in s.pending)
    && (forall h :: h in s.closed ==> IsOverHandler(s, h) && h !in s.pending)
    && (forall h :: h in s.pending ==> IsOverHandler(s, h))
    && Distinct(s.closed) && Distinct(s.pending)
  }

  predicate Consistent<G>(s: State<G>) {
    Marked(s) && Leased(s) && Listed(s) && Unique(s) && Closing(s)
  }

  // ----- What the steps keep -----

  lemma {:induction false} WithoutOne<G>(gs: seq<G>, g: G)
    requires Distinct(gs)
    ensures Distinct(Without(gs, g)) && g !in Without(gs, g)
    ensures forall x :: x in Without(gs, g) <==> x in gs && x != g
  {
    if gs != [] {
      var first, rest := gs[0], gs[1..];
      assert forall x :: x in gs <==> x == first || x in rest;
      assert forall i :: 0 <= i < |rest| ==> rest[i] == gs[i + 1];
      if first != g {
        WithoutOne(rest, g);
        var more := Without(gs, g);
        assert forall x :: x in more <==> x == first || x in Without(rest, g);
        forall i, j | 0 <= i < j < |more|
          ensures more[i] != more[j]
        {
          assert more[j] == Without(rest, g)[j - 1];
          assert more[j] in Without(rest, g);
          assert i > 0 ==> more[i] == Without(rest, g)[i - 1];
        }
      }
    }
  }

  /** A handler that is over for the first time is neither closed nor waiting yet. */
  lemma NewlyOver<G>(s: State<G>, g: G)
    requires Unique(s) && Closing(s) && g in s.slots && Closable(s.slots[g].handler) && !IsOver(s.slots[g])
    ensures s.slots[g].handler !in s.closed && s.slots[g].handler !in s.pending
    ensures Queue(s.pending, s.slots[g].handler) == s.pending + [s.slots[g].handler]
  {
    var h := s.slots[g].handler;
    assert !IsOverHandler(s, h);
  }

  lemma OverStays<G>(s: State<G>, t: State<G>, h: Handler)
    requires IsOverHandler(s, h)
    requires forall g :: g in s.slots && IsOver(s.slots[g]) ==> g in t.slots && t.slots[g] == s.slots[g]
    ensures IsOverHandler(t, h)
  {
    var g :| g in s.slots && s.slots[g].handler == h && IsOver(s.slots[g]);
    assert g in t.slots;
  }

  /** Changing one generation that is not over, queueing its handler if it now is. */
  lemma SlotKeepsClosing<G>(s: State<G>, t: State<G>, g: G, slot: Slot)
    requires Unique(s) && Closing(s) && g in s.slots && !IsOver(s.slots[g]) && slot.handler == s.slots[g].handler
    requires t.slots == s.slots[g := slot] && t.closed == s.closed
    requires t.pending == if IsOver(slot) then Queue(s.pending, slot.handler) else s.pending
    ensures Closing(t)
  {
    hide Unique, Queue;
    forall h | IsOverHandler(s, h)
      ensures IsOverHandler(t, h)
    {
      OverStays(s, t, h);
    }
    if IsOver(slot) {
      NewlyOver(s, g);
      assert g in t.slots && IsOverHandler(t, slot.handler);
    }
    hide IsOverHandler;
  }

  lemma SlotKeepsUnique<G>(s: State<G>, t: State<G>, g: G, slot: Slot)
    requires Unique(s) && g in s.slots && slot.handler == s.slots[g].handler && t.slots == s.slots[g := slot]
    requires t.lifecycleIds == s.lifecycleIds && t.fallbackClosers == s.fallbackClosers
    ensures Unique(t)
  {
    assert forall x :: x in t.slots ==> x in s.slots && t.slots[x].handler == s.slots[x].handler;
  }

  lemma TakeKeeps<G>(s: State<G>, g: G)
    requires Consistent(s) && (s.current == Some(g) || g in s.retired)
    ensures g in s.slots && Consistent(Take(s, g))
  {
    hide Closing, Queue, Unique, Marked, Leased, Listed;
    LiveIsKnown(s, g);
    TakeKeepsMarked(s, g);
    TakeKeepsLeased(s, g);
    TakeKeepsListed(s, g);
    SlotKeepsClosing(s, Take(s, g), g, Take(s, g).slots[g]);
    SlotKeepsUnique(s, Take(s, g), g, Take(s, g).slots[g]);
  }

  lemma LiveIsKnown<G>(s: State<G>, g: G)
    requires Marked(s) && Listed(s) && (s.current == Some(g) || g in s.retired)
    ensures g in s.slots && (s.current == Some(g) || (s.slots[g].retired && s.slots[g].active > 0))
  {
    hide Distinct;
  }

  lemma TakeKeepsMarked<G>(s: State<G>, g: G)
    requires Marked(s) && g in s.slots
    ensures Marked(Take(s, g))
  {
  }

  lemma TakeKeepsLeased<G>(s: State<G>, g: G)
    requires Leased(s) && g in s.slots
    ensures Leased(Take(s, g))
  {
  }

  lemma TakeKeepsListed<G>(s: State<G>, g: G)
    requires Listed(s) && Marked(s) && g in s.slots && (s.current == Some(g) || (s.slots[g].retired && s.slots[g].active > 0))
    ensures Listed(Take(s, g))
  {
    hide Distinct;
  }

  lemma GiveKeepsLeased<G>(s: State<G>, g: G)
    requires Marked(s) && Leased(s) && g in s.leases
    ensures g in s.slots && s.slots[g].active > 0 && Marked(Give(s, g)) && Leased(Give(s, g))
  {
    hide Queue, Without;
  }

  lemma GiveKeepsListed<G>(s: State<G>, g: G)
    requires Listed(s) && g in s.slots && s.slots[g].active > 0
    ensures Listed(Give(s, g))
  {
    hide Queue, Without;
    WithoutOne(s.retired, g);
    var t := Give(s, g);
    assert forall x :: x in t.slots <==> x in s.slots;
    assert forall x :: x in t.slots && x != g ==> t.slots[x] == s.slots[x];
    assert t.slots[g].retired == s.slots[g].retired && t.slots[g].active == s.slots[g].active - 1;
    if t.slots[g].retired && t.slots[g].active == 0 {
      assert t.retired == Without(s.retired, g);
      assert forall x :: x in t.retired <==> x in s.retired && x != g;
      assert Distinct(t.retired);
      assert forall x :: x in t.slots && t.slots[x].retired && t.slots[x].active > 0 ==> x in t.retired;
      assert forall x :: x in t.retired ==> x in t.slots && t.slots[x].retired && t.slots[x].active > 0;
    } else {
      assert t.retired == s.retired;
    }
  }

  lemma GiveKeeps<G>(s: State<G>, g: G)
    requires Consistent(s) && g in s.leases
    ensures g in s.slots && Consistent(Give(s, g))
  {
    hide Closing, Queue, Without, Distinct, Unique, Marked, Leased, Listed;
    GiveKeepsLeased(s, g);
    GiveKeepsListed(s, g);
    QueueClosableOnly(s.pending, s.slots[g].handler);
    SlotKeepsClosing(s, Give(s, g), g, Give(s, g).slots[g]);
    SlotKeepsUnique(s, Give(s, g), g, Give(s, g).slots[g]);
  }

  lemma QueueClosableOnly(pending: seq<Handler>, h: Handler)
    ensures !Closable(h) ==> Queue(pending, h) == pending
  {
  }

  lemma RegisterIsNew<G>(s: State<G>, g: G, h: Handler)
    requires Unique(s) && g !in s.slots && !Refused(s, h)
    ensures Unique(Register(s, h).(slots := s.slots[g := Slot(h, 0, false)]))
  {
    assert forall x :: x in s.slots && Closable(s.slots[x].handler) ==> s.slots[x].handler != h;
    var next := Register(s, h);
    assert forall x: Handler :: x.Handler? && IsRegistered(s, x) ==> IsRegistered(next, x);
    assert Closable(h) ==> IsRegistered(next, h);
    hide IsRegistered, Register;
    assert forall t: State<G>, x: Handler :: x.Handler? && t.lifecycleIds == next.lifecycleIds
                                             && t.fallbackClosers == next.fallbackClosers ==>
                                               IsRegistered(t, x) == IsRegistered(next, x);
  }

  lemma NewSlotKeepsClosing<G>(s: State<G>, t: State<G>, g: G, h: Handler)
    requires Closing(s) && g !in s.slots && t.slots == s.slots[g := Slot(h, 0, false)]
    requires t.closed == s.closed && t.pending == s.pending
    ensures Closing(t)
  {
    forall x | IsOverHandler(s, x)
      ensures IsOverHandler(t, x)
    {
      OverStays(s, t, x);
    }
    hide IsOverHandler;
  }

  lemma PublishKeeps<G>(s: State<G>, g: G, h: Handler)
    requires Consistent(s) && g !in s.slots && !Refused(s, h)
    ensures Consistent(Publish(s, g, h))
  {
    hide Closing, Unique, Distinct, IsRegistered, Queue, Retire;
    var next := Register(s, h).(slots := s.slots[g := Slot(h, 0, false)], current := Some(g));
    RegisterIsNew(s, g, h);
    SameUnique(Register(s, h).(slots := s.slots[g := Slot(h, 0, false)]), next);
    NewSlotKeepsClosing(s, next, g, h);
    NewSlotKeepsListed(s, next, g, h);
    if s.current.Some? {
      RetireKeeps(next, g, s.current.value);
    }
  }

  lemma NewSlotKeepsListed<G>(s: State<G>, t: State<G>, g: G, h: Handler)
    requires Marked(s) && Leased(s) && Listed(s) && g !in s.slots && t.slots == s.slots[g := Slot(h, 0, false)]
    requires t.current == Some(g) && t.leases == s.leases && t.retired == s.retired
    ensures Leased(t) && Listed(t) && t.slots[g] == Slot(h, 0, false)
    ensures forall x :: x in s.slots ==> x in t.slots && t.slots[x] == s.slots[x]
    ensures forall x :: x in t.slots && x != g && s.current != Some(x) ==> t.slots[x].retired
    ensures s.current.Some? ==> !t.slots[s.current.value].retired && s.current.value != g
    ensures s.current.None? ==> Marked(t)
  {
    hide Distinct;
    NewSlotIsNotLeased(s, g);
    assert forall x :: x in s.slots ==> x in t.slots && t.slots[x] == s.slots[x];
  }

  lemma NewSlotIsNotLeased<G>(s: State<G>, g: G)
    requires Leased(s) && g !in s.slots
    ensures g !in s.leases
  {
  }

  lemma SameUnique<G>(s: State<G>, t: State<G>)
    requires Unique(s) && t.slots == s.slots && t.lifecycleIds == s.lifecycleIds && t.fallbackClosers == s.fallbackClosers
    ensures Unique(t)
  {
  }

  /** Right after a new generation took over, the one before it is the only unmarked other. */
  lemma RetireKeeps<G>(s: State<G>, g: G, previous: G)
    requires s.current == Some(g) && g in s.slots && previous in s.slots && previous != g
    requires !s.slots[g].retired && !s.slots[previous].retired
    requires forall x :: x in s.slots && x != g && x != previous ==> s.slots[x].retired
    requires Leased(s) && Listed(s) && Unique(s) && Closing(s)
    ensures Consistent(Retire(s, previous))
  {
    hide Closing, Queue, Unique, Listed;
    var t := Retire(s, previous);
    RetireKeepsListed(s, previous);
    QueueClosableOnly(s.pending, s.slots[previous].handler);
    SlotKeepsClosing(s, t, previous, t.slots[previous]);
    SlotKeepsUnique(s, t, previous, t.slots[previous]);
  }

  lemma RetireKeepsListed<G>(s: State<G>, previous: G)
    requires Leased(s) && Listed(s) && previous in s.slots && !s.slots[previous].retired
    ensures Listed(Retire(s, previous))
  {
    hide Queue;
    assert previous !in s.retired;
  }

  lemma FlushKeeps<G>(s: State<G>)
    requires Consistent(s)
    ensures Consistent(Flush(s)) && Flush(s).pending == []
  {
    hide IsOverHandler, Unique, Distinct;
    var t := Flush(s);
    SameOver(s, t);
    SameUnique(s, t);
    assert forall h :: h in t.closed <==> h in s.closed || h in s.pending;
    DistinctConcat(s.closed, s.pending);
    NothingTwice();
  }

  lemma NothingTwice()
    ensures Distinct<Handler>([])
  {
  }

  lemma SameOver<G>(s: State<G>, t: State<G>)
    requires s.slots == t.slots
    ensures forall h :: IsOverHandler(t, h) == IsOverHandler(s, h)
  {
  }

  lemma DistinctConcat(a: seq<Handler>, b: seq<Handler>)
    requires Distinct(a) && Distinct(b) && forall h :: h in a ==> h !in b
    ensures Distinct(a + b)
  {
    forall i, j | 0 <= i < j < |a + b|
      ensures (a + b)[i] != (a + b)[j]
    {
      if i < |a| <= j {
        assert a[i] in a && b[j - |a|] in b;
      }
    }
  }

  predicate LiveHandler<G>(s: State<G>, h: Handler) {
    || (s.current.Some? && s.current.value in s.slots && HandlersEqual(s.slots[s.current.value].handler, h))
    || exists g :: g in s.retired && g in s.slots && HandlersEqual(s.slots[g].handler, h)
  }

  /** Nothing that waits to be closed is in use any more. */
  lemma WaitingIsNotLive<G>(s: State<G>, h: Handler)
    requires Consistent(s) && h in s.pending
    ensures !LiveHandler(s, h)
  {
    assert IsOverHandler(s, h);
    var g :| g in s.slots && s.slots[g].handler == h && IsOver(s.slots[g]);
  }

  /** At any time between the steps: a closable handler has been given to be closed exactly if
      it was replaced and nothing leases it, never twice, and never while it is current. */
  lemma ClosedExactlyWhenOver<G>(s: State<G>, g: G)
    requires Consistent(s) && s.pending == [] && g in s.slots && Closable(s.slots[g].handler)
    ensures s.slots[g].handler in s.closed <==> s.current != Some(g) && s.leases[g] == 0
    ensures forall i, j :: 0 <= i < j < |s.closed| ==> s.closed[i] != s.closed[j]
  {
    if s.slots[g].handler in s.closed {
      assert IsOverHandler(s, s.slots[g].handler);
    }
  }

  /** The retired list is exactly the replaced generations that are still leased, each once. */
  lemma RetiredExactlyWhileLeased<G>(s: State<G>, g: G)
    requires Consistent(s)
    ensures g in s.retired <==> g in s.slots && s.current != Some(g) && s.leases[g] > 0
    ensures Distinct(s.retired)
  {
  }
}
