/** The switchable WebDAV handler as objects: replaced generations live on while requests or
    path notifications use them, and a closable handler is closed once nothing does. Every
    method holds the mutex, so any interleaving is a sequence of these calls. */
module HandlerGenerations {
  import opened Common
  import opened Generations

  class Generation {
    var prefix: string
    const handler: Handler
    var active: int
    var retired: bool

    constructor (prefix: string, handler: Handler)
      ensures this.prefix == prefix && this.handler == handler && active == 0 && !retired
    {
      this.prefix, this.handler := prefix, handler;
      active, retired := 0, false;
    }
  }

  predicate MatchesPrefix(prefix: string, path: string) {
    if prefix == "/" then true
    else path == prefix || (|path| > |prefix| && path[..|prefix|] == prefix && path[|prefix|] == '/')
  }

  /** Leases on all of these generations. */
  function TakeAll(s: State<Generation>, gs: seq<Generation>): (t: State<Generation>)
    requires forall g :: g in gs ==> g in s.slots
    ensures t.slots.Keys == s.slots.Keys && t.current == s.current && t.retired == s.retired && t.pending == s.pending
  {
    if gs == [] then s else Take(TakeAll(s, gs[..|gs| - 1]), gs[|gs| - 1])
  }

  class SwitchableHandler {
    var current: Generation?
    var retired: seq<Generation>
    var pendingClose: seq<Handler>
    var lifecycleIds: set<(nat, nat)>
    var fallbackClosers: set<Handler>
    /** Every generation ever published, the leases out now, and the handlers given to be closed. */
    ghost var generations: set<Generation>
    ghost var leases: multiset<Generation>
    ghost var closed: seq<Handler>

    ghost function View(): State<Generation>
      reads this, generations
    {
      State(map g | g in generations :: Slot(g.handler, g.active, g.retired),
            if current == null then None else Option<Generation>.Some(current),
            retired, pendingClose, lifecycleIds, fallbackClosers, leases, closed)
    }

    ghost predicate Valid()
      reads this, generations
    {
      Consistent(View()) && pendingClose == []
    }

    constructor ()
      ensures Valid() && current == null && generations == {} && leases == multiset{} && closed == []
    {
      current, retired, pendingClose, lifecycleIds, fallbackClosers := null, [], [], {}, {};
      generations, leases, closed := {}, multiset{}, [];
    }

    method RegisterHandlerLifecycle(h: Handler) returns (ok: bool)
      requires Closable(h) ==> h.comparable
      modifies this`lifecycleIds, this`fallbackClosers
      ensures ok <==> !Refused(old(View()), h)
      ensures View() == if ok then Register(old(View()), h) else old(View())
    {
      if !Closable(h) {
        return true;
      }
      if h.lifecycleId.Some? {
        var id := h.lifecycleId.value;
        if id == 0 || (h.kind, id) in lifecycleIds {
          return false;
        }
        lifecycleIds := lifecycleIds + {(h.kind, id)};
        return true;
      }
      if h in fallbackClosers {
        return false;
      }
      fallbackClosers := fallbackClosers + {h};
      ok := true;
    }

    method QueueHandlerClose(h: Handler)
      modifies this`pendingClose
      ensures pendingClose == Queue(old(pendingClose), h)
    {
      if !Closable(h) {
        return;
      }
      for i := 0 to |pendingClose|
        invariant forall j :: 0 <= j < i ==> !HandlersEqual(pendingClose[j], h)
      {
        if HandlersEqual(pendingClose[i], h) {
          return;
        }
      }
      pendingClose := pendingClose + [h];
    }

    method HandlerIsLive(h: Handler) returns (live: bool)
      requires Consistent(View())
      ensures live == LiveHandler(View(), h)
    {
      if current != null && HandlersEqual(current.handler, h) {
        return true;
      }
      for i := 0 to |retired|
        invariant forall j :: 0 <= j < i ==> !HandlersEqual(retired[j].handler, h)
      {
        assert retired[i] in retired;
        if HandlersEqual(retired[i].handler, h) {
          return true;
        }
      }
      live := false;
    }

    /** Sorts what waits to be closed by whether it is still in use; nothing is. */
    method SplitPending() returns (closable: seq<Handler>, retained: seq<Handler>)
      requires Consistent(View())
      ensures closable == pendingClose && retained == []
    {
      hide LiveHandler, Consistent;
      closable, retained := [], [];
      ghost var anyLive := false;
      for i := 0 to |pendingClose|
        invariant anyLive ==> exists h :: h in pendingClose && LiveHandler(View(), h)
        invariant !anyLive ==> closable == pendingClose[..i] && retained == []
      {
        var live := HandlerIsLive(pendingClose[i]);
        if live {
          retained := retained + [pendingClose[i]];
          anyLive := true;
        } else {
          closable := closable + [pendingClose[i]];
        }
      }
      forall h | h in pendingClose
        ensures !LiveHandler(View(), h)
      {
        WaitingIsNotLive(View(), h);
      }
    }

    method CollectClosableHandlers() returns (handlers: seq<Handler>)
      requires Consistent(View())
      modifies this`pendingClose, this`closed
      ensures View() == Flush(old(View())) && closed == old(closed) + handlers
      ensures Valid()
    {
      hide Consistent;
      FlushKeeps(View());
      var retained;
      handlers, retained := SplitPending();
      pendingClose := retained;
      closed := closed + handlers;
    }

    lemma CurrentIsUnmarked()
      requires Consistent(View())
      ensures current != null ==> current in generations && !current.retired
    {
    }

    method Publication(prefix: string, h: Handler) returns (panicked: bool, closing: seq<Handler>)
      requires Valid() && (Closable(h) ==> h.comparable)
      modifies this, current
      ensures Valid() && closed == old(closed) + closing
      ensures panicked <==> Refused(old(View()), h)
      ensures panicked ==> View() == old(View()) && closing == []
      ensures !panicked ==> (old(View()).current.Some? ==> old(View()).current.value in old(View()).slots)
      ensures !panicked ==> current != null && fresh(current) && current.prefix == prefix
      ensures !panicked ==> View() == Flush(Publish(old(View()), current, h))
    {
      hide Consistent, Refused, Publish, Register, Flush;
      closing := [];
      ghost var s := View();
      CurrentIsUnmarked();
      var ok := RegisterHandlerLifecycle(h);
      if !ok {
        return true, closing;
      }
      var next := new Generation(prefix, h);
      RegisterOnlyRegisters(s, h);
      PublishKeeps(s, next, h);
      Replace(s, next, h);
      closing := CollectClosableHandlers();
      panicked := false;
    }

    /** Replaces the handler. The same handler only moves to a new prefix; a closable one that
        cannot be told apart, or was published before, is refused. */
    method Update(prefix: string, h: Handler) returns (panicked: bool, closing: seq<Handler>)
      requires Valid()
      modifies this, current
      ensures Valid() && closed == old(closed) + closing
      ensures old(current) != null && HandlersEqual(old(current.handler), h) ==>
        !panicked && current == old(current) && current.prefix == prefix && View() == old(View())
      ensures !(old(current) != null && HandlersEqual(old(current.handler), h)) ==>
        (panicked <==> Refused(old(View()), h)) && (panicked ==> View() == old(View()))
      ensures !(old(current) != null && HandlersEqual(old(current.handler), h)) && !panicked ==>
        current != null && fresh(current) && current.prefix == prefix
        && View() == Flush(Publish(old(View()), current, h))
    {
      closing := [];
      if current != null && HandlersEqual(current.handler, h) {
        current.prefix := prefix;
        assert View() == old(View());
        return false, closing;
      }
      if Closable(h) && !h.comparable {
        return true, closing;
      }
      panicked, closing := Publication(prefix, h);
    }

    method RetireGeneration(g: Generation)
      requires g in generations && !g.retired
      modifies g`retired, this`pendingClose, this`retired
      ensures View() == Retire(old(View()), g)
    {
      hide Queue;
      g.retired := true;
      if g.active == 0 {
        QueueHandlerClose(g.handler);
      } else {
        retired := retired + [g];
      }
      assert View().slots == Retire(old(View()), g).slots;
    }

    /** Makes `next` the current generation and retires the one before it. */
    method Replace(ghost s: State<Generation>, next: Generation, h: Handler)
      requires View() == Register(s, h) && View().slots == s.slots && View().current == s.current
      requires current != null ==> current in generations && !current.retired
      requires next !in generations && next.handler == h && next.active == 0 && !next.retired
      modifies this, current
      ensures (s.current.Some? ==> s.current.value in s.slots) && View() == Publish(s, next, h)
      ensures current == next && closed == old(closed)
    {
      hide Queue, IsRegistered, Register, Retire;
      ghost var before := View();
      var previous := current;
      current := next;
      generations := generations + {next};
      assert View().slots == before.slots[next := Slot(h, 0, false)];
      if previous != null {
        RetireGeneration(previous);
      }
    }

    method AcquireOne(g: Generation)
      requires g in generations
      modifies g`active, this`leases
      ensures View() == Take(old(View()), g)
    {
      g.active := g.active + 1;
      leases := leases + multiset{g};
      assert View().slots == Take(old(View()), g).slots;
    }

    /** A request that the current handler serves leases its generation until it is done. */
    method AcquireForRequest(path: string) returns (lease: Generation?)
      requires Valid()
      modifies this, generations
      ensures Valid()
      ensures lease == (if old(current) != null && old(current.handler).Handler?
                           && MatchesPrefix(old(current.prefix), path) then old(current) else null)
      ensures View() == if lease != null then Take(old(View()), lease) else old(View())
    {
      hide Consistent;
      if current == null || current.handler.NoHandler? || !MatchesPrefix(current.prefix, path) {
        return null;
      }
      lease := current;
      TakeKeeps(View(), lease);
      AcquireOne(lease);
    }

    /** Leases those of the given generations that want path notifications. */
    method AcquireWanting(all: seq<Generation>) returns (gs: seq<Generation>)
      requires Consistent(View()) && forall g :: g in all ==> g in InUse(View())
      modifies this`leases, generations
      ensures gs == Wanting(all) && Consistent(View())
      ensures (forall g :: g in gs ==> g in old(View()).slots) && View() == TakeAll(old(View()), gs)
    {
      hide Consistent, Take, InUse, Wants;
      ghost var s := View();
      gs := [];
      for i := 0 to |all|
        invariant gs == Wanting(all[..i])
        invariant Consistent(View())
        invariant (forall g :: g in gs ==> g in s.slots) && View() == TakeAll(s, gs)
      {
        assert all[..i + 1][..i] == all[..i];
        var g := all[i];
        assert g in all;
        if Wants(g.handler) {
          var more := gs + [g];
          assert more[..|more| - 1] == gs;
          TakeInUse(View(), s, g);
          AcquireOne(g);
          gs := more;
        }
      }
      assert all[..|all|] == all;
    }

    /** A path notification leases the current and every retired generation that wants it. */
    method AcquirePathChangeGenerations() returns (gs: seq<Generation>)
      requires Valid()
      modifies this, generations
      ensures Valid()
      ensures gs == Wanting(old(InUse(View())))
      ensures (forall g :: g in gs ==> g in old(View()).slots) && View() == TakeAll(old(View()), gs)
    {
      hide Consistent, Take, Wanting;
      var all: seq<Generation> := retired;
      if current != null {
        all := [current] + retired;
      }
      assert all == InUse(View());
      gs := AcquireWanting(all);
    }

    method EndLease(g: Generation)
      requires g in generations
      modifies g`active, this`leases
      ensures View() == Unlease(old(View()), g)
    {
      g.active := g.active - 1;
      leases := leases - multiset{g};
      assert View().slots == Unlease(old(View()), g).slots;
    }

    method ReleaseOne(g: Generation)
      requires g in generations && g in leases && Consistent(View())
      modifies g`active, this`leases, this`retired, this`pendingClose
      ensures View() == Give(old(View()), g) && Consistent(View())
    {
      hide Consistent, Queue, Without, Unlease;
      GiveKeeps(View(), g);
      EndLease(g);
      assert View().slots[g] == Slot(g.handler, g.active, g.retired);
      UnleaseOnlyCounts(old(View()), g);
      if g.retired && !(g.active > 0) {
        RemoveRetiredGeneration(g);
        QueueHandlerClose(g.handler);
      }
    }

    method RemoveRetiredGeneration(target: Generation)
      modifies this`retired
      ensures retired == Without(old(retired), target)
    {
      for i := 0 to |retired|
        invariant forall j :: 0 <= j < i ==> retired[j] != target
      {
        if retired[i] == target {
          WithoutAt(retired, target, i);
          retired := retired[..i] + retired[i + 1..];
          return;
        }
      }
      WithoutAbsent(retired, target);
    }

    method ReleaseEach(gs: seq<Generation>)
      requires Consistent(View()) && multiset(gs) <= leases
      modifies this`leases, this`retired, this`pendingClose, generations
      ensures Consistent(View()) && leases + multiset(gs) == old(leases)
    {
      hide Consistent, Give;
      ghost var before := leases;
      NothingGiven(leases, gs);
      for i := 0 to |gs|
        invariant Consistent(View())
        invariant leases + multiset(gs[..i]) == before
      {
        LeasedMeansPublished(View());
        StillLeased(before, leases, gs, i);
        GiveTakesOne(View(), gs[i]);
        ReleaseOne(gs[i]);
      }
      assert gs[..|gs|] == gs;
    }

    /** Ends leases; generations replaced and drained by that have their handlers closed. */
    method ReleaseGenerations(gs: seq<Generation>) returns (closing: seq<Handler>)
      requires Valid() && multiset(gs) <= leases
      modifies this, generations
      ensures Valid() && closed == old(closed) + closing
      ensures leases + multiset(gs) == old(leases) && current == old(current) && generations == old(generations)
    {
      hide Consistent;
      closing := [];
      if |gs| == 0 {
        NothingGiven(leases, gs);
        return closing;
      }
      ReleaseEach(gs);
      closing := CollectClosableHandlers();
    }
  }

  predicate Wants(h: Handler) {
    h.Handler? && h.notified
  }

  function InUse(s: State<Generation>): seq<Generation> {
    (if s.current.Some? then [s.current.value] else []) + s.retired
  }

  function Wanting(gs: seq<Generation>): seq<Generation> {
    if gs == [] then []
    else Wanting(gs[..|gs| - 1]) + (if Wants(gs[|gs| - 1].handler) then [gs[|gs| - 1]] else [])
  }

  lemma LeasedMeansPublished(s: State<Generation>)
    requires Consistent(s)
    ensures forall g :: g in s.leases ==> g in s.slots
  {
  }

  lemma NothingGiven(leases: multiset<Generation>, gs: seq<Generation>)
    ensures leases + multiset(gs[..0]) == leases
    ensures gs == [] ==> leases + multiset(gs) == leases
  {
  }

  lemma StillLeased(before: multiset<Generation>, leases: multiset<Generation>, gs: seq<Generation>, i: nat)
    requires i < |gs| && multiset(gs) <= before && leases + multiset(gs[..i]) == before
    ensures gs[i] in leases && (leases - multiset{gs[i]}) + multiset(gs[..i + 1]) == before
  {
    assert gs == gs[..i] + [gs[i]] + gs[i + 1..];
    assert gs[..i + 1] == gs[..i] + [gs[i]];
    assert multiset(gs)[gs[i]] >= multiset(gs[..i])[gs[i]] + 1;
  }

  lemma GiveTakesOne(s: State<Generation>, g: Generation)
    requires g in s.slots
    ensures Give(s, g).leases == s.leases - multiset{g}
  {
  }

  lemma UnleaseOnlyCounts(s: State<Generation>, g: Generation)
    requires g in s.slots
    ensures var t := Unlease(s, g);
            t.current == s.current && t.retired == s.retired && t.pending == s.pending
            && t.slots[g].handler == s.slots[g].handler
  {
  }

  lemma TakeInUse(s: State<Generation>, before: State<Generation>, g: Generation)
    requires Consistent(s) && g in InUse(before) && s.current == before.current && s.retired == before.retired
    ensures g in s.slots && Consistent(Take(s, g))
  {
    TakeKeeps(s, g);
  }

  lemma {:induction false} WithoutAt<G>(gs: seq<G>, g: G, i: nat)
    requires i < |gs| && gs[i] == g && forall j :: 0 <= j < i ==> gs[j] != g
    ensures Without(gs, g) == gs[..i] + gs[i + 1..]
  {
    if i > 0 {
      WithoutAt(gs[1..], g, i - 1);
      assert gs[..i] == [gs[0]] + gs[1..][..i - 1];
      assert gs[1..][i..] == gs[i + 1..];
    }
  }

  lemma {:induction false} WithoutAbsent<G>(gs: seq<G>, g: G)
    requires forall j :: 0 <= j < |gs| ==> gs[j] != g
    ensures Without(gs, g) == gs
  {
    if gs != [] {
      WithoutAbsent(gs[1..], g);
    }
  }

  lemma RegisterOnlyRegisters(s: State<Generation>, h: Handler)
    ensures Register(s, h).slots == s.slots && Register(s, h).current == s.current
  {
  }
}
