/** The table of reference-counted commit locks, one lock per upload session, as the steps
    of any number of tasks: the table is only touched under its own mutex, the lock itself
    is a one-token channel. */
module CommitLocks {
  type Id = string
  type Task = nat
  type Ref = nat

  datatype Stage = Waiting | Holding | Leaving

  /** A task and the lock object it got for its session. */
  datatype Visit = Visit(id: Id, lock: Ref, stage: Stage)

  datatype Lock = Lock(refs: int, token: bool)

  datatype World = World(table: map<Id, Ref>, locks: map<Ref, Lock>, tasks: map<Task, Visit>)

  datatype Step =
    | Join(t: Task, id: Id, unused: Ref)
    | Take(t: Task)
    | GiveUp(t: Task)
    | Release(t: Task)
    | Leave(t: Task)

  predicate At(w: World, t: Task, stage: Stage) {
    t in w.tasks && w.tasks[t].stage == stage && w.tasks[t].lock in w.locks
  }

  predicate Possible(w: World, s: Step) {
    match s
    case Join(t, id, unused) => t !in w.tasks && unused !in w.locks && (id in w.table ==> w.table[id] in w.locks)
    case Take(t) => At(w, t, Waiting) && w.locks[w.tasks[t].lock].token
    case GiveUp(t) => At(w, t, Waiting)
    case Release(t) => At(w, t, Holding)
    case Leave(t) => At(w, t, Leaving)
  }

  function Next(w: World, s: Step): World
    requires Possible(w, s)
  {
    match s
    case Join(t, id, unused) =>
      var lock := if id in w.table then w.table[id] else unused;
      var found := if id in w.table then w.locks[lock] else Lock(0, true);
      World(w.table[id := lock], w.locks[lock := found.(refs := found.refs + 1)], w.tasks[t := Visit(id, lock, Waiting)])
    case Take(t) =>
      var v := w.tasks[t];
      w.(locks := w.locks[v.lock := w.locks[v.lock].(token := false)], tasks := w.tasks[t := v.(stage := Holding)])
    case GiveUp(t) => w.(tasks := w.tasks[t := w.tasks[t].(stage := Leaving)])
    case Release(t) =>
      var v := w.tasks[t];
      w.(locks := w.locks[v.lock := w.locks[v.lock].(token := true)], tasks := w.tasks[t := v.(stage := Leaving)])
    case Leave(t) =>
      var v := w.tasks[t];
      var left := w.locks[v.lock].(refs := w.locks[v.lock].refs - 1);
      var gone := left.refs == 0 && v.id in w.table && w.table[v.id] == v.lock;
      World(if gone then w.table - {v.id} else w.table, w.locks[v.lock := left], w.tasks - {t})
  }

  function Users(w: World, lock: Ref): set<Task> {
    set t | t in w.tasks && w.tasks[t].lock == lock
  }

  // ----- The invariant -----

  /** Every task uses the lock that the table has for its session now, and the table has
      no lock nobody uses. */
  predicate TableFits(w: World) {
    && (forall t :: t in w.tasks ==>
          w.tasks[t].lock in w.locks && w.tasks[t].id in w.table && w.table[w.tasks[t].id] == w.tasks[t].lock)
    && (forall id :: id in w.table ==> w.table[id] in w.locks && w.locks[w.table[id]].refs > 0)
    && (forall a, b :: a in w.table && b in w.table && w.table[a] == w.table[b] ==> a == b)
  }

  predicate Counted(w: World) {
    forall lock :: lock in w.locks ==> w.locks[lock].refs == |Users(w, lock)|
  }

  predicate OneToken(w: World) {
    && (forall t :: t in w.tasks && w.tasks[t].stage.Holding? && w.tasks[t].lock in w.locks ==> !w.locks[w.tasks[t].lock].token)
    && (forall a, b :: a in w.tasks && b in w.tasks && w.tasks[a].lock == w.tasks[b].lock ==>
          w.tasks[a].stage.Holding? && w.tasks[b].stage.Holding? ==> a == b)
  }

  /** The token is somewhere: in the channel or with a holder. */
  predicate NoTokenLost(w: World) {
    forall lock :: lock in w.locks && !w.locks[lock].token ==>
      exists t :: t in Users(w, lock) && w.tasks[t].stage.Holding?
  }

  predicate Inv(w: World) {
    TableFits(w) && Counted(w) && OneToken(w) && NoTokenLost(w)
  }

  lemma UsersAfterJoin(w: World, t: Task, v: Visit, lock: Ref)
    requires t !in w.tasks
    ensures Users(w.(tasks := w.tasks[t := v]), lock) == Users(w, lock) + (if v.lock == lock then {t} else {})
  {
  }

  lemma UsersAfterStage(w: World, t: Task, stage: Stage, lock: Ref)
    requires t in w.tasks
    ensures Users(w.(tasks := w.tasks[t := w.tasks[t].(stage := stage)]), lock) == Users(w, lock)
  {
  }

  lemma UsersAfterLeave(w: World, t: Task, lock: Ref)
    requires t in w.tasks
    ensures Users(w.(tasks := w.tasks - {t}), lock) == Users(w, lock) - {t}
    ensures t in Users(w, lock) <==> w.tasks[t].lock == lock
  {
  }

  lemma SameUsers(w: World, v: World, lock: Ref)
    requires w.tasks == v.tasks
    ensures Users(w, lock) == Users(v, lock)
  {
  }

  lemma NobodyUsesNewLock(w: World, lock: Ref)
    requires TableFits(w) && lock !in w.locks
    ensures Users(w, lock) == {}
  {
  }

  predicate CountedAt(w: World, lock: Ref) {
    lock in w.locks ==> w.locks[lock].refs == |Users(w, lock)|
  }

  lemma JoinKeepsCount(w: World, t: Task, id: Id, unused: Ref, lock: Ref)
    requires TableFits(w) && Possible(w, Join(t, id, unused)) && CountedAt(w, lock)
    ensures CountedAt(Next(w, Join(t, id, unused)), lock)
  {
    hide TableFits, Users;
    var next := Next(w, Join(t, id, unused));
    SameUsers(next, w.(tasks := next.tasks), lock);
    UsersAfterJoin(w, t, next.tasks[t], lock);
    NewcomerIsNoUser(w, t, lock);
    if lock !in w.locks {
      NobodyUsesNewLock(w, lock);
    }
  }

  lemma NewcomerIsNoUser(w: World, t: Task, lock: Ref)
    requires t !in w.tasks
    ensures t !in Users(w, lock)
  {
  }

  lemma LeaveKeepsCount(w: World, t: Task, lock: Ref)
    requires Possible(w, Leave(t)) && CountedAt(w, lock)
    ensures CountedAt(Next(w, Leave(t)), lock)
  {
    hide Users;
    var next := Next(w, Leave(t));
    SameUsers(next, w.(tasks := next.tasks), lock);
    UsersAfterLeave(w, t, lock);
  }

  lemma TokenStepKeepsCount(w: World, s: Step, lock: Ref)
    requires Possible(w, s) && !s.Join? && !s.Leave? && CountedAt(w, lock)
    ensures CountedAt(Next(w, s), lock)
  {
    hide Users;
    var next := Next(w, s);
    SameUsers(next, w.(tasks := next.tasks), lock);
    UsersAfterStage(w, s.t, next.tasks[s.t].stage, lock);
  }

  lemma OneLockStaysCounted(w: World, s: Step, lock: Ref)
    requires TableFits(w) && Possible(w, s) && CountedAt(w, lock)
    ensures CountedAt(Next(w, s), lock)
  {
    hide TableFits, Possible, Next, CountedAt;
    match s
    case Join(t, id, unused) => JoinKeepsCount(w, t, id, unused, lock);
    case Leave(t) => LeaveKeepsCount(w, t, lock);
    case _ => TokenStepKeepsCount(w, s, lock);
  }

  lemma StepKeepsCounted(w: World, s: Step)
    requires TableFits(w) && Counted(w) && Possible(w, s)
    ensures Counted(Next(w, s))
  {
    hide TableFits, Next, Possible, Users;
    forall lock | lock in Next(w, s).locks
      ensures Next(w, s).locks[lock].refs == |Users(Next(w, s), lock)|
    {
      OneLockStaysCounted(w, s, lock);
    }
  }

  /** A count of zero left means that the leaving task was the last one. */
  lemma LastToLeave(w: World, t: Task)
    requires TableFits(w) && Counted(w) && Possible(w, Leave(t)) && w.locks[w.tasks[t].lock].refs <= 1
    ensures forall other :: other in w.tasks && other != t ==> w.tasks[other].lock != w.tasks[t].lock
  {
    var users := Users(w, w.tasks[t].lock);
    assert t in users;
    assert |users - {t}| == 0;
    forall other | other in w.tasks && other != t
      ensures w.tasks[other].lock != w.tasks[t].lock
    {
      assert other in users <==> w.tasks[other].lock == w.tasks[t].lock;
      assert other !in users - {t};
    }
  }

  lemma LeaveKeepsTable(w: World, t: Task)
    requires TableFits(w) && Counted(w) && Possible(w, Leave(t))
    ensures TableFits(Next(w, Leave(t)))
  {
    hide Users, Counted;
    if w.locks[w.tasks[t].lock].refs <= 1 {
      LastToLeave(w, t);
    }
    assert w.locks.Keys <= Next(w, Leave(t)).locks.Keys;
  }

  lemma JoinKeepsTable(w: World, t: Task, id: string, unused: Ref)
    requires TableFits(w) && Possible(w, Join(t, id, unused))
    ensures TableFits(Next(w, Join(t, id, unused)))
  {
    assert w.locks.Keys <= Next(w, Join(t, id, unused)).locks.Keys;
  }

  lemma TokenStepKeepsTable(w: World, s: Step)
    requires TableFits(w) && Possible(w, s) && !s.Join? && !s.Leave?
    ensures TableFits(Next(w, s))
  {
    assert w.locks.Keys <= Next(w, s).locks.Keys;
  }

  lemma StepKeepsTable(w: World, s: Step)
    requires TableFits(w) && Counted(w) && Possible(w, s)
    ensures TableFits(Next(w, s))
  {
    hide TableFits, Counted, Next, Possible;
    match s
    case Join(t, id, unused) => JoinKeepsTable(w, t, id, unused);
    case Leave(t) => LeaveKeepsTable(w, t);
    case _ => TokenStepKeepsTable(w, s);
  }

  lemma StepKeepsOneToken(w: World, s: Step)
    requires TableFits(w) && OneToken(w) && Possible(w, s)
    ensures OneToken(Next(w, s))
  {
  }

  lemma StepKeepsNoTokenLost(w: World, s: Step)
    requires OneToken(w) && NoTokenLost(w) && Possible(w, s)
    ensures NoTokenLost(Next(w, s))
  {
    var next := Next(w, s);
    forall lock | lock in next.locks && !next.locks[lock].token
      ensures exists t :: t in Users(next, lock) && next.tasks[t].stage.Holding?
    {
      if s.Take? && w.tasks[s.t].lock == lock {
        assert s.t in Users(next, lock);
      } else {
        assert lock in w.locks && !w.locks[lock].token;
        var t :| t in Users(w, lock) && w.tasks[t].stage.Holding?;
        assert t in Users(next, lock);
      }
    }
  }

  // ----- Runs -----

  function After(w: World, steps: seq<Step>): World
    requires PossibleRun(w, steps)
    decreases |steps|, 1
  {
    if steps == [] then w else Next(After(w, steps[..|steps| - 1]), steps[|steps| - 1])
  }

  predicate PossibleRun(w: World, steps: seq<Step>)
    decreases |steps|, 0
  {
    steps == [] ||
    (PossibleRun(w, steps[..|steps| - 1]) && Possible(After(w, steps[..|steps| - 1]), steps[|steps| - 1]))
  }

  const START := World(map[], map[], map[])

  lemma {:induction false} RunKeepsInv(steps: seq<Step>)
    requires PossibleRun(START, steps)
    ensures Inv(After(START, steps))
    decreases |steps|
  {
    hide TableFits, Counted, OneToken, NoTokenLost, Next, Possible;
    if steps == [] {
      InvAtStart();
    } else {
      var init, last := steps[..|steps| - 1], steps[|steps| - 1];
      RunKeepsInv(init);
      var before := After(START, init);
      StepKeepsTable(before, last);
      StepKeepsCounted(before, last);
      StepKeepsOneToken(before, last);
      StepKeepsNoTokenLost(before, last);
    }
  }

  lemma InvAtStart()
    ensures Inv(START)
  {
  }

  /** Whatever any number of tasks do, two of them never hold the lock of one session. */
  lemma AtMostOneHolder(steps: seq<Step>, a: Task, b: Task)
    requires PossibleRun(START, steps)
    requires var w := After(START, steps);
             && a in w.tasks && b in w.tasks && w.tasks[a].id == w.tasks[b].id
             && w.tasks[a].stage.Holding? && w.tasks[b].stage.Holding?
    ensures a == b
  {
    hide Counted, NoTokenLost;
    RunKeepsInv(steps);
  }

  /** The table has a lock for a session exactly while some task waits for it, holds it or
      is about to leave it, so an entry goes with its last user and never before. */
  lemma EntryExactlyWhileUsed(steps: seq<Step>, id: Id)
    requires PossibleRun(START, steps)
    ensures var w := After(START, steps);
            id in w.table <==> exists t :: t in w.tasks && w.tasks[t].id == id
  {
    hide OneToken, NoTokenLost;
    RunKeepsInv(steps);
    var w := After(START, steps);
    if id in w.table {
      assert Users(w, w.table[id]) != {};
      var t :| t in Users(w, w.table[id]);
      assert t in w.tasks && w.tasks[t].id == id;
    }
  }

  /** A lock nobody holds can be taken by any task that waits for it. */
  lemma FreeLockCanBeTaken(steps: seq<Step>, t: Task)
    requires PossibleRun(START, steps)
    requires var w := After(START, steps);
             && t in w.tasks && w.tasks[t].stage.Waiting?
             && forall other :: other in w.tasks && w.tasks[other].id == w.tasks[t].id ==> !w.tasks[other].stage.Holding?
    ensures Possible(After(START, steps), Take(t))
  {
    hide Counted, OneToken;
    RunKeepsInv(steps);
    var w := After(START, steps);
    var lock := w.tasks[t].lock;
    assert forall other :: other in Users(w, lock) ==> w.tasks[other].id == w.tasks[t].id;
  }

  /** From `now` on the task can go, and then all others are where they were. */
  predicate Goes(before: World, now: World, t: Task) {
    Possible(now, Leave(t)) && now.table == before.table && Next(now, Leave(t)).tasks == before.tasks - {t}
  }

  lemma TaskGoes(w: World, t: Task)
    requires TableFits(w) && t in w.tasks
    ensures var v := w.tasks[t];
            && (v.stage.Waiting? ==>
                  && Possible(w, GiveUp(t)) && Goes(w, Next(w, GiveUp(t)), t) && Next(w, GiveUp(t)).locks == w.locks)
            && (v.stage.Holding? ==>
                  && Possible(w, Release(t)) && Goes(w, Next(w, Release(t)), t)
                  && v.lock in Next(w, Release(t)).locks && Next(w, Release(t)).locks[v.lock].token)
            && (v.stage.Leaving? ==> Goes(w, w, t))
  {
    assert forall stage :: w.tasks[t := w.tasks[t].(stage := stage)] - {t} == w.tasks - {t};
  }

  /** Whatever the others do, every task can leave on its own: one that waits by giving up, one
      that holds the lock by releasing it, which frees it. Nothing else about any task changes. */
  lemma EveryTaskCanLeave(steps: seq<Step>, t: Task)
    requires PossibleRun(START, steps) && t in After(START, steps).tasks
    ensures var w := After(START, steps);
            var v := w.tasks[t];
            && (v.stage.Waiting? ==>
                  && Possible(w, GiveUp(t)) && Goes(w, Next(w, GiveUp(t)), t) && Next(w, GiveUp(t)).locks == w.locks)
            && (v.stage.Holding? ==>
                  && Possible(w, Release(t)) && Goes(w, Next(w, Release(t)), t)
                  && v.lock in Next(w, Release(t)).locks && Next(w, Release(t)).locks[v.lock].token)
            && (v.stage.Leaving? ==> Goes(w, w, t))
  {
    RunKeepsInv(steps);
    hide PossibleRun, After, Counted, OneToken, NoTokenLost, TableFits, Possible, Next, Goes;
    TaskGoes(After(START, steps), t);
  }

  /** A task that takes a free lock holds it, and nobody can take it before the release. */
  lemma TakenLockIsHeld(steps: seq<Step>, t: Task, other: Task)
    requires PossibleRun(START, steps) && Possible(After(START, steps), Take(t))
    ensures var w' := Next(After(START, steps), Take(t));
            && w'.tasks[t] == After(START, steps).tasks[t].(stage := Holding)
            && (other in w'.tasks && w'.tasks[other].id == w'.tasks[t].id ==> !Possible(w', Take(other)))
  {
    hide Counted, OneToken, NoTokenLost;
    RunKeepsInv(steps);
  }
}
