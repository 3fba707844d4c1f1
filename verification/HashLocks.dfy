/** The table of per-object write locks. A lock is shared by reference count: the table's
    own reference and one per task. A finished task removes the entry only if it sees no
    other reference, once without and once with the table locked. */
module HashLocks {
  type Hash = string
  type Task = nat
  type Ref = nat

  datatype Stage = Waiting | Holding | Finished | SawIdle | Dropping

  datatype Visit = Visit(hash: Hash, lock: Ref, stage: Stage)

  datatype World = World(table: map<Hash, Ref>, used: set<Ref>, tasks: map<Task, Visit>)

  datatype Step =
    | Enter(t: Task, hash: Hash, unused: Ref)
    | Acquire(t: Task)
    | Unlock(t: Task)
    | Check(t: Task)
    | RemoveIf(t: Task)
    | Drop(t: Task)
    | Cancel(t: Task)

  function Users(w: World, lock: Ref): set<Task> {
    set t | t in w.tasks && w.tasks[t].lock == lock
  }

  /** What the reference count of a lock object shows. */
  function StrongCount(w: World, hash: Hash, lock: Ref): nat {
    |Users(w, lock)| + if hash in w.table && w.table[hash] == lock then 1 else 0
  }

  predicate At(w: World, t: Task, stage: Stage) {
    t in w.tasks && w.tasks[t].stage == stage
  }

  predicate Held(w: World, lock: Ref) {
    exists t :: t in w.tasks && w.tasks[t].lock == lock && w.tasks[t].stage.Holding?
  }

  predicate Possible(w: World, s: Step) {
    match s
    case Enter(t, hash, unused) => t !in w.tasks && unused !in w.used
    case Acquire(t) => At(w, t, Waiting) && !Held(w, w.tasks[t].lock)
    case Unlock(t) => At(w, t, Holding)
    case Check(t) => At(w, t, Finished)
    case RemoveIf(t) => At(w, t, SawIdle)
    case Drop(t) => At(w, t, Dropping)
    case Cancel(t) => At(w, t, Waiting) || At(w, t, Holding)
  }

  function Moved(w: World, t: Task, stage: Stage): World
    requires t in w.tasks
  {
    w.(tasks := w.tasks[t := w.tasks[t].(stage := stage)])
  }

  function Next(w: World, s: Step): World
    requires Possible(w, s)
  {
    match s
    case Enter(t, hash, unused) =>
      var lock := if hash in w.table then w.table[hash] else unused;
      World(w.table[hash := lock], w.used + {lock}, w.tasks[t := Visit(hash, lock, Waiting)])
    case Acquire(t) => Moved(w, t, Holding)
    case Unlock(t) => Moved(w, t, Finished)
    case Check(t) =>
      var v := w.tasks[t];
      Moved(w, t, if StrongCount(w, v.hash, v.lock) != 2 then Dropping else SawIdle)
    case RemoveIf(t) =>
      var v := w.tasks[t];
      var remove := v.hash in w.table && w.table[v.hash] == v.lock && StrongCount(w, v.hash, v.lock) == 2;
      Moved(w, t, Dropping).(table := if remove then w.table - {v.hash} else w.table)
    case Drop(t) => w.(tasks := w.tasks - {t})
    case Cancel(t) => w.(tasks := w.tasks - {t})
  }

  /** Every task that still needs its lock uses the one the table has for its hash. */
  predicate TableFits(w: World) {
    && (forall t :: t in w.tasks ==> w.tasks[t].lock in w.used)
    && (forall t :: t in w.tasks && !w.tasks[t].stage.Dropping? ==>
          w.tasks[t].hash in w.table && w.table[w.tasks[t].hash] == w.tasks[t].lock)
    && (forall hash :: hash in w.table ==> w.table[hash] in w.used)
    && (forall a, b :: a in w.table && b in w.table && w.table[a] == w.table[b] ==> a == b)
    && (forall t, hash :: t in w.tasks && hash in w.table && w.table[hash] == w.tasks[t].lock ==> w.tasks[t].hash == hash)
  }

  predicate OneHolder(w: World) {
    forall a, b :: a in w.tasks && b in w.tasks && w.tasks[a].lock == w.tasks[b].lock ==>
      w.tasks[a].stage.Holding? && w.tasks[b].stage.Holding? ==> a == b
  }

  predicate Inv(w: World) {
    TableFits(w) && OneHolder(w)
  }

  /** Two references are the table's and the user's own, so there is no other user. */
  lemma OnlyUser(w: World, t: Task)
    requires t in w.tasks
    requires var v := w.tasks[t]; v.hash in w.table && w.table[v.hash] == v.lock && StrongCount(w, v.hash, v.lock) == 2
    ensures forall other :: other in w.tasks && w.tasks[other].lock == w.tasks[t].lock ==> other == t
  {
    var users := Users(w, w.tasks[t].lock);
    assert t in users;
    assert |users - {t}| == 0;
    forall other | other in w.tasks && w.tasks[other].lock == w.tasks[t].lock
      ensures other == t
    {
      assert other in users;
      assert other !in users - {t};
    }
  }

  lemma StepKeepsTable(w: World, s: Step)
    requires TableFits(w) && Possible(w, s)
    ensures TableFits(Next(w, s))
  {
    hide Users, StrongCount, Held;
    if s.RemoveIf? {
      var v := w.tasks[s.t];
      if v.hash in w.table && w.table[v.hash] == v.lock && StrongCount(w, v.hash, v.lock) == 2 {
        OnlyUser(w, s.t);
      }
    }
  }

  lemma StepKeepsOneHolder(w: World, s: Step)
    requires TableFits(w) && OneHolder(w) && Possible(w, s)
    ensures OneHolder(Next(w, s))
  {
    hide Users, StrongCount;
  }

  function After(w: World, steps: seq<Step>): World
    requires PossibleRun(w, steps)
    decreases |steps|, 1
  {
    if steps == [] then w else Next(After(w, steps[..|steps| - 1]), steps[|steps| - 1])
  }

  predicate PossibleRun(w: World, steps: seq<Step>)
    decreases |steps|, 0
  {
    steps == [] ||
    (PossibleRun(w, steps[..|steps| - 1]) && Possible(After(w, steps[..|steps| - 1]), steps[|steps| - 1]))
  }

  const START := World(map[], {}, map[])

  lemma {:induction false} RunKeepsInv(steps: seq<Step>)
    requires PossibleRun(START, steps)
    ensures Inv(After(START, steps))
    decreases |steps|
  {
    hide TableFits, OneHolder, Next, Possible;
    if steps == [] {
      InvAtStart();
    } else {
      var init, last := steps[..|steps| - 1], steps[|steps| - 1];
      RunKeepsInv(init);
      StepKeepsTable(After(START, init), last);
      StepKeepsOneHolder(After(START, init), last);
    }
  }

  lemma InvAtStart()
    ensures Inv(START)
  {
  }

  /** Two tasks never write or delete one object at a time, although lock objects come and go. */
  lemma AtMostOneHolder(steps: seq<Step>, a: Task, b: Task)
    requires PossibleRun(START, steps)
    requires var w := After(START, steps);
             && a in w.tasks && b in w.tasks && w.tasks[a].hash == w.tasks[b].hash
             && w.tasks[a].stage.Holding? && w.tasks[b].stage.Holding?
    ensures a == b
  {
    RunKeepsInv(steps);
  }

  /** An entry only leaves the table when every other task is through with that object's lock. */
  lemma EntryLeavesLast(steps: seq<Step>, s: Step, hash: Hash, other: Task)
    requires PossibleRun(START, steps) && Possible(After(START, steps), s)
    requires var w := After(START, steps);
             && hash in w.table && hash !in Next(w, s).table
             && other in w.tasks && w.tasks[other].hash == hash && !w.tasks[other].stage.Dropping?
    ensures s == RemoveIf(other)
  {
    RunKeepsInv(steps);
    OnlyUser(After(START, steps), s.t);
  }

  // ----- When entries go -----

  /** Nobody but this task has a reference to the lock of its object. */
  predicate Alone(w: World, t: Task) {
    t in w.tasks && forall other :: other in w.tasks && w.tasks[other].lock == w.tasks[t].lock ==> other == t
  }

  lemma AloneCounts(w: World, t: Task)
    requires TableFits(w) && Alone(w, t) && !w.tasks[t].stage.Dropping?
    ensures StrongCount(w, w.tasks[t].hash, w.tasks[t].lock) == 2
  {
    assert Users(w, w.tasks[t].lock) == {t};
  }

  /** A finished task that is alone cleans up: it sees that it is, removes the entry and goes. */
  lemma LastTaskCleans(w: World, t: Task)
    requires TableFits(w) && Alone(w, t) && At(w, t, Finished)
    ensures var w1 := Next(w, Check(t));
            && Possible(w1, RemoveIf(t))
            && var w2 := Next(w1, RemoveIf(t));
               && Possible(w2, Drop(t))
               && Next(w2, Drop(t)).table == w.table - {w.tasks[t].hash} && Next(w2, Drop(t)).tasks == w.tasks - {t}
  {
    hide StrongCount, Users;
    AloneCounts(w, t);
    var w1 := Next(w, Check(t));
    StepKeepsTable(w, Check(t));
    AloneCounts(w1, t);
    assert w1.tasks[t := w1.tasks[t].(stage := Dropping)] - {t} == w.tasks - {t};
  }

  /** A finished task that is not alone leaves the entry where it is. */
  lemma OthersKeepEntry(w: World, t: Task)
    requires TableFits(w) && At(w, t, Finished) && !Alone(w, t)
    ensures Next(w, Check(t)) == Moved(w, t, Dropping)
  {
    var users := Users(w, w.tasks[t].lock);
    var other :| other in w.tasks && w.tasks[other].lock == w.tasks[t].lock && other != t;
    assert t in users && other in users;
    assert |users - {t} - {other}| >= 0 && |users - {t}| == |users - {t} - {other}| + 1;
  }

  /** A task that waits or works can be cancelled; only its own reference goes with it. */
  lemma CancelDropsReference(w: World, t: Task)
    requires At(w, t, Waiting) || At(w, t, Holding)
    ensures Possible(w, Cancel(t)) && Next(w, Cancel(t)) == World(w.table, w.used, w.tasks - {t})
  {
  }

  /** An object's entry is left over: nobody uses its lock any more. */
  predicate LeftOver(w: World, hash: Hash) {
    hash in w.table && forall t :: t in w.tasks ==> w.tasks[t].lock != w.table[hash]
  }

  lemma Continue(w: World, steps: seq<Step>, s: Step) returns (more: seq<Step>)
    requires PossibleRun(START, steps) && After(START, steps) == w && Possible(w, s)
    ensures more == steps + [s] && PossibleRun(START, more) && After(START, more) == Next(w, s)
  {
    hide Next, Possible;
    more := steps + [s];
    assert more[..|more| - 1] == steps;
  }

  /** Entries can be left over: one task is cancelled while it works. */
  lemma EntryCanBeLeftOver(t: Task, hash: Hash, lock: Ref)
    ensures exists steps :: PossibleRun(START, steps) && LeftOver(After(START, steps), hash)
  {
    hide After, PossibleRun;
    var steps: seq<Step> := [];
    EmptyRun(START);
    var w := START;
    steps := Continue(w, steps, Enter(t, hash, lock));
    w := After(START, steps);
    steps := Continue(w, steps, Acquire(t));
    w := After(START, steps);
    steps := Continue(w, steps, Cancel(t));
    assert LeftOver(After(START, steps), hash);
  }

  lemma EmptyRun(w: World)
    ensures PossibleRun(w, []) && After(w, []) == w
  {
  }

  /** An entry is left over by a step if and only if its last user is cancelled or goes without
      having removed it, because it was not alone when it looked. */
  lemma LeftOverExactlyWhen(w: World, s: Step, hash: Hash)
    requires TableFits(w) && Possible(w, s) && hash in w.table && !LeftOver(w, hash)
    ensures LeftOver(Next(w, s), hash) <==>
              (s.Cancel? || s.Drop?) && w.tasks[s.t].lock == w.table[hash] && Alone(w, s.t)
  {
    hide Users, StrongCount, Held;
    var w' := Next(w, s);
    if s.Cancel? || s.Drop? {
      forall t | t in w.tasks && t != s.t
        ensures t in w'.tasks && w'.tasks[t].lock == w.tasks[t].lock
      {
      }
      var t :| t in w.tasks && w.tasks[t].lock == w.table[hash];
      assert LeftOver(w', hash) ==> t == s.t;
    } else {
      var t :| t in w.tasks && w.tasks[t].lock == w.table[hash];
      assert t in w'.tasks && w'.tasks[t].lock == w.tasks[t].lock;
    }
  }

  /** What is left over does no harm: the next task for the object uses the same lock. */
  lemma LeftOverIsUsedAgain(w: World, t: Task, hash: Hash, unused: Ref)
    requires LeftOver(w, hash) && Possible(w, Enter(t, hash, unused))
    ensures var w' := Next(w, Enter(t, hash, unused)); w'.tasks[t].lock == w.table[hash] == w'.table[hash] && Alone(w', t)
  {
  }
}
