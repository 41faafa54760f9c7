/** What every run of the scheduler keeps: a queue of distinct tasks that exist, and at most
    one task marked as running. */
module SchedRuns {
  import opened Bits
  import opened Distinctness
  import opened Tasks
  import opened SchedModel

  // ------------------------------------------------------------------ queues

  lemma QueuedIn(q: seq<nat>, t: int)
    ensures Queued(q, t) <==> t in q
  {
  }

  lemma IndexIs(q: seq<nat>, i: nat)
    requires Distinct(q) && i < |q|
    ensures IndexOf(q, q[i]) == i
  {
    var p := IndexOf(q, q[i]);
    assert q[p] == q[i];
  }

  lemma WithoutFacts(q: seq<nat>, t: int)
    requires Distinct(q)
    ensures Distinct(Without(q, t)) && t !in Without(q, t)
    ensures forall x :: x in Without(q, t) <==> x in q && x != t
  {
    var p, r := IndexOf(q, t), Without(q, t);
    forall x | x in q && x != t ensures x in r {
      var i :| 0 <= i < |q| && q[i] == x;
      assert i < p ==> r[i] == x;
      assert p < i ==> r[i - 1] == x;
    }
  }

  lemma AppendFacts(q: seq<nat>, t: nat)
    requires Distinct(q) && t !in q
    ensures Distinct(q + [t]) && forall x :: x in q + [t] <==> x in q || x == t
  {
  }

  lemma TurnFacts(q: seq<nat>, t: int)
    ensures forall x :: x in Turn(q, t) <==> x in q
    ensures multiset(Turn(q, t)) == multiset(q)
  {
    var p := IndexOf(q, t);
    if p < |q| { assert q == q[..p + 1] + q[p + 1..]; }
  }

  // -------------------------------------------------------------- invariance

  lemma AddKeeps(s: Sched, t: nat)
    requires Inv(s) && t < MAX_TASKS
    ensures Inv(Add(s, t))
  {
    QueuedIn(s.queue, t);
  }

  lemma UnqueueKeeps(s: Sched, t: nat)
    requires Inv(s) && t < MAX_TASKS
    ensures Inv(s.(queue := Without(s.queue, t))) && t !in Without(s.queue, t)
  {
    WithoutFacts(s.queue, t);
    var q := Without(s.queue, t);
    assert forall i :: 0 <= i < |q| ==> q[i] in q;
    assert forall i :: 0 <= i < |q| ==> q[i] in s.queue;
  }

  lemma SucceedKeeps(s: Sched)
    requires Inv(s)
    ensures Inv(Succeed(s)) <==> s.current == NONE || s.tasks[s.current].state != Running || Heir(s.queue, s.idle) == s.current
  {
    var c, h := s.current, Heir(s.queue, s.idle);
    if c != NONE && s.tasks[c].state == Running && h != c {
      assert Succeed(s).tasks[c].state == Running;
    }
  }

  /** A queued task that runs may be removed only if it is its own heir: otherwise it stays
      marked as running beside its successor. */
  lemma RemoveKeeps(s: Sched, t: nat)
    requires Inv(s) && t < MAX_TASKS
    ensures Inv(Remove(s, t)) <==> s.tasks[t].state != Running || t !in s.queue || Heir(Without(s.queue, t), s.idle) == t
  {
    QueuedIn(s.queue, t);
    UnqueueKeeps(s, t);
    SucceedKeeps(s.(queue := Without(s.queue, t)));
  }

  lemma OverwrittenTwice(tasks: seq<Task>, t: nat, x: Task, z: Task)
    requires t < |tasks|
    ensures tasks[t := x][t := z] == tasks[t := z]
  {
  }

  lemma OverwrittenBehind(tasks: seq<Task>, t: nat, h: nat, x: Task, y: Task, z: Task)
    requires t < |tasks| && h < |tasks| && h != t
    ensures tasks[t := x][h := y][t := z] == tasks[h := y][t := z]
  {
  }

  ghost function Gone(task: Task): Task {
    task.(state := Free, tid := INVALID_TID)
  }

  /** Freeing a task that has no heir, or is its own, does not depend on its state. */
  lemma ReleaseAlone(s: Sched, t: nat, state: TaskState)
    requires Fits(s) && t < MAX_TASKS
    requires Queued(s.queue, t) && s.current == t ==> Heir(Without(s.queue, t), s.idle) in {t, NONE}
    ensures Release(SetState(s, t, state), t) == Release(s, t)
  {
    var x := s.tasks[t].(state := state);
    OverwrittenTwice(s.tasks, t, x, Gone(x));
    if Queued(s.queue, t) && s.current == t && Heir(Without(s.queue, t), s.idle) == t {
      var y := s.tasks[t].(state := Running, slice := SliceFor(s.tasks[t].priority));
      OverwrittenTwice(s.tasks, t, x, y);
    }
  }

  /** Nor does freeing one that has. */
  lemma ReleaseBefore(s: Sched, t: nat, state: TaskState)
    requires Fits(s) && t < MAX_TASKS && Queued(s.queue, t) && s.current == t
    requires Heir(Without(s.queue, t), s.idle) !in {t, NONE}
    ensures Release(SetState(s, t, state), t) == Release(s, t)
  {
    var h, x := Heir(Without(s.queue, t), s.idle), s.tasks[t].(state := state);
    OverwrittenBehind(s.tasks, t, h, x, s.tasks[h].(state := Running, slice := SliceFor(s.tasks[h].priority)), Gone(x));
  }

  /** Freeing does not depend on the state the freed task was in. */
  lemma ReleaseAnyState(s: Sched, t: nat, state: TaskState)
    requires Fits(s) && t < MAX_TASKS
    ensures Release(SetState(s, t, state), t) == Release(s, t)
  {
    if Queued(s.queue, t) && s.current == t && Heir(Without(s.queue, t), s.idle) !in {t, NONE} {
      ReleaseBefore(s, t, state);
    } else {
      ReleaseAlone(s, t, state);
    }
  }

  lemma RemovedNotQueued(s: Sched, t: nat)
    requires Inv(s) && t < MAX_TASKS
    ensures t !in Remove(s, t).queue
  {
    WithoutFacts(s.queue, t);
    QueuedIn(s.queue, t);
  }

  lemma ClearKeeps(s: Sched, t: nat)
    requires Inv(s) && t < MAX_TASKS && t !in s.queue
    ensures Inv(s.(current := if s.current == t then NONE else s.current,
                   tasks := s.tasks[t := s.tasks[t].(state := Free, tid := INVALID_TID)]))
  {
    assert forall i :: 0 <= i < |s.queue| ==> s.queue[i] in s.queue;
  }

  lemma ReleaseKeeps(s: Sched, t: nat)
    requires Inv(s) && t < MAX_TASKS
    ensures Inv(Release(s, t))
  {
    var z := SetState(s, t, Zombie);
    ReleaseAnyState(s, t, Zombie);
    RemoveKeeps(z, t);
    RemovedNotQueued(z, t);
    ClearKeeps(Remove(z, t), t);
  }

  lemma CreateKeeps(s: Sched, priority: nat, prepared: bool)
    requires Inv(s)
    ensures Inv(Create(s, priority, prepared))
  {
    var t := FreeSlot(s.tasks);
    if t < MAX_TASKS { AddKeeps(Filled(s, t, priority, prepared), t); }
  }

  lemma ExpireKeeps(s: Sched)
    requires Inv(s) && s.current != NONE
    ensures Inv(Expire(s))
    ensures forall x :: x in Expire(s).queue <==> x in s.queue
  {
    WithoutFacts(s.queue, s.current);
    QueuedIn(s.queue, s.current);
    AppendFacts(Without(s.queue, s.current), s.current);
    var r := Expire(s);
    assert forall i :: 0 <= i < |r.queue| ==> r.queue[i] in r.queue;
  }

  lemma PickedKeeps(s: Sched)
    requires Inv(s)
    ensures Inv(Picked(s))
  {
  }

  lemma SwitchKeeps(s: Sched, t: nat)
    requires Inv(s) && s.current != NONE && t < MAX_TASKS
    ensures Inv(Switch(s, t)) && Switch(s, t).current == t
  {
  }

  lemma ScheduleKeeps(s: Sched)
    requires Inv(s)
    ensures Inv(Schedule(s))
  {
    if s.current == NONE {
      PickedKeeps(s);
    } else {
      ExpireKeeps(s);
      PickedKeeps(Expire(s));
      SwitchKeeps(Picked(Expire(s)), Choice(Expire(s)));
    }
  }

  lemma RouseKeeps(s: Sched, t: nat)
    requires Inv(s) && t < MAX_TASKS && s.tasks[t].state == Blocked
    ensures Inv(Rouse(s, t))
  {
    QueuedIn(s.queue, t);
  }

  lemma WakeOneKeeps(s: Sched, t: nat)
    requires Inv(s) && t < MAX_TASKS
    ensures Inv(WakeOne(s, t))
  {
    if Due(s.tasks[t], s.ticks) {
      RouseKeeps(s.(tasks := s.tasks[t := s.tasks[t].(sleep := 0, wait := 0)]), t);
    }
  }

  lemma {:induction false} WakeKeeps(s: Sched, n: nat)
    requires Inv(s) && n <= MAX_TASKS
    ensures Inv(WakeUpTo(s, n))
  {
    if n == 0 {
    } else {
      WakeKeeps(s, n - 1);
      WakeOneKeeps(WakeUpTo(s, n - 1), n - 1);
    }
  }

  // -------------------------------------------------------------------- runs

  datatype Op =
    | OpCreate(priority: nat, prepared: bool)
    | OpAdd(t: nat)
    | OpFree(t: nat)
    | OpTick
    | OpSchedule
    | OpYield
    | OpBlock(t: nat)
    | OpUnblock(t: nat)
    | OpSleep(ms: word)
    | OpExit

  ghost predicate Names(op: Op) {
    (op.OpAdd? || op.OpFree? || op.OpBlock? || op.OpUnblock?) ==> op.t < MAX_TASKS
  }

  ghost function Step(s: Sched, op: Op): (r: Sched)
    requires Fits(s) && Names(op)
    ensures Fits(r)
  {
    match op
    case OpCreate(priority, prepared) => Create(s, priority, prepared)
    case OpAdd(t) => Add(s, t)
    case OpFree(t) => Release(s, t)
    case OpTick => Tick(s)
    case OpSchedule => Schedule(s)
    case OpYield => Yield(s)
    case OpBlock(t) => Block(s, t)
    case OpUnblock(t) => Unblock(s, t)
    case OpSleep(ms) => Sleep(s, ms)
    case OpExit => Exit(s)
  }

  lemma StepKeeps(s: Sched, op: Op)
    requires Inv(s) && Names(op)
    ensures Inv(Step(s, op))
  {
    match op
    case OpCreate(priority, prepared) => CreateKeeps(s, priority, prepared);
    case OpAdd(t) => AddKeeps(s, t);
    case OpFree(t) => ReleaseKeeps(s, t);
    case OpTick => TickKeeps(s);
    case OpSchedule => ScheduleKeeps(s);
    case OpYield => YieldKeeps(s);
    case OpBlock(t) => BlockKeeps(s, t);
    case OpUnblock(t) => UnblockKeeps(s, t);
    case OpSleep(ms) => SleepKeeps(s, ms);
    case OpExit => ExitKeeps(s);
  }

  lemma TickKeeps(s: Sched)
    requires Inv(s)
    ensures Inv(Tick(s))
  {
    if s.current != NONE { WakeKeeps(Charge(s.(ticks := s.ticks + 1)), MAX_TASKS); }
  }

  lemma BlockKeeps(s: Sched, t: nat)
    requires Inv(s) && t < MAX_TASKS
    ensures Inv(Block(s, t))
  {
    if t == s.current { ScheduleKeeps(SetState(s, t, Blocked)); }
  }

  lemma UnblockKeeps(s: Sched, t: nat)
    requires Inv(s) && t < MAX_TASKS
    ensures Inv(Unblock(s, t))
  {
    if s.tasks[t].state == Blocked { RouseKeeps(s, t); }
  }

  lemma SleepKeeps(s: Sched, ms: word)
    requires Inv(s)
    ensures Inv(Sleep(s, ms))
  {
    if s.current != NONE && ms > 0 { NapKeeps(s, WakeTick(s.ticks, ms)); } else { YieldKeeps(s); }
  }

  lemma YieldKeeps(s: Sched)
    requires Inv(s)
    ensures Inv(Yield(s))
  {
    if s.current != NONE {
      ScheduleKeeps(s.(tasks := s.tasks[s.current := s.tasks[s.current].(slice := 0)]));
    }
  }

  lemma NapKeeps(s: Sched, until: nat)
    requires Inv(s) && s.current != NONE
    ensures Inv(Nap(s, until))
  {
    ScheduleKeeps(s.(tasks := s.tasks[s.current := s.tasks[s.current].(sleep := until, state := Blocked)]));
  }

  lemma ExitKeeps(s: Sched)
    requires Inv(s)
    ensures Inv(Exit(s))
  {
    if s.current != NONE {
      var s1 := SetState(s, s.current, Zombie);
      RemoveKeeps(s1, s.current);
      ScheduleKeeps(Remove(s1, s.current));
    }
  }

  ghost function Run(s: Sched, ops: seq<Op>): (r: Sched)
    requires Fits(s) && forall i :: 0 <= i < |ops| ==> Names(ops[i])
    ensures Fits(r)
    decreases |ops|
  {
    if ops == [] then s else Run(Step(s, ops[0]), ops[1..])
  }

  lemma {:induction false} RunKeeps(s: Sched, ops: seq<Op>)
    requires Inv(s) && forall i :: 0 <= i < |ops| ==> Names(ops[i])
    ensures Inv(Run(s, ops))
    decreases |ops|
  {
    if ops == [] {
    } else {
      StepKeeps(s, ops[0]);
      RunKeeps(Step(s, ops[0]), ops[1..]);
    }
  }

  const UNUSED: Task := Task(INVALID_TID, Free, IDLE, 0, 0, 0, 0, 0)

  /** The state `scheduler_init` leaves: the idle task in slot 0, queued and running. */
  ghost function Boot(prepared: bool): (s: Sched)
    ensures Fits(s)
  {
    var empty := Sched(seq(MAX_TASKS, _ => UNUSED), [], NONE, NONE, 0, 1);
    Create(empty, IDLE, prepared).(idle := 0)
  }

  lemma BootInv(prepared: bool)
    ensures Inv(Boot(prepared))
  {
    CreateKeeps(Sched(seq(MAX_TASKS, _ => UNUSED), [], NONE, NONE, 0, 1), IDLE, prepared);
  }

  /** In every state a run reaches, the queue holds distinct existing tasks, and any
      task marked as running is the current one. */
  lemma EveryRun(prepared: bool, ops: seq<Op>)
    requires forall i :: 0 <= i < |ops| ==> Names(ops[i])
    ensures Inv(Run(Boot(prepared), ops))
  {
    BootInv(prepared);
    RunKeeps(Boot(prepared), ops);
  }
}
