/** Who gets the processor: dispatch is complete and goes round the queue, sleepers wake on
    time, and a waiting task runs exactly when the task before it is taken away. */
module SchedOrder {
  import opened Bits
  import opened Distinctness
  import opened Tasks
  import opened SchedModel
  import opened SchedRuns

  // ---------------------------------------------------------------- dispatch

  lemma {:induction false} FirstReadyIs(tasks: seq<Task>, order: seq<nat>, i: nat)
    requires forall j :: 0 <= j < |order| ==> order[j] < |tasks|
    requires i < |order| && tasks[order[i]].state == Ready
    requires forall j :: 0 <= j < i ==> tasks[order[j]].state != Ready
    ensures FirstReady(tasks, order) == order[i]
  {
    if i == 0 {
    } else {
      assert tasks[order[0]].state != Ready;
      FirstReadyIs(tasks, order[1..], i - 1);
    }
  }

  lemma {:induction false} NoneReady(tasks: seq<Task>, order: seq<nat>)
    requires forall j :: 0 <= j < |order| ==> order[j] < |tasks|
    ensures FirstReady(tasks, order) == NONE <==> forall t :: t in order ==> tasks[t].state != Ready
  {
    if order == [] {
    } else {
      NoneReady(tasks, order[1..]);
      assert forall t :: t in order <==> t == order[0] || t in order[1..];
    }
  }

  /** When the current task cannot simply go on, any queued ready task makes the choice
      the first ready task in circular order behind it. */
  lemma DispatchComplete(s: Sched, i: nat)
    requires Inv(s) && !Continues(s)
    requires i < |s.queue| && s.tasks[Turn(s.queue, s.current)[i]].state == Ready
    requires forall j :: 0 <= j < i ==> s.tasks[Turn(s.queue, s.current)[j]].state != Ready
    ensures Choice(s) == Turn(s.queue, s.current)[i]
    ensures multiset(Turn(s.queue, s.current)) == multiset(s.queue)
  {
    TurnFacts(s.queue, s.current);
    FirstReadyIs(s.tasks, Turn(s.queue, s.current), i);
  }

  lemma {:induction false} NoneAbove(tasks: seq<Task>, order: seq<nat>, cur: nat)
    requires cur < |tasks| && forall j :: 0 <= j < |order| ==> order[j] < |tasks|
    ensures var a := FirstAbove(tasks, order, cur);
            && (a != NONE ==> tasks[a].priority > tasks[cur].priority)
            && (a == NONE <==> forall t :: t in order && t != cur && tasks[t].state == Ready ==>
                                 tasks[t].priority <= tasks[cur].priority)
  {
    if order == [] {
    } else {
      NoneAbove(tasks, order[1..], cur);
      assert forall t :: t in order <==> t == order[0] || t in order[1..];
    }
  }

  /** A task with time left goes on exactly if no queued ready task has a higher
      priority; otherwise such a task is chosen. */
  lemma Preemption(s: Sched)
    requires Inv(s) && Continues(s) && s.queue != []
    ensures Choice(s) == s.current <==>
            forall t :: t in s.queue && t != s.current && s.tasks[t].state == Ready ==>
              s.tasks[t].priority <= s.tasks[s.current].priority
    ensures Choice(s) != s.current ==>
            && Choice(s) in s.queue && s.tasks[Choice(s)].state == Ready
            && s.tasks[Choice(s)].priority > s.tasks[s.current].priority
  {
    NoneAbove(s.tasks, s.queue, s.current);
  }

  // ------------------------------------------------------------- round robin

  /** The current task runs and every other queued task is ready. */
  ghost predicate AllReady(s: Sched) {
    && Inv(s) && s.current != NONE && s.current in s.queue
    && s.tasks[s.current].state == Running
    && (forall t :: t in s.queue && t != s.current ==> s.tasks[t].state == Ready)
  }

  /** The queue after the current task has gone to its end. */
  ghost function Rotated(s: Sched): seq<nat>
    requires s.current >= 0
  {
    Without(s.queue, s.current) + [s.current]
  }

  /** Every queued task is ready, the current one among them and last. */
  ghost predicate Lined(s: Sched) {
    && Inv(s) && s.queue != [] && s.current == s.queue[|s.queue| - 1]
    && (forall t :: t in s.queue ==> s.tasks[t].state == Ready)
  }

  lemma ExpireLines(s: Sched)
    requires AllReady(s) && s.tasks[s.current].slice == 0
    ensures Lined(Expire(s)) && Expire(s).queue == Rotated(s)
  {
    ExpiresInto(s, Expire(s));
    ExpireKeeps(s);
    IsLined(s, Expire(s));
  }

  lemma ExpiresInto(s: Sched, r: Sched)
    requires AllReady(s) && s.tasks[s.current].slice == 0 && r == Expire(s)
    ensures r.queue == Rotated(s) && r.tasks[s.current].state == Ready
    ensures forall t :: 0 <= t < MAX_TASKS && t != s.current ==> r.tasks[t] == s.tasks[t]
  {
    QueuedIn(s.queue, s.current);
    ExpiredQueue(s.queue, s.current);
  }

  lemma IsLined(s: Sched, r: Sched)
    requires AllReady(s) && Inv(r) && r.queue == Rotated(s) && r.current == s.current && r.tasks[s.current].state == Ready
    requires (forall x :: x in r.queue <==> x in s.queue)
    requires forall t :: 0 <= t < MAX_TASKS && t != s.current ==> r.tasks[t] == s.tasks[t]
    ensures Lined(r)
  {
  }

  lemma PickHead(s: Sched)
    requires Lined(s)
    ensures Choice(s) == s.queue[0] && Picked(s) == s
  {
    TurnOfLast(s.queue);
    assert s.queue[0] in s.queue;
    FirstReadyIs(s.tasks, s.queue, 0);
  }

  lemma SwitchToHead(s: Sched)
    requires Lined(s)
    ensures var r := Switch(s, s.queue[0]); AllReady(r) && r.queue == s.queue && r.current == s.queue[0]
  {
    SwitchKeeps(s, s.queue[0]);
  }

  lemma OneYield(s: Sched)
    requires AllReady(s)
    ensures var r := Yield(s); AllReady(r) && r.queue == Rotated(s) && r.current == r.queue[0]
  {
    var s0 := s.(tasks := s.tasks[s.current := s.tasks[s.current].(slice := 0)]);
    ExpireLines(s0);
    PickHead(Expire(s0));
    SwitchToHead(Expire(s0));
  }

  lemma ExpiredQueue(q: seq<nat>, c: nat)
    requires Distinct(q) && c in q
    ensures (if IndexOf(q, c) < |q| - 1 then Without(q, c) + [c] else q) == Without(q, c) + [c]
  {
    QueuedIn(q, c);
  }

  lemma TurnOfLast(q: seq<nat>)
    requires Distinct(q) && q != []
    ensures Turn(q, q[|q| - 1]) == q
  {
    IndexIs(q, |q| - 1);
    assert q[..|q|] == q;
  }

  ghost function Yields(s: Sched, k: nat): (r: Sched)
    requires Fits(s)
    ensures Fits(r)
  {
    if k == 0 then s else Yield(Yields(s, k - 1))
  }

  /** `r` is reached when the first `k` tasks of `order` have had their turn. */
  ghost predicate Turned(r: Sched, order: seq<nat>, k: nat) {
    && AllReady(r) && 1 <= k <= |order|
    && r.current == order[k - 1] && r.queue == order[k - 1..] + order[..k - 1]
  }

  lemma RotateHead(order: seq<nat>, k: nat, s: Sched)
    requires Turned(s, order, k) && k < |order|
    ensures Rotated(s) == order[k..] + order[..k]
  {
    IndexIs(s.queue, 0);
  }

  lemma NextTurn(r: Sched, order: seq<nat>, k: nat)
    requires Turned(r, order, k) && k < |order|
    ensures Turned(Yield(r), order, k + 1)
  {
    RotateHead(order, k, r);
    OneYield(r);
  }

  lemma FirstTurn(s: Sched)
    requires AllReady(s)
    ensures Turned(Yield(s), Rotated(s), 1) && |Rotated(s)| == |s.queue|
  {
    QueuedIn(s.queue, s.current);
    OneYield(s);
  }

  /** The `k`-th of up to `n` yields dispatches the `k`-th task of the rotated queue. */
  lemma {:induction false} ManyYields(s: Sched, k: nat)
    requires AllReady(s) && 1 <= k <= |s.queue|
    ensures Turned(Yields(s, k), Rotated(s), k)
  {
    FirstTurn(s);
    if k == 1 {
      assert Yields(s, 1) == Yield(Yields(s, 0)) == Yield(s);
    } else {
      ManyYields(s, k - 1);
      NextTurn(Yields(s, k - 1), Rotated(s), k - 1);
    }
  }

  /** With `n` queued tasks and none blocked, `n` yields dispatch every queued task
      exactly once and end with the task they started from. */
  lemma RoundRobin(s: Sched)
    requires AllReady(s)
    ensures var n, order := |s.queue|, Rotated(s);
            && |order| == n && multiset(order) == multiset(s.queue)
            && (forall k :: 1 <= k <= n ==> Yields(s, k).current == order[k - 1])
            && Yields(s, n).current == s.current
  {
    var order := Rotated(s);
    QueuedIn(s.queue, s.current);
    var p := IndexOf(s.queue, s.current);
    assert s.queue == s.queue[..p] + [s.current] + s.queue[p + 1..];
    forall k | 1 <= k <= |s.queue| ensures Yields(s, k).current == order[k - 1] {
      ManyYields(s, k);
    }
  }

  // ------------------------------------------------------- blocked tasks wait

  predicate Runnable(t: Task) {
    t.state == Ready || t.state == Running
  }

  /** The current task runs and is queued, and the idle task is queued and can run. */
  ghost predicate Healthy(s: Sched) {
    && Inv(s)
    && s.current != NONE && s.tasks[s.current].state == Running && s.current in s.queue
    && s.idle != NONE && Runnable(s.tasks[s.idle]) && s.idle in s.queue
  }

  /** The idle task is never freed, put to sleep or ended. */
  ghost predicate SparesIdle(s: Sched, op: Op) {
    && Names(op)
    && (op.OpFree? || op.OpBlock? ==> op.t != s.idle)
    && (op.OpExit? || (op.OpSleep? && op.ms > 0) ==> s.current != s.idle)
  }

  /** A queued ready task is found unless the current task goes on. */
  lemma PicksReady(s: Sched, t: nat)
    requires Inv(s) && t in s.queue && t < MAX_TASKS && s.tasks[t].state == Ready && !Continues(s)
    ensures 0 <= Choice(s) && s.tasks[Choice(s)].state == Ready && Choice(s) in s.queue && Picked(s) == s
  {
    TurnFacts(s.queue, s.current);
    NoneReady(s.tasks, Turn(s.queue, s.current));
  }

  /** A running current task is left alone or makes room for a ready one. */
  lemma PicksRunnable(s: Sched)
    requires Inv(s) && Continues(s) && s.current in s.queue
    ensures Runnable(s.tasks[Choice(s)]) && Choice(s) in s.queue && Picked(s) == s
  {
  }

  /** Some task runs, and it could run before. */
  ghost predicate GoesOn(s: Sched, r: Sched) {
    Fits(s) && Healthy(r) && Runnable(s.tasks[r.current])
  }

  /** Rescheduling: the idle task can always run, so whoever is dispatched could. */
  lemma ScheduleHealthy(s: Sched)
    requires Inv(s) && s.current != NONE && s.current in s.queue
    requires s.idle != NONE && s.idle in s.queue && Runnable(s.tasks[s.idle])
    ensures GoesOn(s, Schedule(s))
  {
    var s1 := Expire(s);
    ExpireKeeps(s);
    if Continues(s1) {
      PicksRunnable(s1);
    } else {
      assert s1.tasks[s1.idle].state == Ready;
      PicksReady(s1, s1.idle);
    }
    SwitchKeeps(s1, Choice(s1));
  }

  ghost function Woken(task: Task): Task {
    task.(state := Ready, slice := SliceFor(task.priority), sleep := 0, wait := 0)
  }

  lemma WakeOneMeaning(s: Sched, t: nat)
    requires Fits(s) && t < MAX_TASKS
    ensures var r, due := WakeOne(s, t), Due(s.tasks[t], s.ticks);
            && r == s.(tasks := if due then s.tasks[t := Woken(s.tasks[t])] else s.tasks, queue := r.queue)
            && (forall x :: x in r.queue <==> x in s.queue || (due && x == t))
            && s.queue <= r.queue
  {
    QueuedIn(s.queue, t);
    var task := s.tasks[t].(sleep := 0, wait := 0);
    assert s.tasks[t := task][t := Woken(task)] == s.tasks[t := Woken(s.tasks[t])];
  }

  /** `r` is `s` after exactly the due sleepers among the first `n` slots were woken, and
      those of them that were not queued were queued. */
  ghost predicate DueWoken(s: Sched, r: Sched, n: nat) {
    && Fits(s) && Fits(r) && n <= MAX_TASKS
    && r == s.(tasks := r.tasks, queue := r.queue)
    && (forall t :: 0 <= t < MAX_TASKS ==>
          r.tasks[t] == if t < n && Due(s.tasks[t], s.ticks) then Woken(s.tasks[t]) else s.tasks[t])
    && (forall x :: x in r.queue <==> x in s.queue || (0 <= x < n && Due(s.tasks[x], s.ticks)))
    && s.queue <= r.queue
  }

  lemma WakeStep(s: Sched, r: Sched, n: nat)
    requires DueWoken(s, r, n) && n < MAX_TASKS
    ensures DueWoken(s, WakeOne(r, n), n + 1)
  {
    WakeOneMeaning(r, n);
  }

  lemma {:induction false} WakeMeaning(s: Sched, n: nat)
    requires Fits(s) && n <= MAX_TASKS
    ensures DueWoken(s, WakeUpTo(s, n), n)
  {
    if n == 0 {
    } else {
      WakeMeaning(s, n - 1);
      WakeStep(s, WakeUpTo(s, n - 1), n - 1);
    }
  }

  /** A tick charges the current task and wakes exactly the sleepers whose time has
      come: a sleeper is never woken early and never missed. */
  lemma TickMeaning(s: Sched)
    requires Inv(s) && s.current != NONE
    ensures var r, now, c := Tick(s), s.ticks + 1, s.tasks[s.current];
            && r.ticks == now && r.current == s.current && r.idle == s.idle
            && (forall t :: 0 <= t < MAX_TASKS && t != s.current ==>
                  r.tasks[t] == if Due(s.tasks[t], now) then Woken(s.tasks[t]) else s.tasks[t])
            && (var charged := c.(runTime := c.runTime + 1,
                                  slice := if c.state == Running && c.slice > 0 then c.slice - 1 else c.slice);
                r.tasks[s.current] == if Due(c, now) then Woken(charged) else charged)
            && (forall x :: x in r.queue <==> x in s.queue || (0 <= x < MAX_TASKS && Due(s.tasks[x], now)))
            && s.queue <= r.queue
  {
    WakeMeaning(Charge(s.(ticks := s.ticks + 1)), MAX_TASKS);
  }

  lemma TickHealthy(s: Sched)
    requires Healthy(s)
    ensures GoesOn(s, Tick(s))
  {
    TickMeaning(s);
    StepKeeps(s, OpTick);
  }

  lemma CreateHealthy(s: Sched, priority: nat, prepared: bool)
    requires Healthy(s)
    ensures GoesOn(s, Create(s, priority, prepared))
  {
    CreateKeeps(s, priority, prepared);
  }

  lemma AddHealthy(s: Sched, t: nat)
    requires Healthy(s) && t < MAX_TASKS
    ensures GoesOn(s, Add(s, t))
  {
    AddKeeps(s, t);
    QueuedIn(s.queue, s.current);
    QueuedIn(s.queue, s.idle);
  }

  lemma YieldHealthy(s: Sched)
    requires Healthy(s)
    ensures GoesOn(s, Yield(s))
  {
    ScheduleHealthy(s.(tasks := s.tasks[s.current := s.tasks[s.current].(slice := 0)]));
  }

  lemma BlockHealthy(s: Sched, t: nat)
    requires Healthy(s) && t < MAX_TASKS && t != s.idle
    ensures GoesOn(s, Block(s, t))
  {
    if t == s.current { ScheduleHealthy(SetState(s, t, Blocked)); }
  }

  lemma NapHealthy(s: Sched, until: nat)
    requires Healthy(s) && s.current != s.idle
    ensures GoesOn(s, Nap(s, until))
  {
    ScheduleHealthy(s.(tasks := s.tasks[s.current := s.tasks[s.current].(sleep := until, state := Blocked)]));
  }

  lemma UnblockHealthy(s: Sched, t: nat)
    requires Healthy(s) && t < MAX_TASKS
    ensures GoesOn(s, Unblock(s, t))
  {
    StepKeeps(s, OpUnblock(t));
  }

  // -------------------------------------------------- when a waiting task runs

  /** The task behind the current one: the head of the queue without it. */
  ghost function Next(s: Sched): (t: nat)
    requires Healthy(s) && s.current != s.idle
    ensures t < MAX_TASKS && t in s.queue && t != s.current && Without(s.queue, s.current) != [] && t == Without(s.queue, s.current)[0]
  {
    WithoutFacts(s.queue, s.current);
    var q := Without(s.queue, s.current);
    assert s.idle in q && q[0] in q;
    q[0]
  }

  /** Some task that could not run before can run after. */
  ghost predicate WakesWaiting(s: Sched, r: Sched)
    requires Fits(s) && Fits(r)
  {
    exists t :: 0 <= t < MAX_TASKS && !Runnable(s.tasks[t]) && Runnable(r.tasks[t])
  }

  /** A ready task other than the current one is queued and has a higher priority than `h`. */
  ghost predicate Outranked(s: Sched, h: nat)
    requires Fits(s) && h < MAX_TASKS
  {
    exists t :: t in s.queue && t != s.current && s.tasks[t].state == Ready && s.tasks[t].priority > s.tasks[h].priority
  }

  /** The step takes the current task away, and the task behind it waits and is not outranked. */
  ghost predicate RunsWaiting(s: Sched, op: Op)
    requires Healthy(s) && SparesIdle(s, op)
  {
    match op
    case OpFree(t) => t == s.current && !Runnable(s.tasks[Next(s)])
    case OpExit => !Runnable(s.tasks[Next(s)]) && !Outranked(s, Next(s))
    case _ => false
  }

  /** Freeing a task hands the processor to a task that could not run exactly when the
      freed task was running and the task behind it waits. */
  lemma FreeRunsWaiting(s: Sched, t: nat)
    requires Healthy(s) && t < MAX_TASKS && t != s.idle
    ensures var r := Release(s, t);
            && Healthy(r)
            && (!Runnable(s.tasks[r.current]) <==> t == s.current && !Runnable(s.tasks[Next(s)]))
            && (WakesWaiting(s, r) <==> t == s.current && !Runnable(s.tasks[Next(s)]))
  {
    if t == s.current { FreeCurrent(s); } else { FreeOther(s, t); }
  }

  lemma FreeOther(s: Sched, t: nat)
    requires Healthy(s) && t < MAX_TASKS && t != s.idle && t != s.current
    ensures GoesOn(s, Release(s, t)) && !WakesWaiting(s, Release(s, t))
  {
    ReleaseKeeps(s, t);
    WithoutFacts(s.queue, t);
    QueuedIn(s.queue, t);
  }

  lemma FreeCurrent(s: Sched)
    requires Healthy(s) && s.current != s.idle
    ensures var r, h := Release(s, s.current), Next(s);
            Healthy(r) && r.current == h && (WakesWaiting(s, r) <==> !Runnable(s.tasks[h]))
  {
    var t, r, h := s.current, Release(s, s.current), Next(s);
    ReleaseKeeps(s, t);
    WithoutFacts(s.queue, t);
    QueuedIn(s.queue, t);
    assert Runnable(r.tasks[h]);
    assert forall u :: 0 <= u < MAX_TASKS && u != t && u != h ==> r.tasks[u] == s.tasks[u];
  }

  /** The state in which an exit reschedules: the task behind the current one runs. */
  ghost function Ended(s: Sched): (r: Sched)
    requires Fits(s) && s.current != NONE
    ensures Fits(r)
  {
    Remove(SetState(s, s.current, Zombie), s.current)
  }

  lemma EndedFacts(s: Sched)
    requires Healthy(s) && s.current != s.idle
    ensures var r, h := Ended(s), Next(s);
            && Healthy(r) && r.current == h && r.idle == s.idle && Continues(r) && r.queue == Without(s.queue, s.current)
            && r.tasks[h].priority == s.tasks[h].priority
            && r.tasks[s.current].state == Zombie
            && forall t :: 0 <= t < MAX_TASKS && t != s.current && t != h ==> r.tasks[t] == s.tasks[t]
  {
    QueuedIn(s.queue, s.current);
    WithoutFacts(s.queue, s.current);
    EndedKeeps(s);
  }

  lemma EndedKeeps(s: Sched)
    requires Inv(s) && s.current != NONE
    ensures Inv(Ended(s))
  {
    RemoveKeeps(SetState(s, s.current, Zombie), s.current);
  }

  /** The exit goes on with the task behind the current one unless that is outranked. */
  lemma ExitChoice(s: Sched)
    requires Healthy(s) && s.current != s.idle
    ensures var r, h, c := Ended(s), Next(s), Choice(Ended(s));
            && c >= 0 && Exit(s) == Switch(r, c)
            && (c == h <==> !Outranked(s, h)) && (c != h ==> r.tasks[c].state == Ready && c != s.current)
  {
    var r := Ended(s);
    EndedFacts(s);
    Preemption(r);
    assert Expire(r) == r && Picked(r) == r;
    StillOutranked(s, r, Next(s));
  }

  /** The tasks that outrank `h` are the same when the current task is gone and `h` runs. */
  lemma StillOutranked(s: Sched, r: Sched, h: nat)
    requires Inv(s) && Fits(r) && h < MAX_TASKS && r.queue == Without(s.queue, s.current)
    requires r.tasks[h].state == Running && r.tasks[h].priority == s.tasks[h].priority
    requires forall t :: 0 <= t < MAX_TASKS && t != s.current && t != h ==> r.tasks[t] == s.tasks[t]
    ensures Outranked(s, h) <==>
            exists t :: t in r.queue && t != h && r.tasks[t].state == Ready && r.tasks[t].priority > r.tasks[h].priority
  {
    WithoutFacts(s.queue, s.current);
    if Outranked(s, h) {
      var t :| t in s.queue && t != s.current && s.tasks[t].state == Ready && s.tasks[t].priority > s.tasks[h].priority;
      assert t in r.queue && t != h && r.tasks[t] == s.tasks[t];
    }
  }

  /** When the current task ends, the task behind it can run afterwards, whatever it waited
      for: some waiting task can run that could not before exactly when that one waits, and
      it is dispatched exactly when no queued ready task has a higher priority. */
  lemma ExitRunsWaiting(s: Sched)
    requires Healthy(s) && s.current != s.idle
    ensures var r, h := Exit(s), Next(s);
            && Healthy(r) && Runnable(r.tasks[h])
            && (WakesWaiting(s, r) <==> !Runnable(s.tasks[h]))
            && (r.current == h <==> !Outranked(s, h))
            && (!Runnable(s.tasks[r.current]) <==> !Runnable(s.tasks[h]) && !Outranked(s, h))
  {
    EndedFacts(s);
    ExitChoice(s);
    ScheduleHealthy(Ended(s));
    var r, h := Exit(s), Next(s);
    if !Runnable(s.tasks[h]) {
      assert Runnable(r.tasks[h]);
    }
    forall t | 0 <= t < MAX_TASKS && !Runnable(s.tasks[t]) && Runnable(r.tasks[t])
      ensures t == h
    {
    }
  }

  // -------------------------------------------------------------------- runs

  /** The step leaves a current task that runs, and that task could run before, except
      where a free or an exit takes the current task away before one that waits. */
  ghost predicate Dispatches(s: Sched, op: Op)
    requires Healthy(s) && SparesIdle(s, op)
  {
    Healthy(Step(s, op)) && (Runnable(s.tasks[Step(s, op).current]) <==> !RunsWaiting(s, op))
  }

  /** The steps that take no task away. */
  lemma MildStep(s: Sched, op: Op)
    requires Healthy(s) && SparesIdle(s, op) && !op.OpFree? && !op.OpExit?
    ensures GoesOn(s, Step(s, op))
  {
    match op
    case OpCreate(priority, prepared) => CreateHealthy(s, priority, prepared);
    case OpAdd(t) => AddHealthy(s, t);
    case OpTick => TickHealthy(s);
    case OpSchedule => ScheduleHealthy(s);
    case OpYield => YieldHealthy(s);
    case OpBlock(t) => BlockHealthy(s, t);
    case OpUnblock(t) => UnblockHealthy(s, t);
    case OpSleep(ms) =>
      if ms > 0 { NapHealthy(s, WakeTick(s.ticks, ms)); } else { YieldHealthy(s); }
  }

  lemma StepDispatches(s: Sched, op: Op)
    requires Healthy(s) && SparesIdle(s, op)
    ensures Dispatches(s, op)
  {
    match op
    case OpFree(t) => FreeRunsWaiting(s, t);
    case OpExit => ExitRunsWaiting(s);
    case _ => MildStep(s, op);
  }

  ghost predicate SparingRun(s: Sched, ops: seq<Op>)
    requires Fits(s)
    decreases |ops|
  {
    ops == [] || (SparesIdle(s, ops[0]) && SparingRun(Step(s, ops[0]), ops[1..]))
  }

  lemma {:induction false} SparingRunNames(s: Sched, ops: seq<Op>)
    requires Fits(s) && SparingRun(s, ops)
    ensures forall i :: 0 <= i < |ops| ==> Names(ops[i])
    decreases |ops|
  {
    if ops == [] {
    } else {
      SparingRunNames(Step(s, ops[0]), ops[1..]);
      assert forall i :: 1 <= i < |ops| ==> ops[i] == ops[1..][i - 1];
    }
  }

  lemma {:induction false} SparingRunHealthy(s: Sched, ops: seq<Op>)
    requires Healthy(s) && SparingRun(s, ops) && forall i :: 0 <= i < |ops| ==> Names(ops[i])
    ensures Healthy(Run(s, ops))
    decreases |ops|
  {
    if ops == [] {
    } else {
      StepDispatches(s, ops[0]);
      SparingRunHealthy(Step(s, ops[0]), ops[1..]);
    }
  }

  /** In every run that spares the idle task exactly the current task runs, and each further
      step gives the processor to a task that could run, except exactly where a free or an
      exit takes the current task away before one that waits. */
  lemma BlockedTasksWait(prepared: bool, ops: seq<Op>)
    requires SparingRun(Boot(prepared), ops)
    ensures forall i :: 0 <= i < |ops| ==> Names(ops[i])
    ensures var s := Run(Boot(prepared), ops);
            && Healthy(s)
            && (forall t :: 0 <= t < MAX_TASKS ==> (s.tasks[t].state == Running <==> t == s.current))
            && (forall op :: SparesIdle(s, op) ==> Dispatches(s, op))
  {
    BootInv(prepared);
    SparingRunNames(Boot(prepared), ops);
    SparingRunHealthy(Boot(prepared), ops);
    var s := Run(Boot(prepared), ops);
    forall op | SparesIdle(s, op)
      ensures Dispatches(s, op)
    {
      StepDispatches(s, op);
    }
  }

  // ------------------------------------------------------- a sleeper that runs

  /** The first three slots, all others unused. */
  ghost function Table(a: Task, b: Task, c: Task): (tasks: seq<Task>)
    ensures |tasks| == MAX_TASKS && tasks[0] == a && tasks[1] == b && tasks[2] == c
  {
    seq(MAX_TASKS, _ => UNUSED)[0 := a][1 := b][2 := c]
  }

  ghost function Made(tid: int, state: TaskState): Task {
    Task(tid, state, NORMAL, SliceFor(NORMAL), 0, 0, 0, 0)
  }

  ghost function IdleTask(state: TaskState): Task {
    Task(1, state, IDLE, SliceFor(IDLE), 0, 0, 0, 0)
  }

  /** Two tasks are made beside the idle task. */
  ghost function TwoMade(): Sched {
    Sched(Table(IdleTask(Running), Made(2, Ready), Made(3, Ready)), [0, 1, 2], 0, 0, 0, 4)
  }

  /** The first of them runs. */
  ghost function FirstRuns(): Sched {
    Sched(Table(IdleTask(Ready), Made(2, Running), Made(3, Ready)), [1, 2, 0], 1, 0, 0, 4)
  }

  /** The first sleeps at the head of the queue while the second runs. */
  ghost function FirstSleeps(): Sched {
    Sched(Table(IdleTask(Ready), Made(2, Blocked).(sleep := 50), Made(3, Running)), [1, 2, 0], 2, 0, 0, 4)
  }

  /** One task is made beside the idle task. */
  ghost function OneMade(): Sched {
    Sched(Table(IdleTask(Running), Made(2, Ready), UNUSED), [0, 1], 0, 0, 0, 3)
  }

  lemma MadeFirst()
    ensures Create(Boot(true), NORMAL, true) == OneMade()
  {
    var s := Boot(true);
    assert s.tasks == Table(IdleTask(Running), UNUSED, UNUSED) && s.queue == [0];
    assert FreeSlot(s.tasks) == 1;
    assert Create(s, NORMAL, true).tasks == OneMade().tasks;
  }

  lemma MadeSecond()
    ensures Create(OneMade(), NORMAL, true) == TwoMade()
  {
    assert FreeSlot(OneMade().tasks) == 2;
    assert Create(OneMade(), NORMAL, true).tasks == TwoMade().tasks;
  }

  /** All are ready, and the idle task has gone to the end. */
  ghost function IdleExpired(): Sched {
    Sched(Table(IdleTask(Ready), Made(2, Ready), Made(3, Ready)), [1, 2, 0], 0, 0, 0, 4)
  }

  lemma IdleExpires()
    ensures Expire(TwoMade().(tasks := TwoMade().tasks[0 := IdleTask(Running).(slice := 0)])) == IdleExpired()
  {
    var s := TwoMade().(tasks := TwoMade().tasks[0 := IdleTask(Running).(slice := 0)]);
    IndexIs(s.queue, 0);
    assert Expire(s).tasks == IdleExpired().tasks;
  }

  lemma FirstIsNext()
    ensures Choice(IdleExpired()) == 1 && Picked(IdleExpired()) == IdleExpired()
  {
    var e := IdleExpired();
    IndexIs(e.queue, 2);
    assert Turn(e.queue, 0) == [1, 2, 0];
  }

  lemma FirstIsDispatched()
    ensures Switch(IdleExpired(), 1) == FirstRuns()
  {
    assert Switch(IdleExpired(), 1).tasks == FirstRuns().tasks;
  }

  lemma YieldedToFirst()
    ensures Yield(TwoMade()) == FirstRuns()
  {
    IdleExpires();
    FirstIsNext();
    FirstIsDispatched();
  }

  /** The first is asleep but still current. */
  ghost function FirstDozes(): Sched {
    FirstRuns().(tasks := FirstRuns().tasks[1 := Made(2, Blocked).(sleep := 50)])
  }

  lemma SecondIsNext()
    ensures Expire(FirstDozes()) == FirstDozes() && Choice(FirstDozes()) == 2 && Picked(FirstDozes()) == FirstDozes()
  {
    var e := FirstDozes();
    IndexIs(e.queue, 0);
    assert Turn(e.queue, 1) == [2, 0, 1];
  }

  lemma SecondIsDispatched()
    ensures Switch(FirstDozes(), 2) == FirstSleeps()
  {
    assert Switch(FirstDozes(), 2).tasks == FirstSleeps().tasks;
  }

  lemma SleptBeforeSecond()
    ensures Sleep(FirstRuns(), 500) == FirstSleeps()
  {
    SecondIsNext();
    SecondIsDispatched();
    assert WakeTick(FirstRuns().ticks, 500) == 50;
  }

  /** A run that spares the idle task leads from one state to the other. */
  ghost predicate Reaches(s: Sched, ops: seq<Op>, r: Sched) {
    Fits(s) && SparingRun(s, ops) && (forall i :: 0 <= i < |ops| ==> Names(ops[i])) && Run(s, ops) == r
  }

  lemma StepReaches(s: Sched, op: Op, s': Sched, ops: seq<Op>, r: Sched)
    requires Fits(s) && SparesIdle(s, op) && Step(s, op) == s' && Reaches(s', ops, r)
    ensures Reaches(s, [op] + ops, r)
  {
    var all := [op] + ops;
    assert all[0] == op && all[1..] == ops;
    assert SparingRun(s, all) && Run(s, all) == r;
  }

  lemma CreateReaches(s: Sched, priority: nat, s': Sched, ops: seq<Op>, r: Sched)
    requires Fits(s) && Create(s, priority, true) == s' && Reaches(s', ops, r)
    ensures Reaches(s, [OpCreate(priority, true)] + ops, r)
  {
    StepReaches(s, OpCreate(priority, true), s', ops, r);
  }

  lemma YieldReaches(s: Sched, s': Sched, ops: seq<Op>, r: Sched)
    requires Fits(s) && Yield(s) == s' && Reaches(s', ops, r)
    ensures Reaches(s, [OpYield] + ops, r)
  {
    StepReaches(s, OpYield, s', ops, r);
  }

  lemma SleepReaches(s: Sched, ms: word, s': Sched, ops: seq<Op>, r: Sched)
    requires Fits(s) && s.current != s.idle && Sleep(s, ms) == s' && Reaches(s', ops, r)
    ensures Reaches(s, [OpSleep(ms)] + ops, r)
  {
    StepReaches(s, OpSleep(ms), s', ops, r);
  }

  /** Two tasks are made, and the first runs and goes to sleep. */
  function Lulling(): seq<Op> {
    Lullaby(NORMAL, 500)
  }

  function Lullaby(priority: nat, ms: word): seq<Op> {
    [OpCreate(priority, true)] + ([OpCreate(priority, true)] + ([OpYield] + ([OpSleep(ms)] + [])))
  }

  lemma Lulled(priority: nat, ms: word, s: Sched, s1: Sched, s2: Sched, s3: Sched, r: Sched)
    requires Fits(s) && Fits(s1) && Fits(s2) && Fits(s3) && Fits(r)
    requires Create(s, priority, true) == s1 && Create(s1, priority, true) == s2
    requires Yield(s2) == s3 && s3.current != s3.idle && Sleep(s3, ms) == r
    ensures Reaches(s, Lullaby(priority, ms), r)
  {
    assert Reaches(r, [], r);
    SleepReaches(s3, ms, r, [], r);
    YieldReaches(s2, s3, [OpSleep(ms)] + [], r);
    CreateReaches(s1, priority, s2, [OpYield] + ([OpSleep(ms)] + []), r);
    CreateReaches(s, priority, s1, [OpCreate(priority, true)] + ([OpYield] + ([OpSleep(ms)] + [])), r);
  }

  lemma BootReaches()
    ensures Reaches(Boot(true), Lulling(), FirstSleeps())
  {
    MadeFirst();
    MadeSecond();
    YieldedToFirst();
    SleptBeforeSecond();
    Lulled(NORMAL, 500, Boot(true), OneMade(), TwoMade(), FirstRuns(), FirstSleeps());
  }

  lemma SleeperIsNext()
    requires Healthy(FirstSleeps())
    ensures Next(FirstSleeps()) == 1 && !Outranked(FirstSleeps(), 1)
  {
    var s := FirstSleeps();
    IndexIs(s.queue, 1);
    assert Without(s.queue, 2) == [1, 0];
  }

  /** A run from boot after which a free and an exit both run a sleeper. */
  lemma SleeperRuns()
    ensures Reaches(Boot(true), Lulling(), FirstSleeps())
    ensures var s := FirstSleeps();
            && s.current == 2 && s.tasks[1].state == Blocked && s.ticks < s.tasks[1].sleep
            && Release(s, 2).current == 1 && Release(s, 2).tasks[1].state == Running
            && Exit(s).current == 1 && Exit(s).tasks[1].state == Running
  {
    BootInv(true);
    BootReaches();
    SparingRunHealthy(Boot(true), Lulling());
    SleeperIsNext();
    FreeRunsWaiting(FirstSleeps(), 2);
    ExitRunsWaiting(FirstSleeps());
  }

  lemma BootMakesOne()
    ensures Reaches(Boot(true), [OpCreate(NORMAL, true)] + [], OneMade()) && Inv(OneMade())
  {
    BootInv(true);
    MadeFirst();
    CreateKeeps(Boot(true), NORMAL, true);
    assert Reaches(OneMade(), [], OneMade());
    CreateReaches(Boot(true), NORMAL, OneMade(), [], OneMade());
  }

  /** A run from boot after which removing the running task leaves two marked as running. */
  lemma RemovedStaysRunning()
    ensures Reaches(Boot(true), [OpCreate(NORMAL, true)] + [], OneMade())
    ensures Inv(OneMade()) && !Inv(Remove(OneMade(), 0))
    ensures Remove(OneMade(), 0).tasks[0].state == Remove(OneMade(), 0).tasks[1].state == Running
  {
    BootMakesOne();
    SecondIsHeir([0, 1]);
    BothRun(OneMade(), 0, 1);
  }

  lemma SecondIsHeir(q: seq<nat>)
    requires q == [0, 1]
    ensures Heir(Without(q, 0), 0) == 1
  {
    assert Without(q, 0) == [1];
  }

  /** Removing a running task that has an heir leaves both marked as running. */
  lemma BothRun(s: Sched, t: nat, h: nat)
    requires Inv(s) && t < MAX_TASKS && t in s.queue && s.tasks[t].state == Running
    requires h != t && Heir(Without(s.queue, t), s.idle) == h
    ensures h < MAX_TASKS && !Inv(Remove(s, t)) && Remove(s, t).tasks[t].state == Remove(s, t).tasks[h].state == Running
  {
    QueuedIn(s.queue, t);
    RemoveKeeps(s, t);
  }
}
