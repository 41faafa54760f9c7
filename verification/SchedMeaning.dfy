/** What each call of the scheduler means for the tasks, the queue and the current task:
    what it changes, and that it changes nothing else. */
module SchedMeaning {
  import opened Bits
  import opened Distinctness
  import opened Tasks
  import opened SchedModel
  import opened SchedRuns
  import opened SchedOrder

  /** The slices the priorities stand for. */
  lemma SliceTable(priority: nat)
    ensures SliceFor(0) == 2 && SliceFor(5) == 10 && SliceFor(10) == 20 && SliceFor(15) == 30
    ensures priority !in {0, 5, 10, 15} ==> SliceFor(priority) == 10
  {
  }

  /** All tasks but `t` are as they were, and so is everything beside tasks and queue. */
  ghost predicate OnlyTask(s: Sched, r: Sched, t: nat) {
    && Fits(s) && Fits(r) && r.current == s.current && r.idle == s.idle && r.ticks == s.ticks && r.nextTid == s.nextTid
    && forall u :: 0 <= u < MAX_TASKS && u != t ==> r.tasks[u] == s.tasks[u]
  }

  /** `q'` is `q` with `t` at its end, unless it was there before. */
  ghost predicate QueuedOnce(q: seq<nat>, q': seq<nat>, t: nat) {
    if t in q then q' == q else q' == q + [t]
  }

  /** `q'` is `q` with `t`, which was there, taken out. */
  ghost predicate TakenFrom(q: seq<nat>, q': seq<nat>, t: nat) {
    exists xs, ys :: q == xs + [t] + ys && q' == xs + ys && t !in xs
  }

  lemma WithoutTakes(q: seq<nat>, t: nat)
    requires t in q
    ensures TakenFrom(q, Without(q, t), t)
  {
    QueuedIn(q, t);
    var p := IndexOf(q, t);
    assert q == q[..p] + [t] + q[p + 1..];
  }

  // -------------------------------------------------------- blocking and unblocking

  /** A blocked task becomes ready with a fresh slice, and queued; any other call does nothing. */
  lemma UnblockMeans(s: Sched, t: nat)
    requires Fits(s) && t < MAX_TASKS
    ensures var r, task := Unblock(s, t), s.tasks[t];
            if task.state == Blocked then
              && OnlyTask(s, r, t) && QueuedOnce(s.queue, r.queue, t)
              && r.tasks[t] == Task(task.tid, Ready, task.priority, SliceFor(task.priority),
                                    task.sleep, task.wait, task.lastRun, task.runTime)
            else r == s
  {
    QueuedIn(s.queue, t);
  }

  /** Blocking another task marks it and notes the time; it stays where it is in the queue. */
  lemma BlockMeans(s: Sched, t: nat)
    requires Fits(s) && t < MAX_TASKS && t != s.current
    ensures var r, task := Block(s, t), s.tasks[t];
            && OnlyTask(s, r, t) && r.queue == s.queue
            && r.tasks[t] == Task(task.tid, Blocked, task.priority, task.slice, task.sleep, s.ticks, task.lastRun, task.runTime)
  {
  }

  /** Blocking the current task leaves it blocked and in its place, and another task runs
      that could. */
  lemma BlockCurrentMeans(s: Sched)
    requires Healthy(s) && s.current != s.idle
    ensures var r, t := Block(s, s.current), s.current;
            && r.queue == s.queue && r.current != t && r.tasks[t] == s.tasks[t].(state := Blocked)
            && Runnable(s.tasks[r.current]) && r.tasks[r.current].state == Running
  {
    BlockHealthy(s, s.current);
    BlockedLeaves(SetState(s, s.current, Blocked));
  }

  /** Rescheduling from a blocked current task that has a ready task beside it. */
  lemma BlockedLeaves(s: Sched)
    requires Inv(s) && s.current != NONE && s.tasks[s.current].state == Blocked && s.current in s.queue
    requires s.idle != NONE && s.idle in s.queue && s.idle != s.current && s.tasks[s.idle].state == Ready
    ensures var r := Schedule(s); r.queue == s.queue && r.current != s.current && r.tasks[s.current] == s.tasks[s.current]
  {
    PicksReady(s, s.idle);
  }

  lemma TwoSteps(s: Sched, a: Op, b: Op)
    requires Fits(s) && Names(a) && Names(b)
    ensures Run(s, [a, b]) == Step(Step(s, a), b)
  {
    assert [a, b][1..] == [b] && [b][1..] == [];
    assert Run(Step(s, a), [b]) == Run(Step(Step(s, a), b), []);
  }

  lemma BlockStep(s: Sched, t: nat)
    requires Fits(s) && t < MAX_TASKS
    ensures Step(s, OpBlock(t)) == Block(s, t) && Step(s, OpUnblock(t)) == Unblock(s, t)
  {
  }

  lemma Rewoken(s: Sched, s1: Sched, s2: Sched, t: nat, task: Task)
    requires Fits(s) && t < MAX_TASKS && t in s.queue
    requires OnlyTask(s, s1, t) && s1.queue == s.queue && OnlyTask(s1, s2, t) && QueuedOnce(s1.queue, s2.queue, t)
    requires s2.tasks[t] == task
    ensures s2 == s.(tasks := s.tasks[t := task])
  {
    assert s2.tasks == s.tasks[t := task];
  }

  lemma Unblocked(s: Sched, t: nat)
    requires Inv(s) && t < MAX_TASKS && t != s.current && t in s.queue
    ensures var task := s.tasks[t].(state := Ready, wait := s.ticks, slice := SliceFor(s.tasks[t].priority));
            Unblock(Block(s, t), t) == s.(tasks := s.tasks[t := task])
  {
    BlockMeans(s, t);
    var s1 := Block(s, t);
    UnblockMeans(s1, t);
    var s2 := Unblock(s1, t);
    Rewoken(s, s1, s2, t, s2.tasks[t]);
  }

  /** Blocking a queued task and unblocking it leaves it ready where it was in the queue, with
      a fresh slice. */
  lemma BlockThenUnblock(s: Sched, t: nat)
    requires Inv(s) && t < MAX_TASKS && t != s.current && t in s.queue
    ensures var task := s.tasks[t].(state := Ready, wait := s.ticks, slice := SliceFor(s.tasks[t].priority));
            Run(s, [OpBlock(t), OpUnblock(t)]) == s.(tasks := s.tasks[t := task])
  {
    var s1 := Block(s, t);
    Unblocked(s, t);
    BlockStep(s, t);
    BlockStep(s1, t);
    TwoSteps(s, OpBlock(t), OpUnblock(t));
  }

  // ----------------------------------------------------------------------- sleeping

  /** A sleep of `ms` milliseconds takes the least number of ticks of 10 milliseconds that
      cover it, unless the sum `ms + 9` passes 2^32, and then one. */
  lemma SleepTicksMeans(ms: word)
    ensures var n := SleepTicks(ms);
            if ms <= WORD - 10 then n >= 1 && 10 * n >= ms && (n > 1 ==> 10 * (n - 1) < ms) else n == 1
  {
  }

  /** The current task sleeps until that many ticks from now, blocked and in its place, and
      another task runs that could. */
  lemma SleepMeans(s: Sched, ms: word)
    requires Healthy(s) && s.current != s.idle && ms > 0
    ensures var r, t := Sleep(s, ms), s.current;
            && r.queue == s.queue && r.current != t && r.ticks == s.ticks
            && r.tasks[t] == s.tasks[t].(state := Blocked, sleep := s.ticks + SleepTicks(ms))
            && Runnable(s.tasks[r.current]) && r.tasks[r.current].state == Running
  {
    NapMeans(s, WakeTick(s.ticks, ms));
  }

  lemma NapMeans(s: Sched, until: nat)
    requires Healthy(s) && s.current != s.idle && until > s.ticks
    ensures var r, t := Nap(s, until), s.current;
            && r.queue == s.queue && r.current != t && r.ticks == s.ticks
            && r.tasks[t] == s.tasks[t].(state := Blocked, sleep := until)
            && Runnable(s.tasks[r.current]) && r.tasks[r.current].state == Running
  {
    NapHealthy(s, until);
    BlockedLeaves(s.(tasks := s.tasks[s.current := s.tasks[s.current].(sleep := until, state := Blocked)]));
  }

  ghost function Ticks(s: Sched, n: nat): (r: Sched)
    requires Fits(s)
    ensures Fits(r)
    decreases n
  {
    if n == 0 then s else Ticks(Tick(s), n - 1)
  }

  /** One tick for a sleeper that is not current. */
  lemma SleeperTick(s: Sched, t: nat)
    requires Inv(s) && 0 <= s.current != t < MAX_TASKS && s.tasks[t].state == Blocked && s.tasks[t].sleep > s.ticks
    ensures var r := Tick(s);
            && Inv(r) && r.current == s.current && r.ticks == s.ticks + 1
            && if s.tasks[t].sleep == s.ticks + 1 then r.tasks[t] == Woken(s.tasks[t]) && t in r.queue
               else r.tasks[t] == s.tasks[t]
  {
    TickMeaning(s);
    TickKeeps(s);
  }

  /** A sleeper that nobody unblocks sleeps through all ticks before its time and is ready and
      queued at the tick it sleeps until. */
  lemma {:induction false} SleepsUntil(s: Sched, t: nat, n: nat)
    requires Inv(s) && 0 <= s.current != t < MAX_TASKS && s.tasks[t].state == Blocked
    requires s.ticks < s.tasks[t].sleep && n <= s.tasks[t].sleep - s.ticks
    ensures var r := Ticks(s, n);
            if n < s.tasks[t].sleep - s.ticks then r.tasks[t] == s.tasks[t]
            else r.tasks[t] == Woken(s.tasks[t]) && t in r.queue
    decreases n
  {
    if n == 0 {
    } else {
      SleeperTick(s, t);
      if s.tasks[t].sleep == s.ticks + 1 {
        assert Ticks(s, 1) == Ticks(Tick(s), 0) == Tick(s);
      } else {
        SleepsUntil(Tick(s), t, n - 1);
      }
    }
  }

  // --------------------------------------------------------- queueing and unqueueing

  /** A task that exists and is not queued goes to the end of the queue with a slice; it is
      ready, or runs at once if no task was current. Otherwise nothing changes. */
  lemma AddMeans(s: Sched, t: nat)
    requires Fits(s) && t < MAX_TASKS
    ensures var r, task := Add(s, t), s.tasks[t];
            if task.state == Free || t in s.queue then r == s
            else
              && r.queue == s.queue + [t]
              && r.tasks[t].state == (if s.current == NONE then Running else Ready)
              && r.tasks[t].slice == (if task.slice == 0 then SliceFor(task.priority) else task.slice)
              && r.tasks[t] == task.(state := r.tasks[t].state, slice := r.tasks[t].slice)
              && r.current == (if s.current == NONE then t else s.current)
              && OnlyTask(s, r.(current := s.current), t)
  {
    QueuedIn(s.queue, t);
  }

  /** The head of the queue, or the idle task if there is none, has become current and runs
      with a fresh slice; no other task has changed. */
  ghost predicate HandedOn(s: Sched, r: Sched) {
    && Fits(s) && Fits(r)
    && var h := if r.queue != [] then r.queue[0] else s.idle;
    && r.current == h
    && (h != NONE ==> r.tasks[h] == s.tasks[h].(state := Running, slice := SliceFor(s.tasks[h].priority)))
    && forall u :: 0 <= u < MAX_TASKS && u != h ==> r.tasks[u] == s.tasks[u]
  }

  lemma SucceedMeans(s: Sched)
    requires Fits(s)
    ensures HandedOn(s, Succeed(s)) && Succeed(s).queue == s.queue
  {
  }

  lemma RemoveTakes(s: Sched, t: nat)
    requires Fits(s) && t < MAX_TASKS && t in s.queue
    ensures Remove(s, t).queue == Without(s.queue, t)
    ensures if t == s.current then HandedOn(s, Remove(s, t)) else Remove(s, t) == s.(queue := Without(s.queue, t))
  {
    QueuedIn(s.queue, t);
    SucceedMeans(s.(queue := Without(s.queue, t)));
  }

  /** Removal takes a queued task out of the queue. If it was current, the new head, or the
      idle task if there is none, runs instead with a fresh slice. */
  lemma RemoveMeans(s: Sched, t: nat)
    requires Fits(s) && t < MAX_TASKS
    ensures var r := Remove(s, t);
            && (t !in s.queue ==> r == s)
            && (t in s.queue ==> TakenFrom(s.queue, r.queue, t))
            && (t in s.queue && t != s.current ==> r.current == s.current && r.tasks == s.tasks)
            && (t in s.queue && t == s.current ==> HandedOn(s, r))
  {
    if t in s.queue {
      RemoveTakes(s, t);
      WithoutTakes(s.queue, t);
    } else {
      QueuedIn(s.queue, t);
    }
  }

  /** A freed task is gone: free, without a tid, not queued and not current. No other task
      changes, but for the one that runs in its place. */
  lemma ReleaseMeans(s: Sched, t: nat)
    requires Inv(s) && t < MAX_TASKS
    ensures var r := Release(s, t);
            && r.tasks[t].state == Free && r.tasks[t].tid == -1 && t !in r.queue && r.current != t
            && (t in s.queue ==> TakenFrom(s.queue, r.queue, t)) && (t !in s.queue ==> r.queue == s.queue)
            && (t != s.current ==> r.current == s.current)
            && forall u :: 0 <= u < MAX_TASKS && u != t && (t != s.current || u != r.current) ==> r.tasks[u] == s.tasks[u]
  {
    RemovedNotQueued(s, t);
    RemoveMeans(s, t);
  }

  ghost predicate LowestFree(s: Sched, t: nat)
    requires Fits(s)
  {
    t < MAX_TASKS && s.tasks[t].state == Free && forall u :: 0 <= u < t ==> s.tasks[u].state != Free
  }

  /** A new task gets the lowest free slot, the next tid, its priority and a slice, and is
      queued; without a free slot nothing changes. */
  lemma CreateMeans(s: Sched, priority: nat, prepared: bool)
    requires Inv(s)
    ensures var r := Create(s, priority, prepared);
            && ((forall t :: 0 <= t < MAX_TASKS ==> s.tasks[t].state != Free) ==> r == s)
            && (forall t :: LowestFree(s, t) ==> Created(s, t, priority, prepared, r))
  {
    var f := FreeSlot(s.tasks);
    if f < MAX_TASKS {
      assert f !in s.queue;
      AddMeans(Filled(s, f, priority, prepared), f);
      forall t | LowestFree(s, t)
        ensures Created(s, t, priority, prepared, Create(s, priority, prepared))
      {
        assert t == f;
      }
    }
  }

  ghost predicate Created(s: Sched, t: nat, priority: nat, prepared: bool, r: Sched) {
    && Fits(s) && Fits(r) && t < MAX_TASKS && r.queue == s.queue + [t]
    && r.tasks[t].tid == s.nextTid && r.nextTid == s.nextTid + 1
    && r.tasks[t].priority == priority && r.tasks[t].slice == SliceFor(if prepared then priority else NORMAL)
    && r.tasks[t].state == (if s.current == NONE then Running else Ready)
    && r.tasks[t].sleep == r.tasks[t].wait == r.tasks[t].runTime == 0
    && r.tasks[t].lastRun == (if prepared then s.ticks else 0)
    && r.current == (if s.current == NONE then t else s.current) && r.idle == s.idle && r.ticks == s.ticks
    && forall u :: 0 <= u < MAX_TASKS && u != t ==> r.tasks[u] == s.tasks[u]
  }

  /** Ending leaves a zombie that is not queued and not current. */
  lemma ExitMeans(s: Sched)
    requires Healthy(s) && s.current != s.idle
    ensures var r, t := Exit(s), s.current;
            r.tasks[t].state == Zombie && t !in r.queue && r.current != t && TakenFrom(s.queue, r.queue, t)
  {
    EndedFacts(s);
    ExitChoice(s);
    WithoutFacts(s.queue, s.current);
    WithoutTakes(s.queue, s.current);
  }

  // ------------------------------------------------------------------- rescheduling

  /** What a switch from task `c` to task `t` leaves in the table. */
  ghost predicate Switched(s: Sched, c: nat, t: nat, r: Sched) {
    && Fits(s) && Fits(r) && c < MAX_TASKS && t < MAX_TASKS && c != t && r.current == t
    && r.tasks[t].state == Running && r.tasks[t].lastRun == s.ticks
    && r.tasks[t].slice == (if s.tasks[t].slice == 0 then SliceFor(s.tasks[t].priority) else s.tasks[t].slice)
    && r.tasks[t] == s.tasks[t].(state := Running, lastRun := s.ticks, slice := r.tasks[t].slice)
    && r.tasks[c] == s.tasks[c].(state := if s.tasks[c].state == Running then Ready else s.tasks[c].state)
    && r.queue == s.queue && r.ticks == s.ticks && r.idle == s.idle
    && forall u :: 0 <= u < MAX_TASKS && u != c && u != t ==> r.tasks[u] == s.tasks[u]
  }

  /** Rescheduling with time left either changes nothing or switches to a queued ready task
      of a higher priority. */
  lemma PreemptMeans(s: Sched)
    requires Inv(s) && Continues(s) && s.queue != []
    ensures var r := Schedule(s);
            if forall t :: t in s.queue && t != s.current && s.tasks[t].state == Ready ==>
                 s.tasks[t].priority <= s.tasks[s.current].priority
            then r == s
            else r.current in s.queue && s.tasks[r.current].state == Ready
                 && s.tasks[r.current].priority > s.tasks[s.current].priority && Switched(s, s.current, r.current, r)
  {
    Preemption(s);
  }

  /** Rescheduling from a task that cannot run switches to the first ready task behind it. */
  lemma HandOverMeans(s: Sched, i: nat)
    requires Inv(s) && s.current != NONE && s.tasks[s.current].state !in {Ready, Running}
    requires i < |s.queue| && s.tasks[Turn(s.queue, s.current)[i]].state == Ready
    requires forall j :: 0 <= j < i ==> s.tasks[Turn(s.queue, s.current)[j]].state != Ready
    ensures Switched(s, s.current, Turn(s.queue, s.current)[i], Schedule(s))
  {
    DispatchComplete(s, i);
    var t := Turn(s.queue, s.current)[i];
    assert t in s.queue;
    PicksReady(s, t);
  }

  ghost predicate NobodyReady(s: Sched)
    requires Fits(s)
  {
    forall t :: t in s.queue ==> s.tasks[t].state != Ready
  }

  /** If nobody is ready the idle task runs, whatever it was doing; without one the current
      task runs on. */
  lemma IdleMeans(s: Sched)
    requires Inv(s) && s.current != NONE && s.tasks[s.current].state != Running && s.queue != [] && NobodyReady(s)
    ensures var r := Schedule(s); var t := if s.idle != NONE && s.tasks[s.idle].state != Free then s.idle else s.current;
            && r.current == t && r.tasks[t].state == Running && r.tasks[t].lastRun == s.ticks && r.queue == s.queue
            && forall u :: 0 <= u < MAX_TASKS && u != t ==> r.tasks[u] == s.tasks[u]
  {
    TurnFacts(s.queue, s.current);
    NoneReady(s.tasks, Turn(s.queue, s.current));
  }

  /** Without a current task the first ready task of the queue is dispatched. */
  lemma StartMeans(s: Sched, i: nat)
    requires Inv(s) && s.current == NONE && i < |s.queue| && s.tasks[s.queue[i]].state == Ready
    requires forall j :: 0 <= j < i ==> s.tasks[s.queue[j]].state != Ready
    ensures var r, t := Schedule(s), s.queue[i];
            && r.current == t && r.queue == s.queue && r.tasks[t].state == Running && r.tasks[t].lastRun == s.ticks
            && r.tasks[t].slice == (if s.tasks[t].slice == 0 then SliceFor(s.tasks[t].priority) else s.tasks[t].slice)
            && forall u :: 0 <= u < MAX_TASKS && u != t ==> r.tasks[u] == s.tasks[u]
  {
    assert NONE !in s.queue;
    QueuedIn(s.queue, NONE);
    assert Turn(s.queue, NONE) == s.queue;
    FirstReadyIs(s.tasks, s.queue, i);
  }

  /** The circular order: the queue behind the task, then the queue up to and with it. */
  lemma TurnMeans(q: seq<nat>, t: nat)
    ensures t !in q ==> Turn(q, t) == q
    ensures t in q ==> exists xs, ys :: q == xs + [t] + ys && t !in xs && Turn(q, t) == ys + xs + [t]
  {
    QueuedIn(q, t);
    if t in q {
      var p := IndexOf(q, t);
      assert q == q[..p] + [t] + q[p + 1..];
      assert Turn(q, t) == q[p + 1..] + q[..p] + [t];
    }
  }
}
