/** The scheduler on values: a table of tasks, the run queue as a sequence of table
    slots, and what the scheduler's entry points do to them. */
module SchedModel {
  import opened Bits
  import opened Distinctness
  import opened Tasks

  const MAX_TASKS: nat := 256
  const NONE: int := -1

  const IDLE: nat := 0
  const NORMAL: nat := 5
  const HIGH: nat := 10
  const REALTIME: nat := 15

  /** A task slot; `sleep` is the tick to wake at, 0 for none. */
  datatype Task = Task(tid: int, state: TaskState, priority: nat, slice: nat,
                       sleep: nat, wait: nat, lastRun: nat, runTime: nat)

  /** `current` and `idle` are slots, or `NONE`. */
  datatype Sched = Sched(tasks: seq<Task>, queue: seq<nat>, current: int, idle: int, ticks: nat, nextTid: int)

  function SliceFor(priority: nat): (n: nat)
    ensures n > 0
  {
    if priority == IDLE then 2
    else if priority == NORMAL then 10
    else if priority == HIGH then 20
    else if priority == REALTIME then 30
    else 10
  }

  ghost predicate Fits(s: Sched) {
    && |s.tasks| == MAX_TASKS
    && (forall i :: 0 <= i < |s.queue| ==> s.queue[i] < MAX_TASKS)
    && NONE <= s.current < MAX_TASKS && NONE <= s.idle < MAX_TASKS
  }

  /** What every run keeps: queued tasks are distinct and exist, only the current task
      is marked as running, and the current task exists. */
  ghost predicate Inv(s: Sched) {
    && Fits(s)
    && Distinct(s.queue)
    && (forall i :: 0 <= i < |s.queue| ==> s.tasks[s.queue[i]].state != Free)
    && (forall t :: 0 <= t < MAX_TASKS && s.tasks[t].state == Running ==> t == s.current)
    && (s.current != NONE ==> s.tasks[s.current].state != Free)
  }

  // ------------------------------------------------------------------ queues

  /** The place of `t` in `q`, its length if `t` is not there. */
  ghost function IndexOf(q: seq<nat>, t: int): (i: nat)
    ensures i <= |q|
    ensures i < |q| ==> q[i] == t
    ensures forall j :: 0 <= j < i ==> q[j] != t
  {
    if q == [] || q[0] == t then 0 else 1 + IndexOf(q[1..], t)
  }

  ghost predicate Queued(q: seq<nat>, t: int) {
    IndexOf(q, t) < |q|
  }

  ghost function Without(q: seq<nat>, t: int): seq<nat> {
    var p := IndexOf(q, t);
    if p < |q| then q[..p] + q[p + 1..] else q
  }

  /** The queue in circular order, starting behind `t`; from its head if `t` is not queued. */
  ghost function Turn(q: seq<nat>, t: int): (r: seq<nat>)
    ensures |r| == |q| && forall i :: 0 <= i < |r| ==> r[i] in q
  {
    var p := IndexOf(q, t);
    if p < |q| then q[p + 1..] + q[..p + 1] else q
  }

  /** The first ready task of `order`. */
  ghost function FirstReady(tasks: seq<Task>, order: seq<nat>): (t: int)
    requires forall i :: 0 <= i < |order| ==> order[i] < |tasks|
    ensures t != NONE ==> 0 <= t < |tasks| && tasks[t].state == Ready && t in order
  {
    if order == [] then NONE
    else if tasks[order[0]].state == Ready then order[0]
    else FirstReady(tasks, order[1..])
  }

  /** The first ready task of `order`, other than `cur`, with a higher priority. */
  ghost function FirstAbove(tasks: seq<Task>, order: seq<nat>, cur: nat): (t: int)
    requires cur < |tasks| && forall i :: 0 <= i < |order| ==> order[i] < |tasks|
    ensures t != NONE ==> 0 <= t < |tasks| && tasks[t].state == Ready && t in order && t != cur
  {
    if order == [] then NONE
    else if order[0] != cur && tasks[order[0]].state == Ready && tasks[order[0]].priority > tasks[cur].priority then order[0]
    else FirstAbove(tasks, order[1..], cur)
  }

  // -------------------------------------------------------------- operations

  ghost function SetState(s: Sched, t: nat, state: TaskState): Sched
    requires t < |s.tasks|
  {
    s.(tasks := s.tasks[t := s.tasks[t].(state := state)])
  }

  /** `scheduler_add_task`. */
  ghost function Add(s: Sched, t: nat): (r: Sched)
    requires Fits(s) && t < MAX_TASKS
    ensures Fits(r)
  {
    if s.tasks[t].state == Free || Queued(s.queue, t) then s
    else
      var task := s.tasks[t];
      var slice := if task.slice == 0 then SliceFor(task.priority) else task.slice;
      var state := if s.current == NONE then Running else Ready;
      s.(tasks := s.tasks[t := task.(state := state, slice := slice)],
         queue := s.queue + [t],
         current := if s.current == NONE then t else s.current)
  }

  /** The task that follows a current task taken away: the head of the queue, or else the idle task. */
  ghost function Heir(q: seq<nat>, idle: int): (t: int)
    ensures t == idle || t in q
  {
    if q != [] then q[0] else idle
  }

  /** The heir becomes current, whatever its state. */
  ghost function Succeed(s: Sched): (r: Sched)
    requires Fits(s)
    ensures Fits(r)
  {
    var heir := Heir(s.queue, s.idle);
    if heir == NONE then s.(current := NONE)
    else s.(current := heir,
            tasks := s.tasks[heir := s.tasks[heir].(state := Running, slice := SliceFor(s.tasks[heir].priority))])
  }

  /** `scheduler_remove_task`. */
  ghost function Remove(s: Sched, t: nat): (r: Sched)
    requires Fits(s) && t < MAX_TASKS
    ensures Fits(r)
  {
    if !Queued(s.queue, t) then s
    else
      var s1 := s.(queue := Without(s.queue, t));
      if s.current == t then Succeed(s1) else s1
  }

  /** `tcb_free`. */
  ghost function Release(s: Sched, t: nat): (r: Sched)
    requires Fits(s) && t < MAX_TASKS
    ensures Fits(r)
  {
    var s1 := Remove(s, t);
    s1.(current := if s1.current == t then NONE else s1.current,
        tasks := s1.tasks[t := s1.tasks[t].(state := Free, tid := INVALID_TID)])
  }

  /** The lowest free slot, the number of slots if there is none. */
  ghost function FreeSlot(tasks: seq<Task>): (i: nat)
    ensures i <= |tasks|
    ensures i < |tasks| ==> tasks[i].state == Free
    ensures forall j :: 0 <= j < i ==> tasks[j].state != Free
  {
    if tasks == [] || tasks[0].state == Free then 0 else 1 + FreeSlot(tasks[1..])
  }

  /** Slot `t` set up for a new task. */
  ghost function Filled(s: Sched, t: nat, priority: nat, prepared: bool): (r: Sched)
    requires Fits(s) && t < MAX_TASKS
    ensures Fits(r)
  {
    var slice := SliceFor(if prepared then priority else NORMAL);
    var task := Task(s.nextTid, Ready, priority, slice, 0, 0, if prepared then s.ticks else 0, 0);
    s.(tasks := s.tasks[t := task], nextTid := s.nextTid + 1)
  }

  /** `tcb_create`; `prepared` tells whether the initial context could be set up. */
  ghost function Create(s: Sched, priority: nat, prepared: bool): (r: Sched)
    requires Fits(s)
    ensures Fits(r)
  {
    var t := FreeSlot(s.tasks);
    if t == MAX_TASKS then s else Add(Filled(s, t, priority, prepared), t)
  }

  /** The current task is running and has time left. */
  ghost predicate Continues(s: Sched)
    requires Fits(s)
  {
    s.current != NONE && s.tasks[s.current].state == Running && s.tasks[s.current].slice > 0
  }

  ghost predicate IdleExists(s: Sched)
    requires Fits(s)
  {
    s.idle != NONE && s.tasks[s.idle].state != Free
  }

  /** The task `scheduler_pick_next` returns. */
  ghost function Choice(s: Sched): (t: int)
    requires Fits(s)
    ensures NONE <= t < MAX_TASKS && (s.current != NONE ==> t != NONE)
  {
    if s.queue == [] then (if s.current != NONE then s.current else s.idle)
    else if Continues(s) then
      var above := FirstAbove(s.tasks, s.queue, s.current);
      if above != NONE then above else s.current
    else
      var ready := FirstReady(s.tasks, Turn(s.queue, s.current));
      if ready != NONE then ready else if IdleExists(s) then s.idle else s.current
  }

  /** The state `scheduler_pick_next` leaves: an idle task it falls back on is made ready. */
  ghost function Picked(s: Sched): (r: Sched)
    requires Fits(s)
    ensures Fits(r) && r.current == s.current
  {
    if s.queue != [] && !Continues(s) && FirstReady(s.tasks, Turn(s.queue, s.current)) == NONE
       && IdleExists(s) && s.tasks[s.idle].state != Running
    then SetState(s, s.idle, Ready) else s
  }

  ghost function Dispatch(s: Sched, t: nat): (r: Sched)
    requires Fits(s) && t < MAX_TASKS
    ensures Fits(r)
  {
    var task := s.tasks[t];
    var slice := if task.slice == 0 then SliceFor(task.priority) else task.slice;
    s.(tasks := s.tasks[t := task.(state := Running, lastRun := s.ticks, slice := slice)], current := t)
  }

  /** A running task whose slice is used up becomes ready and, unless it is last, goes
      to the end of the queue. */
  ghost function Expire(s: Sched): (r: Sched)
    requires Fits(s) && s.current != NONE
    ensures Fits(r) && r.current == s.current
  {
    var c := s.current;
    var task := s.tasks[c];
    if task.state != Running || task.slice != 0 then s
    else
      s.(tasks := s.tasks[c := task.(state := Ready, slice := SliceFor(task.priority))],
         queue := if Queued(s.queue, c) && IndexOf(s.queue, c) < |s.queue| - 1
                  then Without(s.queue, c) + [c] else s.queue)
  }

  ghost function Switch(s: Sched, t: nat): (r: Sched)
    requires Fits(s) && s.current != NONE && t < MAX_TASKS
    ensures Fits(r)
  {
    if t == s.current then
      if s.tasks[t].state != Running
      then s.(tasks := s.tasks[t := s.tasks[t].(state := Running, lastRun := s.ticks)]) else s
    else
      Dispatch(if s.tasks[s.current].state == Running then SetState(s, s.current, Ready) else s, t)
  }

  /** `scheduler_schedule`. */
  ghost function Schedule(s: Sched): (r: Sched)
    requires Fits(s)
    ensures Fits(r)
  {
    if s.current == NONE then
      if Choice(s) == NONE then Picked(s) else Dispatch(Picked(s), Choice(s))
    else
      var s1 := Expire(s);
      Switch(Picked(s1), Choice(s1))
  }

  /** `tcb_yield`; without a current task it only waits for an interrupt. */
  ghost function Yield(s: Sched): (r: Sched)
    requires Fits(s)
    ensures Fits(r)
  {
    if s.current == NONE then s
    else Schedule(s.(tasks := s.tasks[s.current := s.tasks[s.current].(slice := 0)]))
  }

  /** `tcb_block`. */
  ghost function Block(s: Sched, t: nat): (r: Sched)
    requires Fits(s) && t < MAX_TASKS
    ensures Fits(r)
  {
    if t == s.current then Schedule(SetState(s, t, Blocked))
    else s.(tasks := s.tasks[t := s.tasks[t].(state := Blocked, wait := s.ticks)])
  }

  /** Make a blocked task ready and queue it unless it is queued. */
  ghost function Rouse(s: Sched, t: nat): (r: Sched)
    requires Fits(s) && t < MAX_TASKS
    ensures Fits(r)
  {
    s.(tasks := s.tasks[t := s.tasks[t].(state := Ready, slice := SliceFor(s.tasks[t].priority))],
       queue := if Queued(s.queue, t) then s.queue else s.queue + [t])
  }

  /** `tcb_unblock`. */
  ghost function Unblock(s: Sched, t: nat): (r: Sched)
    requires Fits(s) && t < MAX_TASKS
    ensures Fits(r)
  {
    if s.tasks[t].state != Blocked then s else Rouse(s, t)
  }

  /** The number of ticks a sleep takes: tenths of the 32-bit sum `ms + 9`, at least one. */
  function SleepTicks(ms: word): (n: nat)
    ensures n > 0
  {
    var sum := if ms + 9 < WORD then ms + 9 else ms + 9 - WORD;
    if sum < 10 then 1 else sum / 10
  }

  function WakeTick(now: nat, ms: word): (until: nat)
    ensures until > now
  {
    now + SleepTicks(ms)
  }

  /** The current task blocks until the given tick. */
  ghost function Nap(s: Sched, until: nat): (r: Sched)
    requires Fits(s) && s.current != NONE
    ensures Fits(r)
  {
    Schedule(s.(tasks := s.tasks[s.current := s.tasks[s.current].(sleep := until, state := Blocked)]))
  }

  /** `tcb_sleep`; without a current task it waits outside the scheduler. */
  ghost function Sleep(s: Sched, ms: word): (r: Sched)
    requires Fits(s)
    ensures Fits(r)
  {
    if s.current == NONE then s
    else if ms == 0 then Yield(s)
    else Nap(s, WakeTick(s.ticks, ms))
  }

  ghost predicate Due(task: Task, now: nat) {
    task.state == Blocked && task.sleep != 0 && now >= task.sleep
  }

  /** Wake slot `t` if its sleep is over. */
  ghost function WakeOne(s: Sched, t: nat): (r: Sched)
    requires Fits(s) && t < MAX_TASKS
    ensures Fits(r)
  {
    if Due(s.tasks[t], s.ticks)
    then Rouse(s.(tasks := s.tasks[t := s.tasks[t].(sleep := 0, wait := 0)]), t) else s
  }

  /** Wake the due sleepers among the first `n` slots, in order. */
  ghost function WakeUpTo(s: Sched, n: nat): (r: Sched)
    requires Fits(s) && n <= MAX_TASKS
    ensures Fits(r)
  {
    if n == 0 then s else WakeOne(WakeUpTo(s, n - 1), n - 1)
  }

  /** Account one tick to the current task. */
  ghost function Charge(s: Sched): (r: Sched)
    requires Fits(s) && s.current != NONE
    ensures Fits(r)
  {
    var task := s.tasks[s.current];
    var slice := if task.state == Running && task.slice > 0 then task.slice - 1 else task.slice;
    s.(tasks := s.tasks[s.current := task.(runTime := task.runTime + 1, slice := slice)])
  }

  /** `scheduler_tick`. */
  ghost function Tick(s: Sched): (r: Sched)
    requires Fits(s)
    ensures Fits(r)
  {
    var s1 := s.(ticks := s.ticks + 1);
    if s.current == NONE then s1 else WakeUpTo(Charge(s1), MAX_TASKS)
  }

  /** `tcb_exit`; without a current task it halts. */
  ghost function Exit(s: Sched): (r: Sched)
    requires Fits(s)
    ensures Fits(r)
  {
    if s.current == NONE then s
    else Schedule(Remove(SetState(s, s.current, Zombie), s.current))
  }
}
