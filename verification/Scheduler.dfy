/** The scheduler as it is written: task slots linked into a run queue and updated in
    place. Every method does to its view what the operation of the same name does. */
module Scheduler {
  import opened Bits
  import opened Distinctness
  import opened Tasks
  import opened SchedModel
  import opened SchedLinks
  import R = SchedRuns
  import O = SchedOrder

  /** Moving the head to the end, link by link. */
  lemma RotateHead(q: seq<nat>, l: Links, c: nat)
    requires Spells(q, l) && |q| > 1 && q[0] == c
    ensures l.next[c] >= 0 && l.tail >= 0 && Spells(Cut(q, 0) + [c],
              Links(l.next[c := NONE][l.tail := c], l.prev[l.next[c] := NONE][c := l.tail], l.next[c], c))
  {
    Neighbours(q, l, 0);
    UnlinkSpells(q, l, 0);
    CutIn(q, 0, c);
    AppendSpells(Cut(q, 0), Unlinked(l, c), c);
    assert Links(l.next[c := NONE][l.tail := c], l.prev[l.next[c] := NONE][c := l.tail], l.next[c], c)
        == Appended(Unlinked(l, c), c);
  }

  /** Moving a task from the middle to the end. */
  lemma RotateMiddle(q: seq<nat>, l: Links, k: nat, c: nat)
    requires Spells(q, l) && 0 < k < |q| - 1 && q[k] == c
    ensures l.next[c] >= 0 && l.prev[c] >= 0 && l.tail >= 0
    ensures Spells(Cut(q, k) + [c],
              Links(l.next[l.prev[c] := l.next[c]][c := NONE][l.tail := c],
                    l.prev[l.next[c] := l.prev[c]][c := l.tail], l.head, c))
  {
    Neighbours(q, l, k);
    UnlinkSpells(q, l, k);
    CutIn(q, k, c);
    AppendSpells(Cut(q, k), Unlinked(l, c), c);
    assert Links(l.next[l.prev[c] := l.next[c]][c := NONE][l.tail := c],
                 l.prev[l.next[c] := l.prev[c]][c := l.tail], l.head, c)
        == Appended(Unlinked(l, c), c);
  }

  /** The search round the queue has come to the `i`-th task and found none ready before. */
  ghost predicate Turning(tasks: seq<Task>, order: seq<nat>, i: int, t: int) {
    && 0 <= i < |order| && t == order[i]
    && forall j :: 0 <= j < i ==> order[j] < |tasks| && tasks[order[j]].state != Ready
  }

  /** The search for a task above the current one, from place `i` on. */
  lemma AboveOn(tasks: seq<Task>, q: seq<nat>, c: nat, i: nat)
    requires c < |tasks| && i < |q| && forall j :: 0 <= j < |q| ==> q[j] < |tasks|
    ensures FirstAbove(tasks, q[i..], c) ==
            if q[i] != c && tasks[q[i]].state == Ready && tasks[q[i]].priority > tasks[c].priority then q[i]
            else FirstAbove(tasks, q[i + 1..], c)
  {
    assert q[i..][1..] == q[i + 1..];
  }

  /** The link walk steps to the next task of the turn, or is back at its start having found none. */
  lemma TurnStep(tasks: seq<Task>, q: seq<nat>, l: Links, c: int, i: nat, t: nat, n: int)
    requires Spells(q, l) && |tasks| == MAX_TASKS && t < MAX_TASKS && Turning(tasks, Turn(q, c), i, t) && tasks[t].state != Ready
    requires n == if l.next[t] == NONE then l.head else l.next[t]
    ensures |q| <= MAX_TASKS && 0 <= n < MAX_TASKS && (n == Turn(q, c)[0] <==> i + 1 == |q|)
    ensures if i + 1 < |q| then Turning(tasks, Turn(q, c), i + 1, n) else FirstReady(tasks, Turn(q, c)) == NONE
  {
    var order := Turn(q, c);
    TurnDistinct(q, c);
    TurnOn(q, l, c, i);
    if i + 1 == |q| { O.NoneReady(tasks, order); }
  }

  class Scheduler {
    var tasks: seq<Task>
    var next: seq<int>
    var prev: seq<int>
    var head: int
    var tail: int
    var current: int
    var idle: int
    var ticks: nat
    var nextTid: int
    ghost var queue: seq<nat>

    ghost function View(): Sched
      reads this
    {
      Sched(tasks, queue, current, idle, ticks, nextTid)
    }

    ghost predicate Linked()
      reads this
    {
      Fits(View()) && Spells(queue, Links(next, prev, head, tail))
    }

    ghost predicate Valid()
      reads this
    {
      Linked() && Inv(View())
    }

    method InQueue(t: nat) returns (found: bool)
      requires Linked()
      ensures found <==> Queued(queue, t)
      ensures found <==> t in queue
    {
      R.QueuedIn(queue, t);
      var it := head;
      ghost var i := 0;
      while it != NONE
        invariant 0 <= i <= |queue| && it == At(queue, i)
        invariant forall j :: 0 <= j < i ==> queue[j] != t
        decreases |queue| - i
      {
        if it == t { return true; }
        it := next[it];
        i := i + 1;
      }
      return false;
    }

    /** Link a task behind the tail. */
    method Append(t: nat)
      requires Linked() && t < MAX_TASKS && t !in queue
      modifies `next, `prev, `head, `tail, `queue
      ensures Linked() && queue == old(queue) + [t]
    {
      AppendSpells(queue, Links(next, prev, head, tail), t);
      next := next[t := NONE];
      prev := prev[t := tail];
      if head == NONE {
        head := t;
      } else {
        next := next[tail := t];
      }
      tail := t;
      queue := queue + [t];
    }

    /** `scheduler_add_task`. */
    method AddTask(t: nat)
      requires Linked() && t < MAX_TASKS
      modifies this
      ensures Linked() && View() == Add(old(View()), t)
    {
      if tasks[t].state == Free { return; }
      var queued := InQueue(t);
      if queued { return; }
      var task := tasks[t].(state := Ready);
      if task.slice == 0 { task := task.(slice := SliceFor(task.priority)); }
      tasks := tasks[t := task];
      Append(t);
      if current == NONE {
        current := t;
        tasks := tasks[t := task.(state := Running)];
      }
    }

    /** Unlink a queued task. */
    method Unlink(t: nat)
      requires Linked() && t in queue
      modifies `next, `prev, `head, `tail, `queue
      ensures Linked() && queue == Without(old(queue), t)
    {
      R.QueuedIn(queue, t);
      ghost var k := IndexOf(queue, t);
      UnlinkSpells(queue, Links(next, prev, head, tail), k);
      var n, p := next[t], prev[t];
      if p != NONE { next := next[p := n]; } else { head := n; }
      if n != NONE { prev := prev[n := p]; } else { tail := p; }
      next := next[t := NONE];
      prev := prev[t := NONE];
      queue := Cut(queue, k);
    }

    /** `scheduler_remove_task`. */
    method RemoveTask(t: nat)
      requires Linked() && t < MAX_TASKS
      modifies this
      ensures Linked() && View() == Remove(old(View()), t)
    {
      if head == NONE { return; }
      var found := InQueue(t);
      if !found { return; }
      Unlink(t);
      if current == t { PromoteHead(); }
    }

    /** The head of the queue, or else the idle task, becomes current. */
    method PromoteHead()
      requires Linked()
      modifies `current, `tasks
      ensures Linked() && View() == Succeed(old(View()))
    {
      current := if head != NONE then head else idle;
      if current != NONE {
        tasks := tasks[current := tasks[current].(state := Running, slice := SliceFor(tasks[current].priority))];
      }
    }

    /** `tcb_free`. */
    method FreeTask(t: nat)
      requires Linked() && t < MAX_TASKS
      modifies this
      ensures Linked() && View() == Release(old(View()), t)
    {
      RemoveTask(t);
      if current == t { current := NONE; }
      tasks := tasks[t := tasks[t].(state := Free, tid := INVALID_TID)];
    }

    /** `tcb_create`: the lowest free slot is taken and queued. */
    method CreateTask(priority: nat, prepared: bool) returns (t: int)
      requires Valid()
      modifies this
      ensures Linked() && View() == Create(old(View()), priority, prepared)
      ensures t == if FreeSlot(old(tasks)) == MAX_TASKS then NONE else FreeSlot(old(tasks))
    {
      var i := FindFree();
      if i == MAX_TASKS { return NONE; }
      FillSlot(i, priority, prepared);
      AddTask(i);
      return i;
    }

    /** Set up a free slot. */
    method FillSlot(i: nat, priority: nat, prepared: bool)
      requires Linked() && i < MAX_TASKS && i !in queue
      modifies `tasks, `nextTid, `next, `prev
      ensures Linked() && View() == Filled(old(View()), i, priority, prepared)
    {
      var task := Task(nextTid, Ready, priority, SliceFor(NORMAL), 0, 0, 0, 0);
      nextTid := nextTid + 1;
      next := next[i := NONE];
      prev := prev[i := NONE];
      if prepared { task := task.(slice := SliceFor(priority), lastRun := ticks); }
      tasks := tasks[i := task];
    }

    method FindFree() returns (i: nat)
      requires |tasks| == MAX_TASKS
      ensures i == FreeSlot(tasks)
    {
      i := 0;
      while i < MAX_TASKS && tasks[i].state != Free
        invariant i <= MAX_TASKS && forall j :: 0 <= j < i ==> tasks[j].state != Free
      {
        i := i + 1;
      }
    }

    /** The search for a ready task of higher priority than the current one. */
    method ScanAbove() returns (t: int)
      requires Linked() && current != NONE
      ensures t == FirstAbove(tasks, queue, current)
    {
      t := head;
      ghost var i := 0;
      while t != NONE
        invariant 0 <= i <= |queue| && t == At(queue, i)
        invariant FirstAbove(tasks, queue, current) == FirstAbove(tasks, queue[i..], current)
        decreases |queue| - i
      {
        AboveOn(tasks, queue, current, i);
        if t != current && tasks[t].state == Ready && tasks[t].priority > tasks[current].priority { return; }
        t := next[t];
        i := i + 1;
      }
    }

    /** The search round the queue, bounded by the number of slots. */
    method ScanTurn() returns (t: int)
      requires Linked() && queue != []
      ensures t == FirstReady(tasks, Turn(queue, current))
    {
      ghost var l := Links(next, prev, head, tail);
      TurnStart(queue, l, current);
      var start := if current != NONE then next[current] else NONE;
      if start == NONE { start := head; }
      t := ScanFrom(start);
    }

    method ScanFrom(start: nat) returns (t: int)
      requires Linked() && queue != [] && start == Turn(queue, current)[0]
      ensures t == FirstReady(tasks, Turn(queue, current))
    {
      ghost var l, order := Links(next, prev, head, tail), Turn(queue, current);
      TurnDistinct(queue, current);
      t := start;
      var i := 0;
      while i < MAX_TASKS
        invariant Turning(tasks, order, i, t)
        decreases |queue| - i
      {
        if tasks[t].state == Ready {
          O.FirstReadyIs(tasks, order, i);
          return;
        }
        ghost var was := t;
        t := next[t];
        if t == NONE { t := head; }
        TurnStep(tasks, queue, l, current, i, was, t);
        if t == start { break; }
        i := i + 1;
      }
      return NONE;
    }

    /** The fallback search: a ready task of the highest priority. */
    method ScanBest() returns (best: int)
      requires Linked()
      ensures best == NONE <==> forall t :: t in queue ==> tasks[t].state != Ready
      ensures best != NONE ==> best in queue && tasks[best].state == Ready
      ensures best != NONE ==>
        forall t :: t in queue && tasks[t].state == Ready ==> tasks[t].priority <= tasks[best].priority
    {
      best := NONE;
      var it := head;
      ghost var i := 0;
      while it != NONE
        invariant 0 <= i <= |queue| && it == At(queue, i)
        invariant best == NONE <==> forall j :: 0 <= j < i ==> tasks[queue[j]].state != Ready
        invariant best != NONE ==> best in queue && tasks[best].state == Ready
        invariant best != NONE ==>
          forall j :: 0 <= j < i && tasks[queue[j]].state == Ready ==> tasks[queue[j]].priority <= tasks[best].priority
        decreases |queue| - i
      {
        if tasks[it].state == Ready && (best == NONE || tasks[it].priority > tasks[best].priority) {
          best := it;
        }
        it := next[it];
        i := i + 1;
      }
    }

    /** `scheduler_pick_next`; its fallback search never finds anything. */
    method PickNext() returns (t: int)
      requires Linked()
      modifies `tasks
      ensures t == Choice(old(View())) && View() == Picked(old(View())) && Linked()
    {
      if head == NONE { return if current != NONE then current else idle; }
      if current != NONE && tasks[current].state == Running && tasks[current].slice > 0 {
        t := ScanAbove();
        return if t != NONE then t else current;
      }
      t := ScanTurn();
      if t == NONE { t := FallBack(); }
    }

    /** What is left when the search round the queue has found nothing. */
    method FallBack() returns (t: int)
      requires Linked() && queue != [] && !Continues(View()) && FirstReady(tasks, Turn(queue, current)) == NONE
      modifies `tasks
      ensures t == Choice(old(View())) && View() == Picked(old(View())) && Linked()
    {
      R.TurnFacts(queue, current);
      O.NoneReady(tasks, Turn(queue, current));
      t := ScanBest();
      if t != NONE { assert false; }
      if idle != NONE && tasks[idle].state != Free {
        if tasks[idle].state != Running { tasks := tasks[idle := tasks[idle].(state := Ready)]; }
        return idle;
      }
      return current;
    }

    /** The rotation of a task whose slice is used up, head or middle. */
    method Rotate()
      requires Linked() && current != NONE && current in queue && IndexOf(queue, current) < |queue| - 1
      modifies `next, `prev, `head, `tail, `queue
      ensures Linked() && queue == Without(old(queue), current) + [current]
    {
      if current == head { RotateFromHead(); } else { RotateFromMiddle(); }
    }

    method RotateFromHead()
      requires Linked() && current != NONE && current == head && IndexOf(queue, current) < |queue| - 1
      modifies `next, `prev, `head, `tail, `queue
      ensures Linked() && queue == Without(old(queue), current) + [current]
    {
      RotateHead(queue, Links(next, prev, head, tail), current);
      head := next[current];
      prev := prev[head := NONE];
      prev := prev[current := tail];
      next := next[current := NONE];
      next := next[tail := current];
      tail := current;
      queue := Cut(queue, 0) + [current];
    }

    method RotateFromMiddle()
      requires Linked() && current != NONE && current != head && IndexOf(queue, current) < |queue| - 1
      modifies `next, `prev, `head, `tail, `queue
      ensures Linked() && queue == Without(old(queue), current) + [current]
    {
      ghost var k := IndexOf(queue, current);
      RotateMiddle(queue, Links(next, prev, head, tail), k, current);
      var n, p := next[current], prev[current];
      next := next[p := n];
      prev := prev[n := p];
      prev := prev[current := tail];
      next := next[current := NONE];
      next := next[tail := current];
      tail := current;
      queue := Cut(queue, k) + [current];
    }

    /** The part of `scheduler_schedule` that ends a used-up slice. */
    method ExpireSlice()
      requires Linked() && current != NONE
      modifies this
      ensures Linked() && View() == Expire(old(View()))
    {
      if tasks[current].state == Running && tasks[current].slice == 0 {
        tasks := tasks[current := tasks[current].(state := Ready, slice := SliceFor(tasks[current].priority))];
        RotateUnlessLast();
      }
    }

    method RotateUnlessLast()
      requires Linked() && current != NONE
      modifies `next, `prev, `head, `tail, `queue
      ensures Linked()
      ensures queue == if Queued(old(queue), current) && IndexOf(old(queue), current) < |old(queue)| - 1
                       then Without(old(queue), current) + [current] else old(queue)
    {
      HasNext(queue, Links(next, prev, head, tail), current);
      if head != NONE && tail != NONE && next[current] != NONE {
        Rotate();
      }
    }

    /** `scheduler_schedule`, up to the switch of the processor context. */
    method ScheduleNext()
      requires Linked()
      modifies this
      ensures Linked() && View() == Schedule(old(View()))
    {
      if current == NONE {
        current := PickNext();
        if current != NONE {
          var task := tasks[current].(state := Running, lastRun := ticks);
          if task.slice == 0 { task := task.(slice := SliceFor(task.priority)); }
          tasks := tasks[current := task];
        }
        return;
      }
      ExpireSlice();
      var t := PickNext();
      SwitchTo(t);
    }

    method SwitchTo(t: nat)
      requires Linked() && current != NONE && t < MAX_TASKS
      modifies this
      ensures Linked() && View() == Switch(old(View()), t)
    {
      if t == current {
        if tasks[t].state != Running {
          tasks := tasks[t := tasks[t].(state := Running, lastRun := ticks)];
        }
        return;
      }
      if tasks[current].state == Running { tasks := tasks[current := tasks[current].(state := Ready)]; }
      var task := tasks[t].(state := Running, lastRun := ticks);
      if task.slice == 0 { task := task.(slice := SliceFor(task.priority)); }
      tasks := tasks[t := task];
      current := t;
    }

    /** `tcb_yield`. */
    method YieldTask()
      requires Linked()
      modifies this
      ensures Linked() && View() == Yield(old(View()))
    {
      if current == NONE { return; }
      tasks := tasks[current := tasks[current].(slice := 0)];
      ScheduleNext();
    }

    /** `tcb_block`. */
    method BlockTask(t: nat)
      requires Linked() && t < MAX_TASKS
      modifies this
      ensures Linked() && View() == Block(old(View()), t)
    {
      tasks := tasks[t := tasks[t].(state := Blocked)];
      if t == current {
        ScheduleNext();
      } else {
        tasks := tasks[t := tasks[t].(wait := ticks)];
      }
    }

    method RouseTask(t: nat)
      requires Linked() && t < MAX_TASKS
      modifies this
      ensures Linked() && View() == Rouse(old(View()), t)
    {
      tasks := tasks[t := tasks[t].(state := Ready, slice := SliceFor(tasks[t].priority))];
      var queued := InQueue(t);
      if !queued { Append(t); }
    }

    /** `tcb_unblock`. */
    method UnblockTask(t: nat)
      requires Linked() && t < MAX_TASKS
      modifies this
      ensures Linked() && View() == Unblock(old(View()), t)
    {
      if tasks[t].state != Blocked { return; }
      RouseTask(t);
    }

    /** `tcb_sleep`. */
    method SleepTask(ms: word)
      requires Linked()
      modifies this
      ensures Linked() && View() == Sleep(old(View()), ms)
    {
      if current == NONE { return; }
      if ms == 0 {
        YieldTask();
        return;
      }
      var until := WakeTick(ticks, ms);
      tasks := tasks[current := tasks[current].(sleep := until, state := Blocked)];
      ScheduleNext();
    }

    /** `scheduler_tick`. */
    method TickTasks()
      requires Linked()
      modifies this
      ensures Linked() && View() == Tick(old(View()))
    {
      ticks := ticks + 1;
      if current == NONE { return; }
      var task := tasks[current];
      task := task.(runTime := task.runTime + 1);
      if task.state == Running && task.slice > 0 { task := task.(slice := task.slice - 1); }
      tasks := tasks[current := task];
      WakeAll();
    }

    /** The wake-up scan over all slots. */
    method WakeAll()
      requires Linked()
      modifies this
      ensures Linked() && View() == WakeUpTo(old(View()), MAX_TASKS)
    {
      var i := 0;
      while i < MAX_TASKS
        invariant i <= MAX_TASKS && Linked() && View() == WakeUpTo(old(View()), i)
      {
        WakeSlot(i);
        i := i + 1;
      }
    }

    method WakeSlot(i: nat)
      requires Linked() && i < MAX_TASKS
      modifies this
      ensures Linked() && View() == WakeOne(old(View()), i)
    {
      if tasks[i].state == Blocked && tasks[i].sleep != 0 && ticks >= tasks[i].sleep {
        tasks := tasks[i := tasks[i].(sleep := 0, wait := 0)];
        RouseTask(i);
      }
    }

    /** `tcb_exit`, up to the point where the processor is given away. */
    method ExitTask()
      requires Linked()
      modifies this
      ensures Linked() && View() == Exit(old(View()))
    {
      if current == NONE { return; }
      var self := current;
      tasks := tasks[self := tasks[self].(state := Zombie)];
      RemoveTask(self);
      ScheduleNext();
    }

    /** `scheduler_init`. */
    constructor (prepared: bool)
      ensures Valid() && View() == R.Boot(prepared)
    {
      tasks := seq(MAX_TASKS, _ => R.UNUSED);
      next := seq(MAX_TASKS, _ => NONE);
      prev := seq(MAX_TASKS, _ => NONE);
      head, tail, current, idle := NONE, NONE, NONE, NONE;
      ticks, nextTid := 0, 1;
      queue := [];
      new;
      idle := CreateTask(IDLE, prepared);
      R.BootInv(prepared);
    }

    // ----------------------------------------------------------------------- runs

    /** One call of the scheduler. */
    method Perform(op: R.Op)
      requires Valid() && R.Names(op)
      modifies this
      ensures Valid() && View() == R.Step(old(View()), op)
    {
      R.StepKeeps(View(), op);
      match op {
        case OpCreate(priority, prepared) => var t := CreateTask(priority, prepared);
        case OpAdd(t) => AddTask(t);
        case OpFree(t) => FreeTask(t);
        case OpTick => TickTasks();
        case OpSchedule => ScheduleNext();
        case OpYield => YieldTask();
        case OpBlock(t) => BlockTask(t);
        case OpUnblock(t) => UnblockTask(t);
        case OpSleep(ms) => SleepTask(ms);
        case OpExit => ExitTask();
      }
    }

    /** Any sequence of calls keeps the links and the invariant, and does what the model does. */
    method PerformAll(ops: seq<R.Op>)
      requires Valid() && forall i :: 0 <= i < |ops| ==> R.Names(ops[i])
      modifies this
      ensures Valid() && View() == R.Run(old(View()), ops)
    {
      ghost var end := R.Run(View(), ops);
      var i := 0;
      assert ops[0..] == ops;
      while i < |ops|
        invariant 0 <= i <= |ops| && Valid() && R.Run(View(), ops[i..]) == end
      {
        assert ops[i..][0] == ops[i] && ops[i..][1..] == ops[i + 1..];
        Perform(ops[i]);
        i := i + 1;
      }
    }
  }
}
