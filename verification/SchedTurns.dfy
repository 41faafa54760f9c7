/** Bounded waiting: with equal priorities and nobody asleep, ticks each followed by a call
    of `scheduler_schedule` give every queued task the processor within the sum of the time
    slices. */
module SchedTurns {
  import opened Bits
  import opened Distinctness
  import opened Tasks
  import opened SchedModel
  import opened SchedRuns
  import opened SchedOrder

  /** `f`, `n` times over. */
  ghost function Iterate<T(!new)>(f: T -> T, x: T, n: nat): T
    decreases n
  {
    if n == 0 then x else Iterate(f, f(x), n - 1)
  }

  lemma {:induction false} IterateAdd<T(!new)>(f: T -> T, x: T, m: nat, n: nat)
    ensures Iterate(f, x, m + n) == Iterate(f, Iterate(f, x, m), n)
    decreases m
  {
    if m == 0 {
    } else {
      IterateAdd(f, f(x), m - 1, n);
    }
  }

  /** A tick, then rescheduling. */
  ghost function Pass(s: Sched): Sched {
    if Fits(s) then Schedule(Tick(s)) else s
  }

  ghost function Passes(s: Sched, n: nat): Sched {
    Iterate(Pass, s, n)
  }

  /** The queued tasks are ready and of one priority, and nobody sleeps. */
  ghost predicate Calm(s: Sched) {
    && AllReady(s)
    && (forall t :: t in s.queue ==> s.tasks[t].priority == s.tasks[s.current].priority)
    && (forall t :: 0 <= t < MAX_TASKS && s.tasks[t].state == Blocked ==> s.tasks[t].sleep == 0)
  }

  /** The passes the current task lasts. */
  function Left(task: Task): (n: nat)
    ensures n > 0
  {
    if task.slice == 0 then 1 else task.slice
  }

  /** The passes a task will last once it is dispatched. */
  function Turnlen(task: Task): (n: nat)
    ensures n > 0
  {
    if task.slice == 0 then SliceFor(task.priority) else task.slice
  }

  // ------------------------------------------------------------------- one pass

  ghost function Charged(task: Task): Task {
    task.(runTime := task.runTime + 1, slice := if task.slice > 0 then task.slice - 1 else 0)
  }

  lemma ExtraIsNew(q: seq<nat>, r: seq<nat>)
    requires Distinct(r) && q <= r && |q| < |r|
    ensures r[|q|] in r && r[|q|] !in q
  {
    forall i | 0 <= i < |q| ensures q[i] != r[|q|] {
      assert q[i] == r[i];
    }
  }

  lemma SameQueue(q: seq<nat>, r: seq<nat>)
    requires Distinct(r) && q <= r && forall x :: x in r ==> x in q
    ensures r == q
  {
    if |q| < |r| {
      ExtraIsNew(q, r);
      assert false;
    }
  }

  /** `r` is `s` with one tick charged to the current task. */
  ghost predicate ChargedOnly(s: Sched, r: Sched) {
    && Calm(s) && Calm(r) && r.queue == s.queue && r.current == s.current
    && r.tasks == s.tasks[s.current := Charged(s.tasks[s.current])]
  }

  /** A tick charges the current task and does nothing else. */
  lemma CalmTick(s: Sched)
    requires Calm(s)
    ensures ChargedOnly(s, Tick(s))
  {
    var r := Tick(s);
    TickMeaning(s);
    TickKeeps(s);
    SameQueue(s.queue, r.queue);
  }

  /** A task with time left goes on. */
  lemma CalmGoesOn(s: Sched)
    requires Calm(s) && s.tasks[s.current].slice > 1
    ensures ChargedOnly(s, Pass(s))
  {
    CalmTick(s);
    StaysOn(Tick(s));
  }

  lemma StaysOn(s: Sched)
    requires Calm(s) && s.tasks[s.current].slice > 0
    ensures Schedule(s) == s
  {
    NoneAbove(s.tasks, s.queue, s.current);
  }

  // -------------------------------------------------------------------- one slice

  /** `r` is `s` after the current task has gone to the end and the head runs; what the
      others last is as it was. */
  ghost predicate PassedOn(s: Sched, r: Sched) {
    && Calm(s) && Calm(r) && r.queue == Rotated(s) && r.current == r.queue[0]
    && forall t :: t in s.queue && t != s.current ==>
         (if t == r.current then Left(r.tasks[t]) else Turnlen(r.tasks[t])) == Turnlen(s.tasks[t])
  }

  /** `r` is `s` after expiry of the current task and dispatch of the head. */
  ghost predicate Expired(s: Sched, r: Sched) {
    && AllReady(s) && AllReady(r) && r.queue == Rotated(s) && r.current == r.queue[0]
    && (forall t :: 0 <= t < MAX_TASKS && t != s.current && t != r.current ==> r.tasks[t] == s.tasks[t])
    && r.tasks[s.current].priority == s.tasks[s.current].priority
    && r.tasks[r.current].priority == s.tasks[r.current].priority
    && (r.current != s.current ==> r.tasks[r.current].slice == Turnlen(s.tasks[r.current]))
    && r.tasks[s.current].state != Blocked
  }

  lemma ExpiredTasks(s: Sched)
    requires AllReady(s) && s.tasks[s.current].slice == 0
    ensures Expired(s, Schedule(s))
  {
    ExpireLines(s);
    PickHead(Expire(s));
    SwitchToHead(Expire(s));
  }

  /** A task without time left makes room. */
  lemma ExpiredPasses(s: Sched, r: Sched)
    requires Calm(s) && Expired(s, r)
    ensures PassedOn(s, r)
  {
    RotatedSame(s);
    forall t | t in r.queue ensures r.tasks[t].priority == r.tasks[r.current].priority {
      assert t in s.queue;
    }
  }

  lemma RotatedSame(s: Sched)
    requires AllReady(s)
    ensures forall x :: x in Rotated(s) <==> x in s.queue
  {
    WithoutFacts(s.queue, s.current);
  }

  lemma PassedOnAfter(s: Sched, m: Sched, r: Sched)
    requires ChargedOnly(s, m) && PassedOn(m, r)
    ensures PassedOn(s, r)
  {
  }

  lemma ExpiredAfter(s: Sched, m: Sched, r: Sched)
    requires ChargedOnly(s, m) && Expired(m, r)
    ensures PassedOn(s, r)
  {
    ExpiredPasses(m, r);
    PassedOnAfter(s, m, r);
  }

  lemma LastPass(s: Sched)
    requires Calm(s) && s.tasks[s.current].slice <= 1
    ensures PassedOn(s, Pass(s))
  {
    CalmTick(s);
    ExpiredTasks(Tick(s));
    ExpiredAfter(s, Tick(s), Schedule(Tick(s)));
  }

  lemma PassesNext(s: Sched, n: nat)
    requires n > 0
    ensures Passes(s, n) == if n == 1 then Pass(s) else Passes(Pass(s), n - 1)
  {
    if n == 1 { assert Iterate(Pass, Pass(s), 0) == Pass(s); }
  }

  /** When the current task's time is over the next one runs. */
  lemma {:induction false} SlicePasses(s: Sched, n: nat)
    requires Calm(s) && n == Left(s.tasks[s.current])
    ensures PassedOn(s, Passes(s, n))
    decreases n
  {
    PassesNext(s, n);
    if n == 1 {
      LastPass(s);
    } else {
      CalmGoesOn(s);
      SlicePasses(Pass(s), n - 1);
      PassedOnAfter(s, Pass(s), Passes(Pass(s), n - 1));
    }
  }

  // ------------------------------------------------------------------- all slices

  ghost predicate InTable(order: seq<nat>) {
    forall i :: 0 <= i < |order| ==> order[i] < MAX_TASKS
  }

  /** The passes until the current task and the first `k` tasks of `order` have had their
      turns. */
  ghost function Wait(s: Sched, order: seq<nat>, k: nat): (n: nat)
    requires |s.tasks| == MAX_TASKS && 0 <= s.current < MAX_TASKS && InTable(order) && k <= |order|
    ensures n > 0
  {
    if k == 0 then Left(s.tasks[s.current]) else Wait(s, order, k - 1) + Turnlen(s.tasks[order[k - 1]])
  }

  /** `r` is reached when the `k`-th task of `order` is dispatched; it and those behind it
      last what they lasted in `s`. */
  ghost predicate Dispatched(s: Sched, r: Sched, order: seq<nat>, k: nat) {
    && Calm(r) && k < |order| && Turned(r, order, k + 1) && |s.tasks| == MAX_TASKS && InTable(order)
    && (k < |order| - 1 ==> Left(r.tasks[order[k]]) == Turnlen(s.tasks[order[k]]))
    && (forall j {:trigger order[j]} :: k < j < |order| - 1 ==> Turnlen(r.tasks[order[j]]) == Turnlen(s.tasks[order[j]]))
  }

  lemma FirstDispatched(s: Sched, r: Sched, order: seq<nat>)
    requires PassedOn(s, r) && order == Rotated(s)
    ensures Dispatched(s, r, order, 0)
  {
    WithoutFacts(s.queue, s.current);
    OrderFits(s);
    assert order[0..] + order[..0] == order;
    forall j {:trigger order[j]} | 0 <= j < |order| - 1 ensures order[j] in s.queue && order[j] != s.current {
      assert order[j] == Without(s.queue, s.current)[j];
    }
    forall j {:trigger order[j]} | 1 <= j < |order| - 1 ensures order[j] != order[0] {
      assert order == r.queue;
    }
  }

  lemma NextDispatched(s: Sched, r: Sched, r': Sched, order: seq<nat>, k: nat)
    requires Dispatched(s, r, order, k) && k + 1 < |order| && PassedOn(r, r') && Distinct(order)
    ensures Dispatched(s, r', order, k + 1)
  {
    RotateHead(order, k + 1, r);
    forall j {:trigger order[j]} | k < j < |order| ensures order[j] in r.queue && order[j] != r.current {
      assert order[j] == r.queue[j - k];
    }
  }

  lemma DispatchNext(s: Sched, r: Sched, order: seq<nat>, k: nat, l: nat, n: nat)
    requires Dispatched(s, r, order, k) && l == k + 1 < |order| && Distinct(order) && n == Turnlen(s.tasks[order[k]])
    ensures Dispatched(s, Passes(r, n), order, l)
  {
    SlicePasses(r, n);
    NextDispatched(s, r, Passes(r, n), order, k);
  }

  /** The `k`-th task of `order` is dispatched when it is due, which is after `n` passes. */
  ghost predicate OnTime(s: Sched, order: seq<nat>, k: nat, n: nat) {
    match s
    case Sched(tasks, _, current, _, _, _) =>
      && |tasks| == MAX_TASKS && 0 <= current < MAX_TASKS && InTable(order) && k < |order|
      && n == Wait(s, order, k) && Dispatched(s, Passes(s, n), order, k)
  }

  lemma FirstOnTime(s: Sched, order: seq<nat>, n: nat)
    requires Calm(s) && order == Rotated(s) && InTable(order) && n == Left(s.tasks[s.current])
    ensures OnTime(s, order, 0, n)
  {
    SlicePasses(s, n);
    FirstDispatched(s, Passes(s, n), order);
  }

  lemma WaitNext(s: Sched, order: seq<nat>, k: nat, l: nat)
    requires |s.tasks| == MAX_TASKS && 0 <= s.current < MAX_TASKS && InTable(order) && l == k + 1 <= |order|
    ensures Wait(s, order, l) == Wait(s, order, k) + Turnlen(s.tasks[order[k]])
  {
  }

  lemma NextOnTime(s: Sched, order: seq<nat>, k: nat, l: nat, m: nat) returns (n: nat)
    requires OnTime(s, order, k, m) && l == k + 1 < |order| && Distinct(order)
    ensures OnTime(s, order, l, n)
  {
    var d := Turnlen(s.tasks[order[k]]);
    n := m + d;
    WaitNext(s, order, k, l);
    PassesAdd(s, m, d, n);
    DispatchNext(s, Passes(s, m), order, k, l, d);
  }

  lemma PassesAdd(s: Sched, m: nat, d: nat, n: nat)
    requires n == m + d
    ensures Passes(s, n) == Passes(Passes(s, m), d)
  {
    IterateAdd(Pass, s, m, d);
  }

  lemma {:induction false} AllOnTime(s: Sched, order: seq<nat>, first: nat, k: nat) returns (n: nat)
    requires OnTime(s, order, 0, first) && Distinct(order) && k < |order|
    ensures OnTime(s, order, k, n)
    decreases k
  {
    if k == 0 {
      n := first;
    } else {
      var j := k - 1;
      var m := AllOnTime(s, order, first, j);
      n := NextOnTime(s, order, j, k, m);
    }
  }

  lemma OrderFits(s: Sched)
    requires AllReady(s)
    ensures var order := Rotated(s); |order| == |s.queue| && Distinct(order) && InTable(order)
  {
    WithoutFacts(s.queue, s.current);
    QueuedIn(s.queue, s.current);
    AppendFacts(Without(s.queue, s.current), s.current);
    var order := Rotated(s);
    forall i | 0 <= i < |order| ensures order[i] < MAX_TASKS {
      assert order[i] in order;
      assert order[i] in s.queue;
    }
  }

  lemma {:induction false} WaitGrows(s: Sched, order: seq<nat>, k: nat, l: nat)
    requires |s.tasks| == MAX_TASKS && 0 <= s.current < MAX_TASKS && InTable(order) && k <= l <= |order|
    ensures Wait(s, order, k) <= Wait(s, order, l)
    decreases l
  {
    if k == l {
    } else {
      WaitGrows(s, order, k, l - 1);
    }
  }

  /** With equal priorities, nobody asleep and no other calls, the `k`-th task of the rotated
      queue is dispatched at the pass at which the current task and those before it
      have used up their slices. */
  lemma DispatchedInTurn(s: Sched, k: nat)
    requires Calm(s) && k < |s.queue|
    ensures InTable(Rotated(s)) && |Rotated(s)| == |s.queue|
    ensures Passes(s, Wait(s, Rotated(s), k)).current == Rotated(s)[k]
  {
    OrderFits(s);
    FirstOnTime(s, Rotated(s), Left(s.tasks[s.current]));
    var n := AllOnTime(s, Rotated(s), Left(s.tasks[s.current]), k);
  }

  /** What is left to the current task and the slices of all others. */
  ghost function Round(s: Sched): nat
    requires AllReady(s)
  {
    OrderFits(s);
    WaitForLast(s, Rotated(s))
  }

  ghost function WaitForLast(s: Sched, order: seq<nat>): nat
    requires |s.tasks| == MAX_TASKS && 0 <= s.current < MAX_TASKS && InTable(order) && order != []
  {
    Wait(s, order, |order| - 1)
  }

  lemma BeforeLast(s: Sched, order: seq<nat>, k: nat, last: nat)
    requires |s.tasks| == MAX_TASKS && 0 <= s.current < MAX_TASKS && InTable(order) && k <= last == |order| - 1
    ensures Wait(s, order, k) <= WaitForLast(s, order)
  {
    WaitGrows(s, order, k, last);
  }

  lemma WithinRound(s: Sched, k: nat)
    requires AllReady(s) && k < |s.queue|
    ensures InTable(Rotated(s)) && |Rotated(s)| == |s.queue| && Wait(s, Rotated(s), k) <= Round(s)
    ensures multiset(Rotated(s)) == multiset(s.queue)
  {
    OrderFits(s);
    RotatedAll(s.queue, s.current);
    BeforeLast(s, Rotated(s), k, |s.queue| - 1);
  }

  /** The place of a queued task in the rotated queue. */
  lemma PlaceOf(s: Sched, t: nat) returns (k: nat)
    requires AllReady(s) && t in s.queue
    ensures InTable(Rotated(s)) && |Rotated(s)| == |s.queue| && k < |s.queue| && Rotated(s)[k] == t
  {
    OrderFits(s);
    StillQueued(s.queue, s.current, t);
    k := IndexOf(Rotated(s), t);
  }

  /** So every queued task gets the processor within one round. */
  lemma BoundedWaiting(s: Sched, t: nat) returns (n: nat)
    requires Calm(s) && t in s.queue
    ensures 0 < n <= Round(s) && Passes(s, n).current == t
  {
    var k := PlaceOf(s, t);
    DispatchedInTurn(s, k);
    WithinRound(s, k);
    n := Wait(s, Rotated(s), k);
  }

  /** The rotated queue holds the same tasks. */
  lemma RotatedAll(q: seq<nat>, c: nat)
    requires c in q
    ensures multiset(Without(q, c) + [c]) == multiset(q)
  {
    QueuedIn(q, c);
    var p := IndexOf(q, c);
    var a, b := q[..p], q[p + 1..];
    TakenOut(q, p, a, b);
    Swapped(a, b, c);
  }

  lemma TakenOut(q: seq<nat>, p: nat, a: seq<nat>, b: seq<nat>)
    requires p < |q| && a == q[..p] && b == q[p + 1..]
    ensures q == a + [q[p]] + b
  {
  }

  lemma Swapped(a: seq<nat>, b: seq<nat>, c: nat)
    ensures multiset(a + b + [c]) == multiset(a + [c] + b)
  {
  }

  lemma StillQueued(q: seq<nat>, c: nat, t: nat)
    requires Distinct(q) && c in q && t in q
    ensures Queued(Without(q, c) + [c], t)
  {
    WithoutFacts(q, c);
    QueuedIn(Without(q, c) + [c], t);
  }
}
