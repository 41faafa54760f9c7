/** What every run of IPC operations keeps: no wakeup is lost, and each sender's
    messages come out in the order they went in, none lost and none made up. */
module IpcRuns {
  import opened IpcRing
  import opened Tasks
  import opened IpcModel

  /** A blocked task still has reason to be blocked. */
  ghost predicate Justified(net: Net, s: State, t: nat, why: Reason)
    requires Shaped(net, s) && t < |s.pool|
  {
    match why
    case Other => true
    case InRecv(from) =>
      var queue := s.queues[net.route[t]];
      s.pool[t].waitingFor == from && FirstMatch(queue, from) == |queue|
    case InSend(to) =>
      to < |s.pool| && Live(s.pool[to]) && s.pool[t].waitingFor == s.pool[to].tid && Full(net, s, to)
  }

  /** No lost wakeup: a task blocked in `ipc_recv` has no matching message queued, and a
      task blocked in `ipc_send` still faces a full queue. */
  ghost predicate NoneLost(net: Net, w: World)
    requires WShaped(net, w)
  {
    forall t :: 0 <= t < |w.s.pool| && w.s.pool[t].state == Blocked ==> Justified(net, w.s, t, w.why[t])
  }

  /** Order and conservation in every queue. */
  ghost predicate Conserved(net: Net, w: World)
    requires WShaped(net, w)
  {
    forall q :: 0 <= q < |net.caps| ==>
      && |w.s.queues[q]| <= net.caps[q]
      && |w.accepted[q]| == |w.delivered[q]| + |w.s.queues[q]|
      && Ordered(w.accepted[q], w.delivered[q], w.s.queues[q])
  }

  /** What keeps wakeups from being lost, beside the fixed routes. */
  ghost predicate Apart(net: Net, pool: seq<Tcb>) {
    Sound(net, pool) && OneQueueEach(net, pool) && InReach(pool)
  }

  ghost predicate Inv(net: Net, w: World) {
    WShaped(net, w) && Apart(net, w.s.pool) && NoneLost(net, w)
  }

  lemma NoMatchAppend(q: seq<Message>, m: Message, from: int)
    requires FirstMatch(q, from) == |q| && !Matches(m, from)
    ensures FirstMatch(q + [m], from) == |q + [m]|
  {
    FirstMatchUnique(q + [m], from, |q| + 1);
  }

  // ---------------------------------------------------------------- a message arrives

  lemma PostJustified(net: Net, s: State, to: nat, m: Message, t: nat, why: Reason)
    requires Shaped(net, s) && Apart(net, s.pool) && to < |s.pool| && Live(s.pool[to]) && !Full(net, s, to)
    requires t < |s.pool| && s.pool[t].state == Blocked && Justified(net, s, t, why)
    requires Post(net, s, to, m).state.pool[t].state == Blocked
    ensures Shaped(net, Post(net, s, to, m).state) && Justified(net, Post(net, s, to, m).state, t, why)
  {
    match why
    case Other =>
    case InRecv(from) =>
      if t == to { NoMatchAppend(s.queues[net.route[t]], m, from); }
    case InSend(r) =>
  }

  lemma PostKeeps(net: Net, w: World, to: nat, m: Message)
    requires Inv(net, w) && to < |w.s.pool| && Live(w.s.pool[to]) && !Full(net, w.s, to)
    ensures Inv(net, Record(w, Post(net, w.s, to, m)))
  {
    var o := Post(net, w.s, to, m);
    var w' := Record(w, o);
    forall t | 0 <= t < |w'.s.pool| && w'.s.pool[t].state == Blocked
      ensures Justified(net, w'.s, t, w'.why[t])
    {
      PostJustified(net, w.s, to, m, t, w.why[t]);
    }
  }

  // ---------------------------------------------------------------------- a task blocks

  lemma BlockKeeps(net: Net, w: World, task: nat, waitingFor: int, why: Reason)
    requires Inv(net, w) && task < |w.s.pool| && Live(w.s.pool[task])
    requires var s' := w.s.(pool := w.s.pool[task := Block(w.s.pool[task], waitingFor)]); Justified(net, s', task, why)
    ensures var s' := w.s.(pool := w.s.pool[task := Block(w.s.pool[task], waitingFor)]);
            Inv(net, Record(w, Outcome(s', -1, Waits(task, why))))
  {
    var s' := w.s.(pool := w.s.pool[task := Block(w.s.pool[task], waitingFor)]);
    forall t | 0 <= t < |s'.pool| && s'.pool[t].state == Blocked && t != task
      ensures Justified(net, s', t, w.why[t])
    {
      assert Justified(net, w.s, t, w.why[t]);
    }
  }

  // ------------------------------------------------------------------ a message leaves

  lemma RecvJustified(net: Net, s: State, task: nat, from: int, t: nat, why: Reason)
    requires Shaped(net, s) && Apart(net, s.pool) && task < |s.pool| && Live(s.pool[task])
    requires FirstMatch(s.queues[net.route[task]], from) < |s.queues[net.route[task]]|
    requires t < |s.pool| && s.pool[t].state == Blocked ==> Justified(net, s, t, why)
    requires t < |s.pool| && Recv(net, s, task, from).state.pool[t].state == Blocked
    ensures Shaped(net, Recv(net, s, task, from).state) && Justified(net, Recv(net, s, task, from).state, t, why)
  {
    var s' := Recv(net, s, task, from).state;
    assert t != task && s.pool[t].state == Blocked && s'.pool[t] == s.pool[t];
    match why
    case Other =>
    case InRecv(f) =>
    case InSend(r) =>
      assert s'.pool[r].tid == s.pool[r].tid && Live(s'.pool[r]);
      assert r != task;
  }

  /** A receive changes no tid and ends no task. */
  lemma RecvSound(net: Net, s: State, task: nat, from: int)
    requires Shaped(net, s) && Apart(net, s.pool) && task < |s.pool|
    ensures var s' := Recv(net, s, task, from).state; Shaped(net, s') && Apart(net, s'.pool)
  {
    var s' := Recv(net, s, task, from).state;
    assert forall t :: 0 <= t < |s.pool| ==>
      s'.pool[t].tid == s.pool[t].tid && (Live(s'.pool[t]) <==> Live(s.pool[t])) && (s'.pool[t].state == Free <==> s.pool[t].state == Free);
  }

  lemma TakeKeeps(net: Net, w: World, task: nat, from: int)
    requires Inv(net, w) && task < |w.s.pool| && Live(w.s.pool[task])
    requires FirstMatch(w.s.queues[net.route[task]], from) < |w.s.queues[net.route[task]]|
    ensures Inv(net, Record(w, Recv(net, w.s, task, from)))
  {
    var o := Recv(net, w.s, task, from);
    var w' := Record(w, o);
    RecvSound(net, w.s, task, from);
    forall t | 0 <= t < |w'.s.pool| && w'.s.pool[t].state == Blocked
      ensures Justified(net, w'.s, t, w'.why[t])
    {
      RecvJustified(net, w.s, task, from, t, w.why[t]);
    }
  }

  // ----------------------------------------------------------------------- every run

  lemma SendKeeps(net: Net, w: World, from: nat, to: nat, msg: Message)
    requires Inv(net, w) && from < |w.s.pool| && to < |w.s.pool|
    ensures Inv(net, Record(w, Send(net, w.s, from, to, msg)))
  {
    var s := w.s;
    if Live(s.pool[from]) && Live(s.pool[to]) {
      var m := msg.(sender := s.pool[from].tid, receiver := s.pool[to].tid);
      if !Full(net, s, to) {
        PostKeeps(net, w, to, m);
      } else if !NonBlocking(m) {
        BlockKeeps(net, w, from, s.pool[to].tid, InSend(to));
      }
    }
  }

  lemma RecvKeeps(net: Net, w: World, task: nat, from: int)
    requires Inv(net, w) && task < |w.s.pool|
    ensures Inv(net, Record(w, Recv(net, w.s, task, from)))
  {
    if Live(w.s.pool[task]) {
      var queue := w.s.queues[net.route[task]];
      if FirstMatch(queue, from) == |queue| {
        BlockKeeps(net, w, task, from, InRecv(from));
      } else {
        TakeKeeps(net, w, task, from);
      }
    }
  }

  /** Every operation keeps the invariant. */
  lemma StepKeeps(net: Net, w: World, op: Op)
    requires Inv(net, w) && Names(|w.s.pool|, op)
    ensures Inv(net, Record(w, Perform(net, w.s, op)))
  {
    match op
    case OpSend(from, to, msg) => SendKeeps(net, w, from, to, msg);
    case OpTrySend(from, to, msg) => SendKeeps(net, w, from, to, WithNonBlock(msg));
    case OpReply(to, msg) =>
      var from := SlotOf(w.s.pool, msg.sender);
      if Live(w.s.pool[to]) {
        if from < |w.s.pool| && Live(w.s.pool[from]) {
          SendKeeps(net, w, from, to, msg);
        } else if !Full(net, w.s, to) {
          PostKeeps(net, w, to, KernelCopy(msg, w.s.pool[to].tid));
        }
      }
    case OpRecv(task, sender) => RecvKeeps(net, w, task, sender);
    case OpTryRecv(task, sender) => RecvKeeps(net, w, task, sender);
  }

  ghost function Step(net: Net, w: World, op: Op): (w': World)
    requires WShaped(net, w) && Names(|w.s.pool|, op)
    ensures WShaped(net, w') && |w'.s.pool| == |w.s.pool| && w'.s == Perform(net, w.s, op).state
  {
    Record(w, Perform(net, w.s, op))
  }

  ghost function Run(net: Net, w: World, ops: seq<Op>): World
    requires WShaped(net, w) && forall op :: op in ops ==> Names(|w.s.pool|, op)
    decreases |ops|
  {
    if ops == [] then w
    else
      assert ops[0] in ops;
      Run(net, Step(net, w, ops[0]), ops[1..])
  }

  /** A beginning: empty queues, and tasks that are blocked, if at all, for other reasons. */
  ghost function Start(net: Net, pool: seq<Tcb>): World {
    var none: seq<seq<Message>> := seq(|net.caps|, _ => []);
    World(State(pool, none), none, none, seq(|pool|, _ => Other))
  }

  // ------------------------------------------------------------ order and conservation

  lemma PostConserved(net: Net, w: World, to: nat, m: Message)
    requires WShaped(net, w) && Conserved(net, w) && to < |w.s.pool| && !Full(net, w.s, to)
    ensures var w' := Record(w, Post(net, w.s, to, m)); WShaped(net, w') && Conserved(net, w')
  {
    var q := net.route[to];
    AcceptOrdered(w.accepted[q], w.delivered[q], w.s.queues[q], m);
  }

  lemma SendConserved(net: Net, w: World, from: nat, to: nat, msg: Message)
    requires WShaped(net, w) && Conserved(net, w) && from < |w.s.pool| && to < |w.s.pool|
    ensures var w' := Record(w, Send(net, w.s, from, to, msg)); WShaped(net, w') && Conserved(net, w')
  {
    if Live(w.s.pool[from]) && Live(w.s.pool[to]) && !Full(net, w.s, to) {
      PostConserved(net, w, to, msg.(sender := w.s.pool[from].tid, receiver := w.s.pool[to].tid));
    }
  }

  lemma RecvConserved(net: Net, w: World, task: nat, from: int)
    requires WShaped(net, w) && Conserved(net, w) && task < |w.s.pool|
    ensures var w' := Record(w, Recv(net, w.s, task, from)); WShaped(net, w') && Conserved(net, w')
  {
    var q := net.route[task];
    if Live(w.s.pool[task]) && FirstMatch(w.s.queues[q], from) < |w.s.queues[q]| {
      DeliverOrdered(w.accepted[q], w.delivered[q], w.s.queues[q], from);
    }
  }

  lemma StepConserved(net: Net, w: World, op: Op)
    requires WShaped(net, w) && Conserved(net, w) && Names(|w.s.pool|, op)
    ensures Conserved(net, Step(net, w, op))
  {
    match op
    case OpSend(from, to, msg) => SendConserved(net, w, from, to, msg);
    case OpTrySend(from, to, msg) => SendConserved(net, w, from, to, WithNonBlock(msg));
    case OpReply(to, msg) =>
      var from := SlotOf(w.s.pool, msg.sender);
      if from < |w.s.pool| && Live(w.s.pool[from]) {
        SendConserved(net, w, from, to, msg);
      } else if !Full(net, w.s, to) {
        PostConserved(net, w, to, KernelCopy(msg, w.s.pool[to].tid));
      }
    case OpRecv(task, sender) => RecvConserved(net, w, task, sender);
    case OpTryRecv(task, sender) => RecvConserved(net, w, task, sender);
  }

  /** Whatever the tids are and whoever shares a queue, every run keeps, for each queue and
      each sender, that the messages delivered, followed by those still queued, are the
      messages accepted. */
  lemma {:induction false} RunConserved(net: Net, w: World, ops: seq<Op>)
    requires WShaped(net, w) && Conserved(net, w) && forall op :: op in ops ==> Names(|w.s.pool|, op)
    ensures WShaped(net, Run(net, w, ops)) && Conserved(net, Run(net, w, ops))
    decreases |ops|
  {
    if ops == [] {
    } else {
      assert ops[0] in ops;
      StepConserved(net, w, ops[0]);
      RunConserved(net, Step(net, w, ops[0]), ops[1..]);
    }
  }

  // -------------------------------------------------------------------- no lost wakeup

  lemma {:induction false} RunInv(net: Net, w: World, ops: seq<Op>)
    requires Inv(net, w) && forall op :: op in ops ==> Names(|w.s.pool|, op)
    ensures WShaped(net, Run(net, w, ops)) && Inv(net, Run(net, w, ops))
    decreases |ops|
  {
    if ops == [] {
    } else {
      assert ops[0] in ops;
      StepKeeps(net, w, ops[0]);
      RunInv(net, Step(net, w, ops[0]), ops[1..]);
    }
  }

  /** From empty queues, in every state of every run: for each queue and each sender the
      messages delivered, followed by those still queued, are the messages accepted.
      If live tasks have queues of their own and tids the scan for senders reaches, no task
      blocked in `ipc_recv` has a matching message queued, and no task blocked in
      `ipc_send` faces a queue with space. */
  lemma EveryRun(net: Net, pool: seq<Tcb>, ops: seq<Op>)
    requires WShaped(net, Start(net, pool)) && forall op :: op in ops ==> Names(|pool|, op)
    ensures var w := Run(net, Start(net, pool), ops);
            WShaped(net, w) && Conserved(net, w) && (Apart(net, pool) ==> NoneLost(net, w))
  {
    RunConserved(net, Start(net, pool), ops);
    if Apart(net, pool) {
      RunInv(net, Start(net, pool), ops);
    }
  }

  // ------------------------------------------------------------- where wakeups are lost

  /** Two live tasks that share a queue lose a wakeup: one waits for any message, the
      other sends itself one. */
  lemma SharedQueueLoses(net: Net, pool: seq<Tcb>, t: nat, u: nat, m: Message)
    requires Sound(net, pool) && t < |pool| && u < |pool| && t != u && Live(pool[t]) && Live(pool[u])
    requires net.route[t] == net.route[u]
    ensures var w := Run(net, Start(net, pool), [OpRecv(t, ANY), OpSend(u, u, m)]);
            WShaped(net, w) && !NoneLost(net, w)
  {
    var w0 := Start(net, pool);
    var w1 := Step(net, w0, OpRecv(t, ANY));
    var w2 := Step(net, w1, OpSend(u, u, m));
    var ops := [OpRecv(t, ANY), OpSend(u, u, m)];
    var rest := ops[1..];
    assert rest == [OpSend(u, u, m)] && rest[1..] == [];
    assert Run(net, w0, ops) == Run(net, w1, rest) == Run(net, w2, rest[1..]) == w2;
    assert w1.s.pool[t].state == Blocked && w1.why[t] == InRecv(ANY) && w1.s.queues[net.route[t]] == [];
    assert w2.s.pool[t] == w1.s.pool[t] && |w2.s.queues[net.route[t]]| == 1;
    assert FirstMatch(w2.s.queues[net.route[t]], ANY) == 0;
    assert !Justified(net, w2.s, t, w2.why[t]);
  }

  /** Fill the queue of `u`, let `t` wait for space in it, and take a message out. */
  function Overfill(t: nat, u: nat, m: Message, n: nat): (ops: seq<Op>)
    ensures forall op :: op in ops ==> op in [OpSend(u, u, m), OpSend(t, u, m), OpRecv(u, ANY)]
  {
    if n == 0 then [OpSend(t, u, m), OpRecv(u, ANY)] else [OpSend(u, u, m)] + Overfill(t, u, m, n - 1)
  }

  lemma FullLoses(net: Net, w: World, t: nat, u: nat, m: Message)
    requires WShaped(net, w) && t < |w.s.pool| && u < |w.s.pool| && t != u && Live(w.s.pool[t]) && Live(w.s.pool[u])
    requires w.s.pool[t].tid >= MAX_WOKEN_TID && |w.s.queues[net.route[u]]| == net.caps[net.route[u]] > 0 && !NonBlocking(m)
    ensures var w2 := Step(net, Step(net, w, OpSend(t, u, m)), OpRecv(u, ANY)); !NoneLost(net, w2)
  {
    var w1 := Step(net, w, OpSend(t, u, m));
    var w2 := Step(net, w1, OpRecv(u, ANY));
    assert w1.s.pool[t].state == Blocked && w1.why[t] == InSend(u);
    assert FirstMatch(w1.s.queues[net.route[u]], ANY) == 0;
    assert w2.s.pool[t] == w1.s.pool[t] && !Full(net, w2.s, u);
    assert !Justified(net, w2.s, t, w2.why[t]);
  }

  /** A sender the scan does not reach loses the wakeup that its queue has space again. */
  lemma {:induction false} FarSenderLoses(net: Net, w: World, t: nat, u: nat, m: Message, n: nat)
    requires WShaped(net, w) && t < |w.s.pool| && u < |w.s.pool| && t != u && Live(w.s.pool[t]) && Live(w.s.pool[u])
    requires w.s.pool[t].tid >= MAX_WOKEN_TID && !NonBlocking(m)
    requires |w.s.queues[net.route[u]]| + n == net.caps[net.route[u]] > 0
    ensures var end := Run(net, w, Overfill(t, u, m, n)); WShaped(net, end) && !NoneLost(net, end)
    decreases n
  {
    var ops := Overfill(t, u, m, n);
    var w1 := Step(net, w, ops[0]);
    if n == 0 {
      FullLoses(net, w, t, u, m);
      var rest := ops[1..];
      assert rest == [OpRecv(u, ANY)] && rest[1..] == [];
      assert Run(net, w, ops) == Run(net, w1, rest) == Run(net, Step(net, w1, rest[0]), rest[1..]);
    } else {
      assert ops[1..] == Overfill(t, u, m, n - 1);
      FarSenderLoses(net, w1, t, u, m, n - 1);
    }
  }

  ghost predicate Callable(pool: seq<Tcb>, ops: seq<Op>) {
    forall op :: op in ops ==> Names(|pool|, op)
  }

  /** The run loses no wakeup. */
  ghost predicate Wakes(net: Net, pool: seq<Tcb>, ops: seq<Op>) {
    && WShaped(net, Start(net, pool)) && Callable(pool, ops)
    && WShaped(net, Run(net, Start(net, pool), ops)) && NoneLost(net, Run(net, Start(net, pool), ops))
  }

  lemma SharedLoses(net: Net, pool: seq<Tcb>) returns (ops: seq<Op>)
    requires Sound(net, pool) && !OneQueueEach(net, pool)
    ensures Callable(pool, ops) && !Wakes(net, pool, ops)
  {
    var t, u :| 0 <= t < u < |pool| && Live(pool[t]) && Live(pool[u]) && net.route[t] == net.route[u];
    var m := Message(0, 0, [], 0);
    SharedQueueLoses(net, pool, t, u, m);
    ops := [OpRecv(t, ANY), OpSend(u, u, m)];
  }

  lemma FarLoses(net: Net, pool: seq<Tcb>) returns (ops: seq<Op>)
    requires Sound(net, pool) && !InReach(pool)
    ensures Callable(pool, ops) && !Wakes(net, pool, ops)
  {
    var t, u :| 0 <= t < |pool| && 0 <= u < |pool| && t != u && Live(pool[t]) && Live(pool[u]) && pool[t].tid >= MAX_WOKEN_TID;
    var m, n := Message(0, 0, [], 0), net.caps[net.route[u]];
    FarSenderLoses(net, Start(net, pool), t, u, m, n);
    ops := Overfill(t, u, m, n);
  }

  /** No run loses a wakeup exactly when live tasks have queues of their own and, if there
      are several, tids below 2048. */
  lemma NoLostWakeupExactlyWhen(net: Net, pool: seq<Tcb>)
    requires Sound(net, pool)
    ensures OneQueueEach(net, pool) && InReach(pool) <==> forall ops | Callable(pool, ops) :: Wakes(net, pool, ops)
  {
    if !OneQueueEach(net, pool) {
      var ops := SharedLoses(net, pool);
    } else if !InReach(pool) {
      var ops := FarLoses(net, pool);
    } else {
      forall ops | Callable(pool, ops) ensures Wakes(net, pool, ops) {
        EveryRun(net, pool, ops);
      }
    }
  }
}
