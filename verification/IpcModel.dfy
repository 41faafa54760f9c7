/** The IPC operations on tasks and queues, the history of a run, and what one message
    accepted or delivered does to the order of each sender's messages. */
module IpcModel {
  import opened IpcRing
  import opened Tasks

  /** A task slot: what the IPC code reads and writes of it. */
  datatype Tcb = Tcb(tid: int, state: TaskState, waitingFor: int)

  const KERNEL_TID: int := -2
  const MAX_WOKEN_TID: int := 2048

  /** The fixed part: the queue each task receives from, and the capacity of each queue. */
  datatype Net = Net(route: seq<nat>, caps: seq<nat>)

  datatype State = State(pool: seq<Tcb>, queues: seq<seq<Message>>)

  predicate Live(t: Tcb) {
    t.state != Free && t.state != Zombie
  }

  predicate NonBlocking(m: Message) {
    m.flags % 2 == 1
  }

  /** The slot of the task with the given tid, the number of slots if there is none. */
  function SlotOf(pool: seq<Tcb>, tid: int): (i: nat)
    ensures i <= |pool|
    ensures i < |pool| ==> tid != INVALID_TID && pool[i].tid == tid && pool[i].state != Free
    ensures i == |pool| && tid != INVALID_TID ==> forall j :: 0 <= j < |pool| ==> !(pool[j].tid == tid && pool[j].state != Free)
  {
    if pool == [] then 0
    else if tid != INVALID_TID && pool[0].tid == tid && pool[0].state != Free then 0
    else 1 + SlotOf(pool[1..], tid)
  }

  /** Tasks that exist have distinct positive tids, and queues have room. */
  ghost predicate Sound(net: Net, pool: seq<Tcb>) {
    && |net.route| == |pool|
    && (forall t :: 0 <= t < |pool| ==> net.route[t] < |net.caps|)
    && (forall t :: 0 <= t < |pool| && pool[t].state != Free ==> 0 < pool[t].tid)
    && (forall t, u :: 0 <= t < u < |pool| && pool[t].state != Free && pool[u].state != Free ==> pool[t].tid != pool[u].tid)
    && (forall q :: 0 <= q < |net.caps| ==> net.caps[q] > 0)
  }

  /** Live tasks receive from queues of their own. */
  ghost predicate OneQueueEach(net: Net, pool: seq<Tcb>)
    requires |net.route| == |pool|
  {
    forall t, u :: 0 <= t < u < |pool| && Live(pool[t]) && Live(pool[u]) ==> net.route[t] != net.route[u]
  }

  /** Where two tasks live, both have tids that the scan for waiting senders reaches. */
  ghost predicate InReach(pool: seq<Tcb>) {
    forall t, u :: 0 <= t < |pool| && 0 <= u < |pool| && t != u && Live(pool[t]) && Live(pool[u]) ==> pool[t].tid < MAX_WOKEN_TID
  }

  // ---------------------------------------------------------------- operations

  /** Wake a task that waits for a message from `sender`, or from anybody. */
  function Wake(t: Tcb, sender: int): Tcb {
    if t.state == Blocked && (t.waitingFor == sender || t.waitingFor == INVALID_TID)
    then t.(state := Ready, waitingFor := INVALID_TID) else t
  }

  /** Wake a task that waits for space in the queue of the task `tid`. */
  function WakeSender(t: Tcb, tid: int): Tcb {
    if t.state == Blocked && t.waitingFor == tid && 1 <= t.tid < MAX_WOKEN_TID
    then t.(state := Ready, waitingFor := INVALID_TID) else t
  }

  function WakeSenders(pool: seq<Tcb>, tid: int): (r: seq<Tcb>)
    ensures |r| == |pool| && forall i :: 0 <= i < |pool| ==> r[i] == WakeSender(pool[i], tid)
  {
    seq(|pool|, i requires 0 <= i < |pool| => WakeSender(pool[i], tid))
  }

  function Block(t: Tcb, waitingFor: int): Tcb {
    t.(state := Blocked, waitingFor := waitingFor)
  }

  /** What an operation did, beside its return code. */
  datatype Event =
    | Nothing
    | Accepted(q: nat, m: Message)
    | Delivered(q: nat, m: Message)
    | Waits(task: nat, why: Reason)

  /** Why a task blocked: for a message from `from`, or for space in the queue of task `to`. */
  datatype Reason = Other | InRecv(from: int) | InSend(to: nat)

  datatype Outcome = Outcome(state: State, code: int, event: Event)

  ghost predicate Shaped(net: Net, s: State) {
    |net.route| == |s.pool| && |s.queues| == |net.caps| && forall t :: 0 <= t < |s.pool| ==> net.route[t] < |net.caps|
  }

  predicate Full(net: Net, s: State, to: nat)
    requires to < |net.route| && net.route[to] < |s.queues| && net.route[to] < |net.caps|
  {
    |s.queues[net.route[to]]| >= net.caps[net.route[to]]
  }

  /** Put a complete message into the queue of task `to`, and wake the task if it waits for it. */
  function Post(net: Net, s: State, to: nat, m: Message): Outcome
    requires to < |s.pool| == |net.route| && net.route[to] < |s.queues|
  {
    var q := net.route[to];
    Outcome(State(s.pool[to := Wake(s.pool[to], m.sender)], s.queues[q := s.queues[q] + [m]]), 0, Accepted(q, m))
  }

  /** Post a message, or fail or wait if the queue is full. */
  function Offer(net: Net, s: State, from: nat, to: nat, m: Message): Outcome
    requires Shaped(net, s) && from < |s.pool| && to < |s.pool|
  {
    if !Full(net, s, to) then Post(net, s, to, m)
    else if NonBlocking(m) then Outcome(s, -1, Nothing)
    else Outcome(s.(pool := s.pool[from := Block(s.pool[from], s.pool[to].tid)]), -2, Waits(from, InSend(to)))
  }

  /** `ipc_send`. */
  function Send(net: Net, s: State, from: nat, to: nat, msg: Message): Outcome
    requires Shaped(net, s) && from < |s.pool| && to < |s.pool|
  {
    if !Live(s.pool[from]) || !Live(s.pool[to]) then Outcome(s, -1, Nothing)
    else Offer(net, s, from, to, msg.(sender := s.pool[from].tid, receiver := s.pool[to].tid))
  }

  /** The message `ipc_try_send` passes on. */
  function WithNonBlock(msg: Message): Message {
    msg.(flags := if NonBlocking(msg) then msg.flags else msg.flags + 1)
  }

  /** The copy of a reply that has no live sender. */
  function KernelCopy(msg: Message, receiver: int): Message {
    msg.(receiver := receiver, sender := if msg.sender == INVALID_TID then KERNEL_TID else msg.sender)
  }

  /** `ipc_reply`. */
  function Reply(net: Net, s: State, to: nat, msg: Message): Outcome
    requires Shaped(net, s) && to < |s.pool|
  {
    var from := SlotOf(s.pool, msg.sender);
    if !Live(s.pool[to]) then Outcome(s, -1, Nothing)
    else if from < |s.pool| && Live(s.pool[from]) then Send(net, s, from, to, msg)
    else if Full(net, s, to) then Outcome(s, -1, Nothing)
    else Post(net, s, to, KernelCopy(msg, s.pool[to].tid))
  }

  /** A task that received is ready, if it was blocked. */
  function Resume(t: Tcb): Tcb {
    if t.state == Blocked then t.(state := Ready, waitingFor := INVALID_TID) else t
  }

  /** `ipc_recv`. */
  ghost function Recv(net: Net, s: State, task: nat, from: int): Outcome
    requires Shaped(net, s) && task < |s.pool|
  {
    var q, t := net.route[task], s.pool[task];
    var i := FirstMatch(s.queues[q], from);
    if !Live(t) then Outcome(s, -1, Nothing)
    else if i == |s.queues[q]| then Outcome(s.(pool := s.pool[task := Block(t, from)]), -1, Waits(task, InRecv(from)))
    else Outcome(State(WakeSenders(s.pool[task := Resume(t)], t.tid), s.queues[q := Without(s.queues[q], i)]),
                 0, Delivered(q, s.queues[q][i]))
  }

  /** `ipc_try_recv` receives only if that does not block. */
  ghost function TryRecv(net: Net, s: State, task: nat, from: int): Outcome
    requires Shaped(net, s) && task < |s.pool|
  {
    var queue := s.queues[net.route[task]];
    if s.pool[task].state == Free || FirstMatch(queue, from) == |queue| then Outcome(s, -1, Nothing)
    else Recv(net, s, task, from)
  }

  // ------------------------------------------------------------------------ runs

  datatype Op =
    | OpSend(from: nat, to: nat, msg: Message)
    | OpTrySend(from: nat, to: nat, msg: Message)
    | OpReply(to: nat, msg: Message)
    | OpRecv(task: nat, sender: int)
    | OpTryRecv(task: nat, sender: int)

  /** The operation is called on task slots that exist. */
  predicate Names(n: nat, op: Op) {
    match op
    case OpSend(from, to, _) => from < n && to < n
    case OpTrySend(from, to, _) => from < n && to < n
    case OpReply(to, _) => to < n
    case OpRecv(task, _) => task < n
    case OpTryRecv(task, _) => task < n
  }

  ghost function Perform(net: Net, s: State, op: Op): Outcome
    requires Shaped(net, s) && Names(|s.pool|, op)
  {
    match op
    case OpSend(from, to, msg) => Send(net, s, from, to, msg)
    case OpTrySend(from, to, msg) => Send(net, s, from, to, WithNonBlock(msg))
    case OpReply(to, msg) => Reply(net, s, to, msg)
    case OpRecv(task, sender) => Recv(net, s, task, sender)
    case OpTryRecv(task, sender) => TryRecv(net, s, task, sender)
  }

  /** The state with its history: the messages each queue has accepted and delivered,
      and the reason for which each task last blocked. */
  datatype World = World(s: State, accepted: seq<seq<Message>>, delivered: seq<seq<Message>>, why: seq<Reason>)

  ghost predicate WShaped(net: Net, w: World) {
    Shaped(net, w.s) && |w.accepted| == |w.delivered| == |net.caps| && |w.why| == |w.s.pool|
  }

  function Record(w: World, o: Outcome): World {
    match o.event
    case Nothing => w.(s := o.state)
    case Accepted(q, m) =>
      if q < |w.accepted| then w.(s := o.state, accepted := w.accepted[q := w.accepted[q] + [m]]) else w
    case Delivered(q, m) =>
      if q < |w.delivered| then w.(s := o.state, delivered := w.delivered[q := w.delivered[q] + [m]]) else w
    case Waits(task, why) =>
      if task < |w.why| then w.(s := o.state, why := w.why[task := why]) else w
  }

  // ------------------------------------------------------ per-sender order, conserved

  /** The messages of a sequence that one sender sent. */
  ghost function From(q: seq<Message>, sender: int): seq<Message> {
    if q == [] then []
    else if q[0].sender == sender then [q[0]] + From(q[1..], sender)
    else From(q[1..], sender)
  }

  /** What a sender got accepted is what was delivered and then what is queued, in order. */
  ghost predicate Ordered(accepted: seq<Message>, delivered: seq<Message>, queue: seq<Message>) {
    forall sender: int :: From(delivered, sender) + From(queue, sender) == From(accepted, sender)
  }

  lemma {:induction false} FromConcat(xs: seq<Message>, ys: seq<Message>, sender: int)
    ensures From(xs + ys, sender) == From(xs, sender) + From(ys, sender)
  {
    if xs == [] {
      assert xs + ys == ys;
    } else {
      assert (xs + ys)[1..] == xs[1..] + ys;
      FromConcat(xs[1..], ys, sender);
    }
  }

  lemma FromFirst(x: Message, rest: seq<Message>, sender: int)
    ensures From([x] + rest, sender) == (if x.sender == sender then [x] else []) + From(rest, sender)
  {
    assert ([x] + rest)[1..] == rest;
  }

  lemma WithoutFirst(x: Message, rest: seq<Message>, i: nat)
    requires i <= |rest|
    ensures Without([x] + rest, i) == if i == 0 then rest else [x] + Without(rest, i - 1)
  {
  }

  lemma MatchFirst(x: Message, rest: seq<Message>, from: int)
    ensures FirstMatch([x] + rest, from) == if Matches(x, from) then 0 else 1 + FirstMatch(rest, from)
  {
    assert ([x] + rest)[1..] == rest;
  }

  /** `x` in front of what is left of its sender's messages. */
  ghost function InFront(x: Message, rest: seq<Message>, sender: int): seq<Message> {
    (if x.sender == sender then [x] else []) + From(rest, sender)
  }

  lemma PassedOver(x: Message, y: Message, rest: seq<Message>, sender: int)
    requires x.sender != y.sender
    ensures InFront(y, [x] + rest, sender) == (if x.sender == sender then [x] else []) + InFront(y, rest, sender)
  {
    FromFirst(x, rest, sender);
  }

  /** Taking the oldest match takes the oldest message of its sender. */
  lemma {:induction false} FromWithout(q: seq<Message>, from: int, sender: int)
    requires FirstMatch(q, from) < |q|
    ensures var i := FirstMatch(q, from); From(q, sender) == InFront(q[i], Without(q, i), sender)
    decreases |q|
  {
    var i, x, rest := FirstMatch(q, from), q[0], q[1..];
    assert q == [x] + rest;
    FromFirst(x, rest, sender);
    MatchFirst(x, rest, from);
    WithoutFirst(x, rest, i);
    if i == 0 {
    } else {
      FromWithout(rest, from, sender);
      PassedOver(x, q[i], Without(rest, i - 1), sender);
    }
  }

  lemma AcceptOrdered(accepted: seq<Message>, delivered: seq<Message>, queue: seq<Message>, m: Message)
    requires Ordered(accepted, delivered, queue)
    ensures Ordered(accepted + [m], delivered, queue + [m])
  {
    forall sender: int
      ensures From(delivered, sender) + From(queue + [m], sender) == From(accepted + [m], sender)
    {
      FromConcat(queue, [m], sender);
      FromConcat(accepted, [m], sender);
      assert From(delivered, sender) + From(queue, sender) == From(accepted, sender);
    }
  }

  lemma DeliverFrom(accepted: seq<Message>, delivered: seq<Message>, queue: seq<Message>, m: Message, rest: seq<Message>, sender: int)
    requires From(delivered, sender) + From(queue, sender) == From(accepted, sender)
    requires From(queue, sender) == InFront(m, rest, sender)
    ensures From(delivered + [m], sender) + From(rest, sender) == From(accepted, sender)
  {
    FromConcat(delivered, [m], sender);
    FromFirst(m, [], sender);
    assert [m] + [] == [m];
    Reassociated(From(delivered, sender), From([m], sender), From(rest, sender));
  }

  lemma Reassociated(x: seq<Message>, y: seq<Message>, z: seq<Message>)
    ensures (x + y) + z == x + (y + z)
  {
  }

  lemma DeliverOrdered(accepted: seq<Message>, delivered: seq<Message>, queue: seq<Message>, from: int)
    requires Ordered(accepted, delivered, queue) && FirstMatch(queue, from) < |queue|
    ensures var i := FirstMatch(queue, from); Ordered(accepted, delivered + [queue[i]], Without(queue, i))
  {
    var i := FirstMatch(queue, from);
    forall sender: int
      ensures From(delivered + [queue[i]], sender) + From(Without(queue, i), sender) == From(accepted, sender)
    {
      FromWithout(queue, from, sender);
      DeliverFrom(accepted, delivered, queue, queue[i], Without(queue, i), sender);
    }
  }
}
