/** What each IPC call means, in terms of its arguments and of the state before and after:
    when it succeeds, which message goes where, and which tasks block or wake. And over
    runs: what a queue accepts is what the calls that returned 0 sent to it. */
module IpcMeaning {
  import opened IpcRing
  import opened Tasks
  import opened IpcModel
  import opened IpcRuns

  // ---------------------------------------------------------------------- sending

  /** Task `t` was blocked for a message from `sender` or from anybody. */
  predicate WaitsFor(t: Tcb, sender: int) {
    t.state == Blocked && (t.waitingFor == sender || t.waitingFor == -1)
  }

  /** A task made ready. */
  function Awake(t: Tcb): Tcb {
    Tcb(t.tid, Ready, -1)
  }

  /** The queue of task `to` has gained `m` at its end and nothing else has changed, but that
      the task has woken if it waited for it. */
  ghost predicate Gained(net: Net, s: State, to: nat, m: Message, s': State) {
    && Shaped(net, s) && to < |s.pool| == |s'.pool| && |s'.queues| == |s.queues|
    && (forall q :: 0 <= q < |s.queues| ==>
          s'.queues[q] == if q == net.route[to] then s.queues[q] + [m] else s.queues[q])
    && (forall t :: 0 <= t < |s.pool| ==>
          s'.pool[t] == if t == to && WaitsFor(s.pool[t], m.sender) then Awake(s.pool[t]) else s.pool[t])
  }

  /** Task `t` is blocked for `waitingFor` and nothing else has changed. */
  ghost predicate OnlyBlocked(s: State, t: nat, waitingFor: int, s': State) {
    && t < |s.pool| == |s'.pool| && s'.queues == s.queues
    && (forall u :: 0 <= u < |s.pool| ==>
          s'.pool[u] == if u == t then Tcb(s.pool[u].tid, Blocked, waitingFor) else s.pool[u])
  }

  ghost predicate HasRoom(net: Net, s: State, to: nat)
    requires Shaped(net, s) && to < |s.pool|
  {
    |s.queues[net.route[to]]| < net.caps[net.route[to]]
  }

  /** A send of `body` and `flags` from one task to another: it succeeds exactly if both live
      and there is room, and then exactly that message, from exactly that task, is queued;
      it waits exactly if both live, there is no room and it may wait. */
  ghost predicate Sends(net: Net, s: State, from: nat, to: nat, body: seq<nat>, flags: nat, o: Outcome) {
    && Shaped(net, s) && from < |s.pool| && to < |s.pool|
    && var live := Live(s.pool[from]) && Live(s.pool[to]);
    && (o.code == 0 <==> live && HasRoom(net, s, to))
    && (o.code == -2 <==> live && !HasRoom(net, s, to) && flags % 2 == 0)
    && o.code in {0, -1, -2}
    && (o.code == 0 ==> Gained(net, s, to, Message(s.pool[from].tid, s.pool[to].tid, body, flags), o.state))
    && (o.code == -2 ==> OnlyBlocked(s, from, s.pool[to].tid, o.state))
    && (o.code == -1 ==> o.state == s)
  }

  lemma SendMeans(net: Net, s: State, from: nat, to: nat, msg: Message)
    requires Shaped(net, s) && from < |s.pool| && to < |s.pool|
    ensures Sends(net, s, from, to, msg.body, msg.flags, Send(net, s, from, to, msg))
  {
  }

  /** Flags with the non-blocking bit set. */
  function Nonblocking(flags: nat): nat {
    if flags % 2 == 1 then flags else flags + 1
  }

  /** `ipc_try_send` never waits. */
  lemma TrySendMeans(net: Net, s: State, from: nat, to: nat, msg: Message)
    requires Shaped(net, s) && from < |s.pool| && to < |s.pool|
    ensures var o := Perform(net, s, OpTrySend(from, to, msg));
            Sends(net, s, from, to, msg.body, Nonblocking(msg.flags), o) && o.code != -2
  {
    SendMeans(net, s, from, to, WithNonBlock(msg));
  }

  /** The sender a reply goes out under. */
  function ReplySender(msg: Message): int {
    if msg.sender == -1 then -2 else msg.sender
  }

  ghost predicate LivesAs(s: State, t: nat, tid: int) {
    tid != -1 && t < |s.pool| && Live(s.pool[t]) && s.pool[t].tid == tid
  }

  /** A reply in the name of no live task: queued if there is room, and never waiting. */
  ghost predicate RepliesAlone(net: Net, s: State, to: nat, msg: Message, o: Outcome) {
    && Shaped(net, s) && to < |s.pool|
    && (o.code == 0 <==> Live(s.pool[to]) && HasRoom(net, s, to)) && o.code in {0, -1}
    && (o.code == 0 ==> Gained(net, s, to, Message(ReplySender(msg), s.pool[to].tid, msg.body, msg.flags), o.state))
    && (o.code == -1 ==> o.state == s)
  }

  ghost predicate TidsDiffer(pool: seq<Tcb>) {
    forall t, u :: 0 <= t < u < |pool| && pool[t].state != Free && pool[u].state != Free ==> pool[t].tid != pool[u].tid
  }

  /** `ipc_reply` is a send by the task whose tid the reply carries, if that lives. */
  lemma ReplyMeans(net: Net, s: State, to: nat, msg: Message)
    requires Shaped(net, s) && to < |s.pool| && TidsDiffer(s.pool)
    ensures var o := Reply(net, s, to, msg);
            && (forall t: nat :: LivesAs(s, t, msg.sender) ==> Sends(net, s, t, to, msg.body, msg.flags, o))
            && ((forall t: nat :: !LivesAs(s, t, msg.sender)) ==> RepliesAlone(net, s, to, msg, o))
  {
    var o, f := Reply(net, s, to, msg), SlotOf(s.pool, msg.sender);
    forall t: nat | LivesAs(s, t, msg.sender) ensures Sends(net, s, t, to, msg.body, msg.flags, o) {
      assert f < |s.pool|;
      assert f == t;
      SendMeans(net, s, t, to, msg);
    }
    if forall t: nat :: !LivesAs(s, t, msg.sender) {
      assert f < |s.pool| ==> !LivesAs(s, f, msg.sender);
    }
  }

  // -------------------------------------------------------------------- receiving

  /** `q'` is `q` without `m`, and no message in front of `m` is from the wanted sender. */
  ghost predicate OldestOut(q: seq<Message>, from: int, m: Message, q': seq<Message>) {
    exists xs, ys :: q == xs + [m] + ys && q' == xs + ys && forall x :: x in xs ==> from != -1 && x.sender != from
  }

  /** The queue of the task has lost its oldest message from the wanted sender, `m`; the task
      is ready if it was blocked, and so are the tasks that waited for space with it and
      that the scan reaches. */
  ghost predicate Lost(net: Net, s: State, task: nat, from: int, m: Message, s': State) {
    && Shaped(net, s) && task < |s.pool| == |s'.pool| && |s'.queues| == |s.queues|
    && (from == -1 || m.sender == from)
    && OldestOut(s.queues[net.route[task]], from, m, s'.queues[net.route[task]])
    && (forall q :: 0 <= q < |s.queues| && q != net.route[task] ==> s'.queues[q] == s.queues[q])
    && (forall t :: 0 <= t < |s.pool| ==>
          s'.pool[t] ==
            if s.pool[t].state == Blocked &&
               (t == task || (s.pool[t].waitingFor == s.pool[task].tid && 1 <= s.pool[t].tid < 2048))
            then Awake(s.pool[t]) else s.pool[t])
  }

  ghost predicate Wanted(net: Net, s: State, task: nat, from: int)
    requires Shaped(net, s) && task < |s.pool|
  {
    exists m :: m in s.queues[net.route[task]] && (from == -1 || m.sender == from)
  }

  /** A receive by a task: it succeeds exactly if the task lives and a message from the wanted
      sender is queued, and takes the oldest such message; a live task waits otherwise if
      it may. */
  ghost predicate Receives(net: Net, s: State, task: nat, from: int, mayWait: bool, o: Outcome) {
    && Shaped(net, s) && task < |s.pool| && o.code in {0, -1}
    && (o.code == 0 <==> Live(s.pool[task]) && Wanted(net, s, task, from))
    && (o.code == 0 ==> o.event.Delivered? && o.event.q == net.route[task] && Lost(net, s, task, from, o.event.m, o.state))
    && (o.code == -1 ==> if Live(s.pool[task]) && mayWait then OnlyBlocked(s, task, from, o.state) else o.state == s)
  }

  lemma MatchFound(q: seq<Message>, from: int)
    ensures FirstMatch(q, from) < |q| <==> exists m :: m in q && (from == -1 || m.sender == from)
  {
    var i := FirstMatch(q, from);
    if i < |q| {
      assert q[i] in q;
    }
    if exists m :: m in q && (from == -1 || m.sender == from) {
      var m :| m in q && (from == -1 || m.sender == from);
      var j :| 0 <= j < |q| && q[j] == m;
      assert Matches(q[j], from);
    }
  }

  lemma OldestMatch(q: seq<Message>, from: int, i: nat)
    requires i == FirstMatch(q, from) < |q|
    ensures (from == -1 || q[i].sender == from) && OldestOut(q, from, q[i], Without(q, i))
  {
    assert q == q[..i] + [q[i]] + q[i + 1..];
  }

  lemma RecvTakes(net: Net, s: State, task: nat, from: int, i: nat)
    requires Shaped(net, s) && task < |s.pool| && Live(s.pool[task])
    requires i == FirstMatch(s.queues[net.route[task]], from) < |s.queues[net.route[task]]|
    ensures Lost(net, s, task, from, s.queues[net.route[task]][i], Recv(net, s, task, from).state)
  {
    OldestMatch(s.queues[net.route[task]], from, i);
  }

  lemma RecvMeans(net: Net, s: State, task: nat, from: int)
    requires Shaped(net, s) && task < |s.pool|
    ensures Receives(net, s, task, from, true, Recv(net, s, task, from))
  {
    var q := s.queues[net.route[task]];
    MatchFound(q, from);
    if Live(s.pool[task]) && FirstMatch(q, from) < |q| { RecvTakes(net, s, task, from, FirstMatch(q, from)); }
  }

  /** `ipc_try_recv` never waits. */
  lemma TryRecvMeans(net: Net, s: State, task: nat, from: int)
    requires Shaped(net, s) && task < |s.pool|
    ensures Receives(net, s, task, from, false, TryRecv(net, s, task, from))
  {
    MatchFound(s.queues[net.route[task]], from);
    RecvMeans(net, s, task, from);
  }

  // ------------------------------------------------------------------------- runs

  /** The call did what it means. */
  ghost predicate Meant(net: Net, s: State, op: Op, o: Outcome)
    requires Shaped(net, s) && Names(|s.pool|, op)
  {
    match op
    case OpSend(from, to, msg) => Sends(net, s, from, to, msg.body, msg.flags, o)
    case OpTrySend(from, to, msg) => Sends(net, s, from, to, msg.body, Nonblocking(msg.flags), o)
    case OpReply(to, msg) =>
      TidsDiffer(s.pool) ==>
        && (forall t: nat :: LivesAs(s, t, msg.sender) ==> Sends(net, s, t, to, msg.body, msg.flags, o))
        && ((forall t: nat :: !LivesAs(s, t, msg.sender)) ==> RepliesAlone(net, s, to, msg, o))
    case OpRecv(task, sender) => Receives(net, s, task, sender, true, o)
    case OpTryRecv(task, sender) => Receives(net, s, task, sender, false, o)
  }

  lemma PerformMeant(net: Net, s: State, op: Op)
    requires Shaped(net, s) && Names(|s.pool|, op)
    ensures Meant(net, s, op, Perform(net, s, op))
  {
    match op
    case OpSend(from, to, msg) => SendMeans(net, s, from, to, msg);
    case OpTrySend(from, to, msg) => TrySendMeans(net, s, from, to, msg);
    case OpReply(to, msg) => if TidsDiffer(s.pool) { ReplyMeans(net, s, to, msg); }
    case OpRecv(task, sender) => RecvMeans(net, s, task, sender);
    case OpTryRecv(task, sender) => TryRecvMeans(net, s, task, sender);
  }

  /** Every call of the run does what it means. */
  ghost predicate AllMeant(net: Net, w: World, ops: seq<Op>)
    requires WShaped(net, w) && forall op :: op in ops ==> Names(|w.s.pool|, op)
    decreases |ops|
  {
    ops == [] ||
    (assert ops[0] in ops;
     && Meant(net, w.s, ops[0], Perform(net, w.s, ops[0]))
     && AllMeant(net, Step(net, w, ops[0]), ops[1..]))
  }

  lemma {:induction false} RunMeant(net: Net, w: World, ops: seq<Op>)
    requires WShaped(net, w) && forall op :: op in ops ==> Names(|w.s.pool|, op)
    ensures AllMeant(net, w, ops)
    decreases |ops|
  {
    if ops == [] {
    } else {
      assert ops[0] in ops;
      PerformMeant(net, w.s, ops[0]);
      RunMeant(net, Step(net, w, ops[0]), ops[1..]);
    }
  }

  /** What a call that returns 0 has sent to queue `q`. */
  ghost function SentTo(net: Net, s: State, op: Op, q: nat): seq<Message>
    requires Shaped(net, s) && Names(|s.pool|, op)
  {
    if Perform(net, s, op).code != 0 then []
    else
      match op
      case OpSend(from, to, msg) =>
        if net.route[to] == q then [Message(s.pool[from].tid, s.pool[to].tid, msg.body, msg.flags)] else []
      case OpTrySend(from, to, msg) =>
        if net.route[to] == q then [Message(s.pool[from].tid, s.pool[to].tid, msg.body, Nonblocking(msg.flags))] else []
      case OpReply(to, msg) =>
        if net.route[to] == q then [Message(ReplySender(msg), s.pool[to].tid, msg.body, msg.flags)] else []
      case _ => []
  }

  /** What the calls of a run that return 0 send to queue `q`, in order. */
  ghost function Sent(net: Net, w: World, ops: seq<Op>, q: nat): seq<Message>
    requires WShaped(net, w) && forall op :: op in ops ==> Names(|w.s.pool|, op)
    decreases |ops|
  {
    if ops == [] then []
    else
      assert ops[0] in ops;
      SentTo(net, w.s, ops[0], q) + Sent(net, Step(net, w, ops[0]), ops[1..], q)
  }

  lemma StepAccepts(net: Net, w: World, op: Op, q: nat)
    requires WShaped(net, w) && Names(|w.s.pool|, op) && q < |net.caps|
    ensures Step(net, w, op).accepted[q] == w.accepted[q] + SentTo(net, w.s, op, q)
  {
    match op
    case OpSend(from, to, msg) =>
    case OpTrySend(from, to, msg) =>
    case OpReply(to, msg) =>
    case OpRecv(task, sender) =>
    case OpTryRecv(task, sender) =>
  }

  /** What a queue has accepted at the end of a run is what it had accepted before and then
      what the calls that returned 0 sent to it. */
  lemma {:induction false} RunAccepts(net: Net, w: World, ops: seq<Op>, q: nat)
    requires WShaped(net, w) && (forall op :: op in ops ==> Names(|w.s.pool|, op)) && q < |net.caps|
    ensures WShaped(net, Run(net, w, ops)) && Run(net, w, ops).accepted[q] == w.accepted[q] + Sent(net, w, ops, q)
    decreases |ops|
  {
    if ops == [] {
    } else {
      assert ops[0] in ops;
      StepAccepts(net, w, ops[0], q);
      RunAccepts(net, Step(net, w, ops[0]), ops[1..], q);
      Reassociated(w.accepted[q], SentTo(net, w.s, ops[0], q), Sent(net, Step(net, w, ops[0]), ops[1..], q));
    }
  }

  /** The message a receive that returns 0 hands over from queue `q`. */
  ghost function GotFrom(net: Net, s: State, op: Op, q: nat): seq<Message>
    requires Shaped(net, s) && Names(|s.pool|, op)
  {
    var o := Perform(net, s, op);
    if (op.OpRecv? || op.OpTryRecv?) && o.code == 0 && net.route[op.task] == q && o.event.Delivered? then [o.event.m] else []
  }

  /** What the receives of a run hand over from queue `q`, in order. */
  ghost function Got(net: Net, w: World, ops: seq<Op>, q: nat): seq<Message>
    requires WShaped(net, w) && forall op :: op in ops ==> Names(|w.s.pool|, op)
    decreases |ops|
  {
    if ops == [] then []
    else
      assert ops[0] in ops;
      GotFrom(net, w.s, ops[0], q) + Got(net, Step(net, w, ops[0]), ops[1..], q)
  }

  lemma StepDelivers(net: Net, w: World, op: Op, q: nat)
    requires WShaped(net, w) && Names(|w.s.pool|, op) && q < |net.caps|
    ensures Step(net, w, op).delivered[q] == w.delivered[q] + GotFrom(net, w.s, op, q)
  {
    match op
    case OpSend(from, to, msg) =>
    case OpTrySend(from, to, msg) =>
    case OpReply(to, msg) =>
    case OpRecv(task, sender) =>
    case OpTryRecv(task, sender) =>
  }

  lemma {:induction false} RunDelivers(net: Net, w: World, ops: seq<Op>, q: nat)
    requires WShaped(net, w) && (forall op :: op in ops ==> Names(|w.s.pool|, op)) && q < |net.caps|
    ensures WShaped(net, Run(net, w, ops)) && Run(net, w, ops).delivered[q] == w.delivered[q] + Got(net, w, ops, q)
    decreases |ops|
  {
    if ops == [] {
    } else {
      assert ops[0] in ops;
      StepDelivers(net, w, ops[0], q);
      RunDelivers(net, Step(net, w, ops[0]), ops[1..], q);
      Reassociated(w.delivered[q], GotFrom(net, w.s, ops[0], q), Got(net, Step(net, w, ops[0]), ops[1..], q));
    }
  }

  /** From empty queues, for every queue and sender: the messages that receives handed over,
      followed by those still queued, are those that calls returning 0 sent, unaltered and
      in order. */
  lemma SentIsReceived(net: Net, pool: seq<Tcb>, ops: seq<Op>, q: nat, sender: int)
    requires WShaped(net, Start(net, pool)) && (forall op :: op in ops ==> Names(|pool|, op)) && q < |net.caps|
    ensures var w := Start(net, pool);
            var r, sent, got := Run(net, w, ops), Sent(net, w, ops, q), Got(net, w, ops, q);
            && WShaped(net, r) && |sent| == |got| + |r.s.queues[q]|
            && From(got, sender) + From(r.s.queues[q], sender) == From(sent, sender)
  {
    var w := Start(net, pool);
    EveryRun(net, pool, ops);
    RunAccepts(net, w, ops, q);
    RunDelivers(net, w, ops, q);
    assert [] + Sent(net, w, ops, q) == Sent(net, w, ops, q) && [] + Got(net, w, ops, q) == Got(net, w, ops, q);
  }
}
