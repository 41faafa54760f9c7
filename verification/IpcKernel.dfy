/** The IPC system as the kernel keeps it: a task pool, ports with owners, and ring
    buffers, searched and updated in place. */
module IpcKernel {
  import opened IpcRing
  import opened Tasks
  import M = IpcModel
  import R = IpcRuns

  const PORTS: nat := 128
  const MAILBOXES: nat := 256
  const PORT_SLOTS: nat := 16

  function EmptyRing(size: nat): (r: Ring)
    requires 0 < size <= PORT_SLOTS
    ensures r.Valid() && r.size == size && r.Contents() == []
  {
    Ring(seq(PORT_SLOTS, _ => Message(0, 0, [], 0)), size, 0, 0, 0)
  }

  /** The first used port owned by the task in slot `t`, `PORTS` if there is none. */
  function FirstPort(used: seq<bool>, owner: seq<int>, t: nat, from: nat): (p: nat)
    requires |used| == |owner| == PORTS && from <= PORTS
    ensures from <= p <= PORTS
    ensures p < PORTS ==> used[p] && owner[p] == t
    ensures forall j :: from <= j < p ==> !(used[j] && owner[j] == t)
    decreases PORTS - from
  {
    if from == PORTS || (used[from] && owner[from] == t) then from else FirstPort(used, owner, t, from + 1)
  }

  /** The queue a task receives from: its port's, else the mailbox its tid selects. */
  function QueueOf(used: seq<bool>, owner: seq<int>, t: nat, tid: int): (q: nat)
    requires |used| == |owner| == PORTS
    ensures q < PORTS + MAILBOXES
  {
    var p := FirstPort(used, owner, t, 0);
    if p < PORTS then p else PORTS + (if tid < 0 then 0 else tid % MAILBOXES)
  }

  ghost function QueuesOf(rings: seq<Ring>): (qs: seq<seq<Message>>)
    requires forall i :: 0 <= i < |rings| ==> rings[i].Valid()
    ensures |qs| == |rings| && forall i :: 0 <= i < |rings| ==> qs[i] == rings[i].Contents()
  {
    seq(|rings|, i requires 0 <= i < |rings| => rings[i].Contents())
  }

  ghost function RoutesOf(pool: seq<M.Tcb>, used: seq<bool>, owner: seq<int>): (r: seq<nat>)
    requires |used| == |owner| == PORTS
    ensures |r| == |pool| && forall t :: 0 <= t < |pool| ==> r[t] == QueueOf(used, owner, t, pool[t].tid)
  {
    seq(|pool|, t requires 0 <= t < |pool| => QueueOf(used, owner, t, pool[t].tid))
  }

  ghost function CapsOf(rings: seq<Ring>): (c: seq<nat>)
    ensures |c| == |rings| && forall i :: 0 <= i < |rings| ==> c[i] == rings[i].size
  {
    seq(|rings|, i requires 0 <= i < |rings| => rings[i].size)
  }

  /** Two tasks receive from the same queue exactly if neither owns a port and their tids
      select the same mailbox. */
  lemma SharedQueue(used: seq<bool>, owner: seq<int>, t: nat, u: nat, tid: nat, uid: nat)
    requires |used| == |owner| == PORTS && t != u
    ensures QueueOf(used, owner, t, tid) == QueueOf(used, owner, u, uid) <==>
            && FirstPort(used, owner, t, 0) == PORTS && FirstPort(used, owner, u, 0) == PORTS
            && tid % MAILBOXES == uid % MAILBOXES
  {
  }

  /** Tids identify the tasks that exist. */
  ghost predicate TidsSound(pool: seq<M.Tcb>) {
    && (forall t :: 0 <= t < |pool| ==>
          if pool[t].state == Free then pool[t].tid == INVALID_TID else pool[t].tid > 0)
    && (forall t, u :: 0 <= t < u < |pool| && pool[t].state != Free && pool[u].state != Free ==> pool[t].tid != pool[u].tid)
  }

  lemma SlotSelf(pool: seq<M.Tcb>, i: nat)
    requires TidsSound(pool) && i < |pool|
    ensures M.SlotOf(pool, pool[i].tid) == if pool[i].state == Free then |pool| else i
  {
    NoSlot(pool);
  }

  /** Replacing one ring replaces one queue. */
  lemma OneRing(rings: seq<Ring>, q: nat, r: Ring)
    requires q < |rings| && r.Valid() && r.size == rings[q].size && forall i :: 0 <= i < |rings| ==> rings[i].Valid()
    ensures QueuesOf(rings[q := r]) == QueuesOf(rings)[q := r.Contents()] && CapsOf(rings[q := r]) == CapsOf(rings)
  {
  }

  /** Replacing one task by one with the same tid changes no route. */
  lemma OneTask(pool: seq<M.Tcb>, used: seq<bool>, owner: seq<int>, t: nat, task: M.Tcb)
    requires |used| == |owner| == PORTS && t < |pool| && task.tid == pool[t].tid
    ensures RoutesOf(pool[t := task], used, owner) == RoutesOf(pool, used, owner)
  {
  }

  function Readied(t: M.Tcb): M.Tcb {
    t.(state := Ready, waitingFor := INVALID_TID)
  }

  /** The tasks of `was` with tids below `tid` that waited for space there are ready in `pool`. */
  ghost predicate WokenBelow(was: seq<M.Tcb>, pool: seq<M.Tcb>, waited: int, tid: int) {
    && |pool| == |was| && TidsSound(pool)
    && forall i :: 0 <= i < |pool| ==>
         pool[i] == if was[i].state != Free && was[i].tid < tid then M.WakeSender(was[i], waited) else was[i]
  }

  lemma WakeNext(was: seq<M.Tcb>, pool: seq<M.Tcb>, waited: int, tid: int, t: nat)
    requires WokenBelow(was, pool, waited, tid) && 1 <= tid < M.MAX_WOKEN_TID && t == M.SlotOf(pool, tid)
    ensures var wakes := t < |pool| && pool[t].state == Blocked && pool[t].waitingFor == waited;
            WokenBelow(was, if wakes then pool[t := Readied(pool[t])] else pool, waited, tid + 1)
  {
  }

  lemma WokenAll(was: seq<M.Tcb>, pool: seq<M.Tcb>, waited: int, used: seq<bool>, owner: seq<int>)
    requires WokenBelow(was, pool, waited, M.MAX_WOKEN_TID) && TidsSound(was) && |used| == |owner| == PORTS
    ensures pool == M.WakeSenders(was, waited) && RoutesOf(pool, used, owner) == RoutesOf(was, used, owner)
  {
  }

  class Ipc {
    var pool: seq<M.Tcb>
    var used: seq<bool>
    var owner: seq<int>
    var rings: seq<Ring>  // the queues of the ports, then the mailboxes

    ghost predicate Valid()
      reads this
    {
      && |used| == |owner| == PORTS && |rings| == PORTS + MAILBOXES
      && (forall i :: 0 <= i < |rings| ==> rings[i].Valid())
      && TidsSound(pool)
    }

    ghost function Net(): (net: M.Net)
      reads this
      requires |used| == |owner| == PORTS
    {
      M.Net(RoutesOf(pool, used, owner), CapsOf(rings))
    }

    ghost function View(): (s: M.State)
      reads this
      requires Valid()
    {
      M.State(pool, QueuesOf(rings))
    }

    /** `ipc_init`: no port is used, and every queue is empty. */
    constructor (pool: seq<M.Tcb>)
      requires TidsSound(pool)
      ensures Valid() && this.pool == pool && (forall p :: 0 <= p < PORTS ==> !used[p])
      ensures forall q :: 0 <= q < PORTS + MAILBOXES ==> View().queues[q] == []
    {
      this.pool := pool;
      used := seq(PORTS, _ => false);
      owner := seq(PORTS, _ => -1);
      rings := seq(PORTS + MAILBOXES, _ => EmptyRing(PORT_SLOTS));
    }

    lemma ViewShaped()
      requires Valid()
      ensures M.Shaped(Net(), View())
    {
    }

    /** `tcb_get_by_tid`. */
    method GetByTid(tid: int) returns (i: nat)
      ensures i == M.SlotOf(pool, tid)
    {
      i := 0;
      if tid == INVALID_TID {
        NoSlot(pool);
        return |pool|;
      }
      while i < |pool|
        invariant i <= |pool|
        invariant M.SlotOf(pool, tid) == i + M.SlotOf(pool[i..], tid)
      {
        if pool[i].tid == tid && pool[i].state != Free { return; }
        assert pool[i..][1..] == pool[i + 1..];
        i := i + 1;
      }
    }

    /** `find_port_for_task`. */
    method FindPort(t: nat) returns (p: nat)
      requires |used| == |owner| == PORTS
      ensures p == FirstPort(used, owner, t, 0)
    {
      p := 0;
      while p < PORTS
        invariant p <= PORTS && FirstPort(used, owner, t, 0) == FirstPort(used, owner, t, p)
      {
        if used[p] && owner[p] == t { return; }
        p := p + 1;
      }
    }

    /** The queue the task in slot `t` receives from. */
    method FindQueue(t: nat) returns (q: nat)
      requires |used| == |owner| == PORTS && t < |pool|
      ensures q == QueueOf(used, owner, t, pool[t].tid)
    {
      var p := FindPort(t);
      var tid := pool[t].tid;
      q := if p < PORTS then p else PORTS + (if tid < 0 then 0 else tid % MAILBOXES);
    }

    /** Enqueue a complete message and wake the receiver if it waits for it. */
    method Post(q: nat, t: nat, m: Message)
      requires Valid() && t < |pool| && q == QueueOf(used, owner, t, pool[t].tid) && rings[q].count < rings[q].size
      modifies `pool, `rings
      ensures Valid() && Net() == old(Net())
      ensures View() == M.Post(old(Net()), old(View()), t, m).state
    {
      var r := Enqueue(rings[q], m);
      OneRing(rings, q, r);
      OneTask(pool, used, owner, t, M.Wake(pool[t], m.sender));
      rings := rings[q := r];
      pool := pool[t := M.Wake(pool[t], m.sender)];
    }

    /** `ipc_send`. */
    method Send(from: nat, to: nat, msg: Message) returns (code: int)
      requires Valid() && from < |pool| && to < |pool|
      modifies `pool, `rings
      ensures Valid() && Net() == old(Net()) && |pool| == |old(pool)|
      ensures M.Shaped(old(Net()), old(View()))
      ensures var o := M.Send(old(Net()), old(View()), from, to, msg); View() == o.state && code == o.code
    {
      ViewShaped();
      SlotSelf(pool, from);
      SlotSelf(pool, to);
      var f := GetByTid(pool[from].tid);
      var t := GetByTid(pool[to].tid);
      if f == |pool| || t == |pool| { return -1; }
      if !M.Live(pool[f]) || !M.Live(pool[t]) { return -1; }
      code := Offer(f, t, msg.(sender := pool[from].tid, receiver := pool[to].tid));
    }

    /** The part of `ipc_send` behind its checks. */
    method Offer(from: nat, to: nat, m: Message) returns (code: int)
      requires Valid() && from < |pool| && to < |pool| && M.Live(pool[from])
      modifies `pool, `rings
      ensures Valid() && Net() == old(Net()) && |pool| == |old(pool)|
      ensures M.Shaped(old(Net()), old(View()))
      ensures var o := M.Offer(old(Net()), old(View()), from, to, m); View() == o.state && code == o.code
    {
      ViewShaped();
      var q := FindQueue(to);
      if rings[q].count >= rings[q].size {
        if M.NonBlocking(m) { return -1; }
        OneTask(pool, used, owner, from, M.Block(pool[from], pool[to].tid));
        pool := pool[from := M.Block(pool[from], pool[to].tid)];
        return -2;
      }
      Post(q, to, m);
      return 0;
    }

    /** `ipc_try_send`. */
    method TrySend(from: nat, to: nat, msg: Message) returns (code: int)
      requires Valid() && from < |pool| && to < |pool|
      modifies `pool, `rings
      ensures Valid() && Net() == old(Net()) && |pool| == |old(pool)|
      ensures M.Shaped(old(Net()), old(View()))
      ensures var o := M.Send(old(Net()), old(View()), from, to, M.WithNonBlock(msg)); View() == o.state && code == o.code
    {
      var flags := if msg.flags % 2 == 1 then msg.flags else msg.flags + 1;
      code := Send(from, to, msg.(flags := flags));
    }

    /** `ipc_reply`. */
    method Reply(to: nat, msg: Message) returns (code: int)
      requires Valid() && to < |pool|
      modifies `pool, `rings
      ensures Valid() && Net() == old(Net()) && |pool| == |old(pool)|
      ensures M.Shaped(old(Net()), old(View()))
      ensures var o := M.Reply(old(Net()), old(View()), to, msg); View() == o.state && code == o.code
    {
      ViewShaped();
      SlotSelf(pool, to);
      var dest := GetByTid(pool[to].tid);
      if dest == |pool| || !M.Live(pool[dest]) { return -1; }
      var from := GetByTid(msg.sender);
      if from < |pool| && M.Live(pool[from]) {
        code := Send(from, dest, msg);
        return;
      }
      var m := msg.(receiver := pool[dest].tid);
      if m.sender == INVALID_TID { m := m.(sender := M.KERNEL_TID); }
      var q := FindQueue(dest);
      if rings[q].count >= rings[q].size { return -1; }
      Post(q, dest, m);
      return 0;
    }

    /** `wake_sender_waiters_for_receiver`, called when the receiver's queue has space. */
    method WakeSenders(r: nat)
      requires Valid() && r < |pool|
      requires var q := QueueOf(used, owner, r, pool[r].tid); rings[q].count < rings[q].size
      modifies `pool
      ensures Valid() && Net() == old(Net()) && pool == M.WakeSenders(old(pool), old(pool)[r].tid)
    {
      ghost var was, waited := pool, pool[r].tid;
      var tid := 1;
      while tid < M.MAX_WOKEN_TID
        invariant 1 <= tid <= M.MAX_WOKEN_TID && WokenBelow(was, pool, waited, tid)
      {
        var t := GetByTid(tid);
        WakeNext(was, pool, waited, tid, t);
        if t < |pool| && pool[t].state == Blocked && pool[t].waitingFor == pool[r].tid {
          var q := FindQueue(r);
          if rings[q].count < rings[q].size {
            pool := pool[t := Readied(pool[t])];
          }
        }
        tid := tid + 1;
      }
      WokenAll(was, pool, waited, used, owner);
    }

    /** `ipc_recv`. */
    method Recv(task: nat, from: int) returns (code: int, msg: Message)
      requires Valid() && task < |pool|
      modifies `pool, `rings
      ensures Valid() && Net() == old(Net()) && |pool| == |old(pool)|
      ensures M.Shaped(old(Net()), old(View()))
      ensures var o := M.Recv(old(Net()), old(View()), task, from);
              View() == o.state && code == o.code && (code == 0 ==> o.event.Delivered? && msg == o.event.m)
    {
      ViewShaped();
      SlotSelf(pool, task);
      msg := Message(0, 0, [], 0);
      code := -1;
      var t := GetByTid(pool[task].tid);
      if t == |pool| || !M.Live(pool[t]) { return; }
      var q := FindQueue(task);
      var found, pos := Find(rings[q], from);
      if !found {
        OneTask(pool, used, owner, t, M.Block(pool[t], from));
        pool := pool[t := M.Block(pool[t], from)];
        return;
      }
      msg := rings[q].buf[Slot(rings[q].head, pos, rings[q].size)];
      Take(task, q, pos);
      code := 0;
    }

    /** `ipc_try_recv`: look first, and receive only what is there. */
    method TryRecv(task: nat, from: int) returns (code: int, msg: Message)
      requires Valid() && task < |pool|
      modifies `pool, `rings
      ensures Valid() && Net() == old(Net()) && |pool| == |old(pool)|
      ensures M.Shaped(old(Net()), old(View()))
      ensures var o := M.TryRecv(old(Net()), old(View()), task, from);
              View() == o.state && code == o.code && (code == 0 ==> o.event.Delivered? && msg == o.event.m)
    {
      ViewShaped();
      SlotSelf(pool, task);
      var t := GetByTid(pool[task].tid);
      if t == |pool| { return -1, Message(0, 0, [], 0); }
      var q := FindQueue(task);
      var found, _ := Find(rings[q], from);
      if !found { return -1, Message(0, 0, [], 0); }
      code, msg := Recv(task, from);
    }

    /** `ipc_create_port`: the lowest unused port, without an owner and with an empty queue. */
    method CreatePort(queueSize: nat) returns (p: int)
      requires Valid()
      modifies `used, `owner, `rings
      ensures Valid()
      ensures p == -1 ==> used == old(used) && owner == old(owner) && rings == old(rings)
      ensures p == -1 <==> forall i :: 0 <= i < PORTS ==> old(used)[i]
      ensures p != -1 ==> 0 <= p < PORTS && !old(used)[p] && forall i :: 0 <= i < p ==> old(used)[i]
      ensures p != -1 ==> used == old(used)[p := true] && owner == old(owner)[p := -1]
      ensures p != -1 ==> View() == old(View()).(queues := old(View()).queues[p := []])
      ensures p != -1 ==> CapsOf(rings) == CapsOf(old(rings))[p := if 0 < queueSize <= PORT_SLOTS then queueSize else PORT_SLOTS]
    {
      var size := if queueSize == 0 || queueSize > PORT_SLOTS then PORT_SLOTS else queueSize;
      p := 0;
      while p < PORTS && used[p]
        invariant 0 <= p <= PORTS && forall i :: 0 <= i < p ==> used[i]
      {
        p := p + 1;
      }
      if p == PORTS { return -1; }
      used := used[p := true];
      owner := owner[p := -1];
      rings := rings[p := EmptyRing(size)];
      assert QueuesOf(rings) == QueuesOf(old(rings))[p := []];
    }

    /** `ipc_bind_port`: only a live task, and only a port without another owner. */
    method BindPort(task: nat, p: int) returns (code: int)
      requires Valid() && task < |pool|
      modifies `owner
      ensures Valid() && View() == old(View())
      ensures code == 0 <==> 0 <= p < PORTS && used[p] && M.Live(pool[task]) && (old(owner)[p] < 0 || old(owner)[p] == task)
      ensures owner == if code == 0 then old(owner)[p := task] else old(owner)
      ensures code == 0 || code == -1
    {
      if p < 0 || p >= PORTS { return -1; }
      if !used[p] { return -1; }
      SlotSelf(pool, task);
      var t := GetByTid(pool[task].tid);
      if t == |pool| || !M.Live(pool[t]) { return -1; }
      if owner[p] >= 0 && owner[p] != task { return -1; }
      owner := owner[p := task];
      return 0;
    }

    /** Remove the message found, resume the receiver and wake the senders. */
    method Take(task: nat, q: nat, pos: nat)
      requires Valid() && task < |pool| && M.Live(pool[task])
      requires q == QueueOf(used, owner, task, pool[task].tid) && pos < rings[q].count
      modifies `pool, `rings
      ensures Valid() && Net() == old(Net())
      ensures pool == M.WakeSenders(old(pool)[task := M.Resume(old(pool)[task])], old(pool)[task].tid)
      ensures QueuesOf(rings) == QueuesOf(old(rings))[q := Without(old(rings)[q].Contents(), pos)]
    {
      var r := RemoveAt(rings[q], pos);
      OneRing(rings, q, r);
      OneTask(pool, used, owner, task, M.Resume(pool[task]));
      rings := rings[q := r];
      if pool[task].state == Blocked {
        pool := pool[task := pool[task].(state := Ready, waitingFor := INVALID_TID)];
      }
      assert pool == old(pool)[task := M.Resume(old(pool)[task])];
      WakeSenders(task);
    }

    // ------------------------------------------------------------------------ runs

    /** One call, and the history with what it did. */
    method Perform(op: M.Op, ghost w: M.World) returns (code: int, ghost w': M.World)
      requires Valid() && M.Names(|pool|, op) && M.WShaped(Net(), w) && w.s == View()
      modifies `pool, `rings
      ensures Valid() && Net() == old(Net()) && |pool| == |old(pool)|
      ensures w' == R.Step(old(Net()), w, op) && w'.s == View() && code == M.Perform(old(Net()), w.s, op).code
    {
      code := Dispatch(op);
      w' := R.Step(old(Net()), w, op);
    }

    method Dispatch(op: M.Op) returns (code: int)
      requires Valid() && M.Names(|pool|, op)
      modifies `pool, `rings
      ensures Valid() && Net() == old(Net()) && |pool| == |old(pool)| && M.Shaped(old(Net()), old(View()))
      ensures var o := M.Perform(old(Net()), old(View()), op); View() == o.state && code == o.code
    {
      match op {
        case OpSend(from, to, msg) => code := Send(from, to, msg);
        case OpTrySend(from, to, msg) => code := TrySend(from, to, msg);
        case OpReply(to, msg) => code := Reply(to, msg);
        case OpRecv(task, sender) =>
          var m;
          code, m := Recv(task, sender);
        case OpTryRecv(task, sender) =>
          var m;
          code, m := TryRecv(task, sender);
      }
    }

    /** Any sequence of calls on rings and ports is a run of the model, so whatever holds of
        every run holds of it. */
    method PerformAll(ops: seq<M.Op>, ghost w: M.World) returns (ghost w': M.World)
      requires Valid() && M.WShaped(Net(), w) && w.s == View() && forall op :: op in ops ==> M.Names(|pool|, op)
      modifies `pool, `rings
      ensures Valid() && Net() == old(Net()) && w' == R.Run(old(Net()), w, ops) && w'.s == View()
    {
      ghost var net, end := Net(), R.Run(Net(), w, ops);
      w' := w;
      var i := 0;
      assert ops[0..] == ops;
      while i < |ops|
        invariant 0 <= i <= |ops| && Valid() && Net() == net && M.WShaped(net, w') && w'.s == View()
        invariant |pool| == |old(pool)| && R.Run(net, w', ops[i..]) == end
      {
        assert ops[i] in ops && ops[i..][0] == ops[i] && ops[i..][1..] == ops[i + 1..];
        var code;
        code, w' := Perform(ops[i], w');
        i := i + 1;
      }
    }
  }

  lemma {:induction false} NoSlot(pool: seq<M.Tcb>)
    ensures M.SlotOf(pool, INVALID_TID) == |pool|
  {
    if pool == [] {
    } else {
      NoSlot(pool[1..]);
    }
  }
}
