/** The bounded message queues of the IPC system: rings with removal from the middle. */
module IpcRing {

  /** A message; `body` stands for the type, identifier and 16-byte payload, which the
      queues only copy. */
  datatype Message = Message(sender: int, receiver: int, body: seq<nat>, flags: nat)

  const ANY: int := -1

  /** A ring of `size` slots; `head` is the oldest message, `tail` the next free slot. */
  datatype Ring = Ring(buf: seq<Message>, size: nat, head: nat, tail: nat, count: nat) {

    ghost predicate Valid() {
      0 < size <= |buf| && head < size && count <= size && tail == Slot(head, count, size)
    }

    /** The queued messages, oldest first. */
    ghost function Contents(): (q: seq<Message>)
      requires Valid()
    {
      Straight(buf, head, size, count)
    }
  }

  /** The `n` messages from `head` on, laid out straight. */
  ghost function Straight(buf: seq<Message>, head: nat, size: nat, n: nat): (q: seq<Message>)
    requires 0 < size <= |buf| && head < size && n <= size
    ensures |q| == n
    ensures forall k :: 0 <= k < n ==> q[k] == buf[Slot(head, k, size)]
  {
    seq(n, k requires 0 <= k < n => buf[Slot(head, k, size)])
  }

  /** A store to one slot of the ring is a store to one place of the straight queue. */
  lemma StoreStraight(buf: seq<Message>, head: nat, size: nat, n: nat, k: nat, m: Message)
    requires 0 < size <= |buf| && head < size && k < n <= size
    ensures Straight(buf[Slot(head, k, size) := m], head, size, n) == Straight(buf, head, size, n)[k := m]
  {
  }

  /** The slot `k` places behind `head`. */
  function Slot(head: nat, k: nat, size: nat): (i: nat)
    requires head < size && k <= size
    ensures i < size
  {
    if head + k < size then head + k else head + k - size
  }

  /** That slot is what the code computes as a remainder. */
  lemma SlotIsRemainder(head: nat, k: nat, size: nat)
    requires head < size && k <= size
    ensures Slot(head, k, size) == (head + k) % size
  {
    var x := head + k;
    if x >= size { assert x == size * 1 + (x - size); }
  }

  predicate Matches(m: Message, from: int) {
    from == ANY || m.sender == from
  }

  /** The position of the oldest message that matches, the length if there is none. */
  ghost function FirstMatch(q: seq<Message>, from: int): (i: nat)
    ensures i <= |q|
    ensures i < |q| ==> Matches(q[i], from)
    ensures forall j :: 0 <= j < i ==> !Matches(q[j], from)
  {
    if q == [] || Matches(q[0], from) then 0 else 1 + FirstMatch(q[1..], from)
  }

  /** The queue without the message at position `i`. */
  function Without(q: seq<Message>, i: nat): seq<Message>
    requires i < |q|
  {
    q[..i] + q[i + 1..]
  }

  lemma FirstMatchUnique(q: seq<Message>, from: int, i: nat)
    requires i <= |q| && (i < |q| ==> Matches(q[i], from)) && forall j :: 0 <= j < i ==> !Matches(q[j], from)
    ensures FirstMatch(q, from) == i
  {
  }

  method Enqueue(r: Ring, m: Message) returns (r': Ring)
    requires r.Valid() && r.count < r.size
    ensures r'.Valid() && r'.size == r.size && |r'.buf| == |r.buf|
    ensures r'.Contents() == r.Contents() + [m]
  {
    r' := r.(buf := r.buf[r.tail := m], tail := Slot(r.tail, 1, r.size), count := r.count + 1);
  }

  /** The scan for a matching message. */
  method Find(r: Ring, from: int) returns (found: bool, pos: nat)
    requires r.Valid()
    ensures found <==> FirstMatch(r.Contents(), from) < r.count
    ensures found ==> pos == FirstMatch(r.Contents(), from)
  {
    ghost var q := r.Contents();
    pos := 0;
    if from == ANY { return r.count > 0, 0; }
    while pos < r.count
      invariant pos <= r.count
      invariant forall j :: 0 <= j < pos ==> !Matches(q[j], from)
    {
      var idx := Slot(r.head, pos, r.size);
      if r.buf[idx].sender == from { return true, pos; }
      pos := pos + 1;
    }
    return false, 0;
  }

  /** A queue in which the messages behind `pos` up to place `k` have moved up by one. */
  ghost function Shifted(q: seq<Message>, pos: nat, k: nat): seq<Message>
    requires pos <= k < |q|
  {
    q[..pos] + q[pos + 1..k + 1] + q[k..]
  }

  lemma ShiftOn(q: seq<Message>, pos: nat, k: nat)
    requires pos <= k < |q| - 1
    ensures |Shifted(q, pos, k)| == |q| && Shifted(q, pos, k)[k + 1] == q[k + 1]
    ensures Shifted(q, pos, k)[k := q[k + 1]] == Shifted(q, pos, k + 1)
  {
  }

  lemma ShiftEnds(q: seq<Message>, pos: nat)
    requires pos < |q|
    ensures Shifted(q, pos, pos) == q
    ensures |Shifted(q, pos, |q| - 1)| == |q| && Shifted(q, pos, |q| - 1)[..|q| - 1] == Without(q, pos)
  {
  }

  /** The state of the shifting loop: the messages behind `pos` up to place `k` have moved. */
  ghost predicate Shifting(buf: seq<Message>, head: nat, size: nat, q: seq<Message>, pos: nat, k: nat) {
    && 0 < size <= |buf| && head < size && |q| <= size && pos <= k < |q|
    && Straight(buf, head, size, |q|) == Shifted(q, pos, k)
  }

  /** The buffer with the message behind place `k` copied to it. */
  function Copied(buf: seq<Message>, head: nat, size: nat, k: nat): (r: seq<Message>)
    requires 0 < size <= |buf| && head < size && k + 1 < size
    ensures |r| == |buf|
  {
    buf[Slot(head, k, size) := buf[Slot(head, k + 1, size)]]
  }

  lemma ShiftStep(buf: seq<Message>, head: nat, size: nat, q: seq<Message>, pos: nat, k: nat)
    requires Shifting(buf, head, size, q, pos, k) && k + 1 < |q|
    ensures Shifting(Copied(buf, head, size, k), head, size, q, pos, k + 1)
  {
    ShiftOn(q, pos, k);
    StoreStraight(buf, head, size, |q|, k, buf[Slot(head, k + 1, size)]);
  }

  lemma ShiftStart(buf: seq<Message>, head: nat, size: nat, n: nat, pos: nat)
    requires 0 < size <= |buf| && head < size && pos < n <= size
    ensures Shifting(buf, head, size, Straight(buf, head, size, n), pos, pos)
  {
    ShiftEnds(Straight(buf, head, size, n), pos);
  }

  lemma ShiftDone(buf: seq<Message>, head: nat, size: nat, q: seq<Message>, pos: nat, last: nat)
    requires |q| == last + 1 && Shifting(buf, head, size, q, pos, last)
    ensures Straight(buf, head, size, last) == Without(q, pos)
  {
    ShiftEnds(q, pos);
    StraightPrefix(buf, head, size, |q|, last);
  }

  /** The shifting loop: the messages behind `pos` move up one slot each, across the
      end of the buffer if need be. */
  method ShiftLoop(buf: seq<Message>, head: nat, size: nat, last: nat, pos: nat, ghost q: seq<Message>)
    returns (r: seq<Message>)
    requires |q| == last + 1 && Shifting(buf, head, size, q, pos, pos)
    ensures |r| == |buf| && Straight(r, head, size, last) == Without(q, pos)
  {
    r := buf;
    var k := pos;
    while k < last
      invariant k <= last && |r| == |buf| && Shifting(r, head, size, q, pos, k)
    {
      ShiftStep(r, head, size, q, pos, k);
      r := Copied(r, head, size, k);
      k := k + 1;
    }
    ShiftDone(r, head, size, q, pos, last);
  }

  method CloseGap(r: Ring, pos: nat) returns (buf: seq<Message>)
    requires r.Valid() && pos < r.count
    ensures |buf| == |r.buf|
    ensures Straight(buf, r.head, r.size, r.count - 1) == Without(r.Contents(), pos)
  {
    ShiftStart(r.buf, r.head, r.size, r.count, pos);
    buf := ShiftLoop(r.buf, r.head, r.size, r.count - 1, pos, r.Contents());
  }

  lemma StraightTail(buf: seq<Message>, head: nat, size: nat, n: nat)
    requires 0 < size <= |buf| && head < size && 0 < n <= size
    ensures Straight(buf, Slot(head, 1, size), size, n - 1) == Without(Straight(buf, head, size, n), 0)
  {
    var s, t := Straight(buf, head, size, n), Straight(buf, Slot(head, 1, size), size, n - 1);
    forall k | 0 <= k < n - 1 ensures t[k] == s[k + 1] {
      assert Slot(Slot(head, 1, size), k, size) == Slot(head, k + 1, size);
    }
  }

  lemma StraightPrefix(buf: seq<Message>, head: nat, size: nat, n: nat, m: nat)
    requires 0 < size <= |buf| && head < size && m <= n <= size
    ensures Straight(buf, head, size, m) == Straight(buf, head, size, n)[..m]
  {
  }

  /** Taking out the message at `pos`: the head moves on, or the gap is closed. */
  method RemoveAt(r: Ring, pos: nat) returns (r': Ring)
    requires r.Valid() && pos < r.count
    ensures r'.Valid() && r'.size == r.size && |r'.buf| == |r.buf|
    ensures r'.Contents() == Without(r.Contents(), pos)
  {
    if pos == 0 {
      StraightTail(r.buf, r.head, r.size, r.count);
      r' := r.(head := Slot(r.head, 1, r.size), count := r.count - 1);
    } else {
      var buf := CloseGap(r, pos);
      var tail := if r.tail == 0 then r.size - 1 else r.tail - 1;
      r' := r.(buf := buf, tail := tail, count := r.count - 1);
    }
  }
}
