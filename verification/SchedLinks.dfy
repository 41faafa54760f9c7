/** The run queue as it is stored: links in the task slots, a head and a tail. */
module SchedLinks {
  import opened Distinctness
  import opened SchedModel

  /** `next` and `prev` of every slot, and the ends of the queue; `NONE` is the null link. */
  datatype Links = Links(next: seq<int>, prev: seq<int>, head: int, tail: int)

  /** The task at place `i`, no link outside the queue. */
  ghost function At(q: seq<nat>, i: int): int {
    if 0 <= i < |q| then q[i] else NONE
  }

  ghost predicate Slots(q: seq<nat>) {
    Distinct(q) && forall i :: 0 <= i < |q| ==> q[i] < MAX_TASKS
  }

  /** The link of every queued task leads `d` places on. */
  ghost predicate Leads(q: seq<nat>, link: seq<int>, d: int) {
    |link| == MAX_TASKS && forall i {:trigger link[q[i]]} :: 0 <= i < |q| ==> q[i] < MAX_TASKS && link[q[i]] == At(q, i + d)
  }

  ghost predicate NullOutside(q: seq<nat>, link: seq<int>) {
    |link| == MAX_TASKS && forall t {:trigger link[t]} :: 0 <= t < MAX_TASKS && t !in q ==> link[t] == NONE
  }

  /** The links spell the queue `q`, and tasks outside it have null links. */
  ghost predicate Spells(q: seq<nat>, l: Links) {
    && Slots(q)
    && l.head == At(q, 0) && l.tail == At(q, |q| - 1)
    && Leads(q, l.next, 1) && Leads(q, l.prev, -1)
    && NullOutside(q, l.next) && NullOutside(q, l.prev)
  }

  function Appended(l: Links, t: nat): Links
    requires t < |l.next| && t < |l.prev| && l.tail < |l.next|
    requires l.head != NONE ==> l.tail >= 0
  {
    var next := l.next[t := NONE];
    Links(if l.head == NONE then next else next[l.tail := t], l.prev[t := l.tail],
          if l.head == NONE then t else l.head, t)
  }

  lemma AppendNext(q: seq<nat>, l: Links, t: nat)
    requires Spells(q, l) && t < MAX_TASKS && t !in q
    ensures Leads(q + [t], Appended(l, t).next, 1) && NullOutside(q + [t], Appended(l, t).next)
  {
    var q', next := q + [t], Appended(l, t).next;
    forall i | 0 <= i < |q'| ensures q'[i] < MAX_TASKS && next[q'[i]] == At(q', i + 1) {
      if i < |q| {
        assert q'[i] == q[i];
        assert l.next[q[i]] == At(q, i + 1);
      }
    }
    forall x | 0 <= x < MAX_TASKS && x !in q' ensures next[x] == NONE {
      assert l.next[x] == NONE;
      assert q != [] ==> l.tail in q;
    }
  }

  lemma AppendPrev(q: seq<nat>, l: Links, t: nat)
    requires Spells(q, l) && t < MAX_TASKS && t !in q
    ensures Leads(q + [t], Appended(l, t).prev, -1) && NullOutside(q + [t], Appended(l, t).prev)
  {
    var q', prev := q + [t], Appended(l, t).prev;
    forall i | 0 <= i < |q'| ensures q'[i] < MAX_TASKS && prev[q'[i]] == At(q', i - 1) {
      if i < |q| {
        assert q'[i] == q[i];
        assert l.prev[q[i]] == At(q, i - 1);
      }
    }
  }

  lemma AppendSpells(q: seq<nat>, l: Links, t: nat)
    requires Spells(q, l) && t < MAX_TASKS && t !in q
    ensures Spells(q + [t], Appended(l, t))
  {
    AppendNext(q, l, t);
    AppendPrev(q, l, t);
  }

  function Unlinked(l: Links, t: nat): Links
    requires t < |l.next| == |l.prev|
    requires NONE <= l.next[t] < |l.next| && NONE <= l.prev[t] < |l.next|
  {
    var n, p := l.next[t], l.prev[t];
    var next := if p != NONE then l.next[p := n] else l.next;
    var prev := if n != NONE then l.prev[n := p] else l.prev;
    Links(next[t := NONE], prev[t := NONE], if p != NONE then l.head else n, if n != NONE then l.tail else p)
  }

  ghost function Cut(q: seq<nat>, k: nat): seq<nat>
    requires k < |q|
  {
    q[..k] + q[k + 1..]
  }

  lemma CutAt(q: seq<nat>, k: nat, i: int)
    requires k < |q|
    ensures At(Cut(q, k), i) == At(q, if i < k then i else i + 1)
  {
  }

  lemma CutIn(q: seq<nat>, k: nat, x: nat)
    requires Distinct(q) && k < |q|
    ensures x in Cut(q, k) <==> x in q && x != q[k]
  {
    if x in q && x != q[k] {
      var j :| 0 <= j < |q| && q[j] == x;
      assert j < k ==> Cut(q, k)[j] == x;
      assert k < j ==> Cut(q, k)[j - 1] == x;
    }
  }

  /** The neighbours of a queued task are what its links say, and lie in the table. */
  lemma Neighbours(q: seq<nat>, l: Links, k: nat)
    requires Spells(q, l) && k < |q|
    ensures l.next[q[k]] == At(q, k + 1) && l.prev[q[k]] == At(q, k - 1)
    ensures NONE <= l.next[q[k]] < MAX_TASKS && NONE <= l.prev[q[k]] < MAX_TASKS
    ensures l.next[q[k]] != q[k] && l.prev[q[k]] != q[k]
  {
  }

  lemma UnlinkNextAt(q: seq<nat>, l: Links, k: nat, j: nat)
    requires Spells(q, l) && k < |q| && j < |q| && j != k
    requires NONE <= l.next[q[k]] < MAX_TASKS && NONE <= l.prev[q[k]] < MAX_TASKS
    ensures Unlinked(l, q[k]).next[q[j]] == At(q, if j + 1 == k then j + 2 else j + 1)
  {
    Neighbours(q, l, k);
    Neighbours(q, l, j);
    assert j + 1 != k ==> q[j] != At(q, k - 1);
  }

  lemma UnlinkNext(q: seq<nat>, l: Links, k: nat)
    requires Spells(q, l) && k < |q|
    requires NONE <= l.next[q[k]] < MAX_TASKS && NONE <= l.prev[q[k]] < MAX_TASKS
    ensures Leads(Cut(q, k), Unlinked(l, q[k]).next, 1) && NullOutside(Cut(q, k), Unlinked(l, q[k]).next)
  {
    var q', next := Cut(q, k), Unlinked(l, q[k]).next;
    Neighbours(q, l, k);
    forall i | 0 <= i < |q'| ensures q'[i] < MAX_TASKS && next[q'[i]] == At(q', i + 1) {
      var j := if i < k then i else i + 1;
      CutAt(q, k, i);
      CutAt(q, k, i + 1);
      UnlinkNextAt(q, l, k, j);
    }
    forall x | 0 <= x < MAX_TASKS && x !in q' ensures next[x] == NONE {
      CutIn(q, k, x);
      assert k > 0 ==> q[k - 1] in q;
    }
  }

  lemma UnlinkPrevAt(q: seq<nat>, l: Links, k: nat, j: nat)
    requires Spells(q, l) && k < |q| && j < |q| && j != k
    requires NONE <= l.next[q[k]] < MAX_TASKS && NONE <= l.prev[q[k]] < MAX_TASKS
    ensures Unlinked(l, q[k]).prev[q[j]] == At(q, if j - 1 == k then j - 2 else j - 1)
  {
    Neighbours(q, l, k);
    Neighbours(q, l, j);
    assert j - 1 != k ==> q[j] != At(q, k + 1);
  }

  lemma UnlinkPrev(q: seq<nat>, l: Links, k: nat)
    requires Spells(q, l) && k < |q|
    requires NONE <= l.next[q[k]] < MAX_TASKS && NONE <= l.prev[q[k]] < MAX_TASKS
    ensures Leads(Cut(q, k), Unlinked(l, q[k]).prev, -1) && NullOutside(Cut(q, k), Unlinked(l, q[k]).prev)
  {
    var q', prev := Cut(q, k), Unlinked(l, q[k]).prev;
    Neighbours(q, l, k);
    forall i | 0 <= i < |q'| ensures q'[i] < MAX_TASKS && prev[q'[i]] == At(q', i - 1) {
      var j := if i < k then i else i + 1;
      CutAt(q, k, i);
      CutAt(q, k, i - 1);
      UnlinkPrevAt(q, l, k, j);
    }
    forall x | 0 <= x < MAX_TASKS && x !in q' ensures prev[x] == NONE {
      CutIn(q, k, x);
      assert k + 1 < |q| ==> q[k + 1] in q;
    }
  }

  lemma CutSlots(q: seq<nat>, k: nat)
    requires Slots(q) && k < |q|
    ensures Slots(Cut(q, k))
  {
  }

  lemma UnlinkSpells(q: seq<nat>, l: Links, k: nat)
    requires Spells(q, l) && k < |q|
    ensures NONE <= l.next[q[k]] < MAX_TASKS && NONE <= l.prev[q[k]] < MAX_TASKS
    ensures Spells(Cut(q, k), Unlinked(l, q[k]))
  {
    Neighbours(q, l, k);
    UnlinkNext(q, l, k);
    UnlinkPrev(q, l, k);
    CutSlots(q, k);
    CutAt(q, k, 0);
    CutAt(q, k, |q| - 2);
  }

  // ------------------------------------------------------- going round the queue

  /** The place in the queue of the `i`-th task in circular order behind place `p`. */
  ghost function Place(p: nat, i: nat, n: nat): nat
    requires p <= n && i < n
  {
    if p == n then i else if p + 1 + i < n then p + 1 + i else p + 1 + i - n
  }

  lemma TurnAt(q: seq<nat>, c: int, i: nat)
    requires i < |q|
    ensures Place(IndexOf(q, c), i, |q|) < |q| && Turn(q, c)[i] == q[Place(IndexOf(q, c), i, |q|)]
  {
  }

  /** Where the search starts: behind the current task, or at the head. */
  lemma TurnStart(q: seq<nat>, l: Links, c: int)
    requires Spells(q, l) && q != [] && NONE <= c < MAX_TASKS
    ensures var n := if c != NONE then l.next[c] else NONE;
            Turn(q, c)[0] == if n == NONE then l.head else n
  {
    TurnAt(q, c, 0);
    var p := IndexOf(q, c);
    if p < |q| { Neighbours(q, l, p); }
  }

  /** The place behind place `i`, round the end. */
  function Onwards(i: nat, n: nat): (j: nat)
    requires i < n
    ensures j < n
  {
    if i + 1 < n then i + 1 else 0
  }

  lemma PlaceOn(p: nat, i: nat, n: nat)
    requires p <= n && i < n
    ensures Place(p, i, n) < n && Place(p, Onwards(i, n), n) == Onwards(Place(p, i, n), n)
  {
  }

  /** The link of a queued task, or else the head, is the task behind it. */
  lemma LinkOn(q: seq<nat>, l: Links, k: nat)
    requires Spells(q, l) && k < |q|
    ensures q[k] < MAX_TASKS
    ensures var n := l.next[q[k]]; (if n == NONE then l.head else n) == q[Onwards(k, |q|)]
  {
    Neighbours(q, l, k);
  }

  /** Where it goes on: to the next task, or from the tail to the head. */
  lemma TurnOn(q: seq<nat>, l: Links, c: int, i: nat)
    requires Spells(q, l) && i < |q|
    ensures Turn(q, c)[i] < MAX_TASKS
    ensures var n := l.next[Turn(q, c)[i]];
            (if n == NONE then l.head else n) == Turn(q, c)[Onwards(i, |q|)]
  {
    var p, j := IndexOf(q, c), Onwards(i, |q|);
    TurnAt(q, c, i);
    TurnAt(q, c, j);
    PlaceOn(p, i, |q|);
    LinkOn(q, l, Place(p, i, |q|));
  }

  /** A task has a successor exactly if it is queued and not last. */
  lemma HasNext(q: seq<nat>, l: Links, c: nat)
    requires Spells(q, l) && c < MAX_TASKS
    ensures l.next[c] != NONE <==> Queued(q, c) && IndexOf(q, c) < |q| - 1
    ensures l.next[c] != NONE ==> c in q && l.head != NONE && l.tail != NONE
  {
    var p := IndexOf(q, c);
    if p < |q| { Neighbours(q, l, p); }
  }

  lemma TurnDistinct(q: seq<nat>, c: int)
    requires Slots(q)
    ensures Slots(Turn(q, c)) && |q| <= MAX_TASKS
  {
    Pigeonhole(q, MAX_TASKS);
  }
}
