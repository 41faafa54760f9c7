/** The physical page allocator: a stack and a linked list of the same free frames. */
module PhysPages {
  import opened Distinctness
  import opened KernTypes

  const MAX_PAGES: nat := 16384
  const NO_FRAME: nat := 0xFFFF_FFFF

  /** A page descriptor; `next` is the frame of the next descriptor in the free list, -1 at its end. */
  datatype Page = Page(isFree: bool, refCount: nat, next: int)

  // ------------------------------------------------- the free set as a sequence

  /** Following `next` from `p` visits the frames of `s`, last one first, and ends. */
  ghost predicate Listed(pages: seq<Page>, s: seq<nat>, p: int)
    decreases |s|
  {
    if s == [] then p == -1
    else p == s[|s| - 1] && p < |pages| && Listed(pages, s[..|s| - 1], pages[p].next)
  }

  /** The stack holds exactly the frames flagged free, each once, and never frame 0. */
  ghost predicate Holds(pages: seq<Page>, s: seq<nat>) {
    && Distinct(s)
    && (forall i :: 0 <= i < |s| ==> 0 < s[i] < |pages|)
    && (forall f: nat :: f < |pages| ==> (pages[f].isFree <==> f in s))
  }

  lemma {:induction false} ListedFrame(pages: seq<Page>, pages': seq<Page>, s: seq<nat>, p: int)
    requires Listed(pages, s, p) && |pages'| == |pages|
    requires forall f :: 0 <= f < |pages| && f in s ==> pages'[f].next == pages[f].next
    ensures Listed(pages', s, p)
    decreases |s|
  {
    if s == [] {
    } else {
      assert p in s;
      ListedFrame(pages, pages', s[..|s| - 1], pages[p].next);
    }
  }

  /** Distinct frames between 1 and n - 1 are fewer than n. */
  lemma FewerThan(s: seq<nat>, n: nat)
    requires Distinct(s) && n > 0 && forall i :: 0 <= i < |s| ==> 0 < s[i] < n
    ensures |s| < n
  {
    Pigeonhole([0] + s, n);
  }

  /** The frames 1 .. n - 1. */
  ghost function Ascending(n: nat): seq<nat>
    requires n > 0
  {
    seq(n - 1, i requires 0 <= i < n - 1 => i + 1)
  }

  lemma AscendingHolds(pages: seq<Page>)
    requires |pages| > 0 && forall i :: 0 <= i < |pages| ==> pages[i].isFree == (i != 0)
    ensures Holds(pages, Ascending(|pages|))
  {
    var s := Ascending(|pages|);
    forall f: nat | f < |pages| ensures pages[f].isFree <==> f in s {
      if f > 0 { assert s[f - 1] == f; }
    }
  }

  // ------------------------------------------------ taking and returning a frame

  /** Taking the top frame: it is the head of the list, and what remains is held and listed. */
  lemma TakeTop(pages: seq<Page>, s: seq<nat>, p: int, page: Page)
    requires Holds(pages, s) && Listed(pages, s, p) && s != [] && !page.isFree
    ensures var f := s[|s| - 1]; var t := s[..|s| - 1];
            && 0 < f < |pages| && pages[f].isFree && p == f
            && Holds(pages[f := page], t) && Listed(pages[f := page], t, pages[f].next)
  {
    var f, t := s[|s| - 1], s[..|s| - 1];
    var pages' := pages[f := page];
    assert f !in t;
    assert forall g :: g in s <==> g in t || g == f by { assert s == t + [f]; }
    assert f in s;
    ListedFrame(pages, pages', t, pages[f].next);
  }

  /** Returning a frame that is not free: there is room on the stack, and the frame
      pushed on both is held and listed. */
  lemma PushFrame(pages: seq<Page>, s: seq<nat>, p: int, f: nat, page: Page)
    requires Holds(pages, s) && Listed(pages, s, p) && 0 < f < |pages| && !pages[f].isFree
    requires page.isFree && page.next == p
    ensures |s| + 1 < |pages| && Holds(pages[f := page], s + [f]) && Listed(pages[f := page], s + [f], f)
  {
    var pages', t := pages[f := page], s + [f];
    assert f !in s;
    FewerThan(t, |pages|);
    assert t[..|s|] == s;
    ListedFrame(pages, pages', s, p);
  }

  // ------------------------------------------------------------------- every run

  datatype Op = Alloc | Free(frame: nat)

  /** The free stack of `n` frames after one call. */
  ghost function Step(s: seq<nat>, n: nat, op: Op): seq<nat> {
    match op
    case Alloc => if s == [] then s else s[..|s| - 1]
    case Free(f) => if 0 < f < n && f !in s then s + [f] else s
  }

  /** The frame an allocation hands out. */
  ghost function Handed(s: seq<nat>): nat {
    if s == [] then NO_FRAME else s[|s| - 1]
  }

  ghost function After(s: seq<nat>, n: nat, ops: seq<Op>): seq<nat>
    decreases |ops|
  {
    if ops == [] then s else After(Step(s, n, ops[0]), n, ops[1..])
  }

  ghost predicate Proper(s: seq<nat>, n: nat) {
    Distinct(s) && forall i :: 0 <= i < |s| ==> 0 < s[i] < n
  }

  /** What one call does to each frame: an allocation takes the frame it hands out and no
      other, a frame given back becomes free if it is one of the frames 1 .. n - 1, and
      every other frame is as it was. */
  lemma StepMeans(s: seq<nat>, n: nat, op: Op, f: nat)
    requires Proper(s, n)
    ensures f in Step(s, n, op) <==> (f in s && !(op == Alloc && f == Handed(s))) || (op == Free(f) && 0 < f < n)
  {
    if op.Alloc? && s != [] {
      var t := s[..|s| - 1];
      assert s == t + [Handed(s)];
    }
  }

  /** The frame given back last is the next to be handed out, and handing it out restores the stack. */
  lemma GivenBackIsNext(s: seq<nat>, n: nat, f: nat)
    requires 0 < f < n && f !in s
    ensures Handed(Step(s, n, Free(f))) == f && Step(Step(s, n, Free(f)), n, Alloc) == s
  {
    assert (s + [f])[..|s|] == s;
  }

  lemma {:induction false} RunProper(s: seq<nat>, n: nat, ops: seq<Op>)
    requires Proper(s, n)
    ensures Proper(After(s, n, ops), n)
    decreases |ops|
  {
    if ops == [] {
    } else {
      RunProper(Step(s, n, ops[0]), n, ops[1..]);
    }
  }

  /** A frame that is not free stays so until it is given back. */
  lemma {:induction false} OnlyGivenBackComesBack(s: seq<nat>, n: nat, ops: seq<Op>, f: nat)
    requires f !in s && Free(f) !in ops
    ensures f !in After(s, n, ops)
    decreases |ops|
  {
    if ops == [] {
    } else {
      assert ops[0] in ops;
      OnlyGivenBackComesBack(Step(s, n, ops[0]), n, ops[1..], f);
    }
  }

  /** In every run from initialisation: an allocation hands out a frame between 1 and
      n - 1 or reports that none is free, and hands the same frame out again only
      after a call in between that gave it back. */
  lemma NoFrameTwice(n: nat, before: seq<Op>, between: seq<Op>)
    requires 0 < n <= MAX_PAGES
    ensures var s := After(Ascending(n), n, before); var f := Handed(s);
            && (f == NO_FRAME <==> s == [])
            && (f != NO_FRAME ==> 0 < f < n)
            && (f != NO_FRAME && Handed(After(Step(s, n, Alloc), n, between)) == f ==> Free(f) in between)
  {
    RunProper(Ascending(n), n, before);
    var s := After(Ascending(n), n, before);
    if s != [] {
      var f := Handed(s);
      var t := After(Step(s, n, Alloc), n, between);
      if Free(f) !in between {
        OnlyGivenBackComesBack(Step(s, n, Alloc), n, between, f);
      }
    }
  }

  // --------------------------------------------------------------- the allocator

  class Manager {
    var initialized: bool
    var pages: array<Page>
    var freeStack: array<nat>
    var top: nat
    var freeList: int
    var freePages: nat

    ghost predicate Valid()
      reads this, pages, freeStack
    {
      initialized ==>
        && pages.Length > 0 && freeStack.Length == pages.Length
        && top <= freeStack.Length && freePages == top
        && Holds(pages[..], freeStack[..top]) && Listed(pages[..], freeStack[..top], freeList)
    }

    ghost function FreeFrames(): seq<nat>
      reads this, freeStack
      requires top <= freeStack.Length
    {
      freeStack[..top]
    }

    constructor ()
      ensures Valid() && !initialized
    {
      initialized, top, freeList, freePages := false, 0, -1, 0;
      pages := new Page[0];
      freeStack := new nat[0];
    }

    /** `pmap_init`; `pagesOk` and `stackOk` tell whether the two arrays can be allocated. */
    method Init(memSize: nat, pagesOk: bool, stackOk: bool) returns (result: KernReturn)
      requires Valid()
      modifies this
      ensures Valid()
      ensures result == if old(initialized) then Success
                        else if memSize < PAGE_SIZE then InvalidArgument
                        else if !pagesOk || !stackOk then ResourceShortage else Success
      ensures initialized <==> result == Success
      ensures !old(initialized) && result == Success ==>
              && pages.Length == (if memSize / PAGE_SIZE > MAX_PAGES then MAX_PAGES else memSize / PAGE_SIZE)
              && FreeFrames() == Ascending(pages.Length)
    {
      if initialized { return Success; }
      if memSize == 0 { return InvalidArgument; }
      var total := memSize / PAGE_SIZE;
      if total == 0 { return InvalidArgument; }
      if total > MAX_PAGES { total := MAX_PAGES; }
      if !pagesOk { return ResourceShortage; }
      if !stackOk { return ResourceShortage; }
      Fill(total);
      return Success;
    }

    /** Make all frames but frame 0 free. */
    method Fill(total: nat)
      requires total > 0
      modifies this
      ensures Valid() && initialized && pages.Length == total && FreeFrames() == Ascending(total)
    {
      var st := BuildStack(total);
      var ps := new Page[total](i => Page(i != 0, 0, -1));
      var head := BuildList(ps);
      pages, freeStack := ps, st;
      top, freePages, freeList, initialized := total - 1, total - 1, head, true;
      assert st[..total - 1] == Ascending(total);
      AscendingHolds(ps[..]);
    }

    /** Push the frames 1 .. total - 1. */
    method BuildStack(total: nat) returns (st: array<nat>)
      requires total > 0
      ensures fresh(st) && st.Length == total && forall i :: 0 <= i < total - 1 ==> st[i] == i + 1
    {
      st := new nat[total];
      var f := 1;
      while f < total
        invariant 1 <= f <= total
        invariant forall i :: 0 <= i < f - 1 ==> st[i] == i + 1
      {
        st[f - 1] := f;
        f := f + 1;
      }
    }

    /** Chain the frames 1 .. into the free list, the last one in front. */
    method BuildList(ps: array<Page>) returns (head: int)
      requires ps.Length > 0
      modifies ps
      ensures forall i :: 0 <= i < ps.Length ==> ps[i].isFree == old(ps[i].isFree)
      ensures Listed(ps[..], Ascending(ps.Length), head)
    {
      head := -1;
      var f := 1;
      while f < ps.Length
        invariant 1 <= f <= ps.Length
        invariant forall i :: 0 <= i < ps.Length ==> ps[i].isFree == old(ps[i].isFree)
        invariant Listed(ps[..], Ascending(f), head)
      {
        ghost var was, s := ps[..], Ascending(f);
        ps[f] := ps[f].(next := head);
        ListedFrame(was, ps[..], s, head);
        assert Ascending(f + 1) == s + [f] && (s + [f])[..|s|] == s;
        head := f;
        f := f + 1;
      }
    }

    /** `pmap_alloc_page`. */
    method AllocPage() returns (frame: nat)
      requires Valid()
      modifies this, pages, freeStack
      ensures Valid() && initialized == old(initialized) && pages == old(pages) && freeStack == old(freeStack)
      ensures !initialized ==> frame == NO_FRAME
      ensures initialized ==>
              frame == Handed(old(FreeFrames())) && FreeFrames() == Step(old(FreeFrames()), pages.Length, Alloc)
      ensures initialized && old(freePages) > 0 ==>
              0 < frame < pages.Length && old(pages[frame].isFree) && !pages[frame].isFree && pages[frame].refCount == 1
    {
      if !initialized { return NO_FRAME; }
      if freePages == 0 || top == 0 { return NO_FRAME; }
      frame := Pop();
      assert old(FreeFrames())[..top] == FreeFrames();
    }

    /** Take the frame on top of the stack, which is also the head of the list. */
    method Pop() returns (frame: nat)
      requires Valid() && initialized && top > 0
      modifies `top, `freeList, `freePages, pages
      ensures Valid() && 0 < frame < pages.Length && old(pages[frame].isFree)
      ensures !pages[frame].isFree && pages[frame].refCount == 1 && old(FreeFrames()) == FreeFrames() + [frame]
    {
      ghost var ps, s := pages[..], freeStack[..top];
      top := top - 1;
      frame := freeStack[top];
      TakeTop(ps, s, freeList, Page(false, 1, -1));
      assert s[..|s| - 1] == freeStack[..top];
      // The frame is in range, flagged free and the head of the list: the linear
      // search for its predecessor never happens.
      assert frame < pages.Length && pages[frame].isFree && freeList == frame;
      freeList := pages[frame].next;
      pages[frame] := pages[frame].(isFree := false, refCount := 1, next := -1);
      freePages := freePages - 1;
      assert pages[..] == ps[frame := Page(false, 1, -1)];
    }

    /** `pmap_free_page`. */
    method FreePage(frame: nat) returns (result: KernReturn)
      requires Valid()
      modifies this, pages, freeStack
      ensures Valid() && initialized == old(initialized) && pages == old(pages) && freeStack == old(freeStack)
      ensures result == if initialized && 0 < frame < pages.Length && !old(pages[frame].isFree) then Success else InvalidArgument
      ensures result != Success ==> unchanged(this) && unchanged(pages) && unchanged(freeStack)
      ensures initialized ==> FreeFrames() == Step(old(FreeFrames()), pages.Length, Free(frame))
    {
      if !initialized { return InvalidArgument; }
      if frame >= pages.Length { return InvalidArgument; }
      if frame == 0 { return InvalidArgument; }
      if pages[frame].isFree { return InvalidArgument; }
      Push(frame);
      return Success;
    }

    /** Put a frame that is not free on the stack and in front of the list. */
    method Push(frame: nat)
      requires Valid() && initialized && 0 < frame < pages.Length && !pages[frame].isFree
      modifies `top, `freeList, `freePages, pages, freeStack
      ensures Valid() && pages[frame].isFree && FreeFrames() == old(FreeFrames()) + [frame]
    {
      ghost var ps, s := pages[..], freeStack[..top];
      PushFrame(ps, s, freeList, frame, Page(true, 0, freeList));
      // A frame that is not free leaves room on the stack: it is never full here.
      assert top < freeStack.Length;
      freeStack[top] := frame;
      top := top + 1;
      assert freeStack[..top] == s + [frame];
      pages[frame] := pages[frame].(isFree := true, refCount := 0, next := freeList);
      freeList := frame;
      freePages := freePages + 1;
      assert pages[..] == ps[frame := Page(true, 0, old(freeList))];
    }
  }
}
