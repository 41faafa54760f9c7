/** The virtual memory map: a doubly linked, address-ordered list of entries
    that is searched, split and trimmed in place. */
module VmMap {
  import opened Bits
  import opened KernTypes
  import opened VmRegions

  /** The alignment `vm_map_enter` works with: `mask + 1` in 32 bits if that is a
      power of two, none if it wrapped to zero, a page otherwise. */
  ghost function AlignmentOf(mask: word): word {
    if mask == 0 then PAGE_SIZE
    else if mask + 1 == WORD then 0
    else if IsPow2(mask + 1) then mask + 1
    else PAGE_SIZE
  }

  ghost predicate IsAlignment(align: nat) {
    align == 0 || (IsPow2(align) && align < WORD)
  }

  ghost predicate Aligned(a: nat, align: nat) {
    align == 0 || a % align == 0
  }

  lemma AlignmentOfShape(mask: word)
    ensures IsAlignment(AlignmentOf(mask)) && PAGE_SIZE < WORD
  {
    assert IsPow2(64);
    assert IsPow2(PAGE_SIZE);
  }

  method ComputeAlignment(mask: nat) returns (align: nat)
    requires mask < WORD
    ensures align == AlignmentOf(mask) && IsAlignment(align)
  {
    AlignmentOfShape(mask);
    align := PAGE_SIZE;
    if mask != 0 { align := (mask + 1) % WORD; }
    if align != 0 {
      PageOrPower(mask, align);
      if And(align, align - 1) != 0 { align := PAGE_SIZE; }
    }
  }

  lemma PageOrPower(mask: nat, align: nat)
    requires mask < WORD && 0 < align < WORD && align == if mask == 0 then PAGE_SIZE else mask + 1
    ensures AlignmentOf(mask) == if And(align, align - 1) == 0 then align else PAGE_SIZE
  {
    Pow2Test(align);
  }

  /** Rounding up, when the sum does not wrap. */
  lemma RoundsUp(v: nat, align: nat)
    requires IsAlignment(align) && v < WORD && v + align <= WORD
    ensures Aligned(AlignUp(v, align), align) && v <= AlignUp(v, align) <= v + align
  {
    if align != 0 { AlignUpBounds(v, align); }
  }

  lemma RoundsToMultiple(v: nat, align: nat)
    requires IsAlignment(align) && v < WORD
    ensures Aligned(AlignUp(v, align), align)
  {
    WordIsPow2();
    if align != 0 { AlignUpMultiple(v, align, WORD); }
  }

  lemma RoundsUpLeast(v: nat, align: nat, m: nat)
    requires IsAlignment(align) && v < WORD && v + align <= WORD && Aligned(m, align) && v <= m
    ensures AlignUp(v, align) <= m
  {
    if align != 0 { AlignUpLeast(v, align, m); }
  }

  /** Skipping from `cur` past region `k` passes over no address that fits. */
  lemma SearchStep(rs: seq<Region>, k: nat, cur: nat, n: nat, align: nat)
    requires k < |rs| && IsAlignment(align) && rs[k].end + align <= WORD && rs[k].end < WORD
    requires cur + n > rs[k].start && cur < rs[k].end
    ensures forall a: nat :: Aligned(a, align) && cur <= a < AlignUp(rs[k].end, align) ==> !Fits(rs, a, n)
  {
    forall a: nat | Aligned(a, align) && cur <= a < AlignUp(rs[k].end, align)
      ensures !Fits(rs, a, n)
    {
      if a >= rs[k].end { RoundsUpLeast(rs[k].end, align, a); }
      assert Overlaps(rs[k], a, a + n);
    }
  }

  /** An address a map of `size` bytes from `base` on could hand out for `n` bytes. */
  ghost predicate Candidate(rs: seq<Region>, base: nat, size: nat, a: nat, n: nat, align: nat) {
    Aligned(a, align) && base <= a && a + n <= base + size && Fits(rs, a, n)
  }

  class Entry {
    var start: nat
    var end: nat
    var protection: nat
    var inheritance: nat
    var isMapped: bool
    var isWired: bool
    var next: Entry?
    var prev: Entry?

    constructor (start: nat, end: nat, protection: nat, inheritance: nat, isMapped: bool, isWired: bool)
      ensures Value() == Region(start, end, Attr(protection, inheritance, isMapped, isWired))
      ensures next == null && prev == null
    {
      this.start, this.end := start, end;
      this.protection, this.inheritance := protection, inheritance;
      this.isMapped, this.isWired := isMapped, isWired;
      next, prev := null, null;
    }

    ghost function Value(): Region
      reads this
    {
      Region(start, end, Attr(protection, inheritance, isMapped, isWired))
    }
  }

  ghost function NodeAt(ns: seq<Entry>, k: nat): Entry? {
    if k < |ns| then ns[k] else null
  }

  /** The places of a sequence after an insertion. */
  lemma Inserted(ns: seq<Entry>, ne: Entry, k: nat)
    requires k <= |ns|
    ensures var r := ns[..k] + [ne] + ns[k..];
            && |r| == |ns| + 1 && r[..k] == ns[..k]
            && forall i :: 0 <= i < |r| ==> r[i] == if i < k then ns[i] else if i == k then ne else ns[i - 1]
  {
  }

  class Map {
    var entries: Entry?
    var numEntries: nat
    const base: nat
    const size: nat
    ghost var nodes: seq<Entry>  // the entries in list order
    ghost var regions: seq<Region>  // what the entries say
    ghost var Repr: set<Entry>  // every entry ever linked

    /** `entries`, `next` and `prev` spell out `nodes`, and the count is right. */
    ghost predicate Chained()
      reads this, nodes
    {
      && (forall i :: 0 <= i < |nodes| ==> nodes[i] in Repr)
      && (forall i, j :: 0 <= i < j < |nodes| ==> nodes[i] != nodes[j])
      && entries == (if nodes == [] then null else nodes[0])
      && (forall i {:trigger nodes[i].next} :: 0 <= i < |nodes| ==> nodes[i].next == if i + 1 < |nodes| then nodes[i + 1] else null)
      && (forall i {:trigger nodes[i].prev} :: 0 <= i < |nodes| ==> nodes[i].prev == if i > 0 then nodes[i - 1] else null)
      && numEntries == |nodes|
    }

    /** The chained entries hold the values `regions`. */
    ghost predicate Linked()
      reads this, nodes
    {
      && Chained()
      && |regions| == |nodes|
      && forall i :: 0 <= i < |nodes| ==> nodes[i].Value() == regions[i]
    }

    /** Well linked, sorted, disjoint, and inside an address range that does not wrap. */
    ghost predicate Valid()
      reads this, nodes
    {
      && Linked()
      && Ordered(regions)
      && Inside(regions, base, base + size)
      && size > 0 && base + size < WORD
    }

    /** An empty map; its limit must be a 32-bit address. */
    constructor (base: nat, size: nat)
      requires size > 0 && base + size < WORD
      ensures Valid() && nodes == [] && regions == [] && Repr == {} && this.base == base && this.size == size
    {
      this.base, this.size := base, size;
      entries, numEntries, nodes, regions, Repr := null, 0, [], [], {};
    }

    /** `vm_map_init` refuses a zero size and nothing else. */
    static method Init(base: nat, size: nat) returns (result: KernReturn, map': Map?)
      requires base + size < WORD
      ensures result == if size == 0 then InvalidArgument else Success
      ensures map' == null <==> result != Success
      ensures map' != null ==> fresh(map') && map'.Valid() && map'.base == base && map'.size == size
      ensures map' != null ==> map'.Repr == {} && forall a: nat :: At(map'.regions, a) == None
    {
      if size == 0 { return InvalidArgument, null; }
      map' := new Map(base, size);
      result := Success;
    }

    // ------------------------------------------------------------ list surgery

    /** Take entry `k` out of the chain. */
    method Unlink(e: Entry, ghost k: nat)
      requires Chained() && k < |nodes| && nodes[k] == e
      modifies `entries, `numEntries, `nodes, Repr`next, Repr`prev
      ensures Chained() && nodes == old(nodes)[..k] + old(nodes)[k + 1..]
    {
      ghost var ns := nodes;
      assert e.prev == if k > 0 then nodes[k - 1] else null;
      assert e.next == if k + 1 < |nodes| then nodes[k + 1] else null;
      if e.prev != null { e.prev.next := e.next; } else { entries := e.next; }
      if e.next != null { e.next.prev := e.prev; }
      numEntries := numEntries - 1;
      nodes := ns[..k] + ns[k + 1..];
      forall i | 0 <= i < |nodes|
        ensures nodes[i].next == if i + 1 < |nodes| then nodes[i + 1] else null
        ensures nodes[i].prev == if i > 0 then nodes[i - 1] else null
      {
        if i < k { assert nodes[i] == ns[i]; } else { assert nodes[i] == ns[i + 1]; }
      }
    }

    /** Chain the new entry `ne` in between the neighbours `prev` and `cur`. */
    method Insert(ne: Entry, prev: Entry?, cur: Entry?, ghost k: nat)
      requires Chained() && k <= |nodes| && ne !in Repr
      requires prev == if k > 0 then nodes[k - 1] else null
      requires cur == if k < |nodes| then nodes[k] else null
      modifies `entries, `numEntries, `nodes, `Repr, Repr`next, Repr`prev, ne`next, ne`prev
      ensures Chained() && Repr == old(Repr) + {ne}
      ensures nodes == old(nodes)[..k] + [ne] + old(nodes)[k..]
    {
      ghost var ns := nodes;
      ne.next := cur;
      ne.prev := prev;
      if prev != null { prev.next := ne; } else { entries := ne; }
      if cur != null { cur.prev := ne; }
      numEntries := numEntries + 1;
      nodes, Repr := ns[..k] + [ne] + ns[k..], Repr + {ne};
      assert forall i :: 0 <= i < k ==> nodes[i] == ns[i];
      assert forall i :: k < i < |nodes| ==> nodes[i] == ns[i - 1];
      forall i | 0 <= i < |nodes|
        ensures nodes[i].next == if i + 1 < |nodes| then nodes[i + 1] else null
        ensures nodes[i].prev == if i > 0 then nodes[i - 1] else null
      {
        if i < k { assert nodes[i] == ns[i]; } else if i > k { assert nodes[i] == ns[i - 1]; }
      }
    }

    /** Entry `e` stands in the list behind `done` and in front of `rest`. */
    ghost predicate Between(done: seq<Region>, e: Entry, rest: seq<Region>)
      reads this, e
    {
      && |done| < |nodes| && nodes[|done|] == e
      && regions == done + [e.Value()] + rest
    }

    /** Remove the entry. */
    method Drop(e: Entry, ghost done: seq<Region>, ghost rest: seq<Region>)
      requires Linked() && Between(done, e, rest)
      modifies this, Repr`next, Repr`prev
      ensures Linked() && Repr == old(Repr)
      ensures regions == done + rest && NodeAt(nodes, |done|) == old(e.next)
    {
      ghost var k, ns := |done|, nodes;
      assert e.next == NodeAt(ns, k + 1);
      Unlink(e, k);
      regions := done + rest;
      assert forall i :: 0 <= i < |nodes| ==> nodes[i] == if i < k then ns[i] else ns[i + 1];
    }

    /** Add the new entry `ne` behind `done`. */
    method Add(ne: Entry, prev: Entry?, cur: Entry?, ghost done: seq<Region>, ghost rest: seq<Region>)
      requires Linked() && ne !in Repr && regions == done + rest
      requires prev == (if done != [] then nodes[|done| - 1] else null) && cur == NodeAt(nodes, |done|)
      modifies this, Repr`next, Repr`prev, ne`next, ne`prev
      ensures Linked() && Repr == old(Repr) + {ne}
      ensures regions == done + [ne.Value()] + rest
      ensures |nodes| == |old(nodes)| + 1 && nodes[..|done|] == old(nodes)[..|done|] && nodes[|done|] == ne
      ensures NodeAt(nodes, |done| + 1) == cur
    {
      ghost var k, ns := |done|, nodes;
      Insert(ne, prev, cur, k);
      Inserted(ns, ne, k);
      regions := done + [ne.Value()] + rest;
    }

    /** Move the bounds of an entry. */
    method Trim(e: Entry, start: nat, end: nat, ghost done: seq<Region>, ghost rest: seq<Region>)
      requires Linked() && Between(done, e, rest)
      modifies `regions, Repr`start, Repr`end
      ensures Linked() && Between(done, e, rest)
      ensures e.Value() == old(e.Value()).(start := start, end := end)
    {
      e.start, e.end := start, end;
      regions := done + [e.Value()] + rest;
    }

    method SetProtection(e: Entry, prot: nat, ghost done: seq<Region>, ghost rest: seq<Region>)
      requires Linked() && Between(done, e, rest)
      modifies `regions, Repr`protection
      ensures Linked() && Between(done, e, rest)
      ensures e.Value() == old(e.Value()).(attr := old(e.Value()).attr.(protection := prot))
    {
      e.protection := prot;
      regions := done + [e.Value()] + rest;
    }

    /** Give the entry the end `leftEnd` and put a copy that begins at `rightStart` behind it. */
    method Split(e: Entry, leftEnd: nat, rightStart: nat, ghost done: seq<Region>, ghost rest: seq<Region>)
      returns (right: Entry)
      requires Linked() && Between(done, e, rest)
      modifies this, Repr
      ensures Linked() && fresh(right) && Repr == old(Repr) + {right}
      ensures e.Value() == old(e.Value()).(end := leftEnd)
      ensures right.Value() == old(e.Value()).(start := rightStart)
      ensures Between(done, e, [right.Value()] + rest)
      ensures Between(done + [e.Value()], right, rest)
      ensures NodeAt(nodes, |done| + 2) == old(e.next)
    {
      right := new Entry(rightStart, e.end, e.protection, e.inheritance, e.isMapped, e.isWired);
      Trim(e, e.start, leftEnd, done, rest);
      ghost var front := done + [e.Value()];
      assert e.next == NodeAt(nodes, |done| + 1);
      Add(right, e, e.next, front, rest);
      assert e == old(nodes)[..|front|][|done|];
      Regrouped(done, e.Value(), right.Value(), rest);
    }

    /** Split off what lies before `at`, if that is inside the entry; `last` is what lies behind. */
    method SplitLeft(e: Entry, at: nat, allocOk: bool, ghost done: seq<Region>, ghost rest: seq<Region>)
      returns (ok: bool, last: Entry)
      requires Linked() && Between(done, e, rest) && at < e.end
      modifies this, Repr
      ensures Linked() && fresh(Repr - old(Repr))
      ensures ok <==> allocOk || !old(Straddles(e.Value(), at))
      ensures !ok ==> regions == old(regions)
      ensures ok ==> last.Value() == From(old(e.Value()), at) && Between(done + LeftOf(old(e.Value()), at), last, rest)
      ensures ok ==> last in Repr
    {
      if e.start >= at {
        assert done + [] == done;
        return true, e;
      }
      if !allocOk { return false, e; }
      last := Split(e, at, at, done, rest);
      ok := true;
    }

    /** Split off what lies behind `at`, if that is inside the entry. */
    method SplitRight(e: Entry, at: nat, allocOk: bool, ghost done: seq<Region>, ghost rest: seq<Region>)
      returns (ok: bool)
      requires Linked() && Between(done, e, rest) && e.start < at && e in Repr
      modifies this, Repr
      ensures Linked() && fresh(Repr - old(Repr)) && e in Repr
      ensures ok <==> allocOk || !old(Straddles(e.Value(), at))
      ensures !ok ==> regions == old(regions)
      ensures ok ==> e.Value() == UpTo(old(e.Value()), at) && Between(done, e, RightOf(old(e.Value()), at) + rest)
    {
      if e.end <= at {
        assert [] + rest == rest;
        return true;
      }
      if !allocOk { return false; }
      var beyond := Split(e, at, at, done, rest);
      ok := true;
    }

    // ----------------------------------------------------------- vm_map_remove

    /** The body of the removal loop. */
    method CutEntry(e: Entry, lo: nat, hi: nat, allocOk: bool, ghost done: seq<Region>, ghost rest: seq<Region>)
      returns (ok: bool)
      requires Linked() && Between(done, e, rest) && lo < hi && e.start < e.end
      modifies this, Repr
      ensures Linked() && fresh(Repr - old(Repr))
      ensures ok <==> allocOk || !old(Encloses(e.Value(), lo, hi))
      ensures !ok ==> regions == old(regions)
      ensures ok ==> var ps := Cut(old(e.Value()), lo, hi);
                     regions == done + ps + rest && NodeAt(nodes, |done + ps|) == old(e.next)
    {
      ok := true;
      ghost var r := e.Value();
      assert e.next == NodeAt(nodes, |done| + 1);
      if e.end <= lo || e.start >= hi {
        assert Cut(r, lo, hi) == [r];
      } else if lo <= e.start && hi >= e.end {
        Drop(e, done, rest);
        assert Cut(r, lo, hi) == [];
        assert done + [] + rest == done + rest;
      } else if lo > e.start && hi < e.end {
        if !allocOk { return false; }
        var right := Split(e, lo, hi, done, rest);
        assert Cut(r, lo, hi) == [e.Value(), right.Value()];
        assert done + [e.Value(), right.Value()] + rest == done + [e.Value()] + [right.Value()] + rest;
      } else if lo <= e.start {
        Trim(e, hi, e.end, done, rest);
        assert Cut(r, lo, hi) == [e.Value()];
      } else {
        Trim(e, e.start, lo, done, rest);
        assert Cut(r, lo, hi) == [e.Value()];
      }
    }

    /** The removal loop does to the linked entries what `CutRun` does to their values. */
    method CutLoop(lo: nat, hi: nat, allocOk: bool) returns (ok: bool)
      requires Linked() && lo < hi && forall i :: 0 <= i < |regions| ==> regions[i].start < regions[i].end
      modifies this, Repr
      ensures Linked() && fresh(Repr - old(Repr))
      ensures var r := CutRun(old(regions), lo, hi, allocOk); ok == r.ok && regions == r.list
    {
      ghost var end := CutRun(regions, lo, hi, allocOk);
      ghost var done: seq<Region>, todo := [], regions;
      ok := true;
      var e := entries;
      while e != null
        invariant Linked() && fresh(Repr - old(Repr))
        invariant regions == done + todo && e == NodeAt(nodes, |done|)
        invariant CutGoing(end, done, todo, lo, hi, allocOk)
        decreases |todo|
      {
        var next := e.next;
        assert regions[|done|] == todo[0];
        CutGoingOn(end, done, todo, lo, hi, allocOk);
        ok := CutEntry(e, lo, hi, allocOk, done, todo[1..]);
        if !ok { return; }
        done, todo := done + Cut(todo[0], lo, hi), todo[1..];
        e := next;
      }
      assert todo == [];
    }

    /** `vm_map_remove`; `allocOk` tells whether the one entry a split may need can be allocated. */
    method Remove(lo: nat, hi: nat, allocOk: bool) returns (result: KernReturn)
      requires Valid()
      modifies this, Repr
      ensures Valid() && fresh(Repr - old(Repr))
      ensures result == if lo >= hi || lo < base || hi > base + size then InvalidArgument
                        else if !allocOk && AnyEncloses(old(regions), lo, hi) then ResourceShortage
                        else Success
      ensures result != Success ==> regions == old(regions)
      ensures result == Success ==>
              forall a: nat :: At(regions, a) == if lo <= a < hi then None else At(old(regions), a)
    {
      if lo >= hi || lo < base || hi > base + size { return InvalidArgument; }
      ghost var was := regions;
      var ok := CutLoop(lo, hi, allocOk);
      RemoveMeaning(was, regions, lo, hi, allocOk, ok, base, base + size);
      result := if ok then Success else ResourceShortage;
    }

    // ---------------------------------------------------------- vm_map_protect

    /** The body of the protection loop for an entry that meets the range; `last` is
        the entry that got the new protection. */
    method PaintEntry(e: Entry, job: Job, ghost done: seq<Region>, ghost rest: seq<Region>)
      returns (ok: bool, last: Entry)
      requires Linked() && Between(done, e, rest)
      requires job.lo < job.hi && e.start < e.end && Overlaps(e.Value(), job.lo, job.hi)
      modifies this, Repr
      ensures Linked() && fresh(Repr - old(Repr))
      ensures ok == PaintRun([old(e.Value())], job).ok
      ensures !ok ==> regions == done + PaintRun([old(e.Value())], job).list + rest
      ensures ok ==> Between(done + LeftOf(old(e.Value()), job.lo), last, RightOf(old(e.Value()), job.hi) + rest)
      ensures ok ==> [last.Value()] == Middle(old(e.Value()), job.lo, job.hi, job.prot)
    {
      ghost var r, left := e.Value(), done + LeftOf(e.Value(), job.lo);
      PaintRunOne(r, job);
      ok, last := SplitLeft(e, job.lo, job.leftOk, done, rest);
      if !ok { return; }
      ok := SplitRight(last, job.hi, job.rightOk, left, rest);
      if !ok {
        assert done + (LeftOf(r, job.lo) + [From(r, job.lo)]) + rest == left + [From(r, job.lo)] + rest;
        return;
      }
      SetProtection(last, job.prot, left, RightOf(r, job.hi) + rest);
    }

    /** One turn of the protection loop, which is to end as `end` says. */
    method PaintTurn(e: Entry, job: Job, found: bool, ghost end: Ran, ghost done: seq<Region>, ghost todo: seq<Region>)
      returns (ok: bool, found': bool, last: Entry, ghost done': seq<Region>, ghost todo': seq<Region>)
      requires Linked() && todo != [] && Between(done, e, todo[1..]) && todo[0] == e.Value()
      requires job.lo < job.hi && PaintGoing(end, done, todo, job, found)
      modifies this, Repr
      ensures Linked() && fresh(Repr - old(Repr))
      ensures !ok ==> !end.ok && regions == end.list
      ensures ok ==> regions == done' + todo' && done' != [] && |done'| <= |nodes| && nodes[|done'| - 1] == last
      ensures ok ==> PaintGoing(end, done', todo', job, found') && Turns(todo', job.lo, job.hi) < Turns(todo, job.lo, job.hi)
    {
      ghost var r, rest := todo[0], todo[1..];
      if !(e.end <= job.lo || e.start >= job.hi) {
        ok, last := PaintEntry(e, job, done, rest);
        found', done', todo' := true, done + LeftOf(r, job.lo) + Middle(r, job.lo, job.hi, job.prot), RightOf(r, job.hi) + rest;
        if ok {
          PaintGoingOn(end, done, todo, job, found);
          TurnsFall(r, rest, job.lo, job.hi);
        } else {
          PaintGoingStop(end, done, todo, job, found);
        }
      } else {
        PaintGoingPast(end, done, todo, job, found);
        ok, found', last, done', todo' := true, found, e, done + [r], rest;
      }
    }

    /** The protection loop does to the linked entries what `PaintRun` does to their values. */
    method PaintLoop(job: Job) returns (ok: bool, found: bool)
      requires Linked() && job.lo < job.hi && forall i :: 0 <= i < |regions| ==> regions[i].start < regions[i].end
      modifies this, Repr
      ensures Linked() && fresh(Repr - old(Repr))
      ensures var r := PaintRun(old(regions), job);
              ok == r.ok && regions == r.list && (ok ==> found == r.found)
    {
      ghost var end := PaintRun(regions, job);
      ghost var done: seq<Region>, todo := [], regions;
      ok, found := true, false;
      var e := entries;
      while e != null
        invariant Linked() && fresh(Repr - old(Repr))
        invariant regions == done + todo && e == NodeAt(nodes, |done|)
        invariant PaintGoing(end, done, todo, job, found)
        decreases Turns(todo, job.lo, job.hi)
      {
        assert regions[|done|] == todo[0];
        assert regions == done + [todo[0]] + todo[1..];
        ok, found, e, done, todo := PaintTurn(e, job, found, end, done, todo);
        if !ok { return; }
        e := e.next;
      }
      assert todo == [];
    }

    /** `vm_map_protect`; `leftOk` and `rightOk` tell whether an entry can be allocated
        for the split at either end of the range. */
    method Protect(lo: nat, hi: nat, prot: nat, leftOk: bool, rightOk: bool) returns (result: KernReturn)
      requires Valid()
      modifies this, Repr
      ensures Valid() && fresh(Repr - old(Repr))
      ensures result == if lo >= hi then InvalidArgument
                        else if (!leftOk && Crosses(old(regions), lo)) || (!rightOk && Crosses(old(regions), hi))
                        then ResourceShortage
                        else if forall a: nat :: lo <= a < hi ==> At(old(regions), a).None? then NotFound
                        else Success
      ensures result == Success ==>
              forall a: nat :: At(regions, a)
                            == if lo <= a < hi then Painted(At(old(regions), a), prot) else At(old(regions), a)
      ensures result in {NotFound, InvalidArgument} || (!leftOk && Crosses(old(regions), lo)) ==> regions == old(regions)
      ensures forall a: nat :: At(regions, a) == At(old(regions), a)
                            || (lo <= a < hi && At(regions, a) == Painted(At(old(regions), a), prot))
      ensures forall a: nat :: At(regions, a).Some? <==> At(old(regions), a).Some?
    {
      if lo >= hi { return InvalidArgument; }
      var job := Job(lo, hi, prot, leftOk, rightOk);
      ghost var was := regions;
      var ok, found := PaintLoop(job);
      PaintRunMeaning(was, regions, job, ok, found, base, base + size);
      result := if !ok then ResourceShortage else if found then Success else NotFound;
    }

    // ----------------------------------------------------------- vm_map_lookup

    /** `vm_map_lookup` finds the entry of the address, and finds one exactly when it is mapped. */
    method Lookup(addr: nat) returns (result: KernReturn, found: Entry?)
      requires Valid()
      ensures result == Success <==> At(regions, addr).Some?
      ensures result in {Success, NotFound}
      ensures result == Success ==> found != null && found in nodes && found.start <= addr < found.end
      ensures result == Success ==> At(regions, addr) == Some(found.Value().attr)
    {
      ghost var rs, k: nat := regions, 0;
      AtSome(rs, addr);
      var e := entries;
      while e != null
        invariant k <= |nodes| && e == NodeAt(nodes, k)
        invariant forall i :: 0 <= i < k ==> !(rs[i].start <= addr < rs[i].end)
        decreases |nodes| - k
      {
        assert rs[k] == e.Value();
        if addr >= e.start && addr < e.end {
          AtIndex(rs, k, addr);
          return Success, e;
        }
        e, k := e.next, k + 1;
      }
      return NotFound, null;
    }

    // ------------------------------------------------------------ vm_map_enter

    /** The first-fit search: the least aligned address from the base on where `n` bytes meet no entry. */
    method FirstFit(n: nat, align: nat) returns (cur: nat)
      requires Valid() && n > 0 && IsAlignment(align) && base + size + align + n <= WORD
      ensures Aligned(cur, align) && base <= cur && Fits(regions, cur, n)
      ensures forall a: nat :: Aligned(a, align) && base <= a < cur ==> !Fits(regions, a, n)
    {
      ghost var rs, k: nat := regions, 0;
      RoundsUp(base, align);
      cur := AlignUp(base, align);
      forall a: nat | Aligned(a, align) && base <= a ensures cur <= a { RoundsUpLeast(base, align, a); }
      var e := entries;
      while e != null
        invariant k <= |nodes| && e == NodeAt(nodes, k)
        invariant Aligned(cur, align) && base <= cur <= base + size + align
        invariant forall i :: 0 <= i < k ==> rs[i].end <= cur
        invariant forall a: nat :: Aligned(a, align) && base <= a < cur ==> !Fits(rs, a, n)
        decreases |nodes| - k
      {
        assert rs[k] == e.Value();
        if cur + n <= e.start {
          assert forall i :: k < i < |rs| ==> rs[k].end <= rs[i].start;
          break;
        }
        if cur < e.end {
          RoundsUp(e.end, align);
          SearchStep(rs, k, cur, n, align);
          cur := AlignUp(e.end, align);
        }
        e, k := e.next, k + 1;
      }
    }

    /** The overlap scan of a fixed request. */
    method RoomAt(a: nat, n: nat) returns (free: bool)
      requires Valid()
      ensures free <==> Fits(regions, a, n)
    {
      ghost var rs, k: nat := regions, 0;
      var e := entries;
      while e != null
        invariant k <= |nodes| && e == NodeAt(nodes, k)
        invariant forall i :: 0 <= i < k ==> !Overlaps(rs[i], a, a + n)
        decreases |nodes| - k
      {
        assert rs[k] == e.Value();
        if !(a + n <= e.start || a >= e.end) { return false; }
        e, k := e.next, k + 1;
      }
      return true;
    }

    /** The place of a new entry: in front of the first one that begins at `chosen` or later. */
    method FindPlace(chosen: nat) returns (prev: Entry?, cur: Entry?, ghost k: nat)
      requires Linked()
      ensures k <= |nodes| && cur == NodeAt(nodes, k) && prev == if k > 0 then nodes[k - 1] else null
      ensures forall i :: 0 <= i < k ==> regions[i].start < chosen
      ensures k < |nodes| ==> chosen <= regions[k].start
    {
      prev, cur, k := null, entries, 0;
      while cur != null && cur.start < chosen
        invariant k <= |nodes| && cur == NodeAt(nodes, k) && prev == if k > 0 then nodes[k - 1] else null
        invariant forall i :: 0 <= i < k ==> regions[i].start < chosen
        decreases |nodes| - k
      {
        assert regions[k] == cur.Value();
        prev, cur, k := cur, cur.next, k + 1;
      }
      assert k < |nodes| ==> regions[k] == cur.Value();
    }

    /** Allocate an entry and link it in. */
    method Place(chosen: nat, n: nat, prot: nat, inherit: nat) returns (ghost k: nat)
      requires Linked()
      modifies this, Repr
      ensures Linked() && fresh(Repr - old(Repr)) && k <= |old(regions)|
      ensures forall i :: 0 <= i < k ==> old(regions)[i].start < chosen
      ensures k < |old(regions)| ==> chosen <= old(regions)[k].start
      ensures var r := Region(chosen, chosen + n, Attr(prot, inherit, true, false));
              regions == old(regions)[..k] + [r] + old(regions)[k..]
    {
      ghost var rs := regions;
      var prev, cur;
      prev, cur, k := FindPlace(chosen);
      var ne := new Entry(chosen, chosen + n, prot, inherit, true, false);
      assert rs == rs[..k] + rs[k..];
      Add(ne, prev, cur, rs[..k], rs[k..]);
    }

    /** A new entry where it fits leaves a valid map, in which exactly its addresses are new. */
    method Commit(chosen: nat, n: nat, prot: nat, inherit: nat)
      requires Valid() && n > 0 && Fits(regions, chosen, n) && base <= chosen && chosen + n <= base + size
      modifies this, Repr
      ensures Valid() && fresh(Repr - old(Repr)) && |regions| == |old(regions)| + 1
      ensures forall a: nat :: At(regions, a)
                            == if chosen <= a < chosen + n then Some(Attr(prot, inherit, true, false))
                               else At(old(regions), a)
    {
      ghost var rs := regions;
      ghost var k := Place(chosen, n, prot, inherit);
      ghost var r := Region(chosen, chosen + n, Attr(prot, inherit, true, false));
      InsertFacts(rs, k, r, base, base + size);
      InsertEverywhere(rs, k, r);
    }

    /** The address `vm_map_enter` chooses, or the reason why there is none. */
    method Choose(req: nat, n: nat, align: nat, anywhere: bool) returns (result: KernReturn, chosen: nat)
      requires Valid() && req < WORD && n > 0 && IsAlignment(align)
      requires if anywhere then base + size + align + n <= WORD else AlignUp(req, align) + n < WORD
      ensures var fixed := AlignUp(req, align);
              result == if !anywhere && (fixed < base || fixed + n > base + size) then InvalidArgument
                        else if (if anywhere then forall a: nat :: !Candidate(regions, base, size, a, n, align)
                                 else !Fits(regions, fixed, n))
                        then NoSpace else Success
      ensures result == Success ==>
              && Candidate(regions, base, size, chosen, n, align) && (!anywhere ==> chosen == AlignUp(req, align))
              && (anywhere ==> forall a: nat :: Candidate(regions, base, size, a, n, align) ==> chosen <= a)
    {
      if anywhere {
        chosen := FirstFit(n, align);
        if chosen + n > base + size { return NoSpace, chosen; }
        assert Candidate(regions, base, size, chosen, n, align);
      } else {
        RoundsToMultiple(req, align);
        chosen := AlignUp(req, align);
        if chosen < base || chosen + n > base + size { return InvalidArgument, chosen; }
        var free := RoomAt(chosen, n);
        if !free { return NoSpace, chosen; }
      }
      result := Success;
    }

    /** `vm_map_enter`; `allocOk` tells whether the entry can be allocated. The sums it
        forms of addresses and the size must not wrap; where the request itself is rounded
        up, it may. */
    method Enter(req: nat, bytes: nat, mask: nat, flags: int, prot: nat, inherit: nat, allocOk: bool)
      returns (result: KernReturn, addr: nat)
      requires Valid() && req < WORD && bytes < WORD && mask < WORD
      requires if req == 0 || flags % 2 == 1 then base + size + AlignmentOf(mask) + AlignUp(bytes, PAGE_SIZE) <= WORD
               else AlignUp(req, AlignmentOf(mask)) + AlignUp(bytes, PAGE_SIZE) < WORD
      modifies this, Repr
      ensures Valid() && fresh(Repr - old(Repr))
      ensures var n := AlignUp(bytes, PAGE_SIZE); var align := AlignmentOf(mask);
              var anywhere := req == 0 || flags % 2 == 1; var fixed := AlignUp(req, align);
              && (result == if bytes == 0 || n == 0 || (!anywhere && (fixed < base || fixed + n > base + size))
                            then InvalidArgument
                            else if (if anywhere then forall a: nat :: !Candidate(old(regions), base, size, a, n, align)
                                     else !Fits(old(regions), fixed, n)) then NoSpace
                            else if allocOk then Success else ResourceShortage)
              && (result == Success ==>
                    && Candidate(old(regions), base, size, addr, n, align)
                    && (anywhere ==> forall a: nat :: Candidate(old(regions), base, size, a, n, align) ==> addr <= a)
                    && (!anywhere ==> addr == fixed)
                    && |regions| == |old(regions)| + 1
                    && forall a: nat :: At(regions, a)
                         == if addr <= a < addr + n then Some(Attr(prot, inherit, true, false))
                            else old(At(regions, a)))
      ensures result != Success ==> addr == req && regions == old(regions)
    {
      addr := req;
      if bytes == 0 { return InvalidArgument, addr; }
      var n := AlignUp(bytes, PAGE_SIZE);
      if n == 0 { return InvalidArgument, addr; }
      var align := ComputeAlignment(mask);
      var anywhere := flags % 2 == 1;
      if req == 0 { anywhere := true; }
      var chosen;
      result, chosen := Choose(req, n, align, anywhere);
      if result != Success { return; }
      if !allocOk { return ResourceShortage, addr; }
      Commit(chosen, n, prot, inherit);
      return Success, chosen;
    }
  }
}
