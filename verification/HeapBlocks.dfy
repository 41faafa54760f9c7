/** The block layout of the kernel heap, as a list of blocks in address order:
    first-fit allocation with splitting, release with one coalescing pass. */
module HeapBlocks {
  import opened Bits

  const HEADER: nat := 16
  const HEAP_SIZE: nat := 0x40_0000
  const MIN_SPLIT: nat := 16

  /** A block: the address of its header, the size of its payload, and its state. */
  datatype Block = Block(addr: nat, size: nat, free: bool) {
    function Payload(): nat { addr + HEADER }
    function End(): nat { addr + HEADER + size }
  }

  // ------------------------------------------------------------------- layout

  /** The blocks follow one another from `lo` to `hi` without gap or overlap. */
  ghost predicate Tiles(bs: seq<Block>, lo: nat, hi: nat) {
    if bs == [] then lo == hi
    else bs[0].addr == lo && bs[0].size % 8 == 0 && Tiles(bs[1..], bs[0].End(), hi)
  }

  /** No two neighbouring blocks are both free. */
  ghost predicate NoFreePair(bs: seq<Block>) {
    |bs| >= 2 ==> !(bs[0].free && bs[1].free) && NoFreePair(bs[1..])
  }

  /** The last block has room: it is where the remainders of splits collect. */
  ghost predicate LastRoomy(bs: seq<Block>) {
    bs != [] && bs[|bs| - 1].size >= MIN_SPLIT
  }

  /** What every state of the heap satisfies. */
  ghost predicate Layout(bs: seq<Block>, lo: nat, hi: nat) {
    Tiles(bs, lo, hi) && NoFreePair(bs) && LastRoomy(bs)
  }

  lemma {:induction false} TilesConcat(xs: seq<Block>, ys: seq<Block>, lo: nat, mid: nat, hi: nat)
    requires Tiles(xs, lo, mid) && Tiles(ys, mid, hi)
    ensures Tiles(xs + ys, lo, hi)
  {
    if xs == [] {
      assert xs + ys == ys;
    } else {
      assert (xs + ys)[1..] == xs[1..] + ys;
      TilesConcat(xs[1..], ys, xs[0].End(), mid, hi);
    }
  }

  /** In a tiling every block lies inside the range and ends where the next begins. */
  lemma {:induction false} TilesAt(bs: seq<Block>, lo: nat, hi: nat, i: nat)
    requires Tiles(bs, lo, hi) && i < |bs|
    ensures lo <= bs[i].addr && bs[i].End() <= hi && (bs[i].addr - lo) % 8 == 0 && bs[i].size % 8 == 0
    ensures bs[i].End() == if i + 1 < |bs| then bs[i + 1].addr else hi
  {
    if i == 0 {
      TilesAbove(bs[1..], bs[0].End(), hi);
      if |bs| > 1 { assert bs[1..][0] == bs[1]; }
    } else {
      TilesAt(bs[1..], bs[0].End(), hi, i - 1);
    }
  }

  lemma {:induction false} TilesAbove(bs: seq<Block>, lo: nat, hi: nat)
    requires Tiles(bs, lo, hi)
    ensures lo <= hi && (hi - lo) % 8 == 0
  {
    if bs == [] {
    } else {
      TilesAbove(bs[1..], bs[0].End(), hi);
    }
  }

  lemma {:induction false} TilesSorted(bs: seq<Block>, lo: nat, hi: nat, i: nat, j: nat)
    requires Tiles(bs, lo, hi) && i < j < |bs|
    ensures bs[i].End() <= bs[j].addr
    decreases j
  {
    TilesAt(bs, lo, hi, j - 1);
    if i < j - 1 { TilesSorted(bs, lo, hi, i, j - 1); }
  }

  /** A block is known by its address. */
  lemma TilesUnique(bs: seq<Block>, lo: nat, hi: nat, i: nat, j: nat)
    requires Tiles(bs, lo, hi) && i < |bs| && j < |bs| && bs[i].addr == bs[j].addr
    ensures i == j
  {
    if i < j { TilesSorted(bs, lo, hi, i, j); }
    if j < i { TilesSorted(bs, lo, hi, j, i); }
  }

  // -------------------------------------------------------------- kmalloc

  /** A block fits a request of `n` bytes. */
  predicate Fits(b: Block, n: nat) {
    b.free && b.size >= n
  }

  /** A free block turned into an allocated one, with the remainder split off if
      it can hold a header and 16 bytes. */
  function Carve(b: Block, n: nat): seq<Block>
    requires b.size >= n
  {
    if b.size - n >= HEADER + MIN_SPLIT
    then [Block(b.addr, n, false), Block(b.addr + HEADER + n, b.size - n - HEADER, true)]
    else [b.(free := false)]
  }

  /** First fit for a request already rounded up. */
  ghost function Take(bs: seq<Block>, n: nat): seq<Block> {
    if bs == [] then []
    else if Fits(bs[0], n) then Carve(bs[0], n) + bs[1..]
    else [bs[0]] + Take(bs[1..], n)
  }

  /** The payload address of the block first fit chooses, 0 if there is none. */
  ghost function TakePtr(bs: seq<Block>, n: nat): nat {
    if bs == [] then 0
    else if Fits(bs[0], n) then bs[0].Payload()
    else TakePtr(bs[1..], n)
  }

  // ---------------------------------------------------------------- kfree

  /** One coalescing pass from the front. */
  ghost function Coalesce(bs: seq<Block>): seq<Block>
    decreases |bs|
  {
    if |bs| < 2 then bs
    else if bs[0].free && bs[1].free && bs[0].End() == bs[1].addr
    then Coalesce([Merge(bs[0], bs[1])] + bs[2..])
    else [bs[0]] + Coalesce(bs[1..])
  }

  function Merge(b: Block, c: Block): Block {
    b.(size := b.size + HEADER + c.size)
  }

  /** Mark the block at header address `addr` free. */
  ghost function Mark(bs: seq<Block>, addr: nat): seq<Block> {
    if bs == [] then []
    else if bs[0].addr == addr then [bs[0].(free := true)] + bs[1..]
    else [bs[0]] + Mark(bs[1..], addr)
  }

  ghost function Release(bs: seq<Block>, addr: nat): seq<Block> {
    Coalesce(Mark(bs, addr))
  }

  // --------------------------------------------------- what kmalloc preserves

  lemma {:induction false} TakeTiles(bs: seq<Block>, n: nat, lo: nat, hi: nat)
    requires Tiles(bs, lo, hi) && n % 8 == 0
    ensures Tiles(Take(bs, n), lo, hi)
  {
    if bs == [] {
    } else {
      if Fits(bs[0], n) {
        TilesConcat(Carve(bs[0], n), bs[1..], lo, bs[0].End(), hi);
      } else {
        TakeTiles(bs[1..], n, bs[0].End(), hi);
        assert ([bs[0]] + Take(bs[1..], n))[1..] == Take(bs[1..], n);
      }
    }
  }

  lemma {:induction false} TakeNoPair(bs: seq<Block>, n: nat)
    requires NoFreePair(bs)
    ensures NoFreePair(Take(bs, n))
    ensures |Take(bs, n)| >= |bs| && (bs != [] && !bs[0].free ==> !Take(bs, n)[0].free)
  {
    if bs == [] {
    } else {
      var rest := bs[1..];
      if |bs| >= 2 { assert rest[0] == bs[1]; }
      TakeNoPair(rest, n);
      if Fits(bs[0], n) {
        var cs := Carve(bs[0], n);
        var all := cs + rest;
        if |cs| == 2 {
          assert all[1..] == [cs[1]] + rest;
          assert ([cs[1]] + rest)[1..] == rest;
        } else {
          assert all[1..] == rest;
        }
      } else {
        assert ([bs[0]] + Take(rest, n))[1..] == Take(rest, n);
      }
    }
  }

  lemma {:induction false} TakeLast(bs: seq<Block>, n: nat)
    requires LastRoomy(bs)
    ensures LastRoomy(Take(bs, n))
  {
    if Fits(bs[0], n) {
      var all := Carve(bs[0], n) + bs[1..];
      if |bs| > 1 { assert all[|all| - 1] == bs[|bs| - 1]; }
    } else if |bs| > 1 {
      TakeLast(bs[1..], n);
    }
  }

  /** An allocation keeps the layout. */
  lemma TakeLayout(bs: seq<Block>, n: nat, lo: nat, hi: nat)
    requires Layout(bs, lo, hi) && n % 8 == 0
    ensures Layout(Take(bs, n), lo, hi)
  {
    TakeTiles(bs, n, lo, hi);
    TakeNoPair(bs, n);
    TakeLast(bs, n);
  }

  // ----------------------------------------------------- what kfree preserves

  lemma {:induction false} MarkTiles(bs: seq<Block>, addr: nat, lo: nat, hi: nat)
    requires Tiles(bs, lo, hi)
    ensures Tiles(Mark(bs, addr), lo, hi)
  {
    if bs == [] {
    } else {
      if bs[0].addr == addr {
        assert ([bs[0].(free := true)] + bs[1..])[1..] == bs[1..];
      } else {
        MarkTiles(bs[1..], addr, bs[0].End(), hi);
        assert ([bs[0]] + Mark(bs[1..], addr))[1..] == Mark(bs[1..], addr);
      }
    }
  }

  lemma {:induction false} MarkSplit(done: seq<Block>, todo: seq<Block>, addr: nat)
    requires todo != [] && todo[0].addr == addr && forall b :: b in done ==> b.addr != addr
    ensures Mark(done + todo, addr) == done + ([todo[0].(free := true)] + todo[1..])
  {
    if done == [] {
      assert done + todo == todo;
    } else {
      assert (done + todo)[1..] == done[1..] + todo;
      MarkSplit(done[1..], todo, addr);
    }
  }

  lemma {:induction false} MarkLast(bs: seq<Block>, addr: nat)
    requires LastRoomy(bs)
    ensures LastRoomy(Mark(bs, addr))
  {
    if bs[0].addr == addr {
      var all := [bs[0].(free := true)] + bs[1..];
      if |bs| > 1 { assert all[|all| - 1] == bs[|bs| - 1]; }
    } else if |bs| > 1 {
      MarkLast(bs[1..], addr);
    }
  }

  lemma TilesFirst(b: Block, rest: seq<Block>, lo: nat, hi: nat)
    ensures Tiles([b] + rest, lo, hi) <==> b.addr == lo && b.size % 8 == 0 && Tiles(rest, b.End(), hi)
  {
    assert ([b] + rest)[1..] == rest;
  }

  lemma MergeTiles(bs: seq<Block>, lo: nat, hi: nat)
    requires Tiles(bs, lo, hi) && |bs| >= 2
    ensures Tiles([Merge(bs[0], bs[1])] + bs[2..], lo, hi)
    ensures bs[0].End() == bs[1].addr
  {
    var b, c, rest := bs[0], bs[1], bs[2..];
    assert bs == [b] + ([c] + rest);
    TilesFirst(b, [c] + rest, lo, hi);
    TilesFirst(c, rest, b.End(), hi);
    TilesFirst(Merge(b, c), rest, lo, hi);
  }

  /** Coalescing keeps the tiling, and whatever list it is given, one pass leaves no
      two neighbouring free blocks. */
  lemma {:induction false} CoalesceTiles(bs: seq<Block>, lo: nat, hi: nat)
    requires Tiles(bs, lo, hi)
    ensures Tiles(Coalesce(bs), lo, hi) && NoFreePair(Coalesce(bs))
    ensures bs != [] ==> Coalesce(bs) != [] && Coalesce(bs)[0].free == bs[0].free
    decreases |bs|
  {
    if |bs| < 2 {
    } else {
      MergeTiles(bs, lo, hi);
      if bs[0].free && bs[1].free {
        CoalesceTiles([Merge(bs[0], bs[1])] + bs[2..], lo, hi);
      } else {
        CoalesceTiles(bs[1..], bs[0].End(), hi);
        assert ([bs[0]] + Coalesce(bs[1..]))[1..] == Coalesce(bs[1..]);
      }
    }
  }

  lemma {:induction false} CoalesceLast(bs: seq<Block>)
    requires LastRoomy(bs)
    ensures LastRoomy(Coalesce(bs))
    decreases |bs|
  {
    if |bs| < 2 {
    } else {
      if bs[0].free && bs[1].free && bs[0].End() == bs[1].addr {
        var ms := [Merge(bs[0], bs[1])] + bs[2..];
        if |bs| > 2 { assert ms[|ms| - 1] == bs[|bs| - 1]; }
        CoalesceLast(ms);
      } else {
        CoalesceLast(bs[1..]);
      }
    }
  }

  /** A release keeps the layout. */
  lemma ReleaseLayout(bs: seq<Block>, addr: nat, lo: nat, hi: nat)
    requires Layout(bs, lo, hi)
    ensures Layout(Release(bs, addr), lo, hi)
  {
    MarkTiles(bs, addr, lo, hi);
    MarkLast(bs, addr);
    CoalesceTiles(Mark(bs, addr), lo, hi);
    CoalesceLast(Mark(bs, addr));
  }

  /** Coalescing does nothing to a list without free pairs. */
  lemma {:induction false} CoalesceIdle(bs: seq<Block>)
    requires NoFreePair(bs)
    ensures Coalesce(bs) == bs
  {
    if |bs| < 2 {
    } else {
      CoalesceIdle(bs[1..]);
    }
  }

  /** The coalescing pass on its way: it is done with `done` and stands at the head of `todo`. */
  ghost predicate Merging(bs: seq<Block>, done: seq<Block>, todo: seq<Block>) {
    Coalesce(bs) == done + Coalesce(todo)
  }

  lemma MergeOn(bs: seq<Block>, done: seq<Block>, todo: seq<Block>)
    requires Merging(bs, done, todo) && |todo| >= 2
    ensures if todo[0].free && todo[1].free && todo[0].End() == todo[1].addr
            then Merging(bs, done, [Merge(todo[0], todo[1])] + todo[2..])
            else Merging(bs, done + [todo[0]], todo[1..]) && done + todo == (done + [todo[0]]) + todo[1..]
  {
    assert done + ([todo[0]] + Coalesce(todo[1..])) == (done + [todo[0]]) + Coalesce(todo[1..]);
  }

  // ------------------------------------------------ kfree undoes kmalloc exactly

  /** Releasing the head of a carved block gives the block back. */
  lemma CarveUndone(b: Block, n: nat, rest: seq<Block>)
    requires Fits(b, n) && NoFreePair([b] + rest)
    ensures Release(Carve(b, n) + rest, b.addr) == [b] + rest
  {
    CoalesceIdle([b] + rest);
    if b.size - n >= HEADER + MIN_SPLIT {
      SplitUndone(b, Carve(b, n)[0], Carve(b, n)[1], rest);
    } else {
      assert ([b.(free := false)] + rest)[1..] == rest;
    }
  }

  /** Two free blocks of which the first was just released become one. */
  lemma SplitUndone(b: Block, c: Block, d: Block, rest: seq<Block>)
    requires b.free && d.free && c.addr == b.addr && Merge(c.(free := true), d) == b && c.End() == d.addr
    requires Coalesce([b] + rest) == [b] + rest
    ensures Release([c, d] + rest, b.addr) == [b] + rest
  {
    assert ([c, d] + rest)[1..] == [d] + rest;
    var ms := Mark([c, d] + rest, b.addr);
    assert ms == [c.(free := true), d] + rest;
    assert ms[2..] == rest;
  }

  /** Releasing what an allocation just returned restores the exact layout. */
  lemma {:induction false} FreeUndoesMalloc(bs: seq<Block>, n: nat, lo: nat, hi: nat)
    requires Tiles(bs, lo, hi) && NoFreePair(bs) && lo > 0 && TakePtr(bs, n) != 0
    ensures TakePtr(bs, n) >= HEADER + lo
    ensures Release(Take(bs, n), TakePtr(bs, n) - HEADER) == bs
  {
    if Fits(bs[0], n) {
      assert [bs[0]] + bs[1..] == bs;
      CarveUndone(bs[0], n, bs[1..]);
    } else {
      var b, rest := bs[0], bs[1..];
      FreeUndoesMalloc(rest, n, b.End(), hi);
      var addr := TakePtr(bs, n) - HEADER;
      var ts := Take(rest, n);
      assert ([b] + ts)[1..] == ts;
      var ms := Mark(ts, addr);
      assert Mark([b] + ts, addr) == [b] + ms;
      assert ([b] + ms)[1..] == ms;
      MarkTakeHead(rest, n, addr, b.End(), hi);
      if b.free && rest != [] { assert rest[0] == bs[1]; }
    }
  }

  /** If first fit passes over an allocated head, so does the release. */
  lemma MarkTakeHead(rest: seq<Block>, n: nat, addr: nat, lo: nat, hi: nat)
    requires Tiles(rest, lo, hi) && lo > 0 && rest != [] && TakePtr(rest, n) == addr + HEADER && addr >= lo
    ensures var ms := Mark(Take(rest, n), addr);
            ms != [] && (!rest[0].free ==> !ms[0].free)
  {
    if !rest[0].free {
      TakePtrAbove(rest[1..], n, rest[0].End(), hi);
      assert ([rest[0]] + Take(rest[1..], n))[0] == rest[0];
    }
  }

  lemma {:induction false} TakePtrAbove(bs: seq<Block>, n: nat, lo: nat, hi: nat)
    requires Tiles(bs, lo, hi)
    ensures TakePtr(bs, n) != 0 ==> TakePtr(bs, n) >= lo + HEADER
  {
    if bs == [] {
    } else {
      TakePtrAbove(bs[1..], n, bs[0].End(), hi);
    }
  }

  /** First fit on its way: it has passed `done` and goes on with `todo`. */
  ghost predicate Seeking(bs: seq<Block>, done: seq<Block>, todo: seq<Block>, n: nat) {
    bs == done + todo && Take(bs, n) == done + Take(todo, n) && TakePtr(bs, n) == TakePtr(todo, n)
  }

  lemma SeekOn(bs: seq<Block>, done: seq<Block>, todo: seq<Block>, n: nat)
    requires Seeking(bs, done, todo, n) && todo != [] && !Fits(todo[0], n)
    ensures Seeking(bs, done + [todo[0]], todo[1..], n)
  {
    assert done + todo == (done + [todo[0]]) + todo[1..];
    assert done + ([todo[0]] + Take(todo[1..], n)) == (done + [todo[0]]) + Take(todo[1..], n);
  }

  // -------------------------------------------------------- what kmalloc returns

  /** There is no pointer exactly when no block fits, and then nothing changes. */
  lemma {:induction false} TakeNone(bs: seq<Block>, n: nat)
    ensures TakePtr(bs, n) == 0 <==> forall b :: b in bs ==> !Fits(b, n)
    ensures TakePtr(bs, n) == 0 ==> Take(bs, n) == bs
  {
    if bs == [] {
    } else {
      TakeNone(bs[1..], n);
      assert bs == [bs[0]] + bs[1..];
    }
  }

  /** A call that returns null has changed nothing. */
  lemma NullChangesNothing(bs: seq<Block>, n: word)
    requires MallocPtr(bs, n) == 0
    ensures MallocStep(bs, n) == bs
  {
    TakeNone(bs, AlignUp(n, 8));
  }

  /** First fit: the pointer belongs to the lowest block that fits; that block becomes
      an allocated block at the same address, with at least `n` bytes, and a free
      remainder, and every other block stays as it is. */
  lemma {:induction false} TakeFirstFit(bs: seq<Block>, n: nat) returns (front: seq<Block>, b: Block, rest: seq<Block>)
    requires TakePtr(bs, n) != 0
    ensures bs == front + [b] + rest && Fits(b, n) && TakePtr(bs, n) == b.Payload()
    ensures forall c :: c in front ==> !Fits(c, n)
    ensures Take(bs, n) == front + Carve(b, n) + rest
    ensures var c := Carve(b, n)[0]; c.addr == b.addr && c.size >= n && !c.free && c in Take(bs, n)
  {
    if Fits(bs[0], n) {
      front, b, rest := [], bs[0], bs[1..];
      assert Take(bs, n)[0] == Carve(b, n)[0];
    } else {
      front, b, rest := TakeFirstFit(bs[1..], n);
      front := [bs[0]] + front;
    }
  }

  // ------------------------------------------------------ allocated blocks stay

  lemma {:induction false} TakeKeeps(bs: seq<Block>, n: nat, b: Block)
    requires b in bs && !b.free
    ensures b in Take(bs, n)
  {
    if Fits(bs[0], n) {
      assert b in bs[1..];
    } else if b != bs[0] {
      TakeKeeps(bs[1..], n, b);
    }
  }

  lemma {:induction false} MarkKeeps(bs: seq<Block>, addr: nat, b: Block)
    requires b in bs && b.addr != addr
    ensures b in Mark(bs, addr)
  {
    if bs[0].addr == addr {
      assert b in bs[1..];
    } else if b != bs[0] {
      MarkKeeps(bs[1..], addr, b);
    }
  }

  lemma {:induction false} CoalesceKeeps(bs: seq<Block>, b: Block)
    requires b in bs && !b.free
    ensures b in Coalesce(bs)
    decreases |bs|
  {
    if |bs| < 2 {
    } else {
      if bs[0].free && bs[1].free && bs[0].End() == bs[1].addr {
        assert b in bs[2..];
        CoalesceKeeps([Merge(bs[0], bs[1])] + bs[2..], b);
      } else if b != bs[0] {
        CoalesceKeeps(bs[1..], b);
      }
    }
  }

  /** Releasing one block keeps every other allocated block where and as it is. */
  lemma ReleaseKeeps(bs: seq<Block>, addr: nat, b: Block)
    requires b in bs && !b.free && b.addr != addr
    ensures b in Release(bs, addr)
  {
    MarkKeeps(bs, addr, b);
    CoalesceKeeps(Mark(bs, addr), b);
  }

  lemma {:induction false} MarkDrops(bs: seq<Block>, addr: nat, b: Block, lo: nat, hi: nat)
    requires Tiles(bs, lo, hi) && b in Mark(bs, addr) && !b.free
    ensures b in bs && lo <= b.addr != addr
  {
    if bs[0].addr == addr {
      var i :| 0 <= i < |bs[1..]| && bs[1..][i] == b;
      TilesAt(bs[1..], bs[0].End(), hi, i);
    } else if b != bs[0] {
      MarkDrops(bs[1..], addr, b, bs[0].End(), hi);
    }
  }

  lemma {:induction false} CoalesceDrops(bs: seq<Block>, b: Block)
    requires b in Coalesce(bs) && !b.free
    ensures b in bs
    decreases |bs|
  {
    if |bs| < 2 {
    } else if bs[0].free && bs[1].free && bs[0].End() == bs[1].addr {
      CoalesceDrops([Merge(bs[0], bs[1])] + bs[2..], b);
    } else if b != bs[0] {
      CoalesceDrops(bs[1..], b);
    }
  }

  /** A release takes exactly the block at `addr` from the allocated blocks and adds none. */
  lemma ReleaseAllocated(bs: seq<Block>, addr: nat, b: Block, lo: nat, hi: nat)
    requires Tiles(bs, lo, hi) && !b.free
    ensures b in Release(bs, addr) <==> b in bs && b.addr != addr
  {
    if b in Release(bs, addr) {
      CoalesceDrops(Mark(bs, addr), b);
      MarkDrops(bs, addr, b, lo, hi);
    } else if b in bs && b.addr != addr {
      ReleaseKeeps(bs, addr, b);
    }
  }

  // -------------------------------------------------------- which block kfree means

  ghost predicate HasBlock(bs: seq<Block>, addr: nat) {
    exists i :: 0 <= i < |bs| && bs[i].addr == addr
  }

  ghost predicate HasAllocated(bs: seq<Block>, addr: nat) {
    exists i :: 0 <= i < |bs| && bs[i].addr == addr && !bs[i].free
  }

  /** The header `kfree(p)` acts on, 0 if it refuses the pointer: the block whose
      payload begins at `p`, else the block whose payload begins at the word `w`
      stored in front of `p`. */
  ghost function Target(bs: seq<Block>, lo: nat, hi: nat, p: nat, w: nat): nat {
    if lo + HEADER <= p < hi && HasBlock(bs, p - HEADER) then p - HEADER
    else if lo <= p < hi && lo + HEADER <= w < hi && HasBlock(bs, w - HEADER) then w - HEADER
    else 0
  }

  /** `kfree`: refused pointers and blocks already free are left alone. */
  ghost function FreeStep(bs: seq<Block>, lo: nat, hi: nat, p: nat, w: nat): seq<Block> {
    var t := Target(bs, lo, hi, p, w);
    if t != 0 && HasAllocated(bs, t) then Release(bs, t) else bs
  }

  /** `kmalloc`: the request is rounded up to a multiple of 8 in 32 bits. */
  ghost function MallocStep(bs: seq<Block>, n: word): seq<Block> {
    if n == 0 then bs else Take(bs, AlignUp(n, 8))
  }

  ghost function MallocPtr(bs: seq<Block>, n: word): nat {
    if n == 0 then 0 else TakePtr(bs, AlignUp(n, 8))
  }

  lemma RoundUp8(n: word)
    ensures AlignUp(n, 8) % 8 == 0 && AlignUp(n, 8) < WORD
    ensures n <= AlignUp(n, 8) <==> n <= WORD - 8
  {
    assert IsPow2(8);
    if n + 8 <= WORD {
      AlignUpBounds(n, 8);
    } else {
      RoundWrapped(n);
    }
  }

  lemma RoundWrapped(n: word)
    requires WORD - 8 < n
    ensures AlignUp(n, 8) == 0
  {
    var x := n + 7 - WORD;
    assert (n + 7) % WORD == x;
    WordIsPow2();
    assert IsPow2(8);
    AndTopMask(x, WORD, 8);
  }

  // ------------------------------------------------------------------- every run

  /** A call of the heap: a request, or a release of any pointer with any word in front of it. */
  datatype Op = Malloc(n: word) | Free(p: word, w: word)

  ghost function Step(bs: seq<Block>, op: Op, lo: nat, hi: nat): seq<Block> {
    match op
    case Malloc(n) => MallocStep(bs, n)
    case Free(p, w) => FreeStep(bs, lo, hi, p, w)
  }

  ghost function Exec(bs: seq<Block>, ops: seq<Op>, lo: nat, hi: nat): seq<Block>
    decreases |ops|
  {
    if ops == [] then bs else Exec(Step(bs, ops[0], lo, hi), ops[1..], lo, hi)
  }

  /** The heap as `heap_init` sets it up. */
  function Initial(lo: nat): seq<Block> {
    [Block(lo, HEAP_SIZE - HEADER, true)]
  }

  lemma InitialLayout(lo: nat)
    ensures Layout(Initial(lo), lo, lo + HEAP_SIZE)
  {
    assert Initial(lo)[1..] == [];
  }

  lemma StepLayout(bs: seq<Block>, op: Op, lo: nat, hi: nat)
    requires Layout(bs, lo, hi)
    ensures Layout(Step(bs, op, lo, hi), lo, hi)
  {
    match op
    case Malloc(n) =>
      if n != 0 {
        RoundUp8(n);
        TakeLayout(bs, AlignUp(n, 8), lo, hi);
      }
    case Free(p, w) =>
      ReleaseLayout(bs, Target(bs, lo, hi, p, w), lo, hi);
  }

  /** Some block's payload begins at `p`. */
  ghost predicate HasPayload(bs: seq<Block>, p: nat) {
    exists i :: 0 <= i < |bs| && bs[i].Payload() == p
  }

  lemma TargetBlock(bs: seq<Block>, lo: nat, hi: nat, p: nat)
    requires Layout(bs, lo, hi)
    ensures HasPayload(bs, p) <==> lo + HEADER <= p < hi && HasBlock(bs, p - HEADER)
  {
    if HasPayload(bs, p) {
      var i :| 0 <= i < |bs| && bs[i].Payload() == p;
      PayloadInside(bs, i, lo, hi);
      assert bs[i].addr == p - HEADER;
    }
    if lo + HEADER <= p < hi && HasBlock(bs, p - HEADER) {
      var i :| 0 <= i < |bs| && bs[i].addr == p - HEADER;
      assert bs[i].Payload() == p;
    }
  }

  /** `kfree(p)` means the payload `q`: `p` itself if it begins a payload, otherwise, for a
      `p` inside the heap, the word in front of it. */
  ghost predicate Means(bs: seq<Block>, lo: nat, hi: nat, p: nat, w: nat, q: nat) {
    if HasPayload(bs, p) then q == p else lo <= p < hi && q == w
  }

  /** `kfree` takes from the allocated blocks exactly the one whose payload the pointer
      means; if there is none, nothing changes. */
  lemma FreeMeans(bs: seq<Block>, lo: nat, hi: nat, p: nat, w: nat, b: Block)
    requires Layout(bs, lo, hi) && 0 < lo && !b.free
    ensures b in FreeStep(bs, lo, hi, p, w) <==> b in bs && !Means(bs, lo, hi, p, w, b.Payload())
    ensures FreeStep(bs, lo, hi, p, w) != bs ==>
            exists c :: c in bs && !c.free && Means(bs, lo, hi, p, w, c.Payload())
  {
    TargetBlock(bs, lo, hi, p);
    TargetBlock(bs, lo, hi, w);
    var t := Target(bs, lo, hi, p, w);
    ReleaseAllocated(bs, t, b, lo, hi);
    if b in bs {
      var i :| 0 <= i < |bs| && bs[i] == b;
      PayloadInside(bs, i, lo, hi);
      assert HasPayload(bs, b.Payload());
      if b.addr == t { assert HasAllocated(bs, t); }
    }
    if t != 0 && HasAllocated(bs, t) {
      var i :| 0 <= i < |bs| && bs[i].addr == t && !bs[i].free;
      assert bs[i] in bs && bs[i].Payload() == t + HEADER;
    }
  }

  lemma {:induction false} ExecLayout(bs: seq<Block>, ops: seq<Op>, lo: nat, hi: nat)
    requires Layout(bs, lo, hi)
    ensures Layout(Exec(bs, ops, lo, hi), lo, hi)
    decreases |ops|
  {
    if ops == [] {
    } else {
      StepLayout(bs, ops[0], lo, hi);
      ExecLayout(Step(bs, ops[0], lo, hi), ops[1..], lo, hi);
    }
  }

  ghost function Used(bs: seq<Block>): nat {
    if bs == [] then 0 else Used(bs[1..]) + if bs[0].free then 0 else bs[0].size + HEADER
  }

  ghost function Available(bs: seq<Block>): nat {
    if bs == [] then 0 else Available(bs[1..]) + if bs[0].free then bs[0].size else 0
  }

  ghost function FreeCount(bs: seq<Block>): nat {
    if bs == [] then 0 else FreeCount(bs[1..]) + if bs[0].free then 1 else 0
  }

  lemma {:induction false} Conservation(bs: seq<Block>, lo: nat, hi: nat)
    requires Tiles(bs, lo, hi)
    ensures Used(bs) + Available(bs) + HEADER * FreeCount(bs) == hi - lo
  {
    if bs == [] {
    } else {
      Conservation(bs[1..], bs[0].End(), hi);
    }
  }

  /** Whatever is requested and released, the blocks tile the whole heap in address
      order, no two neighbouring blocks are free, and headers and payloads add up to
      the heap. */
  lemma EveryRunTilesTheHeap(lo: nat, ops: seq<Op>)
    ensures var bs := Exec(Initial(lo), ops, lo, lo + HEAP_SIZE);
            && Layout(bs, lo, lo + HEAP_SIZE)
            && Used(bs) + Available(bs) + HEADER * FreeCount(bs) == HEAP_SIZE
  {
    InitialLayout(lo);
    ExecLayout(Initial(lo), ops, lo, lo + HEAP_SIZE);
    Conservation(Exec(Initial(lo), ops, lo, lo + HEAP_SIZE), lo, lo + HEAP_SIZE);
  }

  /** No release in the run is aimed at the block with header `addr`. */
  ghost predicate NeverFreed(bs: seq<Block>, ops: seq<Op>, lo: nat, hi: nat, addr: nat)
    decreases |ops|
  {
    ops == [] ||
    (&& (ops[0].Free? ==> Target(bs, lo, hi, ops[0].p, ops[0].w) != addr)
     && NeverFreed(Step(bs, ops[0], lo, hi), ops[1..], lo, hi, addr))
  }

  /** Until it is released, an allocated block stays at its place with its size. */
  lemma {:induction false} AllocatedStays(bs: seq<Block>, ops: seq<Op>, lo: nat, hi: nat, b: Block)
    requires b in bs && !b.free && NeverFreed(bs, ops, lo, hi, b.addr)
    ensures b in Exec(bs, ops, lo, hi)
    decreases |ops|
  {
    if ops == [] {
    } else {
      match ops[0] {
        case Malloc(n) =>
          if n != 0 { TakeKeeps(bs, AlignUp(n, 8), b); }
        case Free(p, w) =>
          var t := Target(bs, lo, hi, p, w);
          if t != 0 && HasAllocated(bs, t) { ReleaseKeeps(bs, t, b); }
      }
      AllocatedStays(Step(bs, ops[0], lo, hi), ops[1..], lo, hi, b);
    }
  }

  /** `kmalloc` followed by `kfree` of the result restores the layout, whatever the
      words in memory are. */
  lemma KfreeUndoesKmalloc(bs: seq<Block>, n: word, w: word, lo: nat, hi: nat)
    requires Layout(bs, lo, hi) && 0 < lo && hi < WORD && MallocPtr(bs, n) != 0
    ensures FreeStep(MallocStep(bs, n), lo, hi, MallocPtr(bs, n), w) == bs
  {
    RoundUp8(n);
    TakeTarget(bs, AlignUp(n, 8), lo, hi);
    FreeUndoesMalloc(bs, AlignUp(n, 8), lo, hi);
  }

  /** The pointer first fit returns is that of an allocated block. */
  lemma TakeTarget(bs: seq<Block>, m: nat, lo: nat, hi: nat)
    requires Layout(bs, lo, hi) && m % 8 == 0 && TakePtr(bs, m) != 0
    ensures var p := TakePtr(bs, m);
            && lo + HEADER <= p < hi
            && HasBlock(Take(bs, m), p - HEADER) && HasAllocated(Take(bs, m), p - HEADER)
  {
    var ts := Take(bs, m);
    TakeLayout(bs, m, lo, hi);
    var front, b, rest := TakeFirstFit(bs, m);
    var i :| 0 <= i < |ts| && ts[i] == Carve(b, m)[0];
    PayloadInside(ts, i, lo, hi);
    assert ts[i].addr == b.addr;
  }

  lemma MallocPtrInside(bs: seq<Block>, n: word, lo: nat, hi: nat)
    requires Layout(bs, lo, hi) && MallocPtr(bs, n) != 0
    ensures lo + HEADER <= MallocPtr(bs, n) < hi
  {
    RoundUp8(n);
    TakeTarget(bs, AlignUp(n, 8), lo, hi);
  }

  /** Every payload begins strictly inside the heap. */
  lemma PayloadInside(bs: seq<Block>, i: nat, lo: nat, hi: nat)
    requires Layout(bs, lo, hi) && i < |bs|
    ensures lo + HEADER <= bs[i].Payload() < hi
  {
    TilesAt(bs, lo, hi, i);
    var l := |bs| - 1;
    TilesAt(bs, lo, hi, l);
    if i < l { TilesSorted(bs, lo, hi, i, l); }
  }

  // ------------------------------------------------------------ aligned pointers

  lemma SmallPow2(a: nat)
    requires IsPow2(a) && a <= 8
    ensures a in {1, 2, 4, 8}
  {
    if a > 1 {
      var b := a / 2;
      assert a == 2 * b && IsPow2(b);
      if b > 1 { assert b == 2 * (b / 2) && IsPow2(b / 2); }
    }
  }

  /** A power of two that is at most 8 divides every multiple of 8. */
  lemma SmallAlignment(a: nat, p: nat)
    requires a in {1, 2, 4, 8} && p % 8 == 0
    ensures p % a == 0
  {
    var q := p / 8;
    if a == 1 {
      DivModUnique(p, a, 8 * q, 0);
    } else if a == 2 {
      DivModUnique(p, a, 4 * q, 0);
    } else if a == 4 {
      DivModUnique(p, a, 2 * q, 0);
    }
  }

  /** A multiple of a power of two above 8 is a multiple of 4. */
  lemma MultipleOfFour(a: nat, p: nat)
    requires IsPow2(a) && a > 8 && p % a == 0
    ensures p % 4 == 0
  {
    var b, q := a / 4, p / a;
    assert IsPow2(a / 2) && a == 4 * b;
    assert p == a * q == 4 * (b * q);
    DivModUnique(p, 4, b * q, 0);
  }

  /** The pointer `kmalloc_aligned` makes of a raw pointer: room for the back-pointer, rounded up. */
  function AlignedPtr(raw: word, align: word): nat
    requires raw + 4 < WORD
  {
    AlignUp(raw + 4, align)
  }

  /** The size asked for in order to align a pointer and store another one before it. */
  function Padded(size: nat, align: nat): nat
    requires align > 0
  {
    size + (align - 1 + 4)
  }

  /** The size `kmalloc_aligned` asks for, with the alignment `a` it uses. */
  function Asked(size: nat, a: nat): nat
    requires a > 0
  {
    if size == 0 || a <= 8 then size else Padded(size, a)
  }

  /** `size` bytes from `p` on are aligned and lie in the payload of an allocated block. */
  ghost predicate Placed(bs: seq<Block>, b: Block, p: nat, size: nat, a: nat)
    requires a > 0
  {
    p % a == 0 && b in bs && !b.free && b.Payload() <= p && p + size <= b.End()
  }

  // The alignment is found by doubling 1 in 32 bits until it is not below the one asked for.

  /** A 32-bit left shift by one. */
  function Shl(a: word): word {
    (2 * a) % WORD
  }

  function Doubled(k: nat): word {
    if k == 0 then 1 else Shl(Doubled(k - 1))
  }

  lemma {:induction false} DoubledIs(k: nat)
    ensures Doubled(k) == 0 || (IsPow2(Doubled(k)) && Doubled(k) <= 0x8000_0000)
  {
    if k == 0 {
    } else {
      DoubledIs(k - 1);
      var a := Doubled(k - 1);
      if 0 < a < 0x8000_0000 { BelowTop(a); }
    }
  }

  /** A power of two below 2^31 can be doubled. */
  lemma BelowTop(a: nat)
    requires IsPow2(a) && a < 0x8000_0000
    ensures 2 * a <= 0x8000_0000 && IsPow2(2 * a) && Shl(a) == 2 * a
  {
    WordIsPow2();
    Pow2Gap(a, 0x8000_0000);
  }

  lemma {:induction false} DoubledReaches(a: word) returns (k: nat)
    requires IsPow2(a)
    ensures Doubled(k) == a
  {
    if a == 1 {
      k := 0;
    } else {
      k := DoubledReaches(a / 2);
      k := k + 1;
    }
  }

  /** The doubling ends exactly for alignments up to 2^31: behind them it wraps to 0 and stays there. */
  lemma DoublingEnds(align: word)
    ensures (exists k: nat :: Doubled(k) >= align) <==> align <= 0x8000_0000
  {
    WordIsPow2();
    var top := DoubledReaches(0x8000_0000);
    if k: nat :| Doubled(k) >= align { DoubledIs(k); }
  }

  /** The aligned pointer, its back-pointer and its payload lie inside the raw block. */
  lemma AlignedInside(b: Block, size: nat, align: word)
    requires IsPow2(align) && b.size >= Padded(size, align) && b.Payload() + 4 + align <= WORD
    ensures var p := AlignedPtr(b.Payload(), align);
            p % align == 0 && b.Payload() <= p - 4 && p + size <= b.End()
  {
    AlignUpBounds(b.Payload() + 4, align);
  }

  /** A pointer into the payload of an allocated block, at least four bytes behind
      its beginning, is never taken for an ordinary block; with the back-pointer in
      front of it `kfree` acts on exactly that block. */
  lemma AlignedTarget(bs: seq<Block>, lo: nat, hi: nat, b: Block, p: nat)
    requires Layout(bs, lo, hi) && b in bs && !b.free && b.Payload() + 4 <= p < b.End()
    ensures !HasBlock(bs, p - HEADER)
    ensures Target(bs, lo, hi, p, b.Payload()) == b.addr && HasAllocated(bs, b.addr)
  {
    var i :| 0 <= i < |bs| && bs[i] == b;
    PayloadInside(bs, i, lo, hi);
    TilesAt(bs, lo, hi, i);
    if HasBlock(bs, p - HEADER) {
      var j :| 0 <= j < |bs| && bs[j].addr == p - HEADER;
      if i < j { TilesSorted(bs, lo, hi, i, j); }
      if j < i { TilesSorted(bs, lo, hi, j, i); }
    }
    assert bs[i].addr == b.addr;
  }

  /** Releasing an aligned pointer, after any run that did not release its raw block,
      releases exactly that block: it is allocated no more, every other allocated block
      stays, and none is added. */
  lemma AlignedRelease(bs: seq<Block>, ops: seq<Op>, lo: nat, hi: nat, b: Block, p: nat)
    requires Layout(bs, lo, hi) && lo > 0 && b in bs && !b.free && b.Payload() + 4 <= p < b.End()
    requires NeverFreed(bs, ops, lo, hi, b.addr)
    ensures var now := Exec(bs, ops, lo, hi); var after := FreeStep(now, lo, hi, p, b.Payload());
            && b in now && after == Release(now, b.addr)
            && forall c: Block :: !c.free ==> (c in after <==> c in now && c.addr != b.addr)
  {
    AllocatedStays(bs, ops, lo, hi, b);
    ExecLayout(bs, ops, lo, hi);
    var now := Exec(bs, ops, lo, hi);
    AlignedTarget(now, lo, hi, b, p);
    var i :| 0 <= i < |now| && now[i] == b;
    TilesAt(now, lo, hi, i);
    forall c: Block | !c.free
      ensures c in Release(now, b.addr) <==> c in now && c.addr != b.addr
    {
      ReleaseAllocated(now, b.addr, c, lo, hi);
    }
  }

  /** Releasing an aligned pointer right after its raw block was allocated restores the layout. */
  lemma AlignedUndone(bs: seq<Block>, n: word, lo: nat, hi: nat, b: Block, p: nat)
    requires Layout(bs, lo, hi) && 0 < lo && hi < WORD && MallocPtr(bs, n) != 0
    requires b in MallocStep(bs, n) && !b.free && b.Payload() == MallocPtr(bs, n) && b.Payload() + 4 <= p < b.End()
    ensures FreeStep(MallocStep(bs, n), lo, hi, p, b.Payload()) == bs
  {
    RoundUp8(n);
    AlignedTakeUndone(bs, AlignUp(n, 8), lo, hi, b, p);
  }

  /** The same for any pointer `kmalloc_aligned` makes, with the word in front of it. */
  lemma PlacedUndone(bs: seq<Block>, n: word, lo: nat, hi: nat, b: Block, p: nat, size: nat, a: nat, w: word)
    requires Layout(bs, lo, hi) && 0 < lo && hi < WORD && MallocPtr(bs, n) != 0 && a > 0 && size > 0
    requires Placed(MallocStep(bs, n), b, p, size, a) && b.Payload() == MallocPtr(bs, n)
    requires if a <= 8 then p == b.Payload() else b.Payload() + 4 <= p && w == b.Payload()
    ensures FreeStep(MallocStep(bs, n), lo, hi, p, w) == bs && p < hi
  {
    var i :| 0 <= i < |MallocStep(bs, n)| && MallocStep(bs, n)[i] == b;
    StepLayout(bs, Malloc(n), lo, hi);
    TilesAt(MallocStep(bs, n), lo, hi, i);
    if a <= 8 {
      KfreeUndoesKmalloc(bs, n, w, lo, hi);
    } else {
      AlignedUndone(bs, n, lo, hi, b, p);
    }
  }

  lemma AlignedTakeUndone(bs: seq<Block>, m: nat, lo: nat, hi: nat, b: Block, p: nat)
    requires Layout(bs, lo, hi) && 0 < lo && m % 8 == 0 && TakePtr(bs, m) != 0
    requires b in Take(bs, m) && !b.free && b.Payload() == TakePtr(bs, m) && b.Payload() + 4 <= p < b.End()
    ensures FreeStep(Take(bs, m), lo, hi, p, b.Payload()) == bs
  {
    TakeLayout(bs, m, lo, hi);
    FreeUndoesMalloc(bs, m, lo, hi);
    AlignedTarget(Take(bs, m), lo, hi, b, p);
  }

  /** The block behind the pointer `kmalloc` returned: new, allocated and aligned to 8.
      It is large enough for the request exactly when rounding the request up did
      not wrap. */
  lemma MallocBlock(bs: seq<Block>, n: word, lo: nat, hi: nat) returns (b: Block)
    requires Layout(bs, lo, hi) && lo % 8 == 0 && hi < WORD - 8 && MallocPtr(bs, n) != 0
    ensures b in MallocStep(bs, n) && !b.free && b !in bs && b.Payload() == MallocPtr(bs, n)
    ensures b.Payload() % 8 == 0 && lo <= b.addr && b.End() <= hi
    ensures b.size >= n <==> n <= WORD - 8
    ensures forall c :: c in bs && !c.free ==> c.End() <= b.addr || b.End() <= c.addr
  {
    var m := AlignUp(n, 8);
    RoundUp8(n);
    var front, f, rest := TakeFirstFit(bs, m);
    b := Carve(f, m)[0];
    assert bs[|front|] == f;
    TilesAt(bs, lo, hi, |front|);
    forall c | c in bs && !c.free
      ensures c.End() <= f.addr || f.End() <= c.addr
    {
      var i :| 0 <= i < |bs| && bs[i] == c;
      if i < |front| { TilesSorted(bs, lo, hi, i, |front|); }
      if i > |front| { TilesSorted(bs, lo, hi, |front|, i); }
    }
  }

  /** A request so large that rounding it up wraps to zero gets the first free block, cut
      down to nothing if it can be split: never as much as 32 bytes. */
  lemma HugeRequestGetsLittle(bs: seq<Block>, n: word) returns (front: seq<Block>, b: Block, rest: seq<Block>)
    requires n > WORD - 8 && MallocPtr(bs, n) != 0
    ensures bs == front + [b] + rest && b.free && (forall c :: c in front ==> !c.free) && MallocPtr(bs, n) == b.Payload()
    ensures MallocStep(bs, n) == front + Carve(b, 0) + rest
    ensures var c := Carve(b, 0)[0]; c.addr == b.addr && !c.free && c.size == if b.size >= 32 then 0 else b.size
  {
    RoundWrapped(n);
    front, b, rest := TakeFirstFit(bs, 0);
    forall c | c in front ensures !c.free {
      assert !Fits(c, 0);
    }
  }

  /** On a fresh heap that is an empty block. */
  lemma HugeRequestGetsEmptyBlock(lo: nat, n: word)
    requires n > WORD - 8
    ensures MallocPtr(Initial(lo), n) == lo + HEADER && Block(lo, 0, false) in MallocStep(Initial(lo), n)
  {
    RoundWrapped(n);
    var bs := Initial(lo);
    assert Take(bs, 0) == Carve(bs[0], 0) + bs[1..];
    assert Take(bs, 0)[0] == Block(lo, 0, false);
  }

  /** There is such a block exactly if any is free. */
  lemma HugeRequestFails(bs: seq<Block>, n: word)
    requires n > WORD - 8
    ensures MallocPtr(bs, n) == 0 <==> forall b :: b in bs ==> !b.free
  {
    RoundWrapped(n);
    TakeNone(bs, 0);
    assert forall b: Block :: Fits(b, 0) <==> b.free;
  }
}
