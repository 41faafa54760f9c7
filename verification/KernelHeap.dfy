/** The kernel heap itself: memory words, walked and edited in place through the
    block headers they hold. */
module KernelHeap {
  import opened Bits
  import opened HeapBlocks
  import opened HeapImage

  class Heap {
    const base: nat
    var mem: Memory
    var head: nat
    var initialized: bool
    ghost var blocks: seq<Block>

    ghost predicate Valid()
      reads this
    {
      && base > 0 && base % 8 == 0 && base + HEAP_SIZE < WORD - 8
      && (initialized ==> head == base && Layout(blocks, base, base + HEAP_SIZE) && Image(mem, blocks, 0))
      && (!initialized ==> blocks == Initial(base))
    }

    constructor (base: nat)
      requires base > 0 && base % 8 == 0 && base + HEAP_SIZE < WORD - 8
      ensures Valid() && blocks == Initial(base) && this.base == base
    {
      this.base := base;
      mem, head, initialized := map[], 0, false;
      blocks := Initial(base);
    }

    /** Fill in the four fields of the header at `p`. */
    method SetHeader(p: nat, size: word, free: bool, next: word)
      modifies `mem
      ensures mem == PutHeader(old(mem), Block(p, size, free), next)
    {
      var flag := WithByte(WordAt(mem, p + 8), if free then 1 else 0);
      mem := mem[p := size][p + 4 := CANARY][p + 8 := flag][p + 12 := next];
    }

    /** `heap_init`: one free block. */
    method Init()
      requires Valid()
      modifies this
      ensures Valid() && initialized && blocks == old(blocks) && Untouched(old(mem), mem, blocks)
    {
      if initialized {
        UntouchedSame(mem, blocks);
        return;
      }
      PutHeaderFacts(mem, blocks[0], 0);
      SetHeader(base, HEAP_SIZE - HEADER, true, 0);
      head, initialized := base, true;
      assert blocks[1..] == [];
      assert Image(mem, blocks, 0) && Tiles(blocks, base, base + HEAP_SIZE) && LastRoomy(blocks);
    }

    // ----------------------------------------------------------------- kmalloc

    /** The first-fit walk. */
    method FindFit(n: nat) returns (cur: nat, ghost done: seq<Block>, ghost todo: seq<Block>)
      requires Valid() && initialized
      ensures Seeking(blocks, done, todo, n)
      ensures if cur == 0 then todo == [] else todo != [] && cur == todo[0].addr && Fits(todo[0], n)
      ensures TakePtr(blocks, n) == if cur == 0 then 0 else cur + HEADER
    {
      cur, done, todo := head, [], blocks;
      ghost var at: nat := base;
      while cur != 0
        invariant Seeking(blocks, done, todo, n) && Cursor(mem, todo, cur, at, base + HEAP_SIZE)
        decreases |todo|
      {
        CursorNext(mem, todo, cur, at, base + HEAP_SIZE);
        if WordAt(mem, cur + 8) % 256 != 0 && WordAt(mem, cur) >= n { return; }
        SeekOn(blocks, done, todo, n);
        cur := WordAt(mem, cur + 12);
        done, todo, at := done + [todo[0]], todo[1..], todo[0].End();
      }
    }

    /** The headers written into the block found. */
    method WriteCarved(cur: nat, n: nat, size: word, next: word, ghost b: Block)
      requires b.addr == cur && b.size == size && size >= n && b.End() < WORD
      modifies `mem
      ensures mem == PutCarved(old(mem), b, n, next)
    {
      var remaining := size - n;
      if remaining >= HEADER + MIN_SPLIT {
        var newb := cur + HEADER + n;
        SetHeader(newb, remaining - HEADER, true, next);
        SetHeader(cur, n, false, newb);
      } else {
        SetHeader(cur, size, false, next);
      }
    }

    /** Turn the block found into an allocated one. */
    method CarveAt(cur: nat, n: nat, ghost done: seq<Block>, ghost todo: seq<Block>)
      requires blocks == done + todo && todo != [] && todo[0].addr == cur && todo[0].free && todo[0].size >= n
      requires Image(mem, done + todo, 0) && Tiles(done + todo, base, base + HEAP_SIZE) && base + HEAP_SIZE < WORD
      modifies `mem, `blocks
      ensures CarvedTo(old(mem), mem, done, todo, n) && blocks == CarvedList(done, todo, n)
    {
      CarveFacts(mem, done, todo, n, base, base + HEAP_SIZE);
      WriteCarved(cur, n, WordAt(mem, cur), WordAt(mem, cur + 12), todo[0]);
      blocks := CarvedList(done, todo, n);
    }

    /** `kmalloc`. */
    method Kmalloc(bytes: word) returns (p: nat)
      requires Valid()
      modifies this
      ensures Valid()
      ensures blocks == MallocStep(old(blocks), bytes) && p == MallocPtr(old(blocks), bytes)
      ensures Untouched(old(mem), mem, old(blocks))
    {
      UntouchedSame(mem, blocks);
      if bytes == 0 { return 0; }
      Init();
      ghost var m := mem;
      var n := AlignUp(bytes, 8);
      RoundUp8(bytes);
      TakeLayout(blocks, n, base, base + HEAP_SIZE);
      var cur, done, todo := FindFit(n);
      if cur == 0 { return 0; }
      CarveAt(cur, n, done, todo);
      UntouchedTrans(old(mem), m, mem, old(blocks));
      p := cur + HEADER;
    }

    // ------------------------------------------------------------------- kfree

    /** The memory holds the headers of a list of blocks that tiles the heap. */
    ghost predicate Held()
      reads this
    {
      && base > 0 && base % 8 == 0 && base + HEAP_SIZE < WORD - 8 && initialized && head == base
      && Tiles(blocks, base, base + HEAP_SIZE) && Image(mem, blocks, 0)
    }

    /** The header at `cur` swallows the block at `nxt`. */
    method Swallow(cur: nat, nxt: nat, ghost b: Block, ghost c: Block)
      requires Header(mem, b, nxt) && Header(mem, c, WordAt(mem, nxt + 12)) && cur == b.addr && nxt == c.addr
      requires b.End() == c.addr && b.size + HEADER + c.size < WORD
      modifies `mem
      ensures mem == PutMerged(old(mem), b, c)
    {
      mem := mem[cur := WordAt(mem, cur) + HEADER + WordAt(mem, nxt)];
      mem := mem[cur + 12 := WordAt(mem, nxt + 12)];
      mem := mem[nxt + 4 := 0];
    }

    /** Merge the first two blocks of `todo`. */
    method MergeHere(cur: nat, nxt: nat, ghost m0: Memory, ghost done: seq<Block>, ghost todo: seq<Block>)
      requires Held() && blocks == done + todo && |todo| >= 2 && cur == todo[0].addr && nxt == todo[1].addr
      requires todo[0].free && todo[1].free && Untouched(m0, mem, blocks)
      modifies `mem, `blocks
      ensures Held() && Untouched(m0, mem, blocks) && blocks == done + ([Merge(todo[0], todo[1])] + todo[2..])
    {
      ghost var m := mem;
      Around(mem, done, todo, base, base + HEAP_SIZE);
      assert todo[1..][0] == todo[1];
      MergeImage(mem, done, todo, base, base + HEAP_SIZE);
      Swallow(cur, nxt, todo[0], todo[1]);
      MergeUntouched(m0, m, mem, done, todo);
      blocks := done + ([Merge(todo[0], todo[1])] + todo[2..]);
    }

    /** One turn of the coalescing pass at a block that has a successor. */
    method CoalesceTurn(cur: nat, nxt: nat, ghost bs: seq<Block>, ghost m0: Memory, ghost done: seq<Block>, ghost todo: seq<Block>)
      returns (cur': nat, ghost done': seq<Block>, ghost todo': seq<Block>)
      requires Held() && blocks == done + todo && |todo| >= 2 && cur == todo[0].addr && nxt == todo[1].addr
      requires Merging(bs, done, todo) && Untouched(m0, mem, blocks)
      modifies `mem, `blocks
      ensures Held() && blocks == done' + todo' && cur' == First(todo', 0) && |todo'| < |todo|
      ensures Merging(bs, done', todo') && Untouched(m0, mem, blocks)
    {
      Around(mem, done, todo, base, base + HEAP_SIZE);
      assert todo[1..][0] == todo[1];
      MergeOn(bs, done, todo);
      var curEnd := cur + HEADER + WordAt(mem, cur);
      if WordAt(mem, cur + 8) % 256 != 0 && WordAt(mem, nxt + 8) % 256 != 0 && curEnd == nxt {
        MergeHere(cur, nxt, m0, done, todo);
        cur', done', todo' := cur, done, [Merge(todo[0], todo[1])] + todo[2..];
      } else {
        cur', done', todo' := nxt, done + [todo[0]], todo[1..];
      }
    }

    /** `heap_coalesce`. */
    method CoalescePass()
      requires Held()
      modifies `mem, `blocks
      ensures Held() && blocks == Coalesce(old(blocks)) && Untouched(old(mem), mem, blocks)
    {
      ghost var bs, m0 := blocks, mem;
      ghost var done: seq<Block>, todo := [], blocks;
      UntouchedSame(mem, blocks);
      var cur := head;
      while cur != 0 && WordAt(mem, cur + 12) != 0
        invariant Held() && blocks == done + todo && cur == First(todo, 0)
        invariant Merging(bs, done, todo) && Untouched(m0, mem, blocks)
        decreases |todo|
      {
        Around(mem, done, todo, base, base + HEAP_SIZE);
        cur, done, todo := CoalesceTurn(cur, WordAt(mem, cur + 12), bs, m0, done, todo);
      }
      if todo != [] {
        Around(mem, done, todo, base, base + HEAP_SIZE);
        LastHasNoNext(todo, todo[0].addr, base + HEAP_SIZE);
      }
    }

    /** Is there a block with its header at `cand`? The walk through the list that `kfree` makes. */
    method Walk(cand: nat) returns (found: bool, ghost done: seq<Block>, ghost todo: seq<Block>)
      requires Held()
      ensures found <==> HasBlock(blocks, cand)
      ensures found ==> blocks == done + todo && todo != [] && todo[0].addr == cand
      ensures found ==> (forall b :: b in done ==> b.addr != cand)
    {
      done, todo := [], blocks;
      ghost var at: nat := base;
      var it := head;
      while it != 0 && it != cand
        invariant blocks == done + todo && Cursor(mem, todo, it, at, base + HEAP_SIZE)
        invariant forall b :: b in done ==> b.addr != cand
        decreases |todo|
      {
        CursorNext(mem, todo, it, at, base + HEAP_SIZE);
        it := WordAt(mem, it + 12);
        assert blocks == (done + [todo[0]]) + todo[1..];
        done, todo, at := done + [todo[0]], todo[1..], todo[0].End();
      }
      found := it == cand && it != 0;
      if found {
        assert blocks[|done|].addr == cand;
      } else {
        assert todo == [] && forall i :: 0 <= i < |blocks| ==> blocks[i] in done;
      }
    }

    /** Mark the head of `todo` free and coalesce. */
    method FreeBlock(hdr: nat, ghost done: seq<Block>, ghost todo: seq<Block>)
      requires Valid() && initialized && blocks == done + todo && todo != [] && todo[0].addr == hdr
      requires forall b :: b in done ==> b.addr != hdr
      modifies `mem, `blocks
      ensures Valid() && blocks == Release(old(blocks), hdr) && Untouched(old(mem), mem, blocks)
    {
      ghost var m0, marked := mem, Mark(blocks, hdr);
      ReleaseLayout(blocks, hdr, base, base + HEAP_SIZE);
      MarkFree(hdr, done, todo);
      ghost var m1 := mem;
      CoalescePass();
      CoalesceUntouched(m0, m1, marked);
      UntouchedTrans(m0, m1, mem, blocks);
    }

    /** Set the free flag of the head of `todo`. */
    method MarkFree(hdr: nat, ghost done: seq<Block>, ghost todo: seq<Block>)
      requires Held() && blocks == done + todo && todo != [] && todo[0].addr == hdr
      requires forall b :: b in done ==> b.addr != hdr
      modifies `mem, `blocks
      ensures Held() && blocks == Mark(old(blocks), hdr) && Untouched(old(mem), mem, blocks)
    {
      MarkImage(mem, done, todo, base, base + HEAP_SIZE);
      MarkSplit(done, todo, hdr);
      mem := mem[hdr + 8 := WithByte(WordAt(mem, hdr + 8), 1)];
      blocks := Mark(blocks, hdr);
    }

    /** The word in front of `p`; what lies below the heap is not part of its memory. */
    ghost function WordBefore(p: nat, outside: word): word
      reads this
    {
      if p >= base + 4 then Load(mem, p - 4) else outside
    }

    /** Is there a block with its header at `cand`, by canary and by the walk? */
    method Recognise(cand: nat) returns (found: bool, ghost done: seq<Block>, ghost todo: seq<Block>)
      requires Valid() && initialized
      ensures found <==> HasBlock(blocks, cand)
      ensures found ==> blocks == done + todo && todo != [] && todo[0].addr == cand
      ensures found ==> (forall b :: b in done ==> b.addr != cand)
    {
      if HasBlock(blocks, cand) { CanaryIntact(mem, blocks, base, base + HEAP_SIZE, cand); }
      if CanaryAt(mem, cand) != CANARY { return false, [], []; }
      found, done, todo := Walk(cand);
    }

    /** Free the block unless it is free already. */
    method FreeUnlessFree(hdr: nat, ghost done: seq<Block>, ghost todo: seq<Block>)
      requires Valid() && initialized && blocks == done + todo && todo != [] && todo[0].addr == hdr
      requires forall b :: b in done ==> b.addr != hdr
      modifies `mem, `blocks
      ensures Valid() && Untouched(old(mem), mem, blocks)
      ensures blocks == if HasAllocated(old(blocks), hdr) then Release(old(blocks), hdr) else old(blocks)
    {
      FlagTells(mem, blocks, done, todo, base, base + HEAP_SIZE);
      if WordAt(mem, hdr + 8) % 256 != 0 {
        UntouchedSame(mem, blocks);
        return;
      }
      FreeBlock(hdr, done, todo);
    }

    /** `kfree`; `outside` is what a load from below the heap would yield. */
    method Kfree(p: word, outside: word)
      requires Valid()
      modifies this
      ensures Valid() && Untouched(old(mem), mem, blocks)
      ensures blocks == FreeStep(old(blocks), base, base + HEAP_SIZE, p, old(WordBefore(p, outside)))
    {
      UntouchedSame(mem, blocks);
      if p == 0 || !initialized { return; }
      var lo, hi := base, base + HEAP_SIZE;
      if p >= lo + HEADER && p < hi {
        var found, done, todo := Recognise(p - HEADER);
        if found {
          FreeUnlessFree(p - HEADER, done, todo);
          return;
        }
      }
      if p >= lo && p < hi {
        var mr: nat := if p >= lo + 4 then Load(mem, p - 4) else outside;
        if mr >= lo + HEADER && mr < hi {
          var found, done, todo := Recognise(mr - HEADER);
          if found { FreeUnlessFree(mr - HEADER, done, todo); }
        }
      }
    }

    // --------------------------------------------------------- kmalloc_aligned

    /** The alignment used: 8 for none, else the next power of two. Above 2^31 the doubling
        never ends. */
    static method RoundAlign(align: word) returns (a: nat)
      requires align <= 0x8000_0000
      ensures IsPow2(a) && a <= 0x8000_0000
      ensures if align == 0 then a == 8 else align <= a < 2 * align
    {
      assert IsPow2(8);
      a := if align == 0 then 8 else align;
      Pow2Test(a);
      if And(a, a - 1) != 0 {
        a := 1;
        while a < align
          invariant IsPow2(a) && a < 2 * align && a <= 0x8000_0000
          decreases align - a
        {
          BelowTop(a);
          a := Shl(a);
        }
      }
    }

    /** Store `v` at an address inside the payload of the allocated block `b`. */
    method Store(a: nat, v: word, ghost b: Block)
      requires Valid() && initialized && b in blocks && b.Payload() <= a < b.End()
      modifies `mem
      ensures Valid() && mem == old(mem)[a := v]
    {
      ghost var i :| 0 <= i < |blocks| && blocks[i] == b;
      assert blocks == blocks[..i] + blocks[i..];
      PayloadStore(mem, blocks[..i], blocks[i..], base, base + HEAP_SIZE, a, v);
      mem := mem[a := v];
    }

    /** A block from `kmalloc`: new, and apart from all blocks allocated before. */
    method RawBlock(bytes: word) returns (raw: nat, ghost b: Block)
      requires Valid() && bytes <= WORD - 8
      modifies this
      ensures Valid() && Untouched(old(mem), mem, old(blocks)) && blocks == MallocStep(old(blocks), bytes)
      ensures raw == MallocPtr(old(blocks), bytes)
      ensures raw != 0 ==> initialized && b in blocks && !b.free && b !in old(blocks)
      ensures raw != 0 ==> raw == b.Payload() && raw % 8 == 0 && b.size >= bytes && b.End() <= base + HEAP_SIZE
      ensures raw != 0 ==> forall c :: c in old(blocks) && !c.free ==> c.End() <= b.addr || b.End() <= c.addr
    {
      b := Block(0, 0, true);
      raw := Kmalloc(bytes);
      if raw != 0 {
        InitialLayout(base);
        b := MallocBlock(old(blocks), bytes, base, base + HEAP_SIZE);
      }
    }

    /** Over-allocate, round the pointer up, and store the raw pointer in front of it. */
    method AlignWithin(bytes: word, al: word) returns (p: nat, ghost b: Block)
      requires Valid() && bytes > 0 && IsPow2(al) && al > 8 && Padded(bytes, al) <= WORD - 8
      modifies this
      ensures Valid() && Untouched(old(mem), mem, old(blocks)) && blocks == MallocStep(old(blocks), Padded(bytes, al))
      ensures p == 0 <==> MallocPtr(old(blocks), Padded(bytes, al)) == 0
      ensures p != 0 ==> b in blocks && !b.free && b !in old(blocks) && b.Payload() == MallocPtr(old(blocks), Padded(bytes, al))
      ensures p != 0 ==> Fronted(mem, b, p, bytes, al)
    {
      var raw;
      raw, b := RawBlock(Padded(bytes, al));
      if raw == 0 { return 0, b; }
      ghost var m := mem;
      p := AlignedPtr(raw, al);
      FrontedBy(mem, b, bytes, al);
      Store(p - 4, raw, b);
      UntouchedStore(old(mem), m, old(blocks), p - 4, raw);
    }

    /** An alignment of at most 8 is what `kmalloc` gives anyway. */
    method AlignByEight(bytes: word, al: word) returns (p: nat, ghost b: Block)
      requires Valid() && bytes <= WORD - 8 && IsPow2(al) && al <= 8
      modifies this
      ensures Valid() && Untouched(old(mem), mem, old(blocks)) && blocks == MallocStep(old(blocks), bytes)
      ensures p == MallocPtr(old(blocks), bytes)
      ensures p != 0 ==> Placed(blocks, b, p, bytes, al) && b !in old(blocks) && b.Payload() == p
    {
      p, b := RawBlock(bytes);
      if p != 0 {
        SmallPow2(al);
        SmallAlignment(al, p);
      }
    }

    /** `kmalloc_aligned`: an aligned pointer whose payload and back-pointer lie inside an
        allocated block `b`; `a` is the alignment used. The sizes added must not wrap. */
    method KmallocAligned(bytes: word, align: word) returns (p: nat, ghost a: nat, ghost b: Block)
      requires Valid() && align <= 0x8000_0000 && bytes + 2 * align + 16 <= WORD
      modifies this
      ensures Valid() && IsPow2(a) && if align == 0 then a == 8 else align <= a < 2 * align
      ensures Untouched(old(mem), mem, old(blocks))
      ensures Asked(bytes, a) < WORD && blocks == MallocStep(old(blocks), Asked(bytes, a))
      ensures p == 0 <==> MallocPtr(old(blocks), Asked(bytes, a)) == 0
      ensures p != 0 ==> Placed(blocks, b, p, bytes, a) && b !in old(blocks) && b.Payload() == MallocPtr(old(blocks), Asked(bytes, a))
      ensures p != 0 && a <= 8 ==> p == b.Payload()
      ensures p != 0 && a > 8 ==> b.Payload() + 4 <= p && Load(mem, p - 4) == b.Payload()
    {
      var al := RoundAlign(align);
      a, b := al, Block(0, 0, true);
      if bytes == 0 {
        UntouchedSame(mem, blocks);
        return 0, a, b;
      }
      if al <= 8 {
        p, b := AlignByEight(bytes, al);
      } else {
        p, b := AlignWithin(bytes, al);
      }
    }

    /** What `kmalloc_aligned` returned, `kfree` gives back: the blocks are as before. */
    method AlignedRoundTrip(bytes: word, align: word, outside: word)
      requires Valid() && align <= 0x8000_0000 && bytes + 2 * align + 16 <= WORD
      modifies this
      ensures Valid() && blocks == old(blocks)
    {
      var p, a, b := KmallocAligned(bytes, align);
      ghost var bs, n, w := old(blocks), Asked(bytes, a), WordBefore(p, outside);
      InitialLayout(base);
      assert FreeStep(blocks, base, base + HEAP_SIZE, p, w) == bs && p < WORD by {
        if p == 0 {
          NullChangesNothing(bs, n);
        } else {
          MallocPtrInside(bs, n, base, base + HEAP_SIZE);
          PlacedUndone(bs, n, base, base + HEAP_SIZE, b, p, bytes, a, w);
        }
      }
      Kfree(p, outside);
    }

    // -------------------------------------------------------------- accounting

    /** `kheap_used`. */
    method KheapUsed() returns (used: nat)
      requires Valid()
      ensures used == Used(blocks)
    {
      used := 0;
      if !initialized { return; }
      ghost var todo := blocks;
      ghost var at: nat := base;
      var cur := head;
      while cur != 0
        invariant Cursor(mem, todo, cur, at, base + HEAP_SIZE) && used + Used(todo) == Used(blocks)
        decreases |todo|
      {
        CursorNext(mem, todo, cur, at, base + HEAP_SIZE);
        if WordAt(mem, cur + 8) % 256 == 0 { used := used + WordAt(mem, cur) + HEADER; }
        cur := WordAt(mem, cur + 12);
        todo, at := todo[1..], todo[0].End();
      }
    }

    /** `kheap_free`. */
    method KheapFree() returns (avail: nat)
      requires Valid()
      ensures avail == Available(blocks)
    {
      if !initialized { return HEAP_SIZE - HEADER; }
      avail := 0;
      ghost var todo := blocks;
      ghost var at: nat := base;
      var cur := head;
      while cur != 0
        invariant Cursor(mem, todo, cur, at, base + HEAP_SIZE) && avail + Available(todo) == Available(blocks)
        decreases |todo|
      {
        CursorNext(mem, todo, cur, at, base + HEAP_SIZE);
        if WordAt(mem, cur + 8) % 256 != 0 { avail := avail + WordAt(mem, cur); }
        cur := WordAt(mem, cur + 12);
        todo, at := todo[1..], todo[0].End();
      }
    }
  }
}
