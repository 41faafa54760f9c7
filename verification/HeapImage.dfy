/** How the block list of the kernel heap is laid out in its memory: every block
    begins with a four-word header, linked to the next. */
module HeapImage {
  import opened Bits
  import opened HeapBlocks

  const CANARY: word := 0x4845_4150

  /** Memory by word: the 32-bit word at each address that is a multiple of four.
      The heap is a static array, so a word never stored is zero. */
  type Memory = map<nat, word>

  function WordAt(m: Memory, a: nat): word {
    if a in m then m[a] else 0
  }

  /** What a 32-bit load from byte address `p` yields, aligned or not. */
  function Load(m: Memory, p: nat): word {
    var a, r := p - p % 4, p % 4;
    var x, y := WordAt(m, a), WordAt(m, a + 4);
    if r == 0 then x
    else if r == 1 then x / 0x100 + y % 0x100 * 0x100_0000
    else if r == 2 then x / 0x1_0000 + y % 0x1_0000 * 0x1_0000
    else x / 0x100_0000 + y % 0x100_0000 * 0x100
  }

  /** A word after a store of the byte `v` to its lowest address. */
  function WithByte(x: word, v: nat): (r: word)
    requires v < 256
    ensures r % 256 == v
  {
    x / 256 * 256 + v
  }

  /** The header of block `b`, linked to the header at `next`, stands at its address. */
  ghost predicate Header(m: Memory, b: Block, next: nat) {
    && WordAt(m, b.addr) == b.size
    && WordAt(m, b.addr + 4) == CANARY
    && WordAt(m, b.addr + 8) % 256 == (if b.free then 1 else 0)
    && WordAt(m, b.addr + 12) == next
  }

  function First(bs: seq<Block>, after: nat): nat {
    if bs == [] then after else bs[0].addr
  }

  /** The headers of the blocks stand in memory, the last one linked to `after`. */
  ghost predicate Image(m: Memory, bs: seq<Block>, after: nat) {
    bs != [] ==> Header(m, bs[0], First(bs[1..], after)) && Image(m, bs[1..], after)
  }

  /** Two memories agree on the address range [lo, hi). */
  ghost predicate Agree(m: Memory, n: Memory, lo: nat, hi: nat) {
    forall a :: lo <= a < hi ==> WordAt(n, a) == WordAt(m, a)
  }

  lemma {:induction false} ImageConcat(m: Memory, xs: seq<Block>, ys: seq<Block>, after: nat)
    ensures Image(m, xs + ys, after) <==> Image(m, xs, First(ys, after)) && Image(m, ys, after)
  {
    if xs == [] {
      assert xs + ys == ys;
    } else {
      assert (xs + ys)[1..] == xs[1..] + ys;
      ImageConcat(m, xs[1..], ys, after);
    }
  }

  /** A change outside the address range of the blocks leaves their headers alone. */
  lemma {:induction false} ImageFrame(m: Memory, n: Memory, bs: seq<Block>, after: nat, lo: nat, hi: nat)
    requires Image(m, bs, after) && Tiles(bs, lo, hi) && Agree(m, n, lo, hi)
    ensures Image(n, bs, after)
  {
    if bs == [] {
    } else {
      TilesAbove(bs[1..], bs[0].End(), hi);
      ImageFrame(m, n, bs[1..], after, bs[0].End(), hi);
    }
  }

  lemma {:induction false} TilesSplit(xs: seq<Block>, ys: seq<Block>, lo: nat, hi: nat)
    requires Tiles(xs + ys, lo, hi) && ys != []
    ensures Tiles(xs, lo, ys[0].addr) && Tiles(ys, ys[0].addr, hi)
  {
    if xs == [] {
      assert xs + ys == ys;
    } else {
      assert (xs + ys)[1..] == xs[1..] + ys;
      TilesSplit(xs[1..], ys, xs[0].End(), hi);
    }
  }

  /** The tiling and the headers around the head of `todo`. */
  lemma Around(m: Memory, done: seq<Block>, todo: seq<Block>, lo: nat, hi: nat)
    requires Image(m, done + todo, 0) && Tiles(done + todo, lo, hi) && todo != []
    ensures Tiles(done, lo, todo[0].addr) && Tiles(todo, todo[0].addr, hi) && lo <= todo[0].addr && todo[0].End() <= hi
    ensures Image(m, done, todo[0].addr) && Image(m, todo, 0)
  {
    TilesSplit(done, todo, lo, hi);
    TilesAbove(done, lo, todo[0].addr);
    TilesAbove(todo[1..], todo[0].End(), hi);
    ImageConcat(m, done, todo, 0);
  }

  /** The link of a block is null exactly if the block is the last. */
  lemma LastHasNoNext(todo: seq<Block>, lo: nat, hi: nat)
    requires Tiles(todo, lo, hi) && todo != []
    ensures First(todo[1..], 0) == 0 <==> |todo| == 1
  {
    if |todo| > 1 { assert todo[1..][0].addr == todo[0].End(); }
  }

  /** New blocks in the place of the head of `todo`, with memory changed inside it only. */
  lemma Replaced(m: Memory, n: Memory, done: seq<Block>, todo: seq<Block>, ps: seq<Block>, lo: nat, hi: nat)
    requires Image(m, done + todo, 0) && Tiles(done + todo, lo, hi) && todo != []
    requires Agree(m, n, lo, todo[0].addr) && Agree(m, n, todo[0].End(), hi)
    requires ps != [] && ps[0].addr == todo[0].addr && Image(n, ps, First(todo[1..], 0))
    ensures Image(n, done + (ps + todo[1..]), 0)
  {
    Around(m, done, todo, lo, hi);
    ImageFrame(m, n, done, todo[0].addr, lo, todo[0].addr);
    ImageFrame(m, n, todo[1..], 0, todo[0].End(), hi);
    ImageConcat(n, ps, todo[1..], 0);
    ImageConcat(n, done, ps + todo[1..], 0);
  }

  /** Memory with a header for `b` written at its address. */
  ghost function PutHeader(m: Memory, b: Block, next: word): Memory
    requires b.size < WORD
  {
    var flag := WithByte(WordAt(m, b.addr + 8), if b.free then 1 else 0);
    Store4(m, b.addr, b.size, CANARY, flag, next)
  }

  /** Memory with four consecutive words stored from address `a` on. */
  function Store4(m: Memory, a: nat, w0: word, w1: word, w2: word, w3: word): Memory {
    m[a := w0][a + 4 := w1][a + 8 := w2][a + 12 := w3]
  }

  lemma Store4Facts(m: Memory, a: nat, w0: word, w1: word, w2: word, w3: word)
    ensures var n := Store4(m, a, w0, w1, w2, w3);
            && WordAt(n, a) == w0 && WordAt(n, a + 4) == w1 && WordAt(n, a + 8) == w2 && WordAt(n, a + 12) == w3
            && forall x: nat :: x < a || a + 16 <= x ==> WordAt(n, x) == WordAt(m, x)
  {
  }

  /** Memory with the headers written that carving `n` bytes from `b` needs. */
  ghost function PutCarved(m: Memory, b: Block, n: nat, next: word): Memory
    requires b.size >= n && b.End() < WORD
  {
    var cs := Carve(b, n);
    if |cs| == 2 then PutHeader(PutHeader(m, cs[1], next), cs[0], cs[1].addr) else PutHeader(m, cs[0], next)
  }

  lemma PutHeaderFacts(m: Memory, b: Block, next: word)
    requires b.size < WORD
    ensures Header(PutHeader(m, b, next), b, next)
    ensures forall a: nat :: a < b.addr || b.Payload() <= a ==> WordAt(PutHeader(m, b, next), a) == WordAt(m, a)
  {
    var flag := WithByte(WordAt(m, b.addr + 8), if b.free then 1 else 0);
    Store4Facts(m, b.addr, b.size, CANARY, flag, next);
  }

  lemma PutCarvedImage(m: Memory, b: Block, n: nat, next: word)
    requires b.size >= n && b.End() < WORD
    ensures Image(PutCarved(m, b, n, next), Carve(b, n), next)
    ensures forall a: nat :: a < b.addr || b.End() <= a ==> WordAt(PutCarved(m, b, n, next), a) == WordAt(m, a)
  {
    var cs := Carve(b, n);
    assert cs[1..] == if |cs| == 2 then [cs[1]] else [];
    if |cs| == 2 {
      PutHeaderFacts(m, cs[1], next);
      PutHeaderFacts(PutHeader(m, cs[1], next), cs[0], cs[1].addr);
    } else {
      PutHeaderFacts(m, cs[0], next);
    }
  }

  /** Carving the head of `todo` in memory gives the memory of the carved list. */
  lemma CarveImage(m: Memory, done: seq<Block>, todo: seq<Block>, n: nat, lo: nat, hi: nat)
    requires Image(m, done + todo, 0) && Tiles(done + todo, lo, hi) && todo != []
    requires hi < WORD && todo[0].size >= n
    ensures todo[0].End() <= hi && Header(m, todo[0], First(todo[1..], 0)) && First(todo[1..], 0) < WORD
    ensures Image(PutCarved(m, todo[0], n, First(todo[1..], 0)), done + (Carve(todo[0], n) + todo[1..]), 0)
  {
    Around(m, done, todo, lo, hi);
    PutCarvedImage(m, todo[0], n, First(todo[1..], 0));
    Replaced(m, PutCarved(m, todo[0], n, First(todo[1..], 0)), done, todo, Carve(todo[0], n), lo, hi);
  }

  // ------------------------------------------------------------- live payloads

  /** The payloads of the allocated blocks hold the same words in both memories. */
  ghost predicate Untouched(m: Memory, n: Memory, bs: seq<Block>) {
    bs != [] ==> (!bs[0].free ==> Agree(m, n, bs[0].Payload(), bs[0].End())) && Untouched(m, n, bs[1..])
  }

  lemma {:induction false} UntouchedConcat(m: Memory, n: Memory, xs: seq<Block>, ys: seq<Block>)
    ensures Untouched(m, n, xs + ys) <==> Untouched(m, n, xs) && Untouched(m, n, ys)
  {
    if xs == [] {
      assert xs + ys == ys;
    } else {
      assert (xs + ys)[1..] == xs[1..] + ys;
      UntouchedConcat(m, n, xs[1..], ys);
    }
  }

  /** A change outside the blocks, after memory in which they were untouched. */
  lemma {:induction false} UntouchedFrame(m0: Memory, m: Memory, n: Memory, bs: seq<Block>, lo: nat, hi: nat)
    requires Untouched(m0, m, bs) && Tiles(bs, lo, hi) && Agree(m, n, lo, hi)
    ensures Untouched(m0, n, bs)
  {
    if bs == [] {
    } else {
      TilesAbove(bs[1..], bs[0].End(), hi);
      UntouchedFrame(m0, m, n, bs[1..], bs[0].End(), hi);
    }
  }

  lemma {:induction false} UntouchedSame(m: Memory, bs: seq<Block>)
    ensures Untouched(m, m, bs)
  {
    if bs == [] {
    } else {
      UntouchedSame(m, bs[1..]);
    }
  }

  lemma {:induction false} UntouchedTrans(m0: Memory, m: Memory, n: Memory, bs: seq<Block>)
    requires Untouched(m0, m, bs) && Untouched(m, n, bs)
    ensures Untouched(m0, n, bs)
  {
    if bs == [] {
    } else {
      UntouchedTrans(m0, m, n, bs[1..]);
    }
  }

  lemma {:induction false} UntouchedAt(m: Memory, n: Memory, bs: seq<Block>, b: Block)
    requires Untouched(m, n, bs) && b in bs && !b.free
    ensures Agree(m, n, b.Payload(), b.End())
  {
    if b != bs[0] { UntouchedAt(m, n, bs[1..], b); }
  }

  /** Changing memory only inside the free head of `todo` touches no live payload. */
  lemma FreeHeadUntouched(m: Memory, n: Memory, done: seq<Block>, todo: seq<Block>, lo: nat, hi: nat)
    requires Tiles(done + todo, lo, hi) && todo != [] && todo[0].free
    requires Agree(m, n, lo, todo[0].addr) && Agree(m, n, todo[0].End(), hi)
    ensures Untouched(m, n, done + todo)
  {
    TilesSplit(done, todo, lo, hi);
    UntouchedSame(m, done);
    UntouchedFrame(m, m, n, done, lo, todo[0].addr);
    UntouchedSame(m, todo[1..]);
    UntouchedFrame(m, m, n, todo[1..], todo[0].End(), hi);
    UntouchedConcat(m, n, done, todo);
  }

  /** The list after the head of `todo` was carved. */
  function CarvedList(done: seq<Block>, todo: seq<Block>, n: nat): seq<Block>
    requires todo != [] && todo[0].size >= n
  {
    done + (Carve(todo[0], n) + todo[1..])
  }

  /** Memory `m'` holds the carved list, and no payload in use has changed. */
  ghost predicate CarvedTo(m: Memory, m': Memory, done: seq<Block>, todo: seq<Block>, n: nat) {
    && todo != [] && todo[0].size >= n
    && Image(m', CarvedList(done, todo, n), 0) && Untouched(m, m', done + todo)
  }

  /** All there is to know before the head of `todo`, a free block, is carved. */
  lemma CarveFacts(m: Memory, done: seq<Block>, todo: seq<Block>, n: nat, lo: nat, hi: nat)
    requires Image(m, done + todo, 0) && Tiles(done + todo, lo, hi) && todo != []
    requires hi < WORD && todo[0].size >= n && todo[0].free
    ensures todo[0].End() <= hi && First(todo[1..], 0) < WORD
    ensures WordAt(m, todo[0].addr) == todo[0].size && WordAt(m, todo[0].addr + 12) == First(todo[1..], 0)
    ensures CarvedTo(m, PutCarved(m, todo[0], n, First(todo[1..], 0)), done, todo, n)
  {
    CarveImage(m, done, todo, n, lo, hi);
    PutCarvedImage(m, todo[0], n, First(todo[1..], 0));
    FreeHeadUntouched(m, PutCarved(m, todo[0], n, First(todo[1..], 0)), done, todo, lo, hi);
  }

  // ------------------------------------------------------------------ merging

  /** Memory after the header of `b` has swallowed the block `c` behind it. */
  ghost function PutMerged(m: Memory, b: Block, c: Block): Memory
    requires b.size + HEADER + c.size < WORD
  {
    m[b.addr := b.size + HEADER + c.size][b.addr + 12 := WordAt(m, c.addr + 12)][c.addr + 4 := 0]
  }

  lemma PutMergedFacts(m: Memory, b: Block, c: Block, next: nat)
    requires b.free && Header(m, b, c.addr) && Header(m, c, next) && b.End() == c.addr
    requires b.size + HEADER + c.size < WORD && next < WORD
    ensures Header(PutMerged(m, b, c), Merge(b, c), next)
    ensures forall a: nat :: a < b.addr || c.End() <= a ==> WordAt(PutMerged(m, b, c), a) == WordAt(m, a)
  {
  }

  /** Merging the two free blocks at the head of `todo`. */
  lemma MergeImage(m: Memory, done: seq<Block>, todo: seq<Block>, lo: nat, hi: nat)
    requires Image(m, done + todo, 0) && Tiles(done + todo, lo, hi) && |todo| >= 2 && hi < WORD
    requires todo[0].free && todo[1].free
    ensures todo[0].End() == todo[1].addr && todo[0].size + HEADER + todo[1].size < WORD
    ensures var n := PutMerged(m, todo[0], todo[1]); var merged := [Merge(todo[0], todo[1])] + todo[2..];
            && Image(n, done + merged, 0) && Tiles(done + merged, lo, hi)
            && Untouched(m, n, done + merged)
  {
    var b, c, rest := todo[0], todo[1], todo[2..];
    var merged := [Merge(b, c)] + rest;
    Around(m, done, todo, lo, hi);
    assert todo[1..][0] == c && todo[1..][1..] == rest;
    MergeTiles(todo, b.addr, hi);
    TilesAbove(rest, c.End(), hi);
    PutMergedFacts(m, b, c, First(rest, 0));
    var n := PutMerged(m, b, c);
    TilesConcat(done, merged, lo, b.addr, hi);
    ImageFrame(m, n, done, b.addr, lo, b.addr);
    ImageFrame(m, n, rest, 0, c.End(), hi);
    assert merged[1..] == rest;
    ImageConcat(n, done, merged, 0);
    FreeHeadUntouched(m, n, done, merged, lo, hi);
  }

  lemma MergeUntouched(m0: Memory, m: Memory, n: Memory, done: seq<Block>, todo: seq<Block>)
    requires |todo| >= 2 && todo[0].free && todo[1].free
    requires Untouched(m0, m, done + todo)
    requires Untouched(m, n, done + ([Merge(todo[0], todo[1])] + todo[2..]))
    ensures Untouched(m0, n, done + ([Merge(todo[0], todo[1])] + todo[2..]))
  {
    var merged := [Merge(todo[0], todo[1])] + todo[2..];
    assert todo[1..][1..] == todo[2..] && merged[1..] == todo[2..];
    UntouchedConcat(m0, m, done, todo);
    UntouchedConcat(m0, m, done, merged);
    UntouchedTrans(m0, m, n, done + merged);
  }

  /** Setting the free flag of the head of `todo`. */
  lemma MarkImage(m: Memory, done: seq<Block>, todo: seq<Block>, lo: nat, hi: nat)
    requires Image(m, done + todo, 0) && Tiles(done + todo, lo, hi) && todo != []
    ensures var a := todo[0].addr + 8; var n := m[a := WithByte(WordAt(m, a), 1)];
            var marked := [todo[0].(free := true)] + todo[1..];
            && Image(n, done + marked, 0) && Tiles(done + marked, lo, hi)
            && Untouched(m, n, done + marked)
  {
    var b := todo[0];
    var a := b.addr + 8;
    var n := m[a := WithByte(WordAt(m, a), 1)];
    var marked := [b.(free := true)] + todo[1..];
    Around(m, done, todo, lo, hi);
    Replaced(m, n, done, todo, [b.(free := true)], lo, hi);
    assert marked[1..] == todo[1..];
    TilesConcat(done, marked, lo, b.addr, hi);
    FreeHeadUntouched(m, n, done, marked, lo, hi);
  }

  /** What is untouched in a list is untouched in the coalesced list: its allocated
      blocks are the same. */
  lemma {:induction false} CoalesceUntouched(m: Memory, n: Memory, bs: seq<Block>)
    requires Untouched(m, n, bs)
    ensures Untouched(m, n, Coalesce(bs))
    decreases |bs|
  {
    if |bs| < 2 {
    } else {
      if bs[0].free && bs[1].free && bs[0].End() == bs[1].addr {
        var merged := [Merge(bs[0], bs[1])] + bs[2..];
        assert bs[1..][1..] == bs[2..] && merged[1..] == bs[2..];
        CoalesceUntouched(m, n, merged);
      } else {
        CoalesceUntouched(m, n, bs[1..]);
        assert ([bs[0]] + Coalesce(bs[1..]))[1..] == Coalesce(bs[1..]);
      }
    }
  }

  // ------------------------------------------------------------ reading headers

  lemma {:induction false} HeaderPlace(m: Memory, bs: seq<Block>, lo: nat, hi: nat, addr: nat)
    requires Image(m, bs, 0) && Tiles(bs, lo, hi) && lo % 8 == 0 && HasBlock(bs, addr)
    ensures addr % 8 == 0 && lo <= addr && addr + HEADER <= hi && WordAt(m, addr + 4) == CANARY
  {
    if bs[0].addr == addr {
      TilesAbove(bs[1..], bs[0].End(), hi);
    } else {
      var i :| 0 <= i < |bs| && bs[i].addr == addr;
      assert bs[1..][i - 1] == bs[i];
      HeaderPlace(m, bs[1..], bs[0].End(), hi, addr);
    }
  }

  lemma LoadAligned(m: Memory, p: nat)
    requires p % 4 == 0
    ensures Load(m, p) == WordAt(m, p)
  {
  }

  /** What a load of the canary of a header at `addr` yields. */
  function CanaryAt(m: Memory, addr: nat): word {
    Load(m, addr + 4)
  }

  lemma CanaryAligned(m: Memory, addr: nat)
    requires addr % 8 == 0
    ensures CanaryAt(m, addr) == WordAt(m, addr + 4)
  {
    LoadAligned(m, addr + 4);
  }

  /** Every header in the list is aligned and carries the canary. */
  lemma CanaryIntact(m: Memory, bs: seq<Block>, lo: nat, hi: nat, addr: nat)
    requires Image(m, bs, 0) && Tiles(bs, lo, hi) && lo % 8 == 0 && HasBlock(bs, addr)
    ensures addr % 8 == 0 && lo <= addr && addr + HEADER <= hi && CanaryAt(m, addr) == CANARY
  {
    HeaderPlace(m, bs, lo, hi, addr);
    CanaryAligned(m, addr);
  }

  /** The flag in the header of the head of `todo` tells whether the block at that address is allocated. */
  lemma FlagTells(m: Memory, bs: seq<Block>, done: seq<Block>, todo: seq<Block>, lo: nat, hi: nat)
    requires bs == done + todo && todo != [] && Image(m, bs, 0) && Tiles(bs, lo, hi)
    ensures WordAt(m, todo[0].addr + 8) % 256 == 0 <==> HasAllocated(bs, todo[0].addr)
  {
    Around(m, done, todo, lo, hi);
    var k := |done|;
    assert bs[k] == todo[0];
    if i :| 0 <= i < |bs| && bs[i].addr == todo[0].addr && !bs[i].free {
      TilesUnique(bs, lo, hi, i, k);
    }
  }

  /** A store into the payload of the head of `todo` disturbs no header. */
  lemma PayloadStore(m: Memory, done: seq<Block>, todo: seq<Block>, lo: nat, hi: nat, a: nat, v: word)
    requires Image(m, done + todo, 0) && Tiles(done + todo, lo, hi) && todo != []
    requires todo[0].Payload() <= a < todo[0].End()
    ensures Image(m[a := v], done + todo, 0)
  {
    var n := m[a := v];
    Around(m, done, todo, lo, hi);
    Replaced(m, n, done, todo, [todo[0]], lo, hi);
    assert [todo[0]] + todo[1..] == todo;
  }

  /** A store outside the allocated blocks of a list. */
  lemma {:induction false} UntouchedStore(m0: Memory, m: Memory, bs: seq<Block>, a: nat, v: word)
    requires Untouched(m0, m, bs) && forall c :: c in bs && !c.free ==> a < c.addr || c.End() <= a
    ensures Untouched(m0, m[a := v], bs)
  {
    if bs == [] {
    } else {
      assert bs[0] in bs;
      UntouchedStore(m0, m, bs[1..], a, v);
    }
  }

  /** `size` bytes from `p` on are aligned, inside `b`, and behind a pointer to its payload. */
  ghost predicate Fronted(m: Memory, b: Block, p: nat, size: nat, a: nat)
    requires a > 0
  {
    p % a == 0 && b.Payload() + 4 <= p && p + size <= b.End() && Load(m, p - 4) == b.Payload()
  }

  lemma FrontedBy(m: Memory, b: Block, size: nat, a: word)
    requires IsPow2(a) && a > 8 && b.size >= Padded(size, a) && b.Payload() + 4 + a <= WORD
    ensures var p := AlignedPtr(b.Payload(), a); p >= 4 && Fronted(m[p - 4 := b.Payload()], b, p, size, a)
  {
    AlignedInside(b, size, a);
    MultipleOfFour(a, AlignedPtr(b.Payload(), a));
  }

  // -------------------------------------------------------------- walking the headers

  /** A walk along the headers stands at `cur`, with the blocks `todo` still before it. */
  ghost predicate Cursor(m: Memory, todo: seq<Block>, cur: nat, at: nat, hi: nat) {
    Image(m, todo, 0) && cur == First(todo, 0) && Tiles(todo, at, hi) && at > 0
  }

  /** What the walk reads from a header, and where it goes from there. */
  lemma CursorNext(m: Memory, todo: seq<Block>, cur: nat, at: nat, hi: nat)
    requires Cursor(m, todo, cur, at, hi)
    ensures cur == 0 <==> todo == []
    ensures todo != [] ==>
            && cur == todo[0].addr && WordAt(m, cur) == todo[0].size && (WordAt(m, cur + 8) % 256 != 0 <==> todo[0].free)
            && Cursor(m, todo[1..], WordAt(m, cur + 12), todo[0].End(), hi)
  {
  }
}
