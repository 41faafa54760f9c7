/** How UnnamedFS keeps file contents: every inode owns one run of blocks, the bitmap
    says which blocks are owned, and files grow in place or by moving. */
module FsExtents {
  import opened FsBitmap

  const BLOCK: nat := 4096
  const MAX_BLOCKS: nat := 4096
  const MAX_FILES: nat := 256

  /** The values 0, 1 and 2 of an inode's `flags`. */
  datatype Kind = Unused | File | Directory

  datatype Inode = Inode(size: nat, kind: Kind, parent: nat, first: nat, blocks: nat, name: string)

  const ZEROED: Inode := Inode(0, Unused, 0, 0, 0, "")

  /** A mounted file system: the inodes counted by the superblock, the block flags, the
      superblock's counts of free blocks and of all blocks, and the data area, one block
      after the other. The bitmap covers the first 4096 blocks only. */
  datatype Fs = Fs(inodes: seq<Inode>, bits: seq<bool>, free: nat, total: nat, data: seq<bv8>)

  function Min(a: nat, b: nat): nat {
    if a < b then a else b
  }

  // ----------------------------------------------------------------- extents

  ghost predicate Covers(ino: Inode, b: int) {
    ino.first <= b < ino.first + ino.blocks
  }

  ghost predicate Owned(inodes: seq<Inode>, b: int) {
    exists i :: 0 <= i < |inodes| && Covers(inodes[i], b)
  }

  /** The extent lies in the device behind the two reserved blocks; unused inodes have none. */
  ghost predicate Placed(ino: Inode, total: nat) {
    if ino.blocks == 0 then ino.first == 0
    else ino.kind != Unused && 2 <= ino.first && ino.first + ino.blocks <= total
  }

  ghost predicate Disjoint(inodes: seq<Inode>) {
    forall i, j, b :: 0 <= i < |inodes| && 0 <= j < |inodes| && i != j && Covers(inodes[i], b) ==> !Covers(inodes[j], b)
  }

  /** The bitmap is exactly the two reserved blocks and the extents. */
  ghost predicate Exact(inodes: seq<Inode>, bits: seq<bool>) {
    forall b :: 0 <= b < |bits| ==> (bits[b] <==> b < 2 || Owned(inodes, b))
  }

  ghost predicate AllocInv(fs: Fs) {
    && |fs.bits| == Min(fs.total, MAX_BLOCKS) && |fs.data| == fs.total * BLOCK
    && (forall i :: 0 <= i < |fs.inodes| ==> Placed(fs.inodes[i], |fs.bits|))
    && Disjoint(fs.inodes)
    && Exact(fs.inodes, fs.bits)
    && fs.free == Clear(fs.bits) + (fs.total - |fs.bits|)
  }

  /** `ino'` can take the place of inode `i`: its extent uses only blocks that are free
      or belonged to `i`. */
  ghost predicate Fitting(fs: Fs, i: nat, ino': Inode) {
    && i < |fs.inodes| && Placed(ino', |fs.bits|)
    && forall b :: 0 <= b < |fs.bits| && Covers(ino', b) ==> !fs.bits[b] || Covers(fs.inodes[i], b)
  }

  ghost function Remarked(bits: seq<bool>, old': Inode, new': Inode): seq<bool> {
    Mark(Mark(bits, old'.first, old'.blocks, false), new'.first, new'.blocks, true)
  }

  /** Replacing inode `i` changes the ownership of its old and new blocks only. */
  lemma OwnedAfter(fs: Fs, i: nat, ino': Inode, b: nat)
    requires AllocInv(fs) && i < |fs.inodes| && b < |fs.bits|
    ensures Covers(fs.inodes[i], b) ==> fs.bits[b] && b >= 2
    ensures Owned(fs.inodes[i := ino'], b) <==>
            Covers(ino', b) || (Owned(fs.inodes, b) && !Covers(fs.inodes[i], b))
  {
    var inodes' := fs.inodes[i := ino'];
    if Covers(ino', b) { assert Covers(inodes'[i], b); }
    if Owned(fs.inodes, b) && !Covers(fs.inodes[i], b) {
      var j :| 0 <= j < |fs.inodes| && Covers(fs.inodes[j], b);
      assert Covers(inodes'[j], b);
    }
    if Owned(inodes', b) && !Covers(ino', b) {
      var j :| 0 <= j < |inodes'| && Covers(inodes'[j], b);
      assert Covers(fs.inodes[j], b);
    }
  }

  lemma ReassignExact(fs: Fs, i: nat, ino': Inode)
    requires AllocInv(fs) && Fitting(fs, i, ino')
    ensures Exact(fs.inodes[i := ino'], Remarked(fs.bits, fs.inodes[i], ino'))
  {
    var bits' := Remarked(fs.bits, fs.inodes[i], ino');
    forall b | 0 <= b < |bits'| ensures bits'[b] <==> b < 2 || Owned(fs.inodes[i := ino'], b) {
      OwnedAfter(fs, i, ino', b);
    }
  }

  lemma ReassignDisjoint(fs: Fs, i: nat, ino': Inode)
    requires AllocInv(fs) && Fitting(fs, i, ino')
    ensures Disjoint(fs.inodes[i := ino'])
  {
    var inodes' := fs.inodes[i := ino'];
    forall j, b | 0 <= j < |inodes'| && j != i && Covers(inodes'[j], b) ensures !Covers(ino', b) {
      assert Placed(fs.inodes[j], |fs.bits|) && Covers(fs.inodes[j], b);
      OwnedAfter(fs, j, ino', b);
    }
  }

  lemma ReassignCount(fs: Fs, i: nat, ino': Inode)
    requires AllocInv(fs) && Fitting(fs, i, ino')
    ensures Clear(Remarked(fs.bits, fs.inodes[i], ino')) == Clear(fs.bits) + fs.inodes[i].blocks - ino'.blocks
  {
    var ino, bits := fs.inodes[i], fs.bits;
    var cleared := Mark(bits, ino.first, ino.blocks, false);
    if ino.blocks > 0 {
      forall b | ino.first <= b < ino.first + ino.blocks ensures bits[b] {
        OwnedAfter(fs, i, ino, b);
      }
      ClearMark(bits, ino.first, ino.blocks, false);
    }
    if ino'.blocks > 0 {
      forall b | ino'.first <= b < ino'.first + ino'.blocks ensures !cleared[b] {
        assert Covers(ino', b);
      }
      ClearMark(cleared, ino'.first, ino'.blocks, true);
    }
  }

  /** One inode changes its extent: its old blocks are freed and its new ones taken. */
  ghost function Reassigned(fs: Fs, i: nat, ino': Inode, data': seq<bv8>): Fs
    requires i < |fs.inodes| && fs.free + fs.inodes[i].blocks >= ino'.blocks
  {
    fs.(inodes := fs.inodes[i := ino'], bits := Remarked(fs.bits, fs.inodes[i], ino'),
        free := fs.free + fs.inodes[i].blocks - ino'.blocks, data := data')
  }

  /** Whatever the change, extents stay disjoint, the bitmap exact and the count right. */
  lemma Reassign(fs: Fs, i: nat, ino': Inode, data': seq<bv8>)
    requires AllocInv(fs) && Fitting(fs, i, ino') && |data'| == |fs.data|
    ensures fs.free + fs.inodes[i].blocks >= ino'.blocks && AllocInv(Reassigned(fs, i, ino', data'))
  {
    ReassignExact(fs, i, ino');
    ReassignDisjoint(fs, i, ino');
    ReassignCount(fs, i, ino');
  }

  // ---------------------------------------------------------- growing a file

  /** The number of blocks for `size` bytes. */
  function Need(size: nat): nat {
    (size + BLOCK - 1) / BLOCK
  }

  /** Put `s` into the data area at `at`. */
  ghost function Splice(data: seq<bv8>, at: nat, s: seq<bv8>): (r: seq<bv8>)
    requires at + |s| <= |data|
    ensures |r| == |data|
  {
    data[..at] + s + data[at + |s|..]
  }

  /** The first `n` bytes of the extent of an inode. */
  ghost function Bytes(fs: Fs, ino: Inode, n: nat): seq<bv8>
    requires ino.first * BLOCK + n <= |fs.data|
  {
    fs.data[ino.first * BLOCK..ino.first * BLOCK + n]
  }

  /** What a reader can see of a file. */
  function Visible(ino: Inode): nat {
    Min(ino.size, ino.blocks * BLOCK)
  }

  ghost function Content(fs: Fs, i: nat): seq<bv8>
    requires i < |fs.inodes| && fs.inodes[i].first * BLOCK + Visible(fs.inodes[i]) <= |fs.data|
  {
    Bytes(fs, fs.inodes[i], Visible(fs.inodes[i]))
  }

  datatype Outcome = Outcome(ok: bool, fs: Fs)

  ghost function Shrunk(fs: Fs, i: nat, need: nat): Fs
    requires i < |fs.inodes| && need < fs.inodes[i].blocks
  {
    var ino := fs.inodes[i];
    var n := ino.blocks - need;
    fs.(inodes := fs.inodes[i := ino.(blocks := need, first := if need == 0 then 0 else ino.first)],
        bits := Mark(fs.bits, ino.first + need, n, false),
        free := if fs.free + n <= fs.total then fs.free + n else fs.free)
  }

  ghost function Allotted(fs: Fs, i: nat, first: nat, need: nat): Fs
    requires i < |fs.inodes| && need <= fs.free
  {
    fs.(inodes := fs.inodes[i := fs.inodes[i].(first := first, blocks := need)],
        bits := Mark(fs.bits, first, need, true), free := fs.free - need)
  }

  ghost function Extended(fs: Fs, i: nat, need: nat): Fs
    requires i < |fs.inodes| && fs.inodes[i].blocks <= need <= fs.free + fs.inodes[i].blocks
  {
    var ino := fs.inodes[i];
    var extra := need - ino.blocks;
    fs.(inodes := fs.inodes[i := ino.(blocks := need)],
        bits := Mark(fs.bits, ino.first + ino.blocks, extra, true), free := fs.free - extra)
  }

  ghost function Moved(fs: Fs, i: nat, first: nat, need: nat): Fs
    requires i < |fs.inodes| && need <= fs.free + fs.inodes[i].blocks
    requires fs.inodes[i].first * BLOCK + Visible(fs.inodes[i]) <= |fs.data|
    requires first * BLOCK + Visible(fs.inodes[i]) <= |fs.data|
  {
    var ino := fs.inodes[i];
    fs.(inodes := fs.inodes[i := ino.(first := first, blocks := need)],
        bits := Mark(Mark(fs.bits, ino.first, ino.blocks, false), first, need, true),
        free := fs.free + ino.blocks - need,
        data := Splice(fs.data, first * BLOCK, Content(fs, i)))
  }

  /** `ensure_blocks`: give inode `i` the blocks for `size` bytes. */
  ghost function Ensure(fs: Fs, i: nat, size: nat): Outcome
    requires AllocInv(fs) && i < |fs.inodes|
  {
    var ino, need := fs.inodes[i], Need(size);
    if need == ino.blocks then Outcome(true, fs)
    else if need < ino.blocks then Outcome(true, Shrunk(fs, i, need))
    else if fs.free < need - ino.blocks then Outcome(false, fs)
    else
      var run := FirstRun(fs.bits, 2, need);
      if ino.blocks == 0 then
        if run < |fs.bits| then Outcome(true, Allotted(fs, i, run, need)) else Outcome(false, fs)
      else if FreeRun(fs.bits, ino.first + ino.blocks, need - ino.blocks) then Outcome(true, Extended(fs, i, need))
      else if run < |fs.bits| then Outcome(true, Moved(fs, i, run, need))
      else Outcome(false, fs)
  }

  /** Blocks of inode `i` are marked, so freeing its tail is a change of extent. */
  lemma ShrinkIsReassign(fs: Fs, i: nat, need: nat)
    requires AllocInv(fs) && i < |fs.inodes| && need < fs.inodes[i].blocks
    ensures Fitting(fs, i, Shrunk(fs, i, need).inodes[i])
    ensures Shrunk(fs, i, need) == Reassigned(fs, i, Shrunk(fs, i, need).inodes[i], fs.data)
  {
    var ino, r := fs.inodes[i], Shrunk(fs, i, need);
    var ino' := r.inodes[i];
    assert Placed(ino, |fs.bits|);
    forall b | 0 <= b < |fs.bits| && Covers(ino, b) ensures fs.bits[b] {
      OwnedAfter(fs, i, ino, b);
    }
    Reassign(fs, i, ino', fs.data);
    ClearAtMost(Remarked(fs.bits, ino, ino'));
    assert r.bits == Remarked(fs.bits, ino, ino');
  }

  lemma AllotIsReassign(fs: Fs, i: nat, first: nat, need: nat)
    requires AllocInv(fs) && i < |fs.inodes| && fs.inodes[i].blocks == 0 && fs.inodes[i].kind != Unused
    requires 2 <= first && FreeRun(fs.bits, first, need) && 0 < need <= fs.free
    ensures Fitting(fs, i, Allotted(fs, i, first, need).inodes[i])
    ensures Allotted(fs, i, first, need) == Reassigned(fs, i, Allotted(fs, i, first, need).inodes[i], fs.data)
  {
    var ino, r := fs.inodes[i], Allotted(fs, i, first, need);
    assert r.bits == Remarked(fs.bits, ino, r.inodes[i]);
  }

  lemma ExtendIsReassign(fs: Fs, i: nat, need: nat)
    requires AllocInv(fs) && i < |fs.inodes| && 0 < fs.inodes[i].blocks <= need <= fs.free + fs.inodes[i].blocks
    requires FreeRun(fs.bits, fs.inodes[i].first + fs.inodes[i].blocks, need - fs.inodes[i].blocks)
    ensures Fitting(fs, i, Extended(fs, i, need).inodes[i])
    ensures Extended(fs, i, need) == Reassigned(fs, i, Extended(fs, i, need).inodes[i], fs.data)
  {
    var ino, r := fs.inodes[i], Extended(fs, i, need);
    assert Placed(ino, |fs.bits|);
    forall b | 0 <= b < |fs.bits| && Covers(ino, b) ensures fs.bits[b] {
      OwnedAfter(fs, i, ino, b);
    }
    assert r.bits == Remarked(fs.bits, ino, r.inodes[i]);
  }

  lemma MoveIsReassign(fs: Fs, i: nat, first: nat, need: nat)
    requires AllocInv(fs) && i < |fs.inodes| && 0 < fs.inodes[i].blocks <= need <= fs.free + fs.inodes[i].blocks
    requires 2 <= first && FreeRun(fs.bits, first, need)
    ensures Fitting(fs, i, Moved(fs, i, first, need).inodes[i])
    ensures Moved(fs, i, first, need)
         == Reassigned(fs, i, Moved(fs, i, first, need).inodes[i], Moved(fs, i, first, need).data)
  {
  }

  lemma EnsureFails(fs: Fs, i: nat, size: nat)
    requires AllocInv(fs) && i < |fs.inodes| && !Ensure(fs, i, size).ok
    ensures Ensure(fs, i, size).fs == fs
  {
  }

  /** An inode keeps everything but its extent. */
  ghost predicate SameBut(ino: Inode, ino': Inode) {
    ino' == ino.(first := ino'.first, blocks := ino'.blocks)
  }

  /** A successful `ensure_blocks` changes nothing but the extent of its inode, to the
      blocks needed, and leaves the file system consistent; a failed one changes nothing. */
  lemma EnsureKeeps(fs: Fs, i: nat, size: nat)
    requires AllocInv(fs) && i < |fs.inodes| && fs.inodes[i].kind != Unused
    ensures var o := Ensure(fs, i, size);
            && AllocInv(o.fs) && |o.fs.bits| == |fs.bits| && o.fs.total == fs.total
            && (!o.ok ==> o.fs == fs)
            && |o.fs.inodes| == |fs.inodes| && o.fs.inodes == fs.inodes[i := o.fs.inodes[i]]
            && SameBut(fs.inodes[i], o.fs.inodes[i])
            && (o.ok ==> o.fs.inodes[i].blocks == Need(size))
  {
    var ino, need, o := fs.inodes[i], Need(size), Ensure(fs, i, size);
    if need < ino.blocks {
      ShrinkIsReassign(fs, i, need);
    } else if o.ok && need > ino.blocks {
      var run := FirstRun(fs.bits, 2, need);
      if ino.blocks == 0 {
        AllotIsReassign(fs, i, run, need);
      } else if FreeRun(fs.bits, ino.first + ino.blocks, need - ino.blocks) {
        ExtendIsReassign(fs, i, need);
      } else {
        MoveIsReassign(fs, i, run, need);
      }
    }
    if o.ok && need != ino.blocks { Reassign(fs, i, o.fs.inodes[i], o.fs.data); }
  }

  // ---------------------------------------------------------------- contents

  lemma SpliceOutside(data: seq<bv8>, at: nat, s: seq<bv8>, a: nat, n: nat)
    requires at + |s| <= |data| && a + n <= |data| && (a + n <= at || at + |s| <= a || n == 0)
    ensures Splice(data, at, s)[a..a + n] == data[a..a + n]
  {
  }

  lemma SpliceInside(data: seq<bv8>, at: nat, s: seq<bv8>, n: nat)
    requires at + |s| <= |data| && n <= |s|
    ensures Splice(data, at, s)[at..at + n] == s[..n]
  {
  }

  /** Two extents without a common block lie apart. */
  lemma Apart(x: Inode, y: Inode)
    requires x.blocks > 0 && y.blocks > 0 && forall b :: Covers(x, b) ==> !Covers(y, b)
    ensures x.first + x.blocks <= y.first || y.first + y.blocks <= x.first
  {
    assert Covers(x, x.first) && Covers(y, y.first);
  }

  lemma Inside(fs: Fs, j: nat)
    requires AllocInv(fs) && j < |fs.inodes|
    ensures fs.inodes[j].first * BLOCK + fs.inodes[j].blocks * BLOCK <= |fs.data|
  {
    assert Placed(fs.inodes[j], |fs.bits|);
  }

  /** Bytes stored in the extent of one inode are outside every other file. */
  lemma StoreElsewhere(fs: Fs, i: nat, ino: Inode, at: nat, s: seq<bv8>, j: nat)
    requires AllocInv(fs) && Fitting(fs, i, ino) && j < |fs.inodes| && j != i
    requires at + |s| <= ino.blocks * BLOCK && ino.first * BLOCK + at + |s| <= |fs.data|
    ensures fs.inodes[j].first * BLOCK + Visible(fs.inodes[j]) <= |fs.data|
    ensures Bytes(fs.(data := Splice(fs.data, ino.first * BLOCK + at, s)), fs.inodes[j], Visible(fs.inodes[j]))
         == Content(fs, j)
  {
    var other := fs.inodes[j];
    Inside(fs, j);
    if other.blocks > 0 && ino.blocks > 0 {
      ReassignDisjoint(fs, i, ino);
      var inodes' := fs.inodes[i := ino];
      assert inodes'[i] == ino && inodes'[j] == other;
      Apart(ino, other);
    }
    SpliceOutside(fs.data, ino.first * BLOCK + at, s, other.first * BLOCK, Visible(other));
  }

  /** Making room keeps what every other file holds. */
  lemma EnsureOthers(fs: Fs, i: nat, size: nat, j: nat)
    requires AllocInv(fs) && i < |fs.inodes| && fs.inodes[i].kind != Unused && j < |fs.inodes| && j != i
    ensures var o := Ensure(fs, i, size);
            && AllocInv(o.fs) && |o.fs.inodes| == |fs.inodes| && o.fs.inodes[j] == fs.inodes[j]
            && fs.inodes[j].first * BLOCK + Visible(fs.inodes[j]) <= |fs.data| == |o.fs.data|
            && Content(o.fs, j) == Content(fs, j)
  {
    EnsureKeeps(fs, i, size);
    Inside(fs, j);
    var o := Ensure(fs, i, size);
    if o.fs.data != fs.data { MovedOthers(fs, i, size, j); }
  }

  lemma MovedOthers(fs: Fs, i: nat, size: nat, j: nat)
    requires AllocInv(fs) && i < |fs.inodes| && fs.inodes[i].kind != Unused && j < |fs.inodes| && j != i
    requires Ensure(fs, i, size).fs.data != fs.data
    ensures var o := Ensure(fs, i, size);
            && At(fs.inodes[j], Visible(fs.inodes[j])) <= |fs.data| == |o.fs.data|
            && Bytes(o.fs, fs.inodes[j], Visible(fs.inodes[j])) == Content(fs, j)
  {
    var run := FirstRun(fs.bits, 2, Need(size));
    Inside(fs, i);
    assert Ensure(fs, i, size).fs == Moved(fs, i, run, Need(size));
    MoveLeaves(fs, i, run, Need(size), j);
  }

  lemma MoveLeaves(fs: Fs, i: nat, first: nat, need: nat, j: nat)
    requires AllocInv(fs) && i < |fs.inodes| && 0 < fs.inodes[i].blocks <= need <= fs.free + fs.inodes[i].blocks
    requires fs.inodes[i].kind != Unused && 2 <= first && FreeRun(fs.bits, first, need) && j < |fs.inodes| && j != i
    requires At(fs.inodes[i], Visible(fs.inodes[i])) <= |fs.data| && first * BLOCK + Visible(fs.inodes[i]) <= |fs.data|
    ensures var fs' := Moved(fs, i, first, need);
            && At(fs.inodes[j], Visible(fs.inodes[j])) <= |fs.data| == |fs'.data|
            && Bytes(fs', fs.inodes[j], Visible(fs.inodes[j])) == Content(fs, j)
  {
    MoveIsReassign(fs, i, first, need);
    StoreElsewhere(fs, i, Moved(fs, i, first, need).inodes[i], 0, Content(fs, i), j);
  }

  /** Making room keeps what the file itself holds, as far as its blocks reach. */
  lemma EnsureSelf(fs: Fs, i: nat, size: nat, m: nat)
    requires AllocInv(fs) && i < |fs.inodes| && fs.inodes[i].kind != Unused
    requires Ensure(fs, i, size).ok && m <= Visible(fs.inodes[i]) && m <= Need(size) * BLOCK
    ensures var o := Ensure(fs, i, size);
            && AllocInv(o.fs) && i < |o.fs.inodes|
            && fs.inodes[i].first * BLOCK + m <= |fs.data| && o.fs.inodes[i].first * BLOCK + m <= |o.fs.data|
            && Bytes(o.fs, o.fs.inodes[i], m) == Bytes(fs, fs.inodes[i], m)
  {
    EnsureKeeps(fs, i, size);
    var o := Ensure(fs, i, size);
    Inside(fs, i);
    Inside(o.fs, i);
    var old', new' := fs.inodes[i], o.fs.inodes[i];
    if m > 0 && old'.first != new'.first {
      assert o.fs == Moved(fs, i, new'.first, Need(size));
      MovedSelf(fs, i, new'.first, Need(size), m);
    }
  }

  lemma MovedSelf(fs: Fs, i: nat, first: nat, need: nat, m: nat)
    requires i < |fs.inodes| && need <= fs.free + fs.inodes[i].blocks && m <= Visible(fs.inodes[i])
    requires At(fs.inodes[i], Visible(fs.inodes[i])) <= |fs.data| && first * BLOCK + Visible(fs.inodes[i]) <= |fs.data|
    ensures var fs' := Moved(fs, i, first, need);
            Bytes(fs', fs'.inodes[i], m) == Bytes(fs, fs.inodes[i], m)
  {
    SpliceInside(fs.data, first * BLOCK, Content(fs, i), m);
    assert Content(fs, i)[..m] == Bytes(fs, fs.inodes[i], m);
  }

  /** The place of byte `x` of an inode's blocks in the data area. */
  function At(ino: Inode, x: nat): nat {
    ino.first * BLOCK + x
  }

  /** Behind what the file shows, making room leaves in its blocks what they held. */
  lemma EnsureRest(fs: Fs, i: nat, size: nat, x: nat)
    requires AllocInv(fs) && i < |fs.inodes| && fs.inodes[i].kind != Unused && Ensure(fs, i, size).ok
    requires Visible(fs.inodes[i]) <= x < Need(size) * BLOCK
    ensures var o := Ensure(fs, i, size);
            && i < |o.fs.inodes| && At(o.fs.inodes[i], x) < |fs.data| == |o.fs.data|
            && o.fs.data[At(o.fs.inodes[i], x)] == fs.data[At(o.fs.inodes[i], x)]
  {
    EnsureKeeps(fs, i, size);
    Inside(fs, i);
    Inside(Ensure(fs, i, size).fs, i);
  }
}
