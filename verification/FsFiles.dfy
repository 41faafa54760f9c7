/** Reading and writing files, and what a write leaves in every file. */
module FsFiles {
  import opened FsBitmap
  import opened FsExtents

  /** A write's result: the number of bytes, -1 for a failure, and the file system after. */
  datatype Written = Written(n: int, fs: Fs)

  // ------------------------------------------------------------- making room

  /** The bytes of file `j` are in the data area of both file systems and the same. */
  ghost predicate SameContent(fs: Fs, fs': Fs, j: nat) {
    && j < |fs.inodes| == |fs'.inodes| && fs'.inodes[j] == fs.inodes[j]
    && fs.inodes[j].first * BLOCK + Visible(fs.inodes[j]) <= |fs.data| == |fs'.data|
    && Content(fs', j) == Content(fs, j)
  }

  /** The bytes of file `i` are kept as far as its new blocks reach. */
  ghost predicate KeepsBytes(fs: Fs, fs': Fs, i: nat) {
    && i < |fs.inodes| == |fs'.inodes|
    && var ino, ino' := fs.inodes[i], fs'.inodes[i];
       var m := Min(Visible(ino), ino'.blocks * BLOCK);
       && ino.first * BLOCK + m <= |fs.data| && ino'.first * BLOCK + m <= |fs'.data|
       && Bytes(fs', ino', m) == Bytes(fs, ino, m)
  }

  /** Behind that, the blocks of file `i` hold what they held before. */
  ghost predicate KeepsRest(fs: Fs, fs': Fs, i: nat) {
    && i < |fs.inodes| == |fs'.inodes|
    && forall x: nat :: Visible(fs.inodes[i]) <= x < fs'.inodes[i].blocks * BLOCK ==>
         At(fs'.inodes[i], x) < |fs.data| == |fs'.data| && fs'.data[At(fs'.inodes[i], x)] == fs.data[At(fs'.inodes[i], x)]
  }

  /** `fs'` is a consistent file system in which inode `i` has the blocks for `size` bytes
      and everything else is as in `fs`. */
  ghost predicate Grown(fs: Fs, i: nat, size: nat, fs': Fs) {
    && i < |fs.inodes| == |fs'.inodes| && AllocInv(fs') && fs'.total == fs.total
    && fs'.inodes == fs.inodes[i := fs'.inodes[i]] && SameBut(fs.inodes[i], fs'.inodes[i])
    && fs'.inodes[i].blocks == Need(size) && size <= fs'.inodes[i].blocks * BLOCK
    && fs'.inodes[i].first * BLOCK + size <= |fs'.data|
    && (forall j: nat :: j < |fs.inodes| && j != i ==> SameContent(fs, fs', j))
    && KeepsBytes(fs, fs', i) && KeepsRest(fs, fs', i)
  }

  lemma EnsureGrown(fs: Fs, i: nat, size: nat)
    requires AllocInv(fs) && i < |fs.inodes| && fs.inodes[i].kind != Unused && Ensure(fs, i, size).ok
    ensures Grown(fs, i, size, Ensure(fs, i, size).fs)
  {
    var fs' := Ensure(fs, i, size).fs;
    EnsureKeeps(fs, i, size);
    Inside(fs', i);
    EnsureSelf(fs, i, size, Min(Visible(fs.inodes[i]), fs'.inodes[i].blocks * BLOCK));
    forall j: nat | j < |fs.inodes| && j != i ensures SameContent(fs, fs', j) {
      EnsureOthers(fs, i, size, j);
    }
    EnsureKeepsRest(fs, i, size);
  }

  lemma EnsureKeepsRest(fs: Fs, i: nat, size: nat)
    requires AllocInv(fs) && i < |fs.inodes| && fs.inodes[i].kind != Unused && Ensure(fs, i, size).ok
    ensures KeepsRest(fs, Ensure(fs, i, size).fs, i)
  {
    var fs' := Ensure(fs, i, size).fs;
    EnsureKeeps(fs, i, size);
    forall x: nat | Visible(fs.inodes[i]) <= x < fs'.inodes[i].blocks * BLOCK
      ensures At(fs'.inodes[i], x) < |fs.data| == |fs'.data| && fs'.data[At(fs'.inodes[i], x)] == fs.data[At(fs'.inodes[i], x)]
    {
      EnsureRest(fs, i, size, x);
    }
  }

  /** The room a write got: whether any, where it ends, and the file system with it. */
  datatype Space = Space(ok: bool, end: nat, fs: Fs)

  /** The room an attempt for `size` bytes makes. */
  ghost function Try(fs: Fs, i: nat, size: nat): Space
    requires AllocInv(fs) && i < |fs.inodes|
  {
    var o := Ensure(fs, i, size);
    Space(o.ok, size, o.fs)
  }

  lemma TryGrown(fs: Fs, i: nat, size: nat)
    requires AllocInv(fs) && i < |fs.inodes| && fs.inodes[i].kind != Unused
    ensures var w := Try(fs, i, size);
            w.end == size && if w.ok then Grown(fs, i, size, w.fs) else w.fs == fs
  {
    EnsureKeeps(fs, i, size);
    if Ensure(fs, i, size).ok { EnsureGrown(fs, i, size); }
  }

  /** The bytes the file's blocks and the free blocks together could hold. */
  function Limit(fs: Fs, i: nat): nat
    requires i < |fs.inodes|
  {
    (fs.inodes[i].blocks + fs.free) * BLOCK
  }

  /** The room a write makes: for all its bytes up to `end` or, when that fails, for as
      many as the file's blocks and the free blocks together could hold. */
  ghost function Room(fs: Fs, i: nat, off: nat, end: nat): Space
    requires AllocInv(fs) && i < |fs.inodes| && off < end
  {
    if Try(fs, i, end).ok then Try(fs, i, end) else Retry(fs, i, off, end)
  }

  /** The second attempt, after one that changed nothing. */
  ghost function Retry(fs: Fs, i: nat, off: nat, end: nat): Space
    requires AllocInv(fs) && i < |fs.inodes|
  {
    if Limit(fs, i) <= off then Space(false, end, fs) else Try(fs, i, Min(Limit(fs, i), end))
  }

  /** A result of making room: none, or room up to where the write will end. */
  ghost predicate Roomy(fs: Fs, i: nat, off: nat, end: nat, w: Space) {
    && i < |fs.inodes|
    && (!w.ok ==> w.fs == fs)
    && (w.ok ==> off < w.end <= end && Grown(fs, i, w.end, w.fs))
    && (w.ok && fs.inodes[i].size <= end && fs.inodes[i].size <= fs.inodes[i].blocks * BLOCK
        ==> fs.inodes[i].size <= w.end)
  }

  lemma RoomIsRoomy(fs: Fs, i: nat, off: nat, end: nat)
    requires AllocInv(fs) && i < |fs.inodes| && fs.inodes[i].kind != Unused && off < end
    ensures Roomy(fs, i, off, end, Room(fs, i, off, end))
  {
    TryGrown(fs, i, end);
    TryGrown(fs, i, Min(Limit(fs, i), end));
  }

  // ----------------------------------------------------------------- storing

  /** Storing `s` at offset `off` of inode `i`. */
  ghost function Store(fs: Fs, i: nat, off: nat, s: seq<bv8>): Fs
    requires i < |fs.inodes| && fs.inodes[i].first * BLOCK + off + |s| <= |fs.data|
  {
    var ino := fs.inodes[i];
    fs.(data := Splice(fs.data, ino.first * BLOCK + off, s),
        inodes := fs.inodes[i := ino.(size := if off + |s| > ino.size then off + |s| else ino.size)])
  }

  lemma StoreKeeps(fs: Fs, i: nat, off: nat, s: seq<bv8>)
    requires AllocInv(fs) && i < |fs.inodes|
    requires off + |s| <= fs.inodes[i].blocks * BLOCK && fs.inodes[i].first * BLOCK + off + |s| <= |fs.data|
    ensures AllocInv(Store(fs, i, off, s))
  {
    var r := Store(fs, i, off, s);
    assert forall j, b :: 0 <= j < |fs.inodes| ==> Covers(r.inodes[j], b) == Covers(fs.inodes[j], b);
    forall b | 0 <= b < |fs.bits| ensures Owned(r.inodes, b) <==> Owned(fs.inodes, b) {
      if Owned(fs.inodes, b) {
        var j :| 0 <= j < |fs.inodes| && Covers(fs.inodes[j], b);
        assert Covers(r.inodes[j], b);
      }
    }
    assert forall j :: 0 <= j < |fs.inodes| ==> Placed(fs.inodes[j], |fs.bits|);
  }

  lemma SelfFitting(fs: Fs, i: nat)
    requires AllocInv(fs) && i < |fs.inodes|
    ensures Fitting(fs, i, fs.inodes[i])
  {
  }

  lemma StoreOthers(fs: Fs, i: nat, off: nat, s: seq<bv8>, j: nat)
    requires AllocInv(fs) && i < |fs.inodes| && j < |fs.inodes| && j != i
    requires off + |s| <= fs.inodes[i].blocks * BLOCK && fs.inodes[i].first * BLOCK + off + |s| <= |fs.data|
    ensures SameContent(fs, Store(fs, i, off, s), j)
  {
    SelfFitting(fs, i);
    StoreElsewhere(fs, i, fs.inodes[i], off, s, j);
  }

  /** Byte `x` of a file after storing: a stored byte, or the one that was there. */
  lemma StoreSelf(fs: Fs, i: nat, off: nat, s: seq<bv8>, x: nat)
    requires AllocInv(fs) && i < |fs.inodes| && x < fs.inodes[i].blocks * BLOCK
    requires off + |s| <= fs.inodes[i].blocks * BLOCK && fs.inodes[i].first * BLOCK + off + |s| <= |fs.data|
    ensures var at := fs.inodes[i].first * BLOCK + x;
            at < |fs.data| && Store(fs, i, off, s).data[at] == if off <= x < off + |s| then s[x - off] else fs.data[at]
  {
    Inside(fs, i);
  }

  // ----------------------------------------------------------------- writing

  function EndOf(off: nat, buf: seq<bv8>): nat {
    off + |buf|
  }

  /** Use the room made for a write. */
  ghost function Fill(fs: Fs, i: nat, off: nat, buf: seq<bv8>, w: Space): Written
    requires Roomy(fs, i, off, EndOf(off, buf), w)
  {
    if w.ok then Written(w.end - off, Store(w.fs, i, off, buf[..w.end - off])) else Written(-1, w.fs)
  }

  /** `unamedfs_write` on inode `i`. */
  ghost function Write(fs: Fs, i: nat, off: nat, buf: seq<bv8>): Written
    requires AllocInv(fs) && i < |fs.inodes| && fs.inodes[i].kind != Unused
  {
    if buf == [] then Written(0, fs)
    else
      RoomIsRoomy(fs, i, off, EndOf(off, buf));
      Fill(fs, i, off, buf, Room(fs, i, off, EndOf(off, buf)))
  }

  /** `r` is what a write that made room `w` has done. */
  ghost predicate Done(fs: Fs, i: nat, off: nat, buf: seq<bv8>, w: Space, r: Written) {
    Roomy(fs, i, off, EndOf(off, buf), w) && r == Fill(fs, i, off, buf, w)
  }

  lemma WriteDone(fs: Fs, i: nat, off: nat, buf: seq<bv8>)
    requires AllocInv(fs) && i < |fs.inodes| && fs.inodes[i].kind != Unused && buf != []
    ensures Done(fs, i, off, buf, Room(fs, i, off, EndOf(off, buf)), Write(fs, i, off, buf))
  {
    RoomIsRoomy(fs, i, off, EndOf(off, buf));
  }

  lemma DoneKeeps(fs: Fs, i: nat, off: nat, buf: seq<bv8>, w: Space, r: Written)
    requires AllocInv(fs) && Done(fs, i, off, buf, w, r)
    ensures AllocInv(r.fs) && |r.fs.inodes| == |fs.inodes| && r.fs.total == fs.total
    ensures forall j: nat :: j < |fs.inodes| && j != i ==> SameContent(fs, r.fs, j)
    ensures var ino, ino' := fs.inodes[i], r.fs.inodes[i];
            ino' == ino.(first := ino'.first, blocks := ino'.blocks, size := ino'.size)
  {
    if w.ok {
      StoreKeeps(w.fs, i, off, buf[..w.end - off]);
      forall j: nat | j < |fs.inodes| && j != i ensures SameContent(fs, r.fs, j) {
        DoneOthers(fs, i, off, buf, w, r, j);
      }
    } else {
      AllSame(fs);
    }
  }

  lemma DoneOthers(fs: Fs, i: nat, off: nat, buf: seq<bv8>, w: Space, r: Written, j: nat)
    requires AllocInv(fs) && Done(fs, i, off, buf, w, r) && w.ok && j < |fs.inodes| && j != i
    ensures SameContent(fs, r.fs, j)
  {
    assert SameContent(fs, w.fs, j);
    StoreOthers(w.fs, i, off, buf[..w.end - off], j);
  }

  lemma AllSame(fs: Fs)
    requires AllocInv(fs)
    ensures forall j: nat :: j < |fs.inodes| ==> SameContent(fs, fs, j)
  {
    forall j: nat | j < |fs.inodes| ensures SameContent(fs, fs, j) { Inside(fs, j); }
  }

  /** A write leaves the file system consistent, whatever it writes and wherever, and
      never changes what another file shows; a failed write changes nothing. */
  lemma WriteKeeps(fs: Fs, i: nat, off: nat, buf: seq<bv8>)
    requires AllocInv(fs) && i < |fs.inodes| && fs.inodes[i].kind != Unused
    ensures var w := Write(fs, i, off, buf);
            && AllocInv(w.fs) && |w.fs.inodes| == |fs.inodes| && w.fs.total == fs.total && -1 <= w.n <= |buf|
            && (w.n < 0 ==> w.fs == fs)
            && (forall j: nat :: j < |fs.inodes| && j != i ==> SameContent(fs, w.fs, j))
            && var ino, ino' := fs.inodes[i], w.fs.inodes[i];
               ino' == ino.(first := ino'.first, blocks := ino'.blocks, size := ino'.size)
  {
    if buf == [] {
      AllSame(fs);
    } else {
      WriteDone(fs, i, off, buf);
      DoneKeeps(fs, i, off, buf, Room(fs, i, off, EndOf(off, buf)), Write(fs, i, off, buf));
    }
  }

  lemma WriteOneInode(fs: Fs, i: nat, off: nat, buf: seq<bv8>)
    requires AllocInv(fs) && i < |fs.inodes| && fs.inodes[i].kind != Unused
    ensures var w := Write(fs, i, off, buf);
            && AllocInv(w.fs) && w.fs.total == fs.total && i < |w.fs.inodes| && w.fs.inodes == fs.inodes[i := w.fs.inodes[i]]
            && w.fs.inodes[i].kind == fs.inodes[i].kind && w.fs.inodes[i].parent == fs.inodes[i].parent
            && w.fs.inodes[i].name == fs.inodes[i].name
  {
    WriteKeeps(fs, i, off, buf);
    var w := Write(fs, i, off, buf);
    forall j: nat | j < |fs.inodes| && j != i ensures w.fs.inodes[j] == fs.inodes[j] {
      assert SameContent(fs, w.fs, j);
    }
  }

  /** The length and the blocks a write of `n` bytes at `off` leaves a file. */
  ghost predicate Resized(fs: Fs, i: nat, off: nat, n: nat, fs': Fs) {
    && i < |fs.inodes| == |fs'.inodes|
    && var ino, ino' := fs.inodes[i], fs'.inodes[i];
    && At(ino, Visible(ino)) <= |fs.data| == |fs'.data| && At(ino', Visible(ino')) <= |fs'.data|
    && ino'.size == (if off + n > ino.size then off + n else ino.size)
    && ino'.blocks == Need(off + n) && off + n <= Visible(ino')
  }

  /** Byte `x` of what the file shows then is the byte written, else the byte the file
      showed there before, else what its blocks held. */
  ghost predicate Shows(fs: Fs, i: nat, off: nat, buf: seq<bv8>, n: nat, fs': Fs, x: nat) {
    && Resized(fs, i, off, n, fs') && n <= |buf|
    && (x < Visible(fs'.inodes[i]) ==>
          Content(fs', i)[x] ==
            if off <= x < off + n then buf[x - off]
            else if x < Visible(fs.inodes[i]) then Content(fs, i)[x]
            else fs.data[At(fs'.inodes[i], x)])
  }

  lemma GrownByte(fs: Fs, i: nat, size: nat, fs': Fs, x: nat)
    requires AllocInv(fs) && Grown(fs, i, size, fs') && x < fs'.inodes[i].blocks * BLOCK
    ensures At(fs.inodes[i], Visible(fs.inodes[i])) <= |fs.data| == |fs'.data| && At(fs'.inodes[i], x) < |fs'.data|
    ensures fs'.data[At(fs'.inodes[i], x)] ==
            if x < Visible(fs.inodes[i]) then Content(fs, i)[x] else fs.data[At(fs'.inodes[i], x)]
  {
    Inside(fs, i);
    Inside(fs', i);
    var ino, ino' := fs.inodes[i], fs'.inodes[i];
    var m := Min(Visible(ino), ino'.blocks * BLOCK);
    if x < m { assert Bytes(fs', ino', m)[x] == Bytes(fs, ino, m)[x]; }
  }

  lemma DoneResized(fs: Fs, i: nat, off: nat, buf: seq<bv8>, w: Space, r: Written)
    requires AllocInv(fs) && Done(fs, i, off, buf, w, r) && r.n > 0
    ensures r.n <= |buf| && Resized(fs, i, off, r.n, r.fs)
  {
    Inside(fs, i);
    Inside(w.fs, i);
  }

  lemma DoneShows(fs: Fs, i: nat, off: nat, buf: seq<bv8>, w: Space, r: Written, x: nat)
    requires AllocInv(fs) && Done(fs, i, off, buf, w, r) && r.n > 0
    ensures Shows(fs, i, off, buf, r.n, r.fs, x)
  {
    DoneResized(fs, i, off, buf, w, r);
    if x < Visible(r.fs.inodes[i]) {
      assert r.fs.inodes[i].blocks == w.fs.inodes[i].blocks;
      DoneByte(fs, i, off, buf, w, r, x);
      assert Content(r.fs, i)[x] == r.fs.data[At(r.fs.inodes[i], x)];
    }
  }

  /** Byte `x` of the blocks of the written file. */
  lemma DoneByte(fs: Fs, i: nat, off: nat, buf: seq<bv8>, w: Space, r: Written, x: nat)
    requires AllocInv(fs) && Done(fs, i, off, buf, w, r) && r.n > 0 && x < w.fs.inodes[i].blocks * BLOCK
    ensures i < |r.fs.inodes| && At(fs.inodes[i], Visible(fs.inodes[i])) <= |fs.data| == |r.fs.data|
    ensures At(r.fs.inodes[i], x) < |r.fs.data| && r.n <= |buf|
    ensures r.fs.data[At(r.fs.inodes[i], x)] ==
            if off <= x < off + r.n then buf[x - off]
            else if x < Visible(fs.inodes[i]) then Content(fs, i)[x]
            else fs.data[At(r.fs.inodes[i], x)]
  {
    StoreSelf(w.fs, i, off, buf[..w.end - off], x);
    GrownByte(fs, i, w.end, w.fs, x);
  }

  /** Every byte the written file shows: the new ones where they were written, the old ones
      where the file showed any, and elsewhere what its blocks held before the call. */
  lemma WriteMeaning(fs: Fs, i: nat, off: nat, buf: seq<bv8>, x: nat)
    requires AllocInv(fs) && i < |fs.inodes| && fs.inodes[i].kind != Unused && Write(fs, i, off, buf).n > 0
    ensures var w := Write(fs, i, off, buf); Shows(fs, i, off, buf, w.n, w.fs, x)
  {
    WriteDone(fs, i, off, buf);
    DoneShows(fs, i, off, buf, Room(fs, i, off, EndOf(off, buf)), Write(fs, i, off, buf), x);
  }

  /** Writing at or before the end of a fully backed file, up to or past its end: the
      file becomes what stood before the offset, then the bytes written. */
  lemma WriteContent(fs: Fs, i: nat, off: nat, buf: seq<bv8>)
    requires AllocInv(fs) && i < |fs.inodes| && fs.inodes[i].kind != Unused && Write(fs, i, off, buf).n > 0
    requires fs.inodes[i].size <= fs.inodes[i].blocks * BLOCK && off <= fs.inodes[i].size <= off + |buf|
    ensures var w := Write(fs, i, off, buf);
            && i < |w.fs.inodes| && w.n <= |buf|
            && fs.inodes[i].first * BLOCK + Visible(fs.inodes[i]) <= |fs.data|
            && w.fs.inodes[i].first * BLOCK + Visible(w.fs.inodes[i]) <= |w.fs.data|
            && w.fs.inodes[i].size == off + w.n <= w.fs.inodes[i].blocks * BLOCK
            && Content(w.fs, i) == Content(fs, i)[..off] + buf[..w.n]
  {
    WriteDone(fs, i, off, buf);
    DoneContent(fs, i, off, buf, Room(fs, i, off, EndOf(off, buf)), Write(fs, i, off, buf));
  }

  lemma DoneContent(fs: Fs, i: nat, off: nat, buf: seq<bv8>, w: Space, r: Written)
    requires AllocInv(fs) && Done(fs, i, off, buf, w, r) && r.n > 0
    requires fs.inodes[i].size <= fs.inodes[i].blocks * BLOCK && off <= fs.inodes[i].size <= off + |buf|
    ensures i < |r.fs.inodes| && r.n <= |buf|
    ensures fs.inodes[i].first * BLOCK + Visible(fs.inodes[i]) <= |fs.data|
    ensures r.fs.inodes[i].first * BLOCK + Visible(r.fs.inodes[i]) <= |r.fs.data|
    ensures r.fs.inodes[i].size == off + r.n <= r.fs.inodes[i].blocks * BLOCK
    ensures Content(r.fs, i) == Content(fs, i)[..off] + buf[..r.n]
  {
    DoneShows(fs, i, off, buf, w, r, 0);
    forall x: nat | x < |Content(r.fs, i)|
      ensures Content(r.fs, i)[x] == if x < off then Content(fs, i)[x] else buf[x - off]
    {
      DoneShows(fs, i, off, buf, w, r, x);
    }
    AppendedIs(Content(fs, i), off, buf, r.n, Content(r.fs, i));
  }

  lemma AppendedIs(old': seq<bv8>, off: nat, buf: seq<bv8>, n: nat, new': seq<bv8>)
    requires off <= |old'| && n <= |buf| && |new'| == off + n
    requires forall x: nat :: x < |new'| ==> new'[x] == if x < off then old'[x] else buf[x - off]
    ensures new' == old'[..off] + buf[..n]
  {
  }

  /** A write inside the blocks of a file never falls short. */
  lemma OverwriteSucceeds(fs: Fs, i: nat, off: nat, buf: seq<bv8>)
    requires AllocInv(fs) && i < |fs.inodes| && fs.inodes[i].kind != Unused
    requires buf != [] && off + |buf| <= fs.inodes[i].blocks * BLOCK
    ensures Write(fs, i, off, buf).n == |buf|
  {
    assert Need(off + |buf|) <= fs.inodes[i].blocks;
  }

  /** Overwriting inside a file keeps the bytes behind exactly when the write ends in the
      file's last visible block; otherwise the blocks behind it are given up. */
  lemma OverwriteKeepsTail(fs: Fs, i: nat, off: nat, buf: seq<bv8>)
    requires AllocInv(fs) && i < |fs.inodes| && fs.inodes[i].kind != Unused
    requires buf != [] && EndOf(off, buf) <= Visible(fs.inodes[i])
    ensures var w := Write(fs, i, off, buf);
            && w.n == |buf| && i < |w.fs.inodes|
            && At(fs.inodes[i], Visible(fs.inodes[i])) <= |fs.data|
            && At(w.fs.inodes[i], Visible(w.fs.inodes[i])) <= |w.fs.data|
            && (Content(w.fs, i) == Splice(Content(fs, i), off, buf)
                <==> Visible(fs.inodes[i]) <= Need(EndOf(off, buf)) * BLOCK)
  {
    OverwriteSucceeds(fs, i, off, buf);
    WriteMeaning(fs, i, off, buf, 0);
    var w := Write(fs, i, off, buf);
    forall x: nat | x < |Content(w.fs, i)|
      ensures Content(w.fs, i)[x] == if off <= x < off + |buf| then buf[x - off] else Content(fs, i)[x]
    {
      WriteMeaning(fs, i, off, buf, x);
    }
    SplicedIf(Content(fs, i), off, buf, Content(w.fs, i));
    OverwriteLength(fs.inodes[i], w.fs.inodes[i], EndOf(off, buf));
  }

  lemma SplicedIf(old': seq<bv8>, off: nat, buf: seq<bv8>, new': seq<bv8>)
    requires off + |buf| <= |old'| && |new'| <= |old'|
    requires forall x: nat :: x < |new'| ==> new'[x] == if off <= x < off + |buf| then buf[x - off] else old'[x]
    ensures new' == Splice(old', off, buf) <==> |new'| == |old'|
  {
  }

  lemma OverwriteLength(ino: Inode, ino': Inode, end: nat)
    requires end <= Visible(ino) && ino'.size == ino.size && ino'.blocks == Need(end) <= ino.blocks
    ensures Visible(ino') == Visible(ino) <==> Visible(ino) <= Need(end) * BLOCK
  {
  }

  /** What `unamedfs_read` delivers: the part of the visible bytes behind the offset. */
  ghost function Slice(fs: Fs, i: nat, off: nat, count: nat): (s: seq<bv8>)
    requires i < |fs.inodes| && fs.inodes[i].first * BLOCK + Visible(fs.inodes[i]) <= |fs.data|
  {
    var c := Content(fs, i);
    if off >= |c| then [] else c[off..Min(off + count, |c|)]
  }

  /** Reading where a write has just been gives back what it wrote. */
  lemma WriteThenRead(fs: Fs, i: nat, off: nat, buf: seq<bv8>)
    requires AllocInv(fs) && i < |fs.inodes| && fs.inodes[i].kind != Unused && Write(fs, i, off, buf).n > 0
    ensures var w := Write(fs, i, off, buf);
            && i < |w.fs.inodes| && w.n <= |buf|
            && w.fs.inodes[i].first * BLOCK + Visible(w.fs.inodes[i]) <= |w.fs.data|
            && Slice(w.fs, i, off, w.n) == buf[..w.n]
  {
    WriteDone(fs, i, off, buf);
    DoneThenRead(fs, i, off, buf, Room(fs, i, off, EndOf(off, buf)), Write(fs, i, off, buf));
  }

  lemma DoneThenRead(fs: Fs, i: nat, off: nat, buf: seq<bv8>, w: Space, r: Written)
    requires AllocInv(fs) && Done(fs, i, off, buf, w, r) && r.n > 0
    ensures i < |r.fs.inodes| && r.n <= |buf|
    ensures r.fs.inodes[i].first * BLOCK + Visible(r.fs.inodes[i]) <= |r.fs.data|
    ensures Slice(r.fs, i, off, r.n) == buf[..r.n]
  {
    DoneShows(fs, i, off, buf, w, r, off);
    forall x: nat | off <= x < off + r.n ensures Content(r.fs, i)[x] == buf[x - off] {
      DoneShows(fs, i, off, buf, w, r, x);
    }
    SliceIs(Content(r.fs, i), off, buf, r.n);
  }

  lemma SliceIs(c: seq<bv8>, off: nat, buf: seq<bv8>, n: nat)
    requires off + n <= |c| && n <= |buf| && forall x: nat :: off <= x < off + n ==> c[x] == buf[x - off]
    ensures c[off..off + n] == buf[..n]
  {
    forall k | 0 <= k < n ensures c[off..off + n][k] == buf[..n][k] {
      assert c[off + k] == buf[k];
    }
  }

  lemma SliceOf(fs: Fs, i: nat, off: nat, count: nat, c: nat)
    requires AllocInv(fs) && i < |fs.inodes|
    requires c == if off >= Visible(fs.inodes[i]) then 0 else Min(count, Visible(fs.inodes[i]) - off)
    ensures fs.inodes[i].first * BLOCK + Visible(fs.inodes[i]) <= |fs.data|
    ensures |Slice(fs, i, off, count)| == c
    ensures c > 0 ==> var at := fs.inodes[i].first * BLOCK + off;
                      at + c <= |fs.data| && Slice(fs, i, off, count) == fs.data[at..at + c]
  {
    Inside(fs, i);
    var f, v := fs.inodes[i].first * BLOCK, Visible(fs.inodes[i]);
    if c > 0 { SliceInside(fs.data, f, v, off, c); }
  }

  lemma SliceInside(data: seq<bv8>, f: nat, v: nat, off: nat, c: nat)
    requires f + v <= |data| && off + c <= v
    ensures data[f..f + v][off..off + c] == data[f + off..f + off + c]
  {
    var x, z := data[f..f + v], data[f + off..f + off + c];
    var y := x[off..off + c];
    forall k | 0 <= k < c ensures y[k] == z[k] {
      assert y[k] == x[off + k] == data[f + off + k];
    }
  }

  // --------------------------------------------------------------- remounting

  /** `bitmap_rebuild` over the first `n` inodes. */
  ghost function Rebuilt(inodes: seq<Inode>, bits: seq<bool>, n: nat): (r: seq<bool>)
    requires n <= |inodes|
    ensures |r| == |bits|
  {
    if n == 0 then bits
    else
      var ino, r := inodes[n - 1], Rebuilt(inodes, bits, n - 1);
      if ino.kind == Unused || ino.blocks == 0 then r else Mark(r, ino.first, ino.blocks, true)
  }

  /** The freshly initialised bitmap: the superblock and the inode table are reserved. */
  ghost function Reserved(total: nat): seq<bool> {
    seq(total, b => b < 2)
  }

  lemma {:induction false} RebuiltAt(inodes: seq<Inode>, bits: seq<bool>, n: nat, b: nat)
    requires n <= |inodes| && b < |bits| && forall i :: 0 <= i < n ==> Placed(inodes[i], |bits|)
    ensures Rebuilt(inodes, bits, n)[b] <==> bits[b] || Owned(inodes[..n], b)
  {
    if n == 0 {
    } else {
      RebuiltAt(inodes, bits, n - 1, b);
      assert Placed(inodes[n - 1], |bits|);
      if Covers(inodes[n - 1], b) { assert Covers(inodes[..n][n - 1], b); }
      if Owned(inodes[..n - 1], b) {
        var j :| 0 <= j < n - 1 && Covers(inodes[..n - 1][j], b);
        assert Covers(inodes[..n][j], b);
      }
      if Owned(inodes[..n], b) && !Covers(inodes[n - 1], b) {
        var j :| 0 <= j < n && Covers(inodes[..n][j], b);
        assert Covers(inodes[..n - 1][j], b);
      }
    }
  }

  /** Mounting again reproduces the bitmap the running system had. */
  lemma RebuildIsLive(fs: Fs)
    requires AllocInv(fs)
    ensures Rebuilt(fs.inodes, Reserved(|fs.bits|), |fs.inodes|) == fs.bits
  {
    assert fs.inodes[..|fs.inodes|] == fs.inodes;
    forall b | 0 <= b < |fs.bits|
      ensures Rebuilt(fs.inodes, Reserved(|fs.bits|), |fs.inodes|)[b] == fs.bits[b]
    {
      RebuiltAt(fs.inodes, Reserved(|fs.bits|), |fs.inodes|, b);
    }
  }
}
