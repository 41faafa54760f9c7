/** The file system's calls on a whole state, and what every run of them keeps. */
module FsRuns {
  import opened Bits
  import opened FsBitmap
  import opened FsExtents
  import opened FsFiles
  import opened FsTree
  import opened FsNames

  const MAX_FDS: nat := 64

  datatype Fd = Fd(used: bool, ino: int, offset: nat)

  datatype State = State(fs: Fs, fds: seq<Fd>)

  datatype Out = Out(code: int, s: State)

  /** Open descriptors refer to live inodes. */
  ghost predicate FdsLive(s: State) {
    |s.fds| == MAX_FDS && forall d :: 0 <= d < MAX_FDS && s.fds[d].used ==> Live(s.fs.inodes, s.fds[d].ino)
  }

  ghost predicate Inv(s: State) {
    AllocInv(s.fs) && TreeInv(s.fs.inodes) && FdsLive(s)
  }

  // --------------------------------------------------------------- operations

  ghost predicate IsOpen(s: State, fd: int) {
    0 <= fd < |s.fds| && s.fds[fd].used
  }

  /** The lowest descriptor not in use from `d` on, -1 if there is none. */
  ghost function FreeFd(fds: seq<Fd>, d: nat): (r: int)
    requires d <= |fds|
    ensures r >= 0 ==> d <= r < |fds| && !fds[r].used
    ensures r >= -1
    decreases |fds| - d
  {
    if d == |fds| then -1 else if !fds[d].used then d else FreeFd(fds, d + 1)
  }

  ghost function OpenFile(s: State, path: string): Out
    requires Inv(s)
  {
    var i, d := FindPath(s.fs.inodes, path), FreeFd(s.fds, 0);
    if i < 0 || d < 0 then Out(-1, s) else Out(d, s.(fds := s.fds[d := Fd(true, i, 0)]))
  }

  ghost function CloseFile(s: State, fd: int): Out {
    if !IsOpen(s, fd) then Out(-1, s) else Out(0, s.(fds := s.fds[fd := Fd(false, -1, 0)]))
  }

  /** What a read through an open descriptor delivers. */
  ghost function ReadOn(s: State, fd: nat, count: nat): seq<bv8>
    requires AllocInv(s.fs) && fd < |s.fds| && Live(s.fs.inodes, s.fds[fd].ino)
  {
    Inside(s.fs, s.fds[fd].ino);
    Slice(s.fs, s.fds[fd].ino, s.fds[fd].offset, count)
  }

  ghost function ReadBytes(s: State, fd: int, count: nat): seq<bv8>
    requires Inv(s) && IsOpen(s, fd)
  {
    ReadOn(s, fd, count)
  }

  ghost function ReadFile(s: State, fd: int, count: nat): Out
    requires Inv(s)
  {
    if !IsOpen(s, fd) || IsDir(s.fs.inodes, s.fds[fd].ino) then Out(-1, s)
    else Delivered(s, fd, ReadBytes(s, fd, count))
  }

  /** The outcome of a read that delivers `bytes`. */
  ghost function Delivered(s: State, fd: nat, bytes: seq<bv8>): Out
    requires fd < |s.fds|
  {
    Out(|bytes|, s.(fds := Advanced(s.fds, fd, |bytes|)))
  }

  /** The descriptors after a transfer of `n` bytes; a failed one moves none. */
  function Advanced(fds: seq<Fd>, fd: nat, n: int): seq<Fd>
    requires fd < |fds|
  {
    if n < 0 then fds else fds[fd := fds[fd].(offset := fds[fd].offset + n)]
  }

  /** A write through an open descriptor on a file. */
  ghost function WriteOn(s: State, fd: nat, buf: seq<bv8>): Out
    requires AllocInv(s.fs) && fd < |s.fds| && Live(s.fs.inodes, s.fds[fd].ino)
  {
    var d := s.fds[fd];
    var w := Write(s.fs, d.ino, d.offset, buf);
    Out(w.n, State(w.fs, Advanced(s.fds, fd, w.n)))
  }

  ghost function WriteFile(s: State, fd: int, buf: seq<bv8>): Out
    requires Inv(s)
  {
    if !IsOpen(s, fd) || IsDir(s.fs.inodes, s.fds[fd].ino) then Out(-1, s) else WriteOn(s, fd, buf)
  }

  datatype Whence = SeekSet | SeekCur | SeekEnd | Unknown

  /** Where a seek counts from. */
  ghost function Origin(s: State, d: Fd, whence: Whence): nat
    requires d.used ==> Live(s.fs.inodes, d.ino)
  {
    if whence == SeekCur then d.offset
    else if whence == SeekEnd && d.used then s.fs.inodes[d.ino].size
    else 0
  }

  /** A number cut to the signed 32 bits of an `off_t`. */
  function Signed32(x: int): int {
    var r := x % WORD;
    if r < 0x8000_0000 then r else r - WORD
  }

  ghost function Seek(s: State, fd: int, offset: int, whence: Whence): Out
    requires FdsLive(s)
  {
    if !IsOpen(s, fd) || whence == Unknown then Out(-1, s)
    else
      var to := Signed32(Origin(s, s.fds[fd], whence) + offset);
      if to < 0 then Out(-1, s) else Out(to, s.(fds := s.fds[fd := s.fds[fd].(offset := to)]))
  }

  ghost function MakeNorm(s: State, norm: string, kind: Kind): Out
    requires Parents(s.fs.inodes)
  {
    Entered(s, Create(s.fs.inodes, norm, kind))
  }

  /** The outcome of a creation. */
  ghost function Entered(s: State, m: Made): Out {
    Out(if m.slot < 0 then -1 else 0, s.(fs := s.fs.(inodes := m.inodes)))
  }

  ghost function Make(s: State, path: string, kind: Kind): Out
    requires Inv(s)
  {
    if kind == Directory && Normalize(path) == "/" then Out(-1, s) else MakeNorm(s, Normalize(path), kind)
  }

  /** Give up the blocks of inode `i` and clear it. The guard on the count, which only
      unlinking has, always holds. */
  ghost function Cleared(fs: Fs, i: nat): Fs
    requires i < |fs.inodes|
  {
    var ino := fs.inodes[i];
    fs.(inodes := fs.inodes[i := ZEROED], bits := Mark(fs.bits, ino.first, ino.blocks, false),
        free := if fs.free + ino.blocks <= fs.total then fs.free + ino.blocks else fs.free)
  }

  /** Close every descriptor on inode `i`. */
  ghost function Shut(fds: seq<Fd>, i: nat): (r: seq<Fd>)
    ensures |r| == |fds|
    ensures forall d :: 0 <= d < |fds| ==>
      r[d] == if fds[d].used && fds[d].ino == i then fds[d].(used := false, ino := -1) else fds[d]
  {
    seq(|fds|, d requires 0 <= d < |fds| =>
      if fds[d].used && fds[d].ino == i then fds[d].(used := false, ino := -1) else fds[d])
  }

  ghost function Unlink(s: State, path: string): Out
    requires Inv(s)
  {
    var i := FindPath(s.fs.inodes, path);
    if Normalize(path) == "/" || i < 0 || IsDir(s.fs.inodes, i) then Out(-1, s)
    else Out(0, State(Cleared(s.fs, i), Shut(s.fds, i)))
  }

  ghost function Rmdir(s: State, path: string): Out
    requires Inv(s)
  {
    var i := FindPath(s.fs.inodes, path);
    if Normalize(path) == "/" || i < 0 || !IsDir(s.fs.inodes, i) || HasChild(s.fs.inodes, i) then Out(-1, s)
    else Out(0, State(Cleared(s.fs, i), s.fds))
  }

  // --------------------------------------------------------------- invariance

  lemma ClearedKeeps(fs: Fs, i: nat)
    requires AllocInv(fs) && i < |fs.inodes|
    ensures AllocInv(Cleared(fs, i)) && fs.free + fs.inodes[i].blocks <= fs.total
  {
    var ino := fs.inodes[i];
    Reassign(fs, i, ZEROED, fs.data);
    ClearAtMost(Remarked(fs.bits, ino, ZEROED));
    assert Cleared(fs, i) == Reassigned(fs, i, ZEROED, fs.data);
  }

  lemma PutKeeps(fs: Fs, slot: nat, ino: Inode)
    requires AllocInv(fs) && slot <= |fs.inodes| && !Live(fs.inodes, slot) && ino.first == ino.blocks == 0
    ensures AllocInv(fs.(inodes := Put(fs.inodes, slot, ino)))
  {
    var r := Put(fs.inodes, slot, ino);
    assert slot < |fs.inodes| ==> Placed(fs.inodes[slot], |fs.bits|);
    forall j, b | 0 <= j < |r| && Covers(r[j], b) ensures j < |fs.inodes| && Covers(fs.inodes[j], b) {
    }
    forall b | 0 <= b < |fs.bits| ensures Owned(r, b) <==> Owned(fs.inodes, b) {
      if Owned(fs.inodes, b) {
        var j :| 0 <= j < |fs.inodes| && Covers(fs.inodes[j], b);
        assert Covers(r[j], b);
      }
      if Owned(r, b) {
        var j :| 0 <= j < |r| && Covers(r[j], b);
        assert Covers(fs.inodes[j], b);
      }
    }
    forall j | 0 <= j < |r| ensures Placed(r[j], |fs.bits|) {
      if j != slot { assert Placed(fs.inodes[j], |fs.bits|); }
    }
  }

  lemma AddedKeeps(s: State, slot: nat, ino: Inode)
    requires Inv(s) && slot <= |s.fs.inodes| && !Live(s.fs.inodes, slot) && ino.first == ino.blocks == 0
    requires TreeInv(Put(s.fs.inodes, slot, ino))
    ensures Inv(s.(fs := s.fs.(inodes := Put(s.fs.inodes, slot, ino))))
  {
    PutKeeps(s.fs, slot, ino);
  }

  lemma MakeKeeps(s: State, path: string, kind: Kind)
    requires Inv(s) && kind != Unused
    ensures Inv(Make(s, path, kind).s)
  {
    var inodes, norm := s.fs.inodes, Normalize(path);
    var m := Create(inodes, norm, kind);
    CreateKeepsTree(inodes, norm, kind);
    if m.slot >= 0 {
      AddedKeeps(s, m.slot, Fresh(kind, FindPath(inodes, DirName(norm)), BaseName(norm)));
    } else {
      assert s.(fs := s.fs.(inodes := m.inodes)) == s;
    }
  }

  lemma UnlinkKeeps(s: State, path: string)
    requires Inv(s)
    ensures Inv(Unlink(s, path).s)
  {
    var i := FindPath(s.fs.inodes, path);
    if i >= 0 && !IsDir(s.fs.inodes, i) {
      ClearedKeeps(s.fs, i);
      FileHasNoChild(s.fs.inodes, i);
      RemoveKeepsTree(s.fs.inodes, i);
    }
  }

  ghost predicate OpenOn(s: State, i: int) {
    exists d :: 0 <= d < |s.fds| && s.fds[d].used && s.fds[d].ino == i
  }

  /** The path names no directory that could be removed, or none that is open. */
  ghost predicate SafeToRemove(s: State, path: string)
    requires s.fs.inodes != []
  {
    var i := FindPath(s.fs.inodes, path);
    Normalize(path) == "/" || !IsDir(s.fs.inodes, i) || HasChild(s.fs.inodes, i) || !OpenOn(s, i)
  }

  /** Removing a directory leaves a consistent state exactly if the path does not name an
      empty directory below the root on which a descriptor is open. */
  lemma RmdirKeeps(s: State, path: string)
    requires Inv(s)
    ensures var o := Rmdir(s, path);
            && AllocInv(o.s.fs) && TreeInv(o.s.fs.inodes)
            && (Inv(o.s) <==> SafeToRemove(s, path))
  {
    var i := FindPath(s.fs.inodes, path);
    if Normalize(path) != "/" && IsDir(s.fs.inodes, i) && !HasChild(s.fs.inodes, i) {
      ClearedKeeps(s.fs, i);
      RemoveKeepsTree(s.fs.inodes, i);
      LeftOpen(s, i);
    }
  }

  /** Clearing an inode without closing anything. */
  lemma LeftOpen(s: State, i: nat)
    requires FdsLive(s) && i < |s.fs.inodes|
    ensures FdsLive(State(Cleared(s.fs, i), s.fds)) <==> !OpenOn(s, i)
  {
    var r := Cleared(s.fs, i).inodes;
    assert forall j :: Live(r, j) <==> Live(s.fs.inodes, j) && j != i;
  }

  /** A table with the same kinds, parents and names is the same tree. */
  lemma SameTree(inodes: seq<Inode>, r: seq<Inode>)
    requires TreeInv(inodes) && |r| == |inodes|
    requires forall j :: 0 <= j < |r| ==> r[j].kind == inodes[j].kind && r[j].parent == inodes[j].parent && r[j].name == inodes[j].name
    ensures TreeInv(r)
  {
    SameNames(inodes, r);
    SameRoots(inodes, r);
  }

  lemma SameRoots(inodes: seq<Inode>, r: seq<Inode>)
    requires AllRooted(inodes) && |r| == |inodes| && forall j :: 0 <= j < |r| ==> r[j].parent == inodes[j].parent
    requires forall j :: Live(r, j) <==> Live(inodes, j)
    ensures AllRooted(r)
  {
    forall j: nat | Live(r, j) ensures Rooted(r, j) {
      assert Live(inodes, j);
      var k: nat :| Climbs(inodes, j, k);
      SameClimb(inodes, r, j, k);
    }
  }

  lemma SameNames(inodes: seq<Inode>, r: seq<Inode>)
    requires Parents(inodes) && Unique(inodes) && |r| == |inodes|
    requires forall j :: 0 <= j < |r| ==> r[j].kind == inodes[j].kind && r[j].parent == inodes[j].parent && r[j].name == inodes[j].name
    ensures Parents(r) && Unique(r) && forall j :: Live(r, j) <==> Live(inodes, j)
  {
    forall j | Live(r, j) ensures IsDir(r, r[j].parent) {
      assert Live(inodes, j);
    }
    forall j, k | Live(r, j) && Live(r, k) && j != k ensures r[j].parent != r[k].parent || r[j].name != r[k].name {
      assert Live(inodes, j) && Live(inodes, k);
    }
  }

  lemma {:induction false} SameClimb(inodes: seq<Inode>, r: seq<Inode>, i: nat, k: nat)
    requires |r| == |inodes| && forall j :: 0 <= j < |r| ==> r[j].parent == inodes[j].parent
    requires Climbs(inodes, i, k)
    ensures Climbs(r, i, k)
    decreases k
  {
    if k == 0 {
    } else {
      SameClimb(inodes, r, inodes[i].parent, k - 1);
    }
  }

  lemma WrittenKeeps(s: State, i: nat, fs: Fs, fds: seq<Fd>)
    requires Inv(s) && AllocInv(fs) && i < |s.fs.inodes| == |fs.inodes| && |fds| == |s.fds|
    requires fs.inodes == s.fs.inodes[i := fs.inodes[i]] && fs.inodes[i].kind == s.fs.inodes[i].kind
    requires fs.inodes[i].parent == s.fs.inodes[i].parent && fs.inodes[i].name == s.fs.inodes[i].name
    requires forall d :: 0 <= d < |fds| ==> fds[d] == s.fds[d].(offset := fds[d].offset)
    ensures Inv(State(fs, fds))
  {
    SameTree(s.fs.inodes, fs.inodes);
  }

  lemma WriteFileKeeps(s: State, fd: int, buf: seq<bv8>)
    requires Inv(s)
    ensures Inv(WriteFile(s, fd, buf).s)
  {
    if IsOpen(s, fd) && !IsDir(s.fs.inodes, s.fds[fd].ino) {
      var i, o := s.fds[fd].ino, WriteFile(s, fd, buf);
      WriteOneInode(s.fs, i, s.fds[fd].offset, buf);
      WrittenKeeps(s, i, o.s.fs, o.s.fds);
    }
  }

  lemma OpenKeeps(s: State, path: string)
    requires Inv(s)
    ensures Inv(OpenFile(s, path).s)
  {
    FoundLive(s.fs.inodes, path);
  }

  lemma CloseKeeps(s: State, fd: int)
    requires Inv(s)
    ensures Inv(CloseFile(s, fd).s)
  {
  }

  lemma ReadKeeps(s: State, fd: int, count: nat)
    requires Inv(s)
    ensures Inv(ReadFile(s, fd, count).s)
  {
  }

  lemma SeekKeeps(s: State, fd: int, offset: int, whence: Whence)
    requires Inv(s)
    ensures Inv(Seek(s, fd, offset, whence).s)
  {
  }

  // --------------------------------------------------------------------- runs

  datatype Op =
    | OpOpen(path: string)
    | OpClose(fd: int)
    | OpRead(fd: int, count: nat)
    | OpWrite(fd: int, buf: seq<bv8>)
    | OpSeek(fd: int, offset: int, whence: Whence)
    | OpMkdir(path: string)
    | OpCreate(path: string)
    | OpUnlink(path: string)
    | OpRmdir(path: string)

  ghost function Step(s: State, op: Op): Out
    requires Inv(s)
  {
    match op
    case OpOpen(path) => OpenFile(s, path)
    case OpClose(fd) => CloseFile(s, fd)
    case OpRead(fd, count) => ReadFile(s, fd, count)
    case OpWrite(fd, buf) => WriteFile(s, fd, buf)
    case OpSeek(fd, offset, whence) => Seek(s, fd, offset, whence)
    case OpMkdir(path) => Make(s, path, Directory)
    case OpCreate(path) => Make(s, path, File)
    case OpUnlink(path) => Unlink(s, path)
    case OpRmdir(path) => Rmdir(s, path)
  }

  // What a call of each kind on the tree is.

  lemma MkdirMakes(s: State, path: string)
    requires Inv(s)
    ensures Step(s, OpMkdir(path)) == Make(s, path, Directory)
  {
  }

  lemma CreateMakes(s: State, path: string)
    requires Inv(s)
    ensures Step(s, OpCreate(path)) == Make(s, path, File)
  {
  }

  /** No directory is removed while a descriptor is open on it. */
  ghost predicate Careful(s: State, op: Op)
    requires Inv(s)
  {
    op.OpRmdir? ==> SafeToRemove(s, op.path)
  }

  /** The calls on descriptors. */
  predicate OnDescriptor(op: Op) {
    op.OpOpen? || op.OpClose? || op.OpRead? || op.OpWrite? || op.OpSeek?
  }

  /** No write reaches so far that its end, rounded up to a block, passes 2^32. */
  ghost predicate NoWrap(s: State, op: Op) {
    op.OpWrite? && IsOpen(s, op.fd) ==> s.fds[op.fd].offset + |op.buf| + BLOCK - 1 < WORD
  }

  lemma DescriptorStepKeeps(s: State, op: Op)
    requires Inv(s) && OnDescriptor(op)
    ensures Inv(Step(s, op).s)
  {
    match op
    case OpOpen(path) => OpenKeeps(s, path);
    case OpClose(fd) => CloseKeeps(s, fd);
    case OpRead(fd, count) => ReadKeeps(s, fd, count);
    case OpWrite(fd, buf) => WriteFileKeeps(s, fd, buf);
    case OpSeek(fd, offset, whence) => SeekKeeps(s, fd, offset, whence);
  }

  lemma PlainStepKeeps(s: State, op: Op)
    requires Inv(s) && !op.OpRmdir?
    ensures Inv(Step(s, op).s)
  {
    match op
    case OpMkdir(path) => MakeKeeps(s, path, Directory);
    case OpCreate(path) => MakeKeeps(s, path, File);
    case OpUnlink(path) => UnlinkKeeps(s, path);
    case _ => DescriptorStepKeeps(s, op);
  }

  /** A call keeps the invariant exactly if it is careful. */
  lemma StepKeeps(s: State, op: Op)
    requires Inv(s)
    ensures Inv(Step(s, op).s) <==> Careful(s, op)
  {
    match op
    case OpRmdir(path) => RmdirKeeps(s, path);
    case _ => PlainStepKeeps(s, op);
  }

  /** No call changes the number of blocks. */
  lemma StepTotal(s: State, op: Op)
    requires Inv(s)
    ensures Step(s, op).s.fs.total == s.fs.total
  {
    match op
    case OpWrite(fd, buf) =>
      if IsOpen(s, fd) { WriteOneInode(s.fs, s.fds[fd].ino, s.fds[fd].offset, buf); }
    case _ =>
  }

  /** `s'` is reached from `s` by careful calls, none of which wraps. */
  ghost predicate Reaches(s: State, ops: seq<Op>, s': State)
    requires Inv(s)
    decreases |ops|
  {
    if ops == [] then s' == s
    else
      && Careful(s, ops[0]) && NoWrap(s, ops[0])
      && (StepKeeps(s, ops[0]); Reaches(Step(s, ops[0]).s, ops[1..], s'))
  }

  lemma {:induction false} RunKeeps(s: State, ops: seq<Op>, s': State)
    requires Inv(s) && Reaches(s, ops, s')
    ensures Inv(s') && s'.fs.total == s.fs.total
    decreases |ops|
  {
    if ops == [] {
    } else {
      StepKeeps(s, ops[0]);
      StepTotal(s, ops[0]);
      RunKeeps(Step(s, ops[0]).s, ops[1..], s');
    }
  }

  /** A file system just formatted and mounted: the root directory and nothing else. */
  ghost function Formatted(data: seq<bv8>, total: nat): State
    requires total >= 2
  {
    var inodes := [Inode(0, Directory, 0, 0, 0, "/")];
    State(Fs(inodes, Rebuilt(inodes, Reserved(Min(total, MAX_BLOCKS)), 1), total - 2, total, data),
          seq(MAX_FDS, _ => Fd(false, -1, 0)))
  }

  lemma {:induction false} ReservedClear(total: nat)
    requires total >= 2
    ensures Clear(Reserved(total)) == total - 2
  {
    var none := seq(total, _ => false);
    AllClear(none);
    ClearMark(none, 0, 2, true);
    assert Mark(none, 0, 2, true) == Reserved(total);
  }

  lemma {:induction false} AllClear(bits: seq<bool>)
    requires forall b :: 0 <= b < |bits| ==> !bits[b]
    ensures Clear(bits) == |bits|
  {
    if bits == [] {
    } else {
      AllClear(bits[1..]);
    }
  }

  lemma FormattedInv(data: seq<bv8>, total: nat)
    requires 3 <= total && |data| == total * BLOCK
    ensures Inv(Formatted(data, total))
  {
    var s := Formatted(data, total);
    var inodes := s.fs.inodes;
    var covered := Min(total, MAX_BLOCKS);
    ReservedClear(covered);
    assert Rebuilt(inodes, Reserved(covered), 0) == Reserved(covered);
    assert Climbs(inodes, 0, 0);
    assert forall b :: !Owned(inodes, b);
  }

  /** `s` is reached by careful calls from a freshly formatted device. */
  ghost predicate Run(data: seq<bv8>, total: nat, ops: seq<Op>, s: State)
    requires 3 <= total && |data| == total * BLOCK
  {
    FormattedInv(data, total);
    Reaches(Formatted(data, total), ops, s)
  }

  /** In every state a run of careful calls reaches, extents are disjoint and inside the
      device, the bitmap is exact, mounting again gives the same bitmap, and the inodes form
      a tree with unique names. The count of free blocks is that of the clear bits and of
      the blocks behind the bitmap, so it is right exactly for devices the bitmap covers. */
  lemma EveryRun(data: seq<bv8>, total: nat, ops: seq<Op>, s: State)
    requires 3 <= total && |data| == total * BLOCK && Run(data, total, ops, s)
    ensures Inv(s) && Rebuilt(s.fs.inodes, Reserved(|s.fs.bits|), |s.fs.inodes|) == s.fs.bits
    ensures s.fs.free == Clear(s.fs.bits) <==> total <= MAX_BLOCKS
  {
    FormattedInv(data, total);
    RunKeeps(Formatted(data, total), ops, s);
    RebuildIsLive(s.fs);
  }
}
