/** Files are isolated from one another: over every run that neither writes nor removes a
    file, the file shows the same bytes and keeps its place in the tree. */
module FsIsolation {
  import opened FsBitmap
  import opened FsExtents
  import opened FsFiles
  import opened FsTree
  import opened FsNames
  import opened FsRuns

  /** Inode `i` is the same in both file systems and shows the same bytes. */
  ghost predicate Unharmed(fs: Fs, fs': Fs, i: nat) {
    && i < |fs.inodes| && i < |fs'.inodes| && fs'.inodes[i] == fs.inodes[i]
    && At(fs.inodes[i], Visible(fs.inodes[i])) <= |fs.data| && At(fs.inodes[i], Visible(fs.inodes[i])) <= |fs'.data|
    && Content(fs', i) == Content(fs, i)
  }

  lemma UnharmedTrans(fs: Fs, fs': Fs, fs'': Fs, i: nat)
    requires Unharmed(fs, fs', i) && Unharmed(fs', fs'', i)
    ensures Unharmed(fs, fs'', i)
  {
  }

  lemma UnharmedSame(fs: Fs, i: nat)
    requires AllocInv(fs) && i < |fs.inodes|
    ensures Unharmed(fs, fs, i)
  {
    Inside(fs, i);
  }

  /** The call writes to inode `i`, or removes it. */
  ghost predicate Touches(s: State, op: Op, i: nat)
    requires s.fs.inodes != []
  {
    match op
    case OpWrite(fd, buf) => IsOpen(s, fd) && s.fds[fd].ino == i
    case OpUnlink(path) => FindPath(s.fs.inodes, path) == i
    case OpRmdir(path) => FindPath(s.fs.inodes, path) == i
    case _ => false
  }

  lemma WriteLeaves(s: State, fd: int, buf: seq<bv8>, i: nat)
    requires Inv(s) && i < |s.fs.inodes| && !(IsOpen(s, fd) && s.fds[fd].ino == i)
    ensures Unharmed(s.fs, WriteFile(s, fd, buf).s.fs, i)
  {
    UnharmedSame(s.fs, i);
    if IsOpen(s, fd) && !IsDir(s.fs.inodes, s.fds[fd].ino) {
      var j, off := s.fds[fd].ino, s.fds[fd].offset;
      WriteKeeps(s.fs, j, off, buf);
      assert SameContent(s.fs, Write(s.fs, j, off, buf).fs, i);
    }
  }

  lemma MakeLeaves(s: State, path: string, kind: Kind, i: nat)
    requires Inv(s) && Live(s.fs.inodes, i) && kind != Unused
    ensures Unharmed(s.fs, Make(s, path, kind).s.fs, i)
  {
    UnharmedSame(s.fs, i);
    CreateKeepsTree(s.fs.inodes, Normalize(path), kind);
    CreateLeaves(s.fs.inodes, Normalize(path), kind, i);
  }

  lemma CreateLeaves(inodes: seq<Inode>, norm: string, kind: Kind, i: nat)
    requires Parents(inodes) && Live(inodes, i)
    ensures var m := Create(inodes, norm, kind); i < |m.inodes| && m.inodes[i] == inodes[i]
  {
  }

  lemma ClearedLeaves(fs: Fs, j: nat, i: nat)
    requires AllocInv(fs) && i < |fs.inodes| && j < |fs.inodes| && j != i
    ensures Unharmed(fs, Cleared(fs, j), i)
  {
    UnharmedSame(fs, i);
  }

  lemma UnlinkLeaves(s: State, path: string, i: nat)
    requires Inv(s) && Live(s.fs.inodes, i) && FindPath(s.fs.inodes, path) != i
    ensures Unharmed(s.fs, Unlink(s, path).s.fs, i)
  {
    UnharmedSame(s.fs, i);
    var j := FindPath(s.fs.inodes, path);
    if j >= 0 { ClearedLeaves(s.fs, j, i); }
  }

  lemma RmdirLeaves(s: State, path: string, i: nat)
    requires Inv(s) && Live(s.fs.inodes, i) && FindPath(s.fs.inodes, path) != i
    ensures Unharmed(s.fs, Rmdir(s, path).s.fs, i)
  {
    UnharmedSame(s.fs, i);
    var j := FindPath(s.fs.inodes, path);
    if j >= 0 { ClearedLeaves(s.fs, j, i); }
  }

  lemma DescriptorLeaves(s: State, op: Op, i: nat)
    requires Inv(s) && i < |s.fs.inodes| && OnDescriptor(op) && !Touches(s, op, i)
    ensures Unharmed(s.fs, Step(s, op).s.fs, i)
  {
    UnharmedSame(s.fs, i);
    match op
    case OpOpen(path) =>
    case OpClose(fd) =>
    case OpRead(fd, count) =>
    case OpWrite(fd, buf) => WriteLeaves(s, fd, buf, i);
    case OpSeek(fd, offset, whence) =>
  }

  /** A call that does not touch a file leaves it unharmed. */
  lemma StepLeaves(s: State, op: Op, i: nat)
    requires Inv(s) && Live(s.fs.inodes, i) && !Touches(s, op, i)
    ensures Unharmed(s.fs, Step(s, op).s.fs, i)
  {
    match op
    case OpMkdir(path) =>
      MkdirMakes(s, path);
      MakeLeaves(s, path, Directory, i);
    case OpCreate(path) =>
      CreateMakes(s, path);
      MakeLeaves(s, path, File, i);
    case OpUnlink(path) => UnlinkLeaves(s, path, i);
    case OpRmdir(path) => RmdirLeaves(s, path, i);
    case _ => DescriptorLeaves(s, op, i);
  }

  /** No call of the run touches inode `i`. */
  ghost predicate Spares(s: State, ops: seq<Op>, i: nat)
    requires Inv(s)
    decreases |ops|
  {
    ops == [] ||
    (&& !Touches(s, ops[0], i) && Careful(s, ops[0])
     && (StepKeeps(s, ops[0]); Spares(Step(s, ops[0]).s, ops[1..], i)))
  }

  /** A run that spares a file leaves it unharmed, whatever it makes, writes, moves and
      removes elsewhere. */
  lemma {:induction false} RunLeaves(s: State, ops: seq<Op>, s': State, i: nat)
    requires Inv(s) && Reaches(s, ops, s') && Live(s.fs.inodes, i) && Spares(s, ops, i)
    ensures Unharmed(s.fs, s'.fs, i)
    decreases |ops|
  {
    if ops == [] {
      UnharmedSame(s.fs, i);
    } else {
      StepKeeps(s, ops[0]);
      StepLeaves(s, ops[0], i);
      UnharmedLives(s.fs, Step(s, ops[0]).s.fs, i);
      RunLeaves(Step(s, ops[0]).s, ops[1..], s', i);
      UnharmedTrans(s.fs, Step(s, ops[0]).s.fs, s'.fs, i);
    }
  }

  lemma UnharmedLives(fs: Fs, fs': Fs, i: nat)
    requires Unharmed(fs, fs', i) && Live(fs.inodes, i)
    ensures Live(fs'.inodes, i)
  {
  }

  /** So reading it anywhere gives the same bytes before and after such a run. */
  lemma SameBytesRead(s: State, ops: seq<Op>, s': State, i: nat, off: nat, count: nat)
    requires Inv(s) && Reaches(s, ops, s') && Live(s.fs.inodes, i) && Spares(s, ops, i)
    ensures Unharmed(s.fs, s'.fs, i) && Live(s'.fs.inodes, i)
    ensures Slice(s'.fs, i, off, count) == Slice(s.fs, i, off, count)
  {
    RunLeaves(s, ops, s', i);
  }
}
