/** Runs from a freshly formatted device after which a call does what one would not
    expect: the places where the exact conditions on `unamedfs_rmdir`, on names and on
    overwriting are not met. */
module FsLapses {
  import opened FsBitmap
  import opened FsExtents
  import opened FsFiles
  import opened FsTree
  import opened FsNames
  import opened FsRuns

  const ROOT: Inode := Inode(0, Directory, 0, 0, 0, "/")

  /** The path of a one-letter name in the root directory. */
  function PathTo(c: char): string {
    ['/', c]
  }

  lemma PathNormal(c: char)
    requires c != '/'
    ensures Normal(PathTo(c)) && Normalize(PathTo(c)) == PathTo(c)
  {
    var path := PathTo(c);
    forall i ensures !DoubleAt(path, i) {
    }
    NormalFixed(path);
  }

  lemma PathSlash(c: char)
    requires c != '/'
    ensures LastSlash(PathTo(c)) == 0 && LastPart(PathTo(c)) == [c] && DirPrefix(PathTo(c)) == "/"
  {
    assert PathTo(c)[0] == '/';
  }

  lemma PathParts(c: char)
    requires c != '/'
    ensures Normal(PathTo(c)) && Normalize(PathTo(c)) == PathTo(c) && PathTo(c) != "/"
    ensures LastSlash(PathTo(c)) == 0 && BaseName(PathTo(c)) == [c] && DirName(PathTo(c)) == "/"
  {
    PathNormal(c);
    PathSlash(c);
    BasePart(PathTo(c));
  }

  /** The table of a file system that has one inode beside the root. */
  function WithOne(kind: Kind, c: char): seq<Inode> {
    [ROOT, Fresh(kind, 0, [c])]
  }

  lemma CreatedFirst(c: char, kind: Kind)
    requires c != '/' && Parents([ROOT])
    ensures Create([ROOT], PathTo(c), kind) == Made(1, WithOne(kind, c))
  {
    PathParts(c);
    FindNormal([ROOT], "/");
    assert Scan([ROOT], [c], 0) < 0;
    assert SlotFrom([ROOT], 1) == 1;
  }

  /** A device with one inode beside the root, not open. */
  ghost function One(data: seq<bv8>, total: nat, kind: Kind, c: char): State
    requires total >= 2
  {
    var s := Formatted(data, total);
    s.(fs := s.fs.(inodes := WithOne(kind, c)))
  }

  /** Making the first inode of a device, and whether its path leads to it. */
  lemma MadeFirst(data: seq<bv8>, total: nat, kind: Kind, c: char)
    requires 3 <= total && |data| == total * BLOCK && c != '/' && kind != Unused
    ensures var s := Formatted(data, total);
            Inv(s) && Make(s, PathTo(c), kind) == Out(0, One(data, total, kind, c)) && Inv(One(data, total, kind, c))
    ensures FindPath(WithOne(kind, c), PathTo(c)) == 1 <==> c != '.'
  {
    FormattedInv(data, total);
    PathParts(c);
    CreatedFirst(c, kind);
    CreatedIsFound([ROOT], PathTo(c), kind);
    MakeKeeps(Formatted(data, total), PathTo(c), kind);
  }

  /** The first inode, opened. */
  ghost function Opened(data: seq<bv8>, total: nat, kind: Kind, c: char): State
    requires total >= 2
  {
    var s := One(data, total, kind, c);
    s.(fds := s.fds[0 := Fd(true, 1, 0)])
  }

  lemma OpenedFirst(data: seq<bv8>, total: nat, kind: Kind, c: char)
    requires 3 <= total && |data| == total * BLOCK && c != '/' && c != '.' && kind != Unused
    ensures var s, s' := One(data, total, kind, c), Opened(data, total, kind, c);
            Inv(s) && OpenFile(s, PathTo(c)) == Out(0, s') && Inv(s')
  {
    MadeFirst(data, total, kind, c);
    OpenKeeps(One(data, total, kind, c), PathTo(c));
  }

  function Making(kind: Kind, path: string): Op {
    if kind == Directory then OpMkdir(path) else OpCreate(path)
  }

  lemma StepMakes(s: State, kind: Kind, path: string)
    requires Inv(s) && kind != Unused
    ensures Step(s, Making(kind, path)) == Make(s, path, kind)
  {
    if kind == Directory { MkdirMakes(s, path); } else { CreateMakes(s, path); }
  }

  lemma ReachesNext(s: State, op: Op, ops: seq<Op>, s': State)
    requires Inv(s) && Careful(s, op) && NoWrap(s, op) && Inv(Step(s, op).s) && Reaches(Step(s, op).s, ops, s')
    ensures Reaches(s, [op] + ops, s')
  {
    var all := [op] + ops;
    assert all[0] == op && all[1..] == ops;
  }

  lemma MadeRun(data: seq<bv8>, total: nat, kind: Kind, c: char, ops: seq<Op>, s: State)
    requires 3 <= total && |data| == total * BLOCK && c != '/' && kind != Unused
    requires Inv(One(data, total, kind, c)) && Reaches(One(data, total, kind, c), ops, s)
    ensures Run(data, total, [Making(kind, PathTo(c))] + ops, s)
  {
    MadeFirst(data, total, kind, c);
    StepMakes(Formatted(data, total), kind, PathTo(c));
    ReachesNext(Formatted(data, total), Making(kind, PathTo(c)), ops, s);
  }

  lemma OpenedRun(data: seq<bv8>, total: nat, kind: Kind, c: char, ops: seq<Op>, s: State)
    requires 3 <= total && |data| == total * BLOCK && c != '/' && c != '.' && kind != Unused
    requires Inv(Opened(data, total, kind, c)) && Reaches(Opened(data, total, kind, c), ops, s)
    ensures Run(data, total, [Making(kind, PathTo(c))] + ([OpOpen(PathTo(c))] + ops), s)
  {
    OpenedFirst(data, total, kind, c);
    ReachesNext(One(data, total, kind, c), OpOpen(PathTo(c)), ops, s);
    MadeRun(data, total, kind, c, [OpOpen(PathTo(c))] + ops, s);
  }

  /** A directory can be made under the name "." to which its path does not lead. */
  lemma DotIsNotFound(data: seq<bv8>, total: nat) returns (s: State)
    requires 3 <= total && |data| == total * BLOCK
    ensures Run(data, total, [OpMkdir(PathTo('.'))], s) && Inv(s)
    ensures IsDir(s.fs.inodes, 1) && s.fs.inodes[1].name == "." && FindPath(s.fs.inodes, PathTo('.')) != 1
  {
    MadeFirst(data, total, Directory, '.');
    s := One(data, total, Directory, '.');
    MadeRun(data, total, Directory, '.', [], s);
    assert [OpMkdir(PathTo('.'))] + [] == [OpMkdir(PathTo('.'))];
  }

  lemma FirstRemoved(s: State, c: char)
    requires Inv(s) && s.fs.inodes == WithOne(Directory, c) && c != '/' && FindPath(s.fs.inodes, PathTo(c)) == 1
    requires s.fds[0] == Fd(true, 1, 0)
    ensures Rmdir(s, PathTo(c)).code == 0 && !Inv(Rmdir(s, PathTo(c)).s)
  {
    PathParts(c);
    assert !HasChild(s.fs.inodes, 1) && OpenOn(s, 1);
    RmdirKeeps(s, PathTo(c));
  }

  /** An open directory can be removed; its descriptor then refers to no inode. */
  lemma OpenDirectoryRemoved(data: seq<bv8>, total: nat) returns (s: State)
    requires 3 <= total && |data| == total * BLOCK
    ensures Run(data, total, [OpMkdir(PathTo('d')), OpOpen(PathTo('d'))], s) && Inv(s)
    ensures Rmdir(s, PathTo('d')).code == 0 && !Inv(Rmdir(s, PathTo('d')).s)
  {
    s := DirectoryOpened(data, total, 'd');
    FirstRemoved(s, 'd');
  }

  lemma DirectoryOpened(data: seq<bv8>, total: nat, c: char) returns (s: State)
    requires 3 <= total && |data| == total * BLOCK && c != '/' && c != '.'
    ensures Run(data, total, [OpMkdir(PathTo(c)), OpOpen(PathTo(c))], s) && Inv(s)
    ensures s.fs.inodes == WithOne(Directory, c) && FindPath(s.fs.inodes, PathTo(c)) == 1 && s.fds[0] == Fd(true, 1, 0)
  {
    s := Opened(data, total, Directory, c);
    MadeFirst(data, total, Directory, c);
    OpenedFirst(data, total, Directory, c);
    DirectoryRun(data, total, c, s);
  }

  lemma DirectoryRun(data: seq<bv8>, total: nat, c: char, s: State)
    requires 3 <= total && |data| == total * BLOCK && c != '/' && c != '.'
    requires s == Opened(data, total, Directory, c) && Inv(s)
    ensures Run(data, total, [OpMkdir(PathTo(c)), OpOpen(PathTo(c))], s)
  {
    OpenedRun(data, total, Directory, c, [], s);
    TwoInARow(OpMkdir(PathTo(c)), OpOpen(PathTo(c)));
  }

  lemma TwoInARow(a: Op, b: Op)
    ensures [a] + ([b] + []) == [a, b]
  {
  }

  // ------------------------------------------------------------------ a lost tail

  /** The first write to a file finds room if there is enough behind the reserved blocks. */
  lemma FirstWrite(fs: Fs, i: nat, buf: seq<bv8>)
    requires AllocInv(fs) && i < |fs.inodes| && fs.inodes[i].kind != Unused && buf != []
    requires fs.inodes[i].size == fs.inodes[i].blocks == 0 && FreeRun(fs.bits, 2, Need(|buf|)) && Need(|buf|) <= fs.free
    ensures var w := Write(fs, i, 0, buf);
            && w.n == |buf| && i < |w.fs.inodes| && AllocInv(w.fs) && w.fs.inodes[i].kind == fs.inodes[i].kind
            && w.fs.inodes[i].size == |buf| && w.fs.inodes[i].blocks == Need(|buf|)
  {
    FirstRunIs(fs.bits, 2, Need(|buf|), 2);
    assert Try(fs, i, EndOf(0, buf)).ok;
    WriteMeaning(fs, i, 0, buf, 0);
    WriteOneInode(fs, i, 0, buf);
  }

  /** A file of two blocks, written to its end, with the descriptor back at its beginning. */
  ghost predicate LongFile(s: State) {
    && Inv(s) && IsOpen(s, 0) && s.fds[0] == Fd(true, 1, 0) && Live(s.fs.inodes, 1)
    && s.fs.inodes[1].kind == File && s.fs.inodes[1].size == BLOCK + 1 && s.fs.inodes[1].blocks == 2
  }

  lemma FirstByteWritten(fs: Fs, i: nat, b: bv8)
    requires AllocInv(fs) && i < |fs.inodes| && fs.inodes[i].kind == File
    requires fs.inodes[i].size == BLOCK + 1 && fs.inodes[i].blocks == 2
    ensures var w := Write(fs, i, 0, [b]); w.n == 1 && i < |w.fs.inodes| && Visible(w.fs.inodes[i]) == BLOCK
  {
    OverwriteSucceeds(fs, i, 0, [b]);
    WriteMeaning(fs, i, 0, [b], 0);
  }

  /** Overwriting the first byte of such a file makes it show one byte less. */
  lemma OverwrittenShort(s: State, b: bv8)
    requires LongFile(s)
    ensures var o := WriteFile(s, 0, [b]);
            o.code == 1 && 1 < |o.s.fs.inodes| && Visible(s.fs.inodes[1]) == BLOCK + 1 && Visible(o.s.fs.inodes[1]) == BLOCK
  {
    FirstByteWritten(s.fs, 1, b);
    WriteGoesOn(s, [b]);
  }

  lemma WriteGoesOn(s: State, buf: seq<bv8>)
    requires LongFile(s)
    ensures var o, w := WriteFile(s, 0, buf), Write(s.fs, 1, 0, buf); o.code == w.n && o.s.fs == w.fs
  {
  }

  lemma LongFileWritten(s: State, buf: seq<bv8>)
    requires Inv(s) && s.fds[0] == Fd(true, 1, 0) && s.fs.inodes == WithOne(File, 'f') && |buf| == BLOCK + 1
    requires FreeRun(s.fs.bits, 2, 2) && s.fs.free >= 2
    ensures var r := WriteFile(s, 0, buf).s;
            Inv(r) && LongFile(r.(fds := r.fds[0 := Fd(true, 1, 0)])) && r.fds[0] == Fd(true, 1, BLOCK + 1)
  {
    FirstWrite(s.fs, 1, buf);
    WriteFileKeeps(s, 0, buf);
  }

  /** Writing and seeking back make such a file of an empty one. */
  lemma LongFileReached(s: State, buf: seq<bv8>) returns (s': State)
    requires Inv(s) && s.fds[0] == Fd(true, 1, 0) && s.fs.inodes == WithOne(File, 'f') && |buf| == BLOCK + 1
    requires FreeRun(s.fs.bits, 2, 2) && s.fs.free >= 2
    ensures Reaches(s, [OpWrite(0, buf), OpSeek(0, 0, SeekSet)], s') && LongFile(s')
  {
    LongFileWritten(s, buf);
    var s1 := WriteFile(s, 0, buf).s;
    s' := Seek(s1, 0, 0, SeekSet).s;
    ReachesNext(s1, OpSeek(0, 0, SeekSet), [], s');
    ReachesNext(s, OpWrite(0, buf), [OpSeek(0, 0, SeekSet)] + [], s');
    assert [OpWrite(0, buf)] + ([OpSeek(0, 0, SeekSet)] + []) == [OpWrite(0, buf), OpSeek(0, 0, SeekSet)];
  }

  lemma OpenedRoom(data: seq<bv8>, total: nat)
    requires 4 <= total && |data| == total * BLOCK
    ensures var s := Opened(data, total, File, 'f'); FreeRun(s.fs.bits, 2, 2) && s.fs.free >= 2
  {
    assert Rebuilt([ROOT], Reserved(Min(total, MAX_BLOCKS)), 0) == Reserved(Min(total, MAX_BLOCKS));
  }

  /** A run to such a file. */
  lemma TailIsLost(data: seq<bv8>, total: nat, buf: seq<bv8>) returns (s: State)
    requires 4 <= total && |data| == total * BLOCK && |buf| == BLOCK + 1
    ensures Run(data, total, [OpCreate(PathTo('f')), OpOpen(PathTo('f')), OpWrite(0, buf), OpSeek(0, 0, SeekSet)], s)
    ensures LongFile(s)
  {
    OpenedFirst(data, total, File, 'f');
    OpenedRoom(data, total);
    s := LongFileReached(Opened(data, total, File, 'f'), buf);
    var ops := [OpWrite(0, buf), OpSeek(0, 0, SeekSet)];
    OpenedRun(data, total, File, 'f', ops, s);
    InARow(OpCreate(PathTo('f')), OpOpen(PathTo('f')), OpWrite(0, buf), OpSeek(0, 0, SeekSet));
  }

  lemma InARow(a: Op, b: Op, c: Op, d: Op)
    ensures [a] + ([b] + [c, d]) == [a, b, c, d]
  {
  }

  // ---------------------------------------------------------------- a bare name

  lemma BareParts(c: char)
    requires c != '/'
    ensures Normal([c]) && Normalize([c]) == [c] && [c] != "/"
    ensures LastSlash([c]) == -1 && BaseName([c]) == [c] && DirName([c]) == "/"
  {
    forall i ensures !DoubleAt([c], i) {
    }
    NormalFixed([c]);
    assert [c][..0] == [];
    assert LastSlash([c]) == -1 && LastPart([c]) == [c];
    BasePart([c]);
  }

  lemma BareCreated(c: char, kind: Kind)
    requires c != '/' && Parents([ROOT])
    ensures Create([ROOT], [c], kind) == Made(1, WithOne(kind, c))
  {
    BareParts(c);
    FindNormal([ROOT], "/");
    assert Scan([ROOT], [c], 0) < 0;
    assert SlotFrom([ROOT], 1) == 1;
  }

  /** The lookup of a one-letter path without a slash yields the root. */
  lemma BareLeads(inodes: seq<Inode>, c: char)
    requires inodes != [] && c != '/'
    ensures FindPath(inodes, [c]) == 0
  {
    BareParts(c);
    FindNormal(inodes, [c]);
    var comps := Split([c][1..]);
    assert comps == [""] && comps[1..] == [];
    assert Walk(inodes, comps, 0) == Walk(inodes, comps[1..], 0) == 0;
  }

  /** A directory made under a path without a slash is not where that path leads. */
  lemma BareIsNotFound(data: seq<bv8>, total: nat) returns (s: State)
    requires 3 <= total && |data| == total * BLOCK
    ensures Run(data, total, [OpMkdir("d")], s) && Inv(s)
    ensures IsDir(s.fs.inodes, 1) && s.fs.inodes[1].name == "d" && FindPath(s.fs.inodes, "d") == 0
  {
    s := One(data, total, Directory, 'd');
    FormattedInv(data, total);
    BareMade(data, total, 'd');
    BareLeads(s.fs.inodes, 'd');
    MkdirMakes(Formatted(data, total), ['d']);
    ReachesNext(Formatted(data, total), OpMkdir(['d']), [], s);
    assert [OpMkdir(['d'])] + [] == [OpMkdir("d")];
  }

  lemma BareMade(data: seq<bv8>, total: nat, c: char)
    requires 3 <= total && |data| == total * BLOCK && c != '/' && Inv(Formatted(data, total))
    ensures Make(Formatted(data, total), [c], Directory) == Out(0, One(data, total, Directory, c))
    ensures Inv(One(data, total, Directory, c))
  {
    BareParts(c);
    BareCreated(c, Directory);
    MakeKeeps(Formatted(data, total), [c], Directory);
  }
}
