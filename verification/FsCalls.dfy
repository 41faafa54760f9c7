/** What each call of the file system means for a caller: what it returns, what it changes,
    and that it changes nothing else. */
module FsCalls {
  import opened Bits
  import opened FsBitmap
  import opened FsExtents
  import opened FsFiles
  import opened FsRoom
  import opened FsTree
  import opened FsNames
  import opened FsRuns
  import L = FsLapses

  /** Only descriptor `fd` has changed. */
  ghost predicate OnlyFd(s: State, s': State, fd: nat, d: Fd) {
    && fd < |s.fds| == |s'.fds|
    && forall e :: 0 <= e < |s.fds| ==> s'.fds[e] == if e == fd then d else s.fds[e]
  }

  /** The call is refused: nothing is open there, or a directory. */
  ghost predicate Refuses(s: State, fd: int)
    requires FdsLive(s)
  {
    !(0 <= fd < 64 && s.fds[fd].used) || s.fs.inodes[s.fds[fd].ino].kind == Directory
  }

  // ---------------------------------------------------------------- reading, writing

  lemma WriteRefused(s: State, fd: int, buf: seq<bv8>)
    requires Inv(s)
    ensures if Refuses(s, fd) then WriteFile(s, fd, buf) == Out(-1, s)
            else WriteFile(s, fd, buf) == WriteOn(s, fd, buf) && Live(s.fs.inodes, s.fds[fd].ino)
  {
  }

  /** `s'` is `s` after a write of `buf` at `off` into inode `i` through descriptor `fd` that
      returned `n`. */
  ghost predicate WroteAt(s: State, fd: nat, i: nat, off: nat, buf: seq<bv8>, n: int, s': State) {
    && i < |s.fs.inodes| && n == Reported(s.fs, i, off, |buf|)
    && OnlyFd(s, s', fd, Fd(true, i, if n < 0 then off else off + n))
    && (n <= 0 ==> s'.fs == s.fs)
    && (n > 0 ==> forall x: nat :: Shows(s.fs, i, off, buf, n, s'.fs, x))
    && (forall j: nat :: j < |s.fs.inodes| && j != i ==> SameContent(s.fs, s'.fs, j))
  }

  lemma WriteOnMeans(s: State, fd: nat, buf: seq<bv8>)
    requires AllocInv(s.fs) && fd < |s.fds| && s.fds[fd].used && Live(s.fs.inodes, s.fds[fd].ino)
    ensures var o := WriteOn(s, fd, buf); WroteAt(s, fd, s.fds[fd].ino, s.fds[fd].offset, buf, o.code, o.s)
  {
    var i, off := s.fds[fd].ino, s.fds[fd].offset;
    WriteReports(s.fs, i, off, buf);
    WriteKeeps(s.fs, i, off, buf);
    if Write(s.fs, i, off, buf).n > 0 {
      forall x: nat ensures Shows(s.fs, i, off, buf, Write(s.fs, i, off, buf).n, Write(s.fs, i, off, buf).fs, x) {
        WriteMeaning(s.fs, i, off, buf, x);
      }
    }
  }

  /** A write through a descriptor writes at the descriptor's offset, as many bytes as there
      is room for, and moves the offset behind them. */
  lemma WriteMeans(s: State, fd: int, buf: seq<bv8>)
    requires Inv(s)
    ensures var o := WriteFile(s, fd, buf);
            if Refuses(s, fd) then o == Out(-1, s)
            else WroteAt(s, fd, s.fds[fd].ino, s.fds[fd].offset, buf, o.code, o.s)
  {
    WriteRefused(s, fd, buf);
    if !Refuses(s, fd) { WriteOnMeans(s, fd, buf); }
  }

  /** The descriptor is open on a file whose size its blocks cover, at an offset not behind
      its end. */
  ghost predicate Within(s: State, fd: int) {
    && Inv(s) && 0 <= fd < 64 && s.fds[fd].used && s.fs.inodes[s.fds[fd].ino].kind == File
    && s.fs.inodes[s.fds[fd].ino].size <= s.fs.inodes[s.fds[fd].ino].blocks * 4096
    && s.fds[fd].offset <= s.fs.inodes[s.fds[fd].ino].size
  }

  /** What the file under an open descriptor shows. */
  ghost function Text(s: State, fd: int): seq<bv8>
    requires Inv(s) && 0 <= fd < 64 && s.fds[fd].used
  {
    Inside(s.fs, s.fds[fd].ino);
    Content(s.fs, s.fds[fd].ino)
  }

  /** Writing from the offset up to or past the end of the file: the file shows what it showed
      before the offset and then what was written, and the descriptor is at its end. */
  lemma WriteAtOffset(s: State, fd: int, buf: seq<bv8>)
    requires Within(s, fd) && WriteFile(s, fd, buf).code > 0
    requires s.fs.inodes[s.fds[fd].ino].size <= s.fds[fd].offset + |buf|
    ensures var o, off := WriteFile(s, fd, buf), s.fds[fd].offset;
            && o.code <= |buf| && Within(o.s, fd) && off <= |Text(s, fd)|
            && Text(o.s, fd) == Text(s, fd)[..off] + buf[..o.code]
            && o.s.fds[fd] == Fd(true, s.fds[fd].ino, off + o.code)
            && o.s.fs.inodes[o.s.fds[fd].ino].size == off + o.code
  {
    WriteFileKeeps(s, fd, buf);
    WriteContent(s.fs, s.fds[fd].ino, s.fds[fd].offset, buf);
    WriteOneInode(s.fs, s.fds[fd].ino, s.fds[fd].offset, buf);
  }

  /** `s'` is `s` after a complete write of `buf` from the end of a file. */
  ghost predicate Appends(s: State, fd: int, buf: seq<bv8>, s': State) {
    && Within(s, fd) && s.fds[fd].offset == s.fs.inodes[s.fds[fd].ino].size && buf != []
    && WriteFile(s, fd, buf) == Out(|buf|, s')
  }

  lemma AppendMeans(s: State, fd: int, buf: seq<bv8>, s': State)
    requires Appends(s, fd, buf, s')
    ensures Within(s', fd) && s'.fds[fd].offset == s'.fs.inodes[s'.fds[fd].ino].size == s.fds[fd].offset + |buf|
    ensures Text(s', fd) == Text(s, fd) + buf
  {
    AppendWrites(s, fd, buf, s');
    EndReached(Text(s, fd), s.fds[fd].offset, buf, Text(s', fd));
  }

  lemma AppendWrites(s: State, fd: int, buf: seq<bv8>, s': State)
    requires Appends(s, fd, buf, s')
    ensures Within(s', fd) && s'.fds[fd].offset == s'.fs.inodes[s'.fds[fd].ino].size == s.fds[fd].offset + |buf|
    ensures |Text(s, fd)| == s.fds[fd].offset && Text(s', fd) == Text(s, fd)[..s.fds[fd].offset] + buf[..|buf|]
  {
    WriteAtOffset(s, fd, buf);
  }

  lemma EndReached(t: seq<bv8>, off: nat, buf: seq<bv8>, r: seq<bv8>)
    requires |t| == off && r == t[..off] + buf[..|buf|]
    ensures r == t + buf
  {
    assert t[..off] == t && buf[..|buf|] == buf;
  }

  /** Two writes in a row, from the end of a file, append one after the other. */
  lemma WriteTwice(s: State, fd: int, a: seq<bv8>, s1: State, b: seq<bv8>, s2: State)
    requires Appends(s, fd, a, s1) && b != [] && Inv(s1) && WriteFile(s1, fd, b) == Out(|b|, s2)
    ensures Within(s, fd) && Within(s2, fd) && Text(s2, fd) == Text(s, fd) + a + b
    ensures s2.fds[fd].offset == s.fds[fd].offset + |a| + |b|
  {
    AppendMeans(s, fd, a, s1);
    AppendMeans(s1, fd, b, s2);
  }

  ghost predicate ReadAt(s: State, fd: nat, off: nat, text: seq<bv8>, count: nat, got: seq<bv8>, n: int, s': State) {
    && n == |got| == (if off >= |text| then 0 else Min(count, |text| - off))
    && (n > 0 ==> got == text[off..off + n])
    && fd < |s.fds| && OnlyFd(s, s', fd, s.fds[fd].(offset := off + n)) && s'.fs == s.fs
  }

  lemma DeliveredMeans(s: State, fd: nat, count: nat)
    requires AllocInv(s.fs) && fd < |s.fds| && Live(s.fs.inodes, s.fds[fd].ino)
    ensures At(s.fs.inodes[s.fds[fd].ino], Visible(s.fs.inodes[s.fds[fd].ino])) <= |s.fs.data|
    ensures var got := ReadOn(s, fd, count);
            ReadAt(s, fd, s.fds[fd].offset, Content(s.fs, s.fds[fd].ino), count, got, Delivered(s, fd, got).code, Delivered(s, fd, got).s)
  {
    Inside(s.fs, s.fds[fd].ino);
  }

  /** A read delivers what the file shows from the offset on, as much as is asked for and
      there is, and moves the offset behind it. */
  lemma ReadMeans(s: State, fd: int, count: nat)
    requires Inv(s)
    ensures var o := ReadFile(s, fd, count);
            if Refuses(s, fd) then o == Out(-1, s)
            else ReadAt(s, fd, s.fds[fd].offset, Text(s, fd), count, ReadBytes(s, fd, count), o.code, o.s)
  {
    if !Refuses(s, fd) { DeliveredMeans(s, fd, count); }
  }

  // ------------------------------------------------------------------ descriptors

  /** A number cut to 32 bits: in range, and the same if it was. */
  lemma Signed32Means(x: int)
    ensures -0x8000_0000 <= Signed32(x) < 0x8000_0000 && (x - Signed32(x)) % WORD == 0
    ensures -0x8000_0000 <= x < 0x8000_0000 ==> Signed32(x) == x
  {
    var r := x % WORD;
    assert x == x / WORD * WORD + r;
  }

  /** A seek counts from the start, from the offset or from the size of the file; a result
      below zero is refused. */
  lemma SeekMeans(s: State, fd: int, offset: int, whence: Whence)
    requires FdsLive(s)
    ensures var o := Seek(s, fd, offset, whence);
            if !(0 <= fd < 64 && s.fds[fd].used) || whence == Unknown then o == Out(-1, s)
            else
              var d := s.fds[fd];
              var to := Signed32(match whence
                                 case SeekSet => offset
                                 case SeekCur => d.offset + offset
                                 case SeekEnd => s.fs.inodes[d.ino].size + offset
                                 case Unknown => 0);
              if to < 0 then o == Out(-1, s)
              else o.code == to && o.s.fs == s.fs && OnlyFd(s, o.s, fd, Fd(true, d.ino, to))
  {
  }

  lemma {:induction false} LowestFree(fds: seq<Fd>, d: nat)
    requires d <= |fds|
    ensures var r := FreeFd(fds, d);
            if r < 0 then r == -1 && forall e :: d <= e < |fds| ==> fds[e].used
            else d <= r < |fds| && !fds[r].used && forall e :: d <= e < r ==> fds[e].used
    decreases |fds| - d
  {
    if d == |fds| {
    } else {
      LowestFree(fds, d + 1);
    }
  }

  /** Opening takes the lowest free descriptor, at offset 0 on what the path leads to; it
      fails exactly if the path leads nowhere or all descriptors are in use. */
  lemma OpenMeans(s: State, path: string)
    requires Inv(s)
    ensures var o, i := OpenFile(s, path), FindPath(s.fs.inodes, path);
            && (o.code == -1 <==> i < 0 || forall d :: 0 <= d < 64 ==> s.fds[d].used)
            && (o.code == -1 ==> o.s == s)
            && (o.code != -1 ==>
                  && 0 <= o.code < 64 && !s.fds[o.code].used && (forall d :: 0 <= d < o.code ==> s.fds[d].used)
                  && OnlyFd(s, o.s, o.code, Fd(true, i, 0)) && o.s.fs == s.fs)
  {
    LowestFree(s.fds, 0);
  }

  lemma CloseMeans(s: State, fd: int)
    requires |s.fds| == 64
    ensures var o := CloseFile(s, fd);
            if 0 <= fd < 64 && s.fds[fd].used
            then o.code == 0 && o.s.fs == s.fs && OnlyFd(s, o.s, fd, Fd(false, -1, 0))
            else o == Out(-1, s)
  {
  }

  // ------------------------------------------------------------------------- names

  /** Slot `t` is where a new inode goes: the lowest unused one, or behind all others. */
  ghost predicate NewSlot(inodes: seq<Inode>, t: int) {
    && 0 <= t <= |inodes| && t < 256 && (t < |inodes| ==> inodes[t].kind == Unused)
    && forall j :: 0 <= j < t ==> inodes[j].kind != Unused
  }

  lemma {:induction false} SlotMeans(inodes: seq<Inode>, i: nat)
    requires i <= |inodes| <= MAX_FILES && forall j :: 0 <= j < i ==> inodes[j].kind != Unused
    ensures var t := SlotFrom(inodes, i); if t < 0 then t == -1 && forall u :: !NewSlot(inodes, u) else NewSlot(inodes, t)
    decreases |inodes| - i
  {
    if i == |inodes| || inodes[i].kind == Unused {
    } else {
      SlotMeans(inodes, i + 1);
    }
  }

  /** Nobody in directory `dir` has this name. */
  ghost predicate NameFree(inodes: seq<Inode>, name: string, dir: int) {
    forall j :: 0 <= j < |inodes| && inodes[j].kind != Unused ==> inodes[j].name != name || inodes[j].parent != dir
  }

  /** A path can be created: it is not the root, its directory is one, its last name is not
      empty and free there, and the table has room. */
  ghost predicate Creatable(inodes: seq<Inode>, norm: string)
    requires inodes != []
  {
    var dir := FindPath(inodes, DirName(norm));
    && BaseName(norm) != "" && 0 <= dir < |inodes| && inodes[dir].kind == Directory
    && NameFree(inodes, BaseName(norm), dir) && exists t :: NewSlot(inodes, t)
  }

  /** The table has gained an empty inode with that name in that directory, and is the same
      otherwise. */
  ghost predicate NewEntry(inodes: seq<Inode>, kind: Kind, dir: nat, name: string, inodes': seq<Inode>) {
    exists t :: NewSlot(inodes, t) && |inodes'| == (if t == |inodes| then |inodes| + 1 else |inodes|)
                && forall j :: 0 <= j < |inodes'| ==> inodes'[j] == if j == t then Inode(0, kind, dir, 0, 0, name) else inodes[j]
  }

  lemma AttachMeans(inodes: seq<Inode>, name: string, dir: int, kind: Kind)
    requires |inodes| <= MAX_FILES && dir < |inodes|
    ensures var m := Attach(inodes, name, dir, kind);
            && (m.slot >= 0 <==> && name != "" && 0 <= dir && inodes[dir].kind == Directory
                                 && NameFree(inodes, name, dir) && exists t :: NewSlot(inodes, t))
            && (m.slot >= 0 ==> dir >= 0 && NewEntry(inodes, kind, dir, name, m.inodes))
            && (m.slot < 0 ==> m.inodes == inodes)
  {
    SlotMeans(inodes, 0);
    if dir >= 0 { assert Scan(inodes, name, dir) < 0 <==> NameFree(inodes, name, dir) by { ScanMeans(inodes, name, dir); } }
  }

  lemma ScanMeans(inodes: seq<Inode>, name: string, dir: nat)
    ensures Scan(inodes, name, dir) < 0 <==> NameFree(inodes, name, dir)
  {
    var r := Scan(inodes, name, dir);
    if r < 0 {
      forall j | 0 <= j < |inodes| && inodes[j].kind != Unused ensures inodes[j].name != name || inodes[j].parent != dir {
        assert !Key(inodes, j, name, dir);
      }
    }
  }

  /** Making a file or a directory. */
  lemma MakeMeans(s: State, path: string, kind: Kind)
    requires Inv(s) && kind != Unused
    ensures var o, norm, inodes := Make(s, path, kind), Normalize(path), s.fs.inodes;
            && (o.code == 0 <==> Creatable(inodes, norm) && !(kind == Directory && norm == "/"))
            && (o.code == 0 ==> FindPath(inodes, DirName(norm)) >= 0
                                && NewEntry(inodes, kind, FindPath(inodes, DirName(norm)), BaseName(norm), o.s.fs.inodes)
                                && o.s == s.(fs := s.fs.(inodes := o.s.fs.inodes)))
            && (o.code != 0 ==> o == Out(-1, s))
  {
    var norm := Normalize(path);
    AttachMeans(s.fs.inodes, BaseName(norm), FindPath(s.fs.inodes, DirName(norm)), kind);
  }

  // ----------------------------------------------------------------------- removing

  /** Inode `i` is gone, its blocks are free, and everything else is as it was. */
  ghost predicate Gone(fs: Fs, i: nat, fs': Fs) {
    && i < |fs.inodes| == |fs'.inodes| && |fs'.bits| == |fs.bits| && fs'.data == fs.data && fs'.total == fs.total
    && (forall j :: 0 <= j < |fs.inodes| ==> fs'.inodes[j] == if j == i then Inode(0, Unused, 0, 0, 0, "") else fs.inodes[j])
    && (forall b :: 0 <= b < |fs.bits| ==> fs'.bits[b] == (fs.bits[b] && !Covers(fs.inodes[i], b)))
    && fs'.free == fs.free + fs.inodes[i].blocks
  }

  lemma ClearedGone(fs: Fs, i: nat)
    requires AllocInv(fs) && i < |fs.inodes|
    ensures Gone(fs, i, Cleared(fs, i))
  {
    ClearedKeeps(fs, i);
  }

  /** A walk that leads to an inode without children leads nowhere once that is gone. */
  lemma {:induction false} WalkGone(inodes: seq<Inode>, i: nat, comps: seq<string>, cur: nat)
    requires Parents(inodes) && Unique(inodes) && Live(inodes, cur) && cur != i && 0 < i < |inodes| && !HasChild(inodes, i)
    requires Walk(inodes, comps, cur) == i
    ensures Walk(inodes[i := ZEROED], comps, cur) == -1
    decreases |comps|
  {
    if comps == [] {
    } else {
      var r, next := inodes[i := ZEROED], Enter(inodes, comps[0], cur);
      EnterGone(inodes, i, comps[0], cur);
      EnterLive(inodes, comps[0], cur);
      if next != i { WalkGone(inodes, i, comps[1..], next); }
    }
  }

  lemma EnterGone(inodes: seq<Inode>, i: nat, comp: string, cur: nat)
    requires Parents(inodes) && Unique(inodes) && Live(inodes, cur) && cur != i && 0 < i < |inodes| && !HasChild(inodes, i)
    ensures var next, next' := Enter(inodes, comp, cur), Enter(inodes[i := ZEROED], comp, cur);
            next' == if next == i then -1 else next
  {
    var r, c := inodes[i := ZEROED], Clip(comp);
    if comp != "" && c != "." && c != ".." {
      var j, k := Scan(inodes, c, cur), Scan(r, c, cur);
      if k >= 0 {
        assert Key(inodes, k, c, cur);
        ScanIs(inodes, c, cur, k);
      } else if j >= 0 && j != i {
        assert Key(r, j, c, cur);
        assert false;
      }
    } else if comp != "" && c == ".." && cur != 0 {
      assert inodes[cur].parent != i;
    }
  }

  /** A path to an inode without children leads nowhere once that is gone. */
  lemma PathGone(inodes: seq<Inode>, i: nat, path: string)
    requires Parents(inodes) && Unique(inodes) && 0 < i < |inodes| && !HasChild(inodes, i) && FindPath(inodes, path) == i
    ensures FindPath(inodes[i := ZEROED], path) == -1
  {
    NormalizeNormal(path);
    assert Live(inodes, 0);
    WalkGone(inodes, i, Split(Normalize(path)[1..]), 0);
  }

  /** Unlinking removes a file: it is gone, its path leads nowhere, its blocks are free and
      its descriptors closed. It fails exactly for the root, for a path that leads nowhere
      and for a directory. */
  lemma UnlinkMeans(s: State, path: string)
    requires Inv(s)
    ensures var o, i := Unlink(s, path), FindPath(s.fs.inodes, path);
            && (o.code == 0 <==> Normalize(path) != "/" && 0 <= i && s.fs.inodes[i].kind != Directory)
            && (o.code == 0 ==> Gone(s.fs, i, o.s.fs) && FindPath(o.s.fs.inodes, path) == -1
                                && |o.s.fds| == |s.fds| && forall d :: 0 <= d < |s.fds| ==>
                                     if s.fds[d].used && s.fds[d].ino == i then !o.s.fds[d].used else o.s.fds[d] == s.fds[d])
            && (o.code != 0 ==> o == Out(-1, s))
  {
    var i := FindPath(s.fs.inodes, path);
    if i >= 0 && s.fs.inodes[i].kind != Directory {
      ClearedGone(s.fs, i);
      FileHasNoChild(s.fs.inodes, i);
      PathGone(s.fs.inodes, i, path);
    }
  }

  /** Removing a directory: it fails exactly for the root, for what is no directory and for a
      directory that is somebody's parent; descriptors stay as they are. */
  lemma RmdirMeans(s: State, path: string)
    requires Inv(s)
    ensures var o, i, inodes := Rmdir(s, path), FindPath(s.fs.inodes, path), s.fs.inodes;
            && (o.code == 0 <==> && Normalize(path) != "/" && 0 <= i && inodes[i].kind == Directory
                                 && forall j :: 0 <= j < |inodes| && inodes[j].kind != Unused ==> inodes[j].parent != i)
            && (o.code == 0 ==> Gone(s.fs, i, o.s.fs) && FindPath(o.s.fs.inodes, path) == -1 && o.s.fds == s.fds)
            && (o.code != 0 ==> o == Out(-1, s))
  {
    var i, inodes := FindPath(s.fs.inodes, path), s.fs.inodes;
    assert HasChild(inodes, i) <==> exists j :: 0 <= j < |inodes| && inodes[j].kind != Unused && inodes[j].parent == i;
    if i >= 0 && inodes[i].kind == Directory && !HasChild(inodes, i) {
      ClearedGone(s.fs, i);
      RootHasChild(inodes);
      PathGone(inodes, i, path);
    }
  }

  // ------------------------------------------------------------ calls after one another

  lemma WriteStep(s: State, fd: int, buf: seq<bv8>)
    requires Inv(s) && 0 <= fd < 64 && s.fds[fd].used && WriteFile(s, fd, buf).code > 0
    ensures var o, i, off := WriteFile(s, fd, buf), s.fds[fd].ino, s.fds[fd].offset;
            && !Refuses(s, fd) && 0 <= i < |s.fs.inodes| && s.fs.inodes[i].kind != Unused
            && o.code == Write(s.fs, i, off, buf).n && o.s.fs == Write(s.fs, i, off, buf).fs
            && |o.s.fds| == 64 && o.s.fds[fd] == Fd(true, i, off + o.code)
  {
    WriteRefused(s, fd, buf);
  }

  lemma RewindStep(s: State, fd: int, off: nat)
    requires Inv(s) && 0 <= fd < 64 && s.fds[fd].used && off < 0x8000_0000
    ensures var r := Seek(s, fd, off, SeekSet).s; r.fs == s.fs && |r.fds| == 64 && r.fds[fd] == Fd(true, s.fds[fd].ino, off)
  {
    Signed32Means(off);
    SeekMeans(s, fd, off, SeekSet);
  }

  lemma ReadStep(s: State, fd: int, n: nat, text: seq<bv8>)
    requires Inv(s) && !Refuses(s, fd) && |text| == n
    requires (Inside(s.fs, s.fds[fd].ino); Slice(s.fs, s.fds[fd].ino, s.fds[fd].offset, n) == text)
    ensures ReadFile(s, fd, n).code == n && ReadBytes(s, fd, n) == text
  {
  }

  /** Seeking back to where a write began, a read delivers what was written. */
  lemma WrittenIsRead(s: State, fd: int, buf: seq<bv8>, n: nat, s1: State, s2: State)
    requires Inv(s) && 0 <= fd < 64 && s.fds[fd].used && s.fds[fd].offset < 0x8000_0000
    requires n > 0 && WriteFile(s, fd, buf) == Out(n, s1) && Inv(s1)
    requires s2 == Seek(s1, fd, s.fds[fd].offset, SeekSet).s
    ensures Inv(s2) && IsOpen(s2, fd) && n <= |buf| && ReadFile(s2, fd, n).code == n && ReadBytes(s2, fd, n) == buf[..n]
  {
    var off, i := s.fds[fd].offset, s.fds[fd].ino;
    WriteStep(s, fd, buf);
    SeekKeeps(s1, fd, off, SeekSet);
    RewindStep(s1, fd, off);
    WriteThenRead(s.fs, i, off, buf);
    WriteOneInode(s.fs, i, off, buf);
    ReadStep(s2, fd, n, buf[..n]);
  }

  lemma OpenNowhere(s: State, path: string)
    requires Inv(s) && FindPath(s.fs.inodes, path) < 0
    ensures Step(s, OpOpen(path)) == Out(-1, s)
  {
  }

  lemma UnlinkStep(s: State, path: string)
    requires Inv(s) && Step(s, OpUnlink(path)).code == 0
    ensures Inv(Step(s, OpUnlink(path)).s) && FindPath(Step(s, OpUnlink(path)).s.fs.inodes, path) == -1
  {
    UnlinkKeeps(s, path);
    UnlinkMeans(s, path);
  }

  /** What has been unlinked cannot be opened. */
  lemma UnlinkedIsGone(s: State, path: string, s1: State)
    requires Inv(s) && Step(s, OpUnlink(path)) == Out(0, s1)
    ensures Inv(s1) && Step(s1, OpOpen(path)) == Out(-1, s1)
  {
    UnlinkStep(s, path);
    OpenNowhere(s1, path);
  }

  /** A closed descriptor is refused. */
  lemma ClosedRefuses(s: State, fd: int, s1: State, op: Op)
    requires Inv(s) && Step(s, OpClose(fd)) == Out(0, s1) && Inv(s1)
    requires op == OpClose(fd) || (op.OpRead? && op.fd == fd) || (op.OpWrite? && op.fd == fd) || (op.OpSeek? && op.fd == fd)
    ensures Step(s1, op) == Out(-1, s1)
  {
    CloseMeans(s, fd);
  }

  // ------------------------------------------------------------------- a run of writes

  /** Descriptor 0 is open on an empty file, and there is a free block. */
  ghost predicate Blank(s: State) {
    && Within(s, 0) && s.fs.inodes[s.fds[0].ino].size == s.fs.inodes[s.fds[0].ino].blocks == 0
    && FreeRun(s.fs.bits, 2, 1) && s.fs.free >= 1
  }

  lemma BlankShowsNothing(s: State)
    requires Blank(s)
    ensures Text(s, 0) == [] && s.fds[0].offset == 0
  {
  }

  lemma OpenedBlank(data: seq<bv8>, total: nat, c: char)
    requires 3 <= total && |data| == total * BLOCK && c != '/' && c != '.'
    ensures Blank(L.Opened(data, total, File, c))
  {
    L.OpenedFirst(data, total, File, c);
    assert Rebuilt([L.ROOT], Reserved(Min(total, MAX_BLOCKS)), 0) == Reserved(Min(total, MAX_BLOCKS));
  }

  lemma FirstAppend(s: State, buf: seq<bv8>) returns (s': State)
    requires Blank(s) && 0 < |buf| <= BLOCK
    ensures Inv(s') && Appends(s, 0, buf, s') && s'.fds[0].ino == s.fds[0].ino && s'.fs.inodes[s.fds[0].ino].blocks == 1
  {
    L.FirstWrite(s.fs, s.fds[0].ino, buf);
    WriteFileKeeps(s, 0, buf);
    s' := WriteFile(s, 0, buf).s;
  }

  lemma NextAppend(s: State, buf: seq<bv8>) returns (s': State)
    requires Within(s, 0) && s.fds[0].offset == s.fs.inodes[s.fds[0].ino].size && buf != []
    requires s.fds[0].offset + |buf| <= s.fs.inodes[s.fds[0].ino].blocks * BLOCK
    ensures Inv(s') && Appends(s, 0, buf, s')
  {
    OverwriteSucceeds(s.fs, s.fds[0].ino, s.fds[0].offset, buf);
    WriteFileKeeps(s, 0, buf);
    s' := WriteFile(s, 0, buf).s;
  }

  lemma TwoAppends(s: State, a: seq<bv8>, b: seq<bv8>) returns (s1: State, s2: State)
    requires Blank(s) && a != [] && b != [] && |a| + |b| <= BLOCK
    ensures Appends(s, 0, a, s1) && Appends(s1, 0, b, s2) && Inv(s2)
  {
    s1 := FirstAppend(s, a);
    AppendMeans(s, 0, a, s1);
    BlankShowsNothing(s);
    s2 := NextAppend(s1, b);
  }

  lemma WriteIsStep(s: State, fd: int, buf: seq<bv8>)
    requires Inv(s)
    ensures Step(s, OpWrite(fd, buf)) == WriteFile(s, fd, buf)
  {
  }

  lemma AppendStep(s: State, a: seq<bv8>, s1: State)
    requires Appends(s, 0, a, s1) && s.fds[0].offset + |a| + BLOCK - 1 < WORD
    ensures Careful(s, OpWrite(0, a)) && NoWrap(s, OpWrite(0, a)) && Step(s, OpWrite(0, a)).s == s1
  {
    WriteIsStep(s, 0, a);
  }

  lemma AppendReaches(s: State, a: seq<bv8>, s1: State, ops: seq<Op>, s': State)
    requires Appends(s, 0, a, s1) && Inv(s1) && s.fds[0].offset + |a| + BLOCK - 1 < WORD && Reaches(s1, ops, s')
    ensures Reaches(s, [OpWrite(0, a)] + ops, s')
  {
    AppendStep(s, a, s1);
    L.ReachesNext(s, OpWrite(0, a), ops, s');
  }

  lemma TwoReach(s: State, a: seq<bv8>, s1: State, b: seq<bv8>, s2: State)
    requires Appends(s, 0, a, s1) && Appends(s1, 0, b, s2) && Inv(s2)
    requires s.fds[0].offset == 0 && |a| + |b| <= BLOCK
    ensures Reaches(s, [OpWrite(0, a), OpWrite(0, b)], s2)
  {
    AppendMeans(s, 0, a, s1);
    AppendReaches(s1, b, s2, [], s2);
    AppendReaches(s, a, s1, [OpWrite(0, b)] + [], s2);
    L.TwoInARow(OpWrite(0, a), OpWrite(0, b));
  }

  /** From an empty file just opened, two writes leave what was written first and then what
      was written second. */
  lemma BlankWrittenTwice(s: State, a: seq<bv8>, b: seq<bv8>) returns (s2: State)
    requires Blank(s) && a != [] && b != [] && |a| + |b| <= BLOCK
    ensures Reaches(s, [OpWrite(0, a), OpWrite(0, b)], s2) && Within(s2, 0) && Text(s2, 0) == a + b
  {
    var s1;
    s1, s2 := TwoAppends(s, a, b);
    BlankShowsNothing(s);
    TwoReach(s, a, s1, b, s2);
    WriteTwice(s, 0, a, s1, b, s2);
    NothingBefore(a, b);
  }

  lemma NothingBefore(a: seq<bv8>, b: seq<bv8>)
    ensures [] + a + b == a + b
  {
  }

  /** So on a formatted device after a file is made and opened. */
  lemma WrittenTwice(data: seq<bv8>, total: nat, c: char, a: seq<bv8>, b: seq<bv8>) returns (s: State)
    requires 3 <= total && |data| == total * BLOCK && c != '/' && c != '.' && a != [] && b != [] && |a| + |b| <= BLOCK
    ensures Run(data, total, [OpCreate(L.PathTo(c)), OpOpen(L.PathTo(c)), OpWrite(0, a), OpWrite(0, b)], s)
    ensures Within(s, 0) && Text(s, 0) == a + b
  {
    OpenedBlank(data, total, c);
    s := BlankWrittenTwice(L.Opened(data, total, File, c), a, b);
    RunOf(data, total, c, OpWrite(0, a), OpWrite(0, b), s);
  }

  lemma RunOf(data: seq<bv8>, total: nat, c: char, x: Op, y: Op, s: State)
    requires 3 <= total && |data| == total * BLOCK && c != '/' && c != '.'
    requires Inv(L.Opened(data, total, File, c)) && Reaches(L.Opened(data, total, File, c), [x, y], s)
    ensures Run(data, total, [OpCreate(L.PathTo(c)), OpOpen(L.PathTo(c)), x, y], s)
  {
    L.OpenedRun(data, total, File, c, [x, y], s);
    L.InARow(OpCreate(L.PathTo(c)), OpOpen(L.PathTo(c)), x, y);
  }
}
