/** UnnamedFS as it is written: the mounted file system is updated in place, call by
    call. Every method does to its view what the call of the same name does. */
module UnnamedFs {
  import opened Bits
  import opened FsBitmap
  import opened FsExtents
  import opened FsFiles
  import opened FsTree
  import opened FsNames
  import opened FsRuns

  const BITMAP_BYTES: nat := 512

  class Mount {
    var inodes: seq<Inode>
    var bitmap: seq<bv8>
    var covered: nat
    var total: nat
    var free: nat
    var data: seq<bv8>
    var fds: seq<Fd>
    var cache: Cache

    ghost predicate Sized()
      reads this
    {
      |bitmap| == BITMAP_BYTES && covered == Min(total, 8 * BITMAP_BYTES)
    }

    ghost function Files(): Fs
      reads this
      requires Sized()
    {
      Fs(inodes, Flags(bitmap, covered), free, total, data)
    }

    ghost function View(): State
      reads this
      requires Sized()
    {
      State(Files(), fds)
    }

    ghost predicate Valid()
      reads this
    {
      Sized() && Inv(View())
    }

    // ------------------------------------------------------------------ blocks

    method Shrink(i: nat, need: nat)
      requires Sized() && i < |inodes| && need < inodes[i].blocks
      modifies `bitmap, `free, `inodes
      ensures Sized() && Files() == Shrunk(old(Files()), i, need)
    {
      var ino := inodes[i];
      var n := ino.blocks - need;
      bitmap := MarkRange(bitmap, covered, ino.first + need, n, false);
      if free + n <= total { free := free + n; }
      inodes := inodes[i := ino.(blocks := need, first := if need == 0 then 0 else ino.first)];
    }

    method Allot(i: nat, first: nat, need: nat)
      requires Sized() && i < |inodes| && need <= free
      modifies `bitmap, `free, `inodes
      ensures Sized() && Files() == Allotted(old(Files()), i, first, need)
    {
      bitmap := MarkRange(bitmap, covered, first, need, true);
      free := free - need;
      inodes := inodes[i := inodes[i].(first := first, blocks := need)];
    }

    method Extend(i: nat, need: nat)
      requires Sized() && i < |inodes| && inodes[i].blocks <= need <= free + inodes[i].blocks
      modifies `bitmap, `free, `inodes
      ensures Sized() && Files() == Extended(old(Files()), i, need)
    {
      var extra := need - inodes[i].blocks;
      bitmap := MarkRange(bitmap, covered, inodes[i].first + inodes[i].blocks, extra, true);
      free := free - extra;
      inodes := inodes[i := inodes[i].(blocks := need)];
    }

    /** Copy what a reader can see of a file to the blocks from `first` on. */
    method CopyFile(i: nat, first: nat)
      requires Sized() && i < |inodes|
      requires inodes[i].first * BLOCK + Visible(inodes[i]) <= |data|
      requires first * BLOCK + Visible(inodes[i]) <= |data|
      modifies `data
      ensures Sized() && data == Splice(old(data), first * BLOCK, Content(old(Files()), i))
    {
      var ino := inodes[i];
      var n := if ino.size > ino.blocks * BLOCK then ino.blocks * BLOCK else ino.size;
      var from, to := ino.first * BLOCK, first * BLOCK;
      data := data[..to] + data[from..from + n] + data[to + n..];
    }

    /** Copy the file to a new run of blocks and give up the old one. */
    method Move(i: nat, first: nat, need: nat)
      requires Sized() && i < |inodes| && need <= free + inodes[i].blocks
      requires inodes[i].first * BLOCK + Visible(inodes[i]) <= |data|
      requires first * BLOCK + Visible(inodes[i]) <= |data|
      modifies `bitmap, `free, `inodes, `data
      ensures Sized() && Files() == Moved(old(Files()), i, first, need)
    {
      var ino := inodes[i];
      CopyFile(i, first);
      bitmap := MarkRange(bitmap, covered, ino.first, ino.blocks, false);
      free := free + ino.blocks;
      bitmap := MarkRange(bitmap, covered, first, need, true);
      free := free - need;
      inodes := inodes[i := ino.(first := first, blocks := need)];
    }

    /** `ensure_blocks`. */
    method EnsureBlocks(i: nat, size: nat) returns (ok: bool)
      requires Sized() && AllocInv(Files()) && i < |inodes| && size + BLOCK - 1 < WORD
      modifies `bitmap, `free, `inodes, `data
      ensures Sized() && Outcome(ok, Files()) == Ensure(old(Files()), i, size)
    {
      var need := (size + BLOCK - 1) / BLOCK;
      if need == inodes[i].blocks { return true; }
      if need < inodes[i].blocks {
        Shrink(i, need);
        return true;
      }
      if free < need - inodes[i].blocks { return false; }
      ok := Grow(i, need);
    }

    method Grow(i: nat, need: nat) returns (ok: bool)
      requires Sized() && AllocInv(Files()) && i < |inodes| && inodes[i].blocks < need <= free + inodes[i].blocks
      modifies `bitmap, `free, `inodes, `data
      ensures Sized()
      ensures var fs, ino := old(Files()), old(inodes[i]);
              var run := FirstRun(fs.bits, 2, need);
              Outcome(ok, Files()) ==
              if ino.blocks == 0 then
                (if run < |fs.bits| then Outcome(true, Allotted(fs, i, run, need)) else Outcome(false, fs))
              else if FreeRun(fs.bits, ino.first + ino.blocks, need - ino.blocks) then Outcome(true, Extended(fs, i, need))
              else if run < |fs.bits| then Outcome(true, Moved(fs, i, run, need))
              else Outcome(false, fs)
    {
      var first;
      if inodes[i].blocks == 0 {
        ok, first := FindContiguous(bitmap, covered, need);
        if ok { Allot(i, first, need); }
        return;
      }
      var extra := need - inodes[i].blocks;
      var j := FirstUsed(bitmap, covered, inodes[i].first + inodes[i].blocks, extra);
      if j == extra {
        Extend(i, need);
        return true;
      }
      ok, first := FindContiguous(bitmap, covered, need);
      if ok {
        Inside(Files(), i);
        Move(i, first, need);
      }
    }

    // ------------------------------------------------------------------- files

    /** The room for a write, with the retry for a shorter one. */
    method MakeRoom(i: nat, off: nat, end: nat) returns (ok: bool, end': nat)
      requires Sized() && AllocInv(Files()) && i < |inodes| && inodes[i].kind != Unused
      requires off < end && end + BLOCK - 1 < WORD
      modifies `bitmap, `free, `inodes, `data
      ensures Sized() && Space(ok, end', Files()) == Room(old(Files()), i, off, end)
    {
      end' := end;
      ok := Attempt(i, end);
      if ok { return; }
      EnsureFails(old(Files()), i, end);
      ok, end' := RetryRoom(i, off, end);
    }

    method Attempt(i: nat, size: nat) returns (ok: bool)
      requires Sized() && AllocInv(Files()) && i < |inodes| && size + BLOCK - 1 < WORD
      modifies `bitmap, `free, `inodes, `data
      ensures Sized() && Space(ok, size, Files()) == Try(old(Files()), i, size)
    {
      ok := EnsureBlocks(i, size);
    }

    method RetryRoom(i: nat, off: nat, end: nat) returns (ok: bool, end': nat)
      requires Sized() && AllocInv(Files()) && i < |inodes| && end + BLOCK - 1 < WORD
      modifies `bitmap, `free, `inodes, `data
      ensures Sized() && Space(ok, end', Files()) == Retry(old(Files()), i, off, end)
    {
      var limit := (inodes[i].blocks + free) * BLOCK;
      assert limit == Limit(Files(), i);
      if limit <= off { return false, end; }
      end' := Min(limit, end);
      ok := Attempt(i, end');
    }

    /** `unamedfs_write`. */
    method WriteTo(fd: int, buf: seq<bv8>) returns (n: int)
      requires Valid()
      requires NoWrap(View(), OpWrite(fd, buf))
      modifies `bitmap, `free, `inodes, `data, `fds
      ensures Sized() && Out(n, View()) == WriteFile(old(View()), fd, buf)
    {
      if fd < 0 || fd >= MAX_FDS || !fds[fd].used { return -1; }
      if inodes[fds[fd].ino].kind == Directory { return -1; }
      n := WriteOpen(fd, buf);
    }

    method WriteOpen(fd: nat, buf: seq<bv8>) returns (n: int)
      requires Sized() && AllocInv(Files()) && fd < |fds| && Live(inodes, fds[fd].ino)
      requires fds[fd].offset + |buf| + BLOCK - 1 < WORD
      modifies `bitmap, `free, `inodes, `data, `fds
      ensures Sized() && Out(n, View()) == WriteOn(old(View()), fd, buf)
    {
      n := Transfer(fds[fd].ino, fds[fd].offset, buf);
      fds := Advanced(fds, fd, n);
    }

    method Transfer(i: nat, off: nat, buf: seq<bv8>) returns (n: int)
      requires Sized() && AllocInv(Files()) && i < |inodes| && inodes[i].kind != Unused
      requires off + |buf| + BLOCK - 1 < WORD
      modifies `bitmap, `free, `inodes, `data
      ensures Sized() && Written(n, Files()) == Write(old(Files()), i, off, buf)
    {
      if |buf| == 0 { return 0; }
      ghost var fs, w := Files(), Room(Files(), i, off, EndOf(off, buf));
      WriteDone(fs, i, off, buf);
      var ok, end := MakeRoom(i, off, EndOf(off, buf));
      n := UseRoom(i, off, buf, ok, end, fs, w);
    }

    /** Copy as much of the buffer as there is room for. */
    method UseRoom(i: nat, off: nat, buf: seq<bv8>, ok: bool, end: nat, ghost fs: Fs, ghost w: Space) returns (n: int)
      requires Sized() && Roomy(fs, i, off, EndOf(off, buf), w)
      requires Space(ok, end, Files()) == w
      modifies `data, `inodes
      ensures Sized() && Written(n, Files()) == Fill(fs, i, off, buf, w)
    {
      if !ok { return -1; }
      n := end - off;
      Copy(i, off, buf[..n]);
    }

    /** Put bytes into the extent of an inode and make the file as long as needed. */
    method Copy(i: nat, off: nat, s: seq<bv8>)
      requires Sized() && i < |inodes| && inodes[i].first * BLOCK + off + |s| <= |data|
      modifies `data, `inodes
      ensures Sized() && Files() == Store(old(Files()), i, off, s)
    {
      var at := inodes[i].first * BLOCK + off;
      data := data[..at] + s + data[at + |s|..];
      if off + |s| > inodes[i].size { inodes := inodes[i := inodes[i].(size := off + |s|)]; }
    }

    /** The number of bytes a read can deliver. */
    method Deliverable(ino: Inode, off: nat, count: nat) returns (c: nat)
      ensures c == if off >= Visible(ino) then 0 else Min(count, Visible(ino) - off)
    {
      if off >= ino.size { return 0; }
      c := if count > ino.size - off then ino.size - off else count;
      if c == 0 || ino.blocks == 0 { return 0; }
      var avail := ino.blocks * BLOCK;
      if off >= avail { return 0; }
      if off + c > avail { c := avail - off; }
    }

    /** `unamedfs_read`. */
    method ReadFrom(fd: int, count: nat) returns (n: int, s: seq<bv8>)
      requires Valid()
      modifies `fds
      ensures Sized() && Out(n, View()) == ReadFile(old(View()), fd, count)
      ensures n >= 0 ==> s == ReadBytes(old(View()), fd, count)
    {
      if fd < 0 || fd >= MAX_FDS || !fds[fd].used { return -1, []; }
      if inodes[fds[fd].ino].kind == Directory { return -1, []; }
      n, s := ReadOpen(fd, count);
    }

    method ReadOpen(fd: nat, count: nat) returns (n: nat, s: seq<bv8>)
      requires Sized() && AllocInv(Files()) && fd < |fds| && Live(inodes, fds[fd].ino)
      modifies `fds
      ensures Sized() && s == ReadOn(old(View()), fd, count) && Out(n, View()) == Delivered(old(View()), fd, s)
    {
      s := Fetch(fd, count);
      n := |s|;
      fds := Advanced(fds, fd, n);
    }

    /** Copy what the file shows behind the offset. */
    method Fetch(fd: nat, count: nat) returns (s: seq<bv8>)
      requires Sized() && AllocInv(Files()) && fd < |fds| && Live(inodes, fds[fd].ino)
      ensures s == ReadOn(View(), fd, count)
    {
      var ino, off := inodes[fds[fd].ino], fds[fd].offset;
      var c := Deliverable(ino, off, count);
      SliceOf(Files(), fds[fd].ino, off, count, c);
      s := [];
      if c > 0 { s := data[ino.first * BLOCK + off..ino.first * BLOCK + off + c]; }
    }

    /** `unamedfs_lseek`. */
    method SeekTo(fd: int, offset: int, whence: Whence) returns (r: int)
      requires Sized() && FdsLive(View())
      modifies `fds
      ensures Sized() && Out(r, View()) == Seek(old(View()), fd, offset, whence)
    {
      if fd < 0 || fd >= MAX_FDS || !fds[fd].used { return -1; }
      match whence {
        case SeekSet => r := offset;
        case SeekCur => r := fds[fd].offset + offset;
        case SeekEnd => r := inodes[fds[fd].ino].size + offset;
        case Unknown => return -1;
      }
      r := Signed32(r);
      if r < 0 { return -1; }
      fds := fds[fd := fds[fd].(offset := r)];
    }

    /** `unamedfs_open`: the path is normalized before it is looked up. */
    method OpenPath(path: string) returns (fd: int)
      requires Valid()
      modifies `fds, `cache
      ensures Sized() && Out(fd, View()) == OpenFile(old(View()), path)
    {
      var norm := NormalizePath(path);
      NormalizeNormal(path);
      var i;
      i, cache := FindByPath(inodes, cache, norm);
      if i < 0 { return -1; }
      fd := 0;
      while fd < MAX_FDS
        invariant 0 <= fd <= MAX_FDS && FreeFd(fds, fd) == FreeFd(fds, 0)
        invariant fds == old(fds)
      {
        if !fds[fd].used {
          fds := fds[fd := Fd(true, i, 0)];
          return;
        }
        fd := fd + 1;
      }
      return -1;
    }

    /** `unamedfs_close`. */
    method Close(fd: int) returns (r: int)
      requires Sized() && |fds| == MAX_FDS
      modifies `fds
      ensures Sized() && Out(r, View()) == CloseFile(old(View()), fd)
    {
      if fd < 0 || fd >= MAX_FDS || !fds[fd].used { return -1; }
      fds := fds[fd := Fd(false, -1, 0)];
      return 0;
    }

    // ------------------------------------------------------------------- names

    method AllocSlot() returns (slot: int)
      requires |inodes| <= MAX_FILES
      ensures slot == SlotFrom(inodes, 0)
    {
      slot := 0;
      while slot < |inodes|
        invariant 0 <= slot <= |inodes| && SlotFrom(inodes, slot) == SlotFrom(inodes, 0)
      {
        if inodes[slot].kind == Unused { return; }
        slot := slot + 1;
      }
      if |inodes| >= MAX_FILES { return -1; }
    }

    /** `create_inode`. */
    method CreateNode(norm: string, kind: Kind) returns (slot: int)
      requires Parents(inodes) && Unique(inodes)
      modifies `inodes, `cache
      ensures Made(slot, inodes) == Create(old(inodes), norm, kind)
    {
      var dir := NormalizePath(norm);
      dir := DirPrefix(dir);
      var base := BaseNameOf(norm);
      if base == "" { return -1; }
      var parent;
      parent, cache := FindByPath(inodes, cache, dir);
      slot := AttachNode(base, parent, kind);
    }

    method AttachNode(base: string, parent: int, kind: Kind) returns (slot: int)
      requires |inodes| <= MAX_FILES && Unique(inodes) && parent < |inodes| && base != ""
      modifies `inodes, `cache
      ensures Made(slot, inodes) == Attach(old(inodes), base, parent, kind)
      ensures slot >= 0 ==> !cache.valid
    {
      if parent < 0 || inodes[parent].kind != Directory { return -1; }
      var found;
      found, cache := Lookup(inodes, cache, base, parent);
      if found >= 0 { return -1; }
      slot := AllocSlot();
      if slot < 0 { return -1; }
      inodes := Put(inodes, slot, Fresh(kind, parent, base));
      cache := cache.(valid := false);
    }

    /** `unamedfs_mkdir` and `unamedfs_create`. */
    method MakeNode(path: string, kind: Kind) returns (r: int)
      requires Valid()
      modifies `inodes, `cache
      ensures Sized() && Out(r, View()) == Make(old(View()), path, kind)
    {
      var norm := NormalizePath(path);
      if kind == Directory && norm == "/" { return -1; }
      ghost var m := Create(inodes, norm, kind);
      var slot := CreateNode(norm, kind);
      r := Report(slot, old(View()), m);
    }

    method Report(slot: int, ghost before: State, ghost m: Made) returns (r: int)
      requires Sized() && Made(slot, inodes) == m && View() == before.(fs := before.fs.(inodes := inodes))
      ensures Out(r, View()) == Entered(before, m)
    {
      r := if slot < 0 then -1 else 0;
    }

    /** `icache_invalidate` and `icache_invalidate_name`. */
    method ForgetName(i: int, name: string, parent: nat)
      modifies `cache
      ensures cache == old(cache).(valid := old(cache).valid && old(cache).ino != i
                                            && !(old(cache).parent == parent && old(cache).name == name))
    {
      if cache.valid && cache.ino == i { cache := cache.(valid := false); }
      if cache.valid && cache.parent == parent && cache.name == name { cache := cache.(valid := false); }
    }

    method ClearInode(i: nat)
      requires Sized() && AllocInv(Files()) && i < |inodes|
      modifies `bitmap, `free, `inodes, `cache
      ensures Sized() && Files() == Cleared(old(Files()), i)
    {
      var ino := inodes[i];
      if ino.blocks > 0 {
        bitmap := MarkRange(bitmap, covered, ino.first, ino.blocks, false);
        if free + ino.blocks <= total { free := free + ino.blocks; }
      }
      ForgetName(i, ino.name, ino.parent);
      inodes := inodes[i := ZEROED];
    }

    method ShutAll(i: nat)
      modifies `fds
      ensures fds == Shut(old(fds), i)
    {
      var d := 0;
      while d < |fds|
        invariant 0 <= d <= |fds| == |old(fds)|
        invariant forall e :: 0 <= e < |fds| ==> fds[e] == if e < d then Shut(old(fds), i)[e] else old(fds)[e]
      {
        if fds[d].used && fds[d].ino == i { fds := fds[d := fds[d].(used := false, ino := -1)]; }
        d := d + 1;
      }
    }

    /** `unamedfs_unlink`. */
    method UnlinkPath(path: string) returns (r: int)
      requires Valid()
      modifies `bitmap, `free, `inodes, `fds, `cache
      ensures Sized() && Out(r, View()) == Unlink(old(View()), path)
    {
      var norm := NormalizePath(path);
      NormalizeNormal(path);
      if norm == "/" { return -1; }
      var i;
      i, cache := FindByPath(inodes, cache, norm);
      if i < 0 || inodes[i].kind == Directory { return -1; }
      ClearInode(i);
      ShutAll(i);
      return 0;
    }

    /** The search for a child. */
    method Empty(i: nat) returns (empty: bool)
      ensures empty <==> !HasChild(inodes, i)
    {
      var j := 0;
      while j < |inodes|
        invariant 0 <= j <= |inodes| && forall k :: 0 <= k < j ==> !(Live(inodes, k) && inodes[k].parent == i)
      {
        if inodes[j].kind != Unused && inodes[j].parent == i {
          assert Live(inodes, j);
          return false;
        }
        j := j + 1;
      }
      return true;
    }

    /** `unamedfs_rmdir`. */
    method RmdirPath(path: string) returns (r: int)
      requires Valid()
      modifies `bitmap, `free, `inodes, `fds, `cache
      ensures Sized() && Out(r, View()) == Rmdir(old(View()), path)
    {
      var norm := NormalizePath(path);
      NormalizeNormal(path);
      if norm == "/" { return -1; }
      var i;
      i, cache := FindByPath(inodes, cache, norm);
      if i < 0 || inodes[i].kind != Directory { return -1; }
      var empty := Empty(i);
      if !empty { return -1; }
      ClearInode(i);
      return 0;
    }

    // ---------------------------------------------------------------- mounting

    /** `unamedfs_format` of a device of `total` blocks, then `unamedfs_mount`. */
    constructor (data: seq<bv8>, total: nat)
      requires 3 <= total && |data| == total * BLOCK
      ensures Valid() && View() == Formatted(data, total)
    {
      this.total := total;
      covered := if total > 8 * BITMAP_BYTES then 8 * BITMAP_BYTES else total;
      this.data := data;
      free := total - 2;
      inodes := [Inode(0, Directory, 0, 0, 0, "/")];
      bitmap := seq(BITMAP_BYTES, _ => 0);
      fds := seq(MAX_FDS, _ => Fd(false, -1, 0));
      cache := Cache(false, "", 0, 0);
      new;
      Remount();
      FormattedInv(data, total);
    }

    /** `bitmap_init` and `bitmap_rebuild`. */
    method Remount()
      requires Sized() && total >= 2
      modifies `bitmap
      ensures Sized() && Flags(bitmap, covered) == Rebuilt(inodes, Reserved(covered), |inodes|)
    {
      bitmap := Init(BITMAP_BYTES, covered);
      assert Flags(bitmap, covered) == Reserved(covered);
      var i := 0;
      while i < |inodes|
        invariant i <= |inodes| && Sized() && Flags(bitmap, covered) == Rebuilt(inodes, Reserved(covered), i)
      {
        if inodes[i].kind != Unused && inodes[i].blocks != 0 {
          bitmap := MarkRange(bitmap, covered, inodes[i].first, inodes[i].blocks, true);
        }
        i := i + 1;
      }
    }

    // ------------------------------------------------------------------------ runs

    /** One call of the file system. */
    method Call(op: Op) returns (code: int)
      requires Valid() && Careful(View(), op) && NoWrap(View(), op)
      modifies `bitmap, `free, `inodes, `data, `fds, `cache
      ensures Valid() && Out(code, View()) == Step(old(View()), op)
    {
      StepKeeps(View(), op);
      if OnDescriptor(op) { code := CallFile(op); } else { code := CallTree(op); }
    }

    method CallFile(op: Op) returns (code: int)
      requires Valid() && OnDescriptor(op) && NoWrap(View(), op)
      modifies `bitmap, `free, `inodes, `data, `fds, `cache
      ensures Sized() && Out(code, View()) == Step(old(View()), op)
    {
      match op {
        case OpOpen(path) => code := OpenPath(path);
        case OpClose(fd) => code := Close(fd);
        case OpRead(fd, count) =>
          var s;
          code, s := ReadFrom(fd, count);
        case OpWrite(fd, buf) => code := WriteTo(fd, buf);
        case OpSeek(fd, offset, whence) => code := SeekTo(fd, offset, whence);
      }
    }

    method CallTree(op: Op) returns (code: int)
      requires Valid() && !OnDescriptor(op)
      modifies `bitmap, `free, `inodes, `data, `fds, `cache
      ensures Sized() && Out(code, View()) == Step(old(View()), op)
    {
      match op {
        case OpMkdir(path) => code := MakeNode(path, Directory);
        case OpCreate(path) => code := MakeNode(path, File);
        case OpUnlink(path) => code := UnlinkPath(path);
        case OpRmdir(path) => code := RmdirPath(path);
      }
    }

    /** A sequence of calls that the model takes to `end` keeps the invariant and ends there. */
    method CallAll(ops: seq<Op>, ghost end: State)
      requires Valid() && Reaches(View(), ops, end)
      modifies `bitmap, `free, `inodes, `data, `fds, `cache
      ensures Valid() && View() == end
    {
      var i := 0;
      assert ops[0..] == ops;
      while i < |ops|
        invariant 0 <= i <= |ops| && Valid() && Reaches(View(), ops[i..], end)
      {
        assert ops[i..][0] == ops[i] && ops[i..][1..] == ops[i + 1..];
        var code := Call(ops[i]);
        i := i + 1;
      }
    }
  }
}
