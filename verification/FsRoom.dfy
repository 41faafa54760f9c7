/** When a file can get the blocks it needs, where they are, and how many bytes a write
    therefore reports. */
module FsRoom {
  import opened FsBitmap
  import opened FsExtents
  import opened FsFiles

  /** Blocks `s` to `s + n - 1` are in the device and free. */
  ghost predicate AllFree(bits: seq<bool>, s: nat, n: nat) {
    s + n <= |bits| && forall b :: s <= b < s + n ==> !bits[b]
  }

  /** The blocks right behind the file's own, as many as it lacks, are free. */
  ghost predicate FreeBehind(fs: Fs, i: nat, need: nat)
    requires i < |fs.inodes|
  {
    var ino := fs.inodes[i];
    0 < ino.blocks <= need && AllFree(fs.bits, ino.first + ino.blocks, need - ino.blocks)
  }

  /** Somewhere behind the reserved blocks there are `need` free blocks in a row. */
  ghost predicate FreeSomewhere(fs: Fs, need: nat) {
    exists s :: 2 <= s && AllFree(fs.bits, s, need)
  }

  /** The file has enough blocks, can grow in place, or can move. */
  ghost predicate CanHold(fs: Fs, i: nat, size: nat)
    requires i < |fs.inodes|
  {
    var need := (size + 4095) / 4096;
    need <= fs.inodes[i].blocks || FreeBehind(fs, i, need) || FreeSomewhere(fs, need)
  }

  /** A free run has no more blocks than are counted as free. */
  lemma RunCounted(fs: Fs, s: nat, n: nat)
    requires AllocInv(fs) && FreeRun(fs.bits, s, n)
    ensures n <= fs.free
  {
    ClearMark(fs.bits, s, n, true);
  }

  lemma RunFound(bits: seq<bool>, n: nat)
    requires n > 0
    ensures FirstRun(bits, 2, n) < |bits| <==> exists s :: 2 <= s && AllFree(bits, s, n)
  {
    var r := FirstRun(bits, 2, n);
    if r < |bits| {
      assert AllFree(bits, r, n);
    }
    if exists s :: 2 <= s && AllFree(bits, s, n) {
      var s :| 2 <= s && AllFree(bits, s, n);
      assert FreeRun(bits, s, n);
    }
  }

  /** `ensure_blocks` succeeds exactly if the file can hold the size; the free count never
      stands in the way. */
  lemma EnsureSucceeds(fs: Fs, i: nat, size: nat)
    requires AllocInv(fs) && i < |fs.inodes|
    ensures Ensure(fs, i, size).ok <==> CanHold(fs, i, size)
  {
    var ino, need := fs.inodes[i], Need(size);
    if need > ino.blocks {
      RunFound(fs.bits, need);
      if FreeBehind(fs, i, need) { RunCounted(fs, ino.first + ino.blocks, need - ino.blocks); }
      if FreeSomewhere(fs, need) {
        var s :| 2 <= s && AllFree(fs.bits, s, need);
        RunCounted(fs, s, need);
      }
    }
  }

  /** Where the blocks are: in place if the file shrinks, stays or can grow there, otherwise at
      the least free run. */
  lemma EnsurePlaces(fs: Fs, i: nat, size: nat)
    requires AllocInv(fs) && i < |fs.inodes| && fs.inodes[i].kind != Unused && CanHold(fs, i, size)
    ensures var ino, fs', need := fs.inodes[i], Ensure(fs, i, size).fs, (size + 4095) / 4096;
            && |fs'.inodes| == |fs.inodes| && fs'.inodes[i].blocks == need
            && (need <= ino.blocks || FreeBehind(fs, i, need) ==> fs'.inodes[i].first == if need == 0 then 0 else ino.first)
            && (need > ino.blocks && !FreeBehind(fs, i, need) ==>
                  && 2 <= fs'.inodes[i].first && AllFree(fs.bits, fs'.inodes[i].first, need)
                  && forall s :: 2 <= s < fs'.inodes[i].first ==> !AllFree(fs.bits, s, need))
  {
    EnsureSucceeds(fs, i, size);
    EnsureKeeps(fs, i, size);
    var ino, need := fs.inodes[i], Need(size);
    assert Placed(ino, |fs.bits|);
    if need > ino.blocks && !FreeBehind(fs, i, need) {
      var r := FirstRun(fs.bits, 2, need);
      forall s | 2 <= s < r ensures !AllFree(fs.bits, s, need) {
        assert !FreeRun(fs.bits, s, need);
      }
    }
  }

  // -------------------------------------------------------------- how much is written

  /** The number of bytes a write of `len` bytes at `off` reports: all of them if the file can
      hold their end; else as many as the file's blocks and all free blocks could hold, if
      the file can hold that; else a failure. */
  ghost function Reported(fs: Fs, i: nat, off: nat, len: nat): int
    requires i < |fs.inodes|
  {
    var most := 4096 * (fs.inodes[i].blocks + fs.free);
    if len == 0 then 0
    else if CanHold(fs, i, off + len) then len
    else if most <= off || !CanHold(fs, i, Min(most, off + len)) then -1
    else Min(most, off + len) - off
  }

  lemma WriteReports(fs: Fs, i: nat, off: nat, buf: seq<bv8>)
    requires AllocInv(fs) && i < |fs.inodes| && fs.inodes[i].kind != Unused
    ensures Write(fs, i, off, buf).n == Reported(fs, i, off, |buf|)
  {
    if buf != [] {
      EnsureSucceeds(fs, i, EndOf(off, buf));
      EnsureSucceeds(fs, i, Min(Limit(fs, i), EndOf(off, buf)));
    }
  }
}
