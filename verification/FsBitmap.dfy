/** The block bitmap of UnnamedFS: packed bits, the flags they stand for, and the search
    for a run of free blocks. */
module FsBitmap {

  // ------------------------------------------------------------- packed bits

  function TestBit(x: bv8, k: nat): bool
    requires k < 8
  {
    (x >> k) & 1 == 1
  }

  function SetBit(x: bv8, k: nat): bv8
    requires k < 8
  {
    x | (1 << k)
  }

  function ClearBit(x: bv8, k: nat): bv8
    requires k < 8
  {
    x & !(1 << k)
  }

  lemma SetThisBit(x: bv8, k: nat)
    requires k < 8
    ensures TestBit(SetBit(x, k), k) && !TestBit(ClearBit(x, k), k)
  {
  }

  lemma SetOtherBit(x: bv8, k: nat, j: nat)
    requires k < 8 && j < 8 && j != k
    ensures TestBit(SetBit(x, k), j) == TestBit(x, j)
  {
    OtherMask(k, j);
  }

  lemma ClearOtherBit(x: bv8, k: nat, j: nat)
    requires k < 8 && j < 8 && j != k
    ensures TestBit(ClearBit(x, k), j) == TestBit(x, j)
  {
    OtherMask(k, j);
  }

  lemma OtherMask(k: nat, j: nat)
    requires k < 8 && j < 8 && j != k
    ensures !TestBit(1 << k, j)
  {
  }

  /** Setting a bit changes that bit and no other. */
  lemma SetOneBit(x: bv8, k: nat, j: nat)
    requires k < 8 && j < 8
    ensures TestBit(SetBit(x, k), j) == (j == k || TestBit(x, j))
  {
    if j == k { SetThisBit(x, k); } else { SetOtherBit(x, k, j); }
  }

  lemma ClearOneBit(x: bv8, k: nat, j: nat)
    requires k < 8 && j < 8
    ensures TestBit(ClearBit(x, k), j) == (j != k && TestBit(x, j))
  {
    if j == k { SetThisBit(x, k); } else { ClearOtherBit(x, k, j); }
  }

  /** The flags of the first `n` blocks. */
  ghost function Flags(bytes: seq<bv8>, n: nat): (bits: seq<bool>)
    requires n <= 8 * |bytes|
    ensures |bits| == n && forall b :: 0 <= b < n ==> bits[b] == TestBit(bytes[b / 8], b % 8)
  {
    seq(n, b requires 0 <= b < n => TestBit(bytes[b / 8], b % 8))
  }

  lemma ZeroBit(k: nat)
    requires k < 8
    ensures !TestBit(0, k)
  {
  }

  /** `bitmap_init`: all blocks free but the two reserved ones. */
  method Init(size: nat, n: nat) returns (bytes: seq<bv8>)
    requires n <= 8 * size
    ensures |bytes| == size && forall b :: 0 <= b < n ==> (Flags(bytes, n)[b] <==> b < 2)
  {
    bytes := seq(size, _ => 0);
    forall b | 0 <= b < n ensures !Flags(bytes, n)[b] {
      ZeroBit(b % 8);
    }
    bytes := SetTo(bytes, n, 0, true);
    bytes := SetTo(bytes, n, 1, true);
  }

  lemma SetFlag(bytes: seq<bv8>, n: nat, b: nat)
    requires n <= 8 * |bytes| && b < n
    ensures Flags(bytes[b / 8 := SetBit(bytes[b / 8], b % 8)], n) == Flags(bytes, n)[b := true]
  {
    var bytes' := bytes[b / 8 := SetBit(bytes[b / 8], b % 8)];
    forall c | 0 <= c < n ensures Flags(bytes', n)[c] == Flags(bytes, n)[b := true][c] {
      if c / 8 == b / 8 { SetOneBit(bytes[b / 8], b % 8, c % 8); }
    }
  }

  lemma ClearFlag(bytes: seq<bv8>, n: nat, b: nat)
    requires n <= 8 * |bytes| && b < n
    ensures Flags(bytes[b / 8 := ClearBit(bytes[b / 8], b % 8)], n) == Flags(bytes, n)[b := false]
  {
    var bytes' := bytes[b / 8 := ClearBit(bytes[b / 8], b % 8)];
    forall c | 0 <= c < n ensures Flags(bytes', n)[c] == Flags(bytes, n)[b := false][c] {
      if c / 8 == b / 8 { ClearOneBit(bytes[b / 8], b % 8, c % 8); }
    }
  }

  /** `bitmap_set` and `bitmap_clear`: blocks outside the device are ignored. */
  method SetTo(bytes: seq<bv8>, n: nat, b: nat, used: bool) returns (r: seq<bv8>)
    requires n <= 8 * |bytes|
    ensures |r| == |bytes|
    ensures Flags(r, n) == if b < n then Flags(bytes, n)[b := used] else Flags(bytes, n)
  {
    if b >= n { return bytes; }
    if used {
      SetFlag(bytes, n, b);
      return bytes[b / 8 := SetBit(bytes[b / 8], b % 8)];
    } else {
      ClearFlag(bytes, n, b);
      return bytes[b / 8 := ClearBit(bytes[b / 8], b % 8)];
    }
  }

  /** `bitmap_test`: blocks outside the device count as used. */
  method Test(bytes: seq<bv8>, n: nat, b: nat) returns (used: bool)
    requires n <= 8 * |bytes|
    ensures used == (b >= n || Flags(bytes, n)[b])
  {
    return b >= n || TestBit(bytes[b / 8], b % 8);
  }

  // ------------------------------------------------------------------ ranges

  /** Mark `n` blocks from `first` on; those outside the device are ignored. */
  ghost function Mark(bits: seq<bool>, first: nat, n: nat, used: bool): (r: seq<bool>)
    ensures |r| == |bits|
    ensures forall b :: 0 <= b < |bits| ==> r[b] == if first <= b < first + n then used else bits[b]
  {
    if n == 0 then bits
    else
      var r := Mark(bits, first, n - 1, used);
      var last := first + n - 1;
      if last < |bits| then r[last := used] else r
  }

  /** `bitmap_mark_range`. */
  method MarkRange(bytes: seq<bv8>, n: nat, first: nat, count: nat, used: bool) returns (r: seq<bv8>)
    requires n <= 8 * |bytes|
    ensures |r| == |bytes| && Flags(r, n) == Mark(Flags(bytes, n), first, count, used)
  {
    r := bytes;
    for i := 0 to count
      invariant |r| == |bytes| && Flags(r, n) == Mark(Flags(bytes, n), first, i, used)
    {
      r := SetTo(r, n, first + i, used);
    }
  }

  /** The number of clear flags. */
  ghost function Clear(bits: seq<bool>): nat {
    if bits == [] then 0 else Clear(bits[1..]) + if bits[0] then 0 else 1
  }

  lemma {:induction false} ClearUpdate(bits: seq<bool>, b: nat, used: bool)
    requires b < |bits|
    ensures Clear(bits[b := used]) + (if bits[b] then 0 else 1) == Clear(bits) + if used then 0 else 1
  {
    if b > 0 {
      ClearUpdate(bits[1..], b - 1, used);
      assert bits[b := used][1..] == bits[1..][b - 1 := used];
    } else {
      assert bits[b := used][1..] == bits[1..];
    }
  }

  /** Marking flags that all had the other value moves the count by their number. */
  lemma {:induction false} ClearMark(bits: seq<bool>, first: nat, n: nat, used: bool)
    requires first + n <= |bits| && forall b :: first <= b < first + n ==> bits[b] != used
    ensures Clear(Mark(bits, first, n, used)) == if used then Clear(bits) - n else Clear(bits) + n
  {
    if n == 0 {
    } else {
      ClearMark(bits, first, n - 1, used);
      ClearUpdate(Mark(bits, first, n - 1, used), first + n - 1, used);
    }
  }

  lemma {:induction false} ClearAtMost(bits: seq<bool>)
    ensures Clear(bits) <= |bits|
  {
    if bits == [] {
    } else {
      ClearAtMost(bits[1..]);
    }
  }

  // -------------------------------------------------------------- the search

  /** `n` blocks from `s` on lie inside the device and are free. */
  ghost predicate FreeRun(bits: seq<bool>, s: nat, n: nat) {
    s + n <= |bits| && forall b :: s <= b < s + n ==> !bits[b]
  }

  /** The least start of a free run of `n` blocks that is not below `s`; the number of
      blocks if there is none. */
  ghost function FirstRun(bits: seq<bool>, s: nat, n: nat): (r: nat)
    ensures r < |bits| ==> s <= r && FreeRun(bits, r, n)
    ensures forall x :: s <= x < r && x < |bits| ==> !FreeRun(bits, x, n)
    decreases |bits| - s
  {
    if s >= |bits| then |bits|
    else if FreeRun(bits, s, n) then s
    else FirstRun(bits, s + 1, n)
  }

  lemma FirstRunIs(bits: seq<bool>, s: nat, n: nat, r: nat)
    requires s <= r < |bits| && FreeRun(bits, r, n) && forall x :: s <= x < r ==> !FreeRun(bits, x, n)
    ensures FirstRun(bits, s, n) == r
  {
    var f := FirstRun(bits, s, n);
    assert r < f ==> !FreeRun(bits, r, n);
  }

  /** `bitmap_find_contiguous`: the search skips past a used block, and still finds the
      least free run or none at all. */
  method FindContiguous(bytes: seq<bv8>, total: nat, n: nat) returns (found: bool, first: nat)
    requires total <= 8 * |bytes|
    ensures n == 0 ==> found && first == 0
    ensures n > 0 ==> (found <==> FirstRun(Flags(bytes, total), 2, n) < total)
    ensures n > 0 && found ==> first == FirstRun(Flags(bytes, total), 2, n)
  {
    ghost var bits := Flags(bytes, total);
    if n == 0 { return true, 0; }
    if n > total { return false, 0; }
    first := 2;
    while first + n <= total
      invariant 2 <= first && forall x :: 2 <= x < first ==> !FreeRun(bits, x, n)
      decreases total - first
    {
      var j := FirstUsed(bytes, total, first, n);
      if j == n {
        FirstRunIs(bits, 2, n, first);
        return true, first;
      }
      assert bits[first + j];
      assert forall x :: first <= x <= first + j ==> !FreeRun(bits, x, n);
      first := first + j + 1;
    }
    return false, 0;
  }

  /** The offset of the first used block among `n` blocks, `n` if all are free. */
  method FirstUsed(bytes: seq<bv8>, total: nat, s: nat, n: nat) returns (j: nat)
    requires total <= 8 * |bytes|
    ensures j <= n && (j > 0 ==> FreeRun(Flags(bytes, total), s, j))
    ensures j < n ==> s + j >= total || Flags(bytes, total)[s + j]
  {
    j := 0;
    while j < n
      invariant j <= n && (j > 0 ==> FreeRun(Flags(bytes, total), s, j))
    {
      var used := Test(bytes, total, s + j);
      if used { return; }
      j := j + 1;
    }
  }
}
