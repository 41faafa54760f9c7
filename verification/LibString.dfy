/** The word-at-a-time memory and string routines, on one flat memory in which pointers
    are addresses and 0 is the null pointer, against the byte loops they stand for. */
module LibString {

  // --------------------------------------------------------------------- words

  /** The 32-bit word of four bytes, lowest first. */
  function Word(b0: bv8, b1: bv8, b2: bv8, b3: bv8): bv32 {
    (b0 as bv32) | ((b1 as bv32) << 8) | ((b2 as bv32) << 16) | ((b3 as bv32) << 24)
  }

  function Load(m: seq<bv8>, p: nat): bv32
    requires p + 4 <= |m|
  {
    Word(m[p], m[p + 1], m[p + 2], m[p + 3])
  }

  /** Words are equal exactly if their bytes are. */
  lemma WordsEqual(a0: bv8, a1: bv8, a2: bv8, a3: bv8, b0: bv8, b1: bv8, b2: bv8, b3: bv8)
    ensures Word(a0, a1, a2, a3) == Word(b0, b1, b2, b3) <==> a0 == b0 && a1 == b1 && a2 == b2 && a3 == b3
  {
  }

  /** The test `lib_strlen` makes on a word. */
  function HasZero(v: bv32): bool {
    (v - 0x01010101) & !v & 0x80808080 != 0
  }

  /** The test is true exactly if some byte of the word is zero. */
  lemma HasZeroByte(b0: bv8, b1: bv8, b2: bv8, b3: bv8)
    ensures HasZero(Word(b0, b1, b2, b3)) <==> b0 == 0 || b1 == 0 || b2 == 0 || b3 == 0
  {
  }

  // -------------------------------------------------------------------- copying

  /** `now` is `was` with the first `k` of the bytes from `src` on copied to `dst`. */
  ghost predicate Copied(now: seq<bv8>, was: seq<bv8>, dst: nat, src: nat, k: nat) {
    && |now| == |was| && src + k <= |was| && dst + k <= |was|
    && forall j {:trigger now[j]} :: 0 <= j < |was| ==> now[j] == if dst <= j < dst + k then was[src + j - dst] else was[j]
  }

  /** Forward copying is safe: the source is not overwritten before it is read. */
  ghost predicate Forward(dst: nat, src: nat, n: nat) {
    dst <= src || src + n <= dst
  }

  /** One 32-bit load and store. */
  method CopyWord(mem: array<bv8>, d: nat, s: nat)
    requires d + 4 <= mem.Length && s + 4 <= mem.Length
    modifies mem
    ensures mem[..] == old(mem[..])[d := old(mem[s])][d + 1 := old(mem[s + 1])][d + 2 := old(mem[s + 2])][d + 3 := old(mem[s + 3])]
  {
    mem[d], mem[d + 1], mem[d + 2], mem[d + 3] := mem[s], mem[s + 1], mem[s + 2], mem[s + 3];
  }

  /** One more word, when source and destination are a word or more apart, or the same. */
  lemma WordStep(now: seq<bv8>, was: seq<bv8>, dst: nat, src: nat, k: nat, n: nat)
    requires Copied(now, was, dst, src, k) && k + 4 <= n && src + n <= |was| && dst + n <= |was|
    requires Forward(dst, src, n) && (dst == src || dst + 4 <= src || src + n <= dst)
    ensures var s, d := src + k, dst + k;
            Copied(now[d := now[s]][d + 1 := now[s + 1]][d + 2 := now[s + 2]][d + 3 := now[s + 3]], was, dst, src, k + 4)
  {
  }

  lemma ByteStep(now: seq<bv8>, was: seq<bv8>, dst: nat, src: nat, k: nat, n: nat)
    requires Copied(now, was, dst, src, k) && k < n && src + n <= |was| && dst + n <= |was| && Forward(dst, src, n)
    ensures Copied(now[dst + k := now[src + k]], was, dst, src, k + 1)
  {
  }

  /** Aligned addresses that differ are a word or more apart. */
  lemma AlignedApart(dst: nat, src: nat, n: nat)
    requires dst % 4 == 0 && src % 4 == 0 && Forward(dst, src, n)
    ensures dst == src || dst + 4 <= src || src + n <= dst
  {
  }

  /** `lib_memcpy`: words four at a time, single words, then bytes. */
  method Memcpy(mem: array<bv8>, dst: nat, src: nat, n: nat)
    requires dst + n <= mem.Length && src + n <= mem.Length && Forward(dst, src, n)
    modifies mem
    ensures if dst == 0 || src == 0 then mem[..] == old(mem[..]) else Copied(mem[..], old(mem[..]), dst, src, n)
  {
    if dst == 0 || src == 0 || n == 0 { return; }
    ghost var was := mem[..];
    var k := 0;
    if dst % 4 == 0 && src % 4 == 0 && n >= 16 { k := CopyWords(mem, dst, src, n); }
    CopyBytes(mem, was, dst, src, k, n);
  }

  /** The byte loop of `lib_memcpy`, from offset `start` on. */
  method CopyBytes(mem: array<bv8>, ghost was: seq<bv8>, dst: nat, src: nat, start: nat, n: nat)
    requires dst + n <= mem.Length && src + n <= mem.Length && Forward(dst, src, n)
    requires start <= n && Copied(mem[..], was, dst, src, start)
    modifies mem
    ensures Copied(mem[..], was, dst, src, n)
  {
    var k := start;
    while k < n
      invariant k <= n && Copied(mem[..], was, dst, src, k)
    {
      ByteStep(mem[..], was, dst, src, k, n);
      mem[dst + k] := mem[src + k];
      k := k + 1;
    }
  }

  /** The word part of `lib_memcpy`. */
  method CopyWords(mem: array<bv8>, dst: nat, src: nat, n: nat) returns (k: nat)
    requires dst + n <= mem.Length && src + n <= mem.Length && Forward(dst, src, n)
    requires dst % 4 == 0 && src % 4 == 0
    modifies mem
    ensures k == n / 4 * 4 && Copied(mem[..], old(mem[..]), dst, src, k)
  {
    ghost var was := mem[..];
    AlignedApart(dst, src, n);
    var words: nat := n / 4;
    k := 0;
    while words >= 4
      invariant k + 4 * words == n / 4 * 4 && Copied(mem[..], was, dst, src, k)
    {
      OneWord(mem, was, dst, src, k, n);
      OneWord(mem, was, dst, src, k + 4, n);
      OneWord(mem, was, dst, src, k + 8, n);
      OneWord(mem, was, dst, src, k + 12, n);
      k, words := k + 16, words - 4;
    }
    while words > 0
      invariant k + 4 * words == n / 4 * 4 && Copied(mem[..], was, dst, src, k)
    {
      OneWord(mem, was, dst, src, k, n);
      k, words := k + 4, words - 1;
    }
  }

  method OneWord(mem: array<bv8>, ghost was: seq<bv8>, dst: nat, src: nat, k: nat, n: nat)
    requires Copied(mem[..], was, dst, src, k) && k + 4 <= n && src + n <= |was| && dst + n <= |was|
    requires Forward(dst, src, n) && (dst == src || dst + 4 <= src || src + n <= dst)
    modifies mem
    ensures Copied(mem[..], was, dst, src, k + 4)
  {
    WordStep(mem[..], was, dst, src, k, n);
    CopyWord(mem, dst + k, src + k);
  }

  /** `lib_memmove`: the destination receives the original source bytes, however the two
      ranges overlap, and nothing else changes. */
  method Memmove(mem: array<bv8>, dst: nat, src: nat, n: nat)
    requires dst + n <= mem.Length && src + n <= mem.Length
    modifies mem
    ensures if dst == 0 || src == 0 then mem[..] == old(mem[..]) else Copied(mem[..], old(mem[..]), dst, src, n)
  {
    if dst == 0 || src == 0 || n == 0 { return; }
    if dst == src { return; }
    if dst < src {
      Memcpy(mem, dst, src, n);
    } else {
      CopyBackwards(mem, dst, src, n);
    }
  }

  method CopyBackwards(mem: array<bv8>, dst: nat, src: nat, n: nat)
    requires dst + n <= mem.Length && src + n <= mem.Length && src < dst
    modifies mem
    ensures Copied(mem[..], old(mem[..]), dst, src, n)
  {
    ghost var was := mem[..];
    var k: nat := n;
    while k > 0
      invariant k <= n
      invariant forall j {:trigger mem[j]} :: 0 <= j < mem.Length ==>
        mem[j] == if dst + k <= j < dst + n then was[src + j - dst] else was[j]
    {
      k := k - 1;
      mem[dst + k] := mem[src + k];
    }
  }

  // ------------------------------------------------------------------ comparing

  /** The byte loop: the difference of the first bytes that differ, 0 if none does. */
  ghost function Compare(x: seq<bv8>, y: seq<bv8>): int
    requires |x| == |y|
  {
    if x == [] then 0
    else if x[0] != y[0] then x[0] as int - y[0] as int
    else Compare(x[1..], y[1..])
  }

  /** Bytes that agree do not matter. */
  lemma {:induction false} CompareSkips(x: seq<bv8>, y: seq<bv8>, k: nat)
    requires |x| == |y| && k <= |x| && x[..k] == y[..k]
    ensures Compare(x, y) == Compare(x[k..], y[k..])
  {
    if k == 0 {
    } else {
      assert x[0] == x[..k][0] && y[0] == y[..k][0];
      assert x[1..][..k - 1] == x[..k][1..] && y[1..][..k - 1] == y[..k][1..];
      CompareSkips(x[1..], y[1..], k - 1);
      assert x[1..][k - 1..] == x[k..] && y[1..][k - 1..] == y[k..];
    }
  }

  /** `lib_memcmp`: whole words first when both ranges are aligned, then bytes. */
  method Memcmp(m: seq<bv8>, a: nat, b: nat, n: nat) returns (r: int)
    requires a + n <= |m| && b + n <= |m|
    ensures a != 0 && b != 0 ==> r == Compare(m[a..a + n], m[b..b + n])
    ensures a == 0 || b == 0 ==> r == if a == b then 0 else if a != 0 then 1 else -1
  {
    if a == 0 || b == 0 { return if a == b then 0 else if a != 0 then 1 else -1; }
    var k := 0;
    if a % 4 == 0 && b % 4 == 0 && n >= 16 {
      k := SameWords(m, a, b, n);
    }
    r := CompareBytes(m, a, b, n, k);
  }

  /** The byte loop, from offset `k` on; after a word that differs it ends in that word. */
  method CompareBytes(m: seq<bv8>, a: nat, b: nat, n: nat, start: nat) returns (r: int)
    requires a + n <= |m| && b + n <= |m| && start <= n && m[a..a + start] == m[b..b + start]
    ensures r == Compare(m[a..a + n], m[b..b + n])
  {
    var k := start;
    while k < n
      invariant k <= n && m[a..a + k] == m[b..b + k]
    {
      if m[a + k] != m[b + k] {
        CompareFrom(m, a, b, n, k);
        return m[a + k] as int - m[b + k] as int;
      }
      assert m[a + k..a + k + 1] == [m[a + k]] && m[b + k..b + k + 1] == [m[b + k]];
      SameLonger(m, a, b, k, 1);
      k := k + 1;
    }
    CompareFrom(m, a, b, n, n);
    return 0;
  }

  lemma CompareFrom(m: seq<bv8>, a: nat, b: nat, n: nat, k: nat)
    requires a + n <= |m| && b + n <= |m| && k <= n && m[a..a + k] == m[b..b + k]
    ensures Compare(m[a..a + n], m[b..b + n]) == Compare(m[a + k..a + n], m[b + k..b + n])
  {
    var x, y := m[a..a + n], m[b..b + n];
    assert x[..k] == m[a..a + k] && y[..k] == m[b..b + k];
    assert x[k..] == m[a + k..a + n] && y[k..] == m[b + k..b + n];
    CompareSkips(x, y, k);
  }

  lemma SameWord(m: seq<bv8>, p: nat, q: nat)
    requires p + 4 <= |m| && q + 4 <= |m|
    ensures Load(m, p) == Load(m, q) <==> m[p..p + 4] == m[q..q + 4]
  {
    WordsEqual(m[p], m[p + 1], m[p + 2], m[p + 3], m[q], m[q + 1], m[q + 2], m[q + 3]);
    assert m[p..p + 4] == [m[p], m[p + 1], m[p + 2], m[p + 3]];
    assert m[q..q + 4] == [m[q], m[q + 1], m[q + 2], m[q + 3]];
  }

  lemma SameLonger(m: seq<bv8>, a: nat, b: nat, k: nat, w: nat)
    requires a + k + w <= |m| && b + k + w <= |m|
    requires m[a..a + k] == m[b..b + k] && m[a + k..a + k + w] == m[b + k..b + k + w]
    ensures m[a..a + k + w] == m[b..b + k + w]
  {
    assert m[a..a + k + w] == m[a..a + k] + m[a + k..a + k + w];
    assert m[b..b + k + w] == m[b..b + k] + m[b + k..b + k + w];
  }

  /** The word loop of `lib_memcmp`: the offset of the first word that differs, or of the
      end of the last whole word. */
  method SameWords(m: seq<bv8>, a: nat, b: nat, n: nat) returns (k: nat)
    requires a + n <= |m| && b + n <= |m|
    ensures k <= n && m[a..a + k] == m[b..b + k]
    ensures k == n / 4 * 4 || (k + 4 <= n && m[a + k..a + k + 4] != m[b + k..b + k + 4])
  {
    k := 0;
    while k < n / 4 * 4
      invariant k <= n / 4 * 4 && k % 4 == 0 && Same(m, a, b, k)
    {
      var p, q := a + k, b + k;
      NextWord(m, a, b, k, p, q);
      if Load(m, p) != Load(m, q) { return; }
      k := k + 4;
    }
  }

  ghost predicate Same(m: seq<bv8>, a: nat, b: nat, k: nat) {
    a + k <= |m| && b + k <= |m| && m[a..a + k] == m[b..b + k]
  }

  lemma NextWord(m: seq<bv8>, a: nat, b: nat, k: nat, p: nat, q: nat)
    requires Same(m, a, b, k) && p == a + k && q == b + k && p + 4 <= |m| && q + 4 <= |m|
    ensures if Load(m, p) == Load(m, q) then Same(m, a, b, k + 4) else m[p..p + 4] != m[q..q + 4]
  {
    SameWord(m, p, q);
    if Load(m, p) == Load(m, q) { SameLonger(m, a, b, k, 4); }
  }

  // -------------------------------------------------------------------- lengths

  /** The byte loop: the distance to the first zero byte. */
  ghost function Length(m: seq<bv8>, s: nat): nat
    requires s <= |m|
    decreases |m| - s
  {
    if s == |m| || m[s] == 0 then 0 else 1 + Length(m, s + 1)
  }

  lemma {:induction false} LengthIs(m: seq<bv8>, s: nat, k: nat)
    requires s + k < |m| && m[s + k] == 0 && forall j :: s <= j < s + k ==> m[j] != 0
    ensures Length(m, s) == k
    decreases k
  {
    if k == 0 {
    } else {
      LengthIs(m, s + 1, k - 1);
    }
  }

  /** `lib_strlen`: bytes up to a word boundary, then whole words. A zero byte must follow,
      and the memory must end at a word boundary, so that the last word can be loaded. */
  method Strlen(m: seq<bv8>, s: nat) returns (len: nat)
    requires |m| % 4 == 0 && s < |m| && exists z :: s <= z < |m| && m[z] == 0
    ensures len == if s == 0 then 0 else Length(m, s)
  {
    if s == 0 { return 0; }
    ghost var z :| s <= z < |m| && m[z] == 0;
    len := 0;
    while (s + len) % 4 != 0 && m[s + len] != 0
      invariant s + len <= z && forall j :: s <= j < s + len ==> m[j] != 0
      decreases z - len
    {
      len := len + 1;
    }
    if m[s + len] == 0 {
      LengthIs(m, s, len);
      return;
    }
    while true
      invariant s + len <= z && (s + len) % 4 == 0 && forall j :: s <= j < s + len ==> m[j] != 0
      decreases z - len
    {
      var p := s + len;
      HasZeroByte(m[p], m[p + 1], m[p + 2], m[p + 3]);
      if HasZero(Load(m, p)) {
        len := len + ZeroIn(m, p);
        LengthIs(m, s, len);
        return;
      }
      len := len + 4;
    }
  }

  function ZeroIn(m: seq<bv8>, p: nat): (i: nat)
    requires p + 4 <= |m| && (m[p] == 0 || m[p + 1] == 0 || m[p + 2] == 0 || m[p + 3] == 0)
    ensures i < 4 && m[p + i] == 0 && forall j :: p <= j < p + i ==> m[j] != 0
  {
    if m[p] == 0 then 0 else if m[p + 1] == 0 then 1 else if m[p + 2] == 0 then 2 else 3
  }

  /** Comparing yields the difference of the first bytes that differ, 0 if none does. */
  lemma CompareMeans(x: seq<bv8>, y: seq<bv8>)
    requires |x| == |y|
    ensures x == y ==> Compare(x, y) == 0
    ensures forall k :: 0 <= k < |x| && x[..k] == y[..k] && x[k] != y[k] ==> Compare(x, y) == x[k] as int - y[k] as int != 0
  {
    if x == y { CompareSkips(x, y, |x|); }
    forall k | 0 <= k < |x| && x[..k] == y[..k] && x[k] != y[k]
      ensures Compare(x, y) == x[k] as int - y[k] as int != 0
    {
      CompareSkips(x, y, k);
    }
  }
}
