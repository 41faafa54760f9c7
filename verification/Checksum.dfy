/** The Internet checksum of the TCP code, against the one's-complement sum of section 1
    of RFC 1071. */
module Checksum {
  import opened Bits

  type byte = x: nat | x < 256
  type half = x: nat | x < 65536

  // ----------------------------------------------------- one's-complement sums

  function Pair(lo: nat, hi: nat): half
    requires lo < 256 && hi < 256
  {
    lo + 256 * hi
  }

  /** The 16-bit words of the data, low byte first; an odd last byte is padded with zero. */
  ghost function Words(data: seq<byte>): seq<half> {
    if data == [] then []
    else if |data| == 1 then [data[0]]
    else [Pair(data[0], data[1])] + Words(data[2..])
  }

  /** One's-complement addition: a carry out of bit 15 is added back in at bit 0. */
  function Plus(a: half, b: half): half {
    if a + b < 65536 then a + b else a + b - 65535
  }

  /** The one's-complement sum of words. */
  ghost function OnesSum(acc: half, words: seq<half>): half
    decreases |words|
  {
    if words == [] then acc else OnesSum(Plus(acc, words[0]), words[1..])
  }

  ghost function Total(words: seq<half>): nat {
    if words == [] then 0 else words[0] + Total(words[1..])
  }

  /** The 16-bit number a sum folds to: 0 for 0, else the multiple of 65535 taken out. */
  function Folded(s: nat): half {
    if s == 0 then 0 else (s - 1) % 65535 + 1
  }

  /** There is only one such number. */
  lemma FoldedIs(s: nat, f: half, q: nat)
    requires s > 0 && f > 0 && s == 65535 * q + f
    ensures Folded(s) == f
  {
    assert s - 1 == 65535 * q + (f - 1);
  }

  lemma PlusFolds(s: nat, w: half)
    ensures Plus(Folded(s), w) == Folded(s + w)
  {
    if s > 0 {
      var q := (s - 1) / 65535;
      assert s == 65535 * q + Folded(s);
      if Folded(s) + w < 65536 {
        FoldedIs(s + w, Folded(s) + w, q);
      } else {
        FoldedIs(s + w, Folded(s) + w - 65535, q + 1);
      }
    } else if w > 0 {
      FoldedIs(w, w, 0);
    }
  }

  /** Adding up and folding at the end is one's-complement addition all along. */
  lemma {:induction false} SumFolds(s: nat, words: seq<half>)
    ensures OnesSum(Folded(s), words) == Folded(s + Total(words))
    decreases |words|
  {
    if words == [] {
    } else {
      PlusFolds(s, words[0]);
      SumFolds(s + words[0], words[1..]);
    }
  }

  lemma {:induction false} TotalBound(words: seq<half>)
    ensures Total(words) <= 65535 * |words|
  {
    if words == [] {
    } else {
      TotalBound(words[1..]);
    }
  }

  lemma {:induction false} WordCount(data: seq<byte>)
    ensures |Words(data)| == (|data| + 1) / 2
  {
    if |data| <= 1 {
    } else {
      WordCount(data[2..]);
    }
  }

  // ------------------------------------------------------------- the checksum

  ghost function Sum(data: seq<byte>): nat {
    Total(Words(data))
  }

  function Complement(s: nat): half {
    65535 - Folded(s)
  }

  ghost function Check(data: seq<byte>): half {
    Complement(Sum(data))
  }

  /** The checksum is the complement of the one's-complement sum of the words. */
  lemma CheckIsOnesComplement(data: seq<byte>)
    ensures Check(data) == 65535 - OnesSum(0, Words(data))
  {
    SumFolds(0, Words(data));
  }

  /** A sum over at most 131074 bytes fits 32 bits. */
  lemma SumFits(data: seq<byte>)
    requires |data| <= 131074
    ensures Sum(data) < WORD
  {
    TotalBound(Words(data));
    WordCount(data);
  }

  lemma TotalOne(w: half)
    ensures Total([w]) == w
  {
    assert [w][1..] == [];
    assert Total([]) == 0;
  }

  /** The part of the sum that is still to come. */
  lemma SumRest(data: seq<byte>, i: nat)
    requires i <= |data|
    ensures i + 1 < |data| ==> Sum(data[i..]) == Pair(data[i], data[i + 1]) + Sum(data[i + 2..])
    ensures i + 1 == |data| ==> Sum(data[i..]) == data[i]
    ensures i == |data| ==> Sum(data[i..]) == 0
  {
    var d := data[i..];
    if i + 1 < |data| {
      assert d[2..] == data[i + 2..];
      assert Words(d)[1..] == Words(d[2..]);
    } else if i + 1 == |data| {
      var w: half := d[0];
      assert Words(d) == [w];
      TotalOne(w);
    }
  }

  /** A 32-bit addition. */
  function Add32(s: nat, w: nat): word {
    (s + w) % WORD
  }

  /** `s` is the 32-bit sum of the words before offset `i`. */
  ghost predicate Summed(data: seq<byte>, i: nat, s: nat) {
    i <= |data| && (s + Sum(data[i..])) % WORD == Sum(data) % WORD
  }

  lemma AddedOn(s: nat, w: nat, rest: nat)
    ensures (Add32(s, w) + rest) % WORD == (s + (w + rest)) % WORD
  {
  }

  lemma SummedPair(data: seq<byte>, i: nat, s: nat)
    requires Summed(data, i, s) && i + 1 < |data|
    ensures Summed(data, i + 2, Add32(s, Pair(data[i], data[i + 1])))
  {
    SumRest(data, i);
    AddedOn(s, Pair(data[i], data[i + 1]), Sum(data[i + 2..]));
  }

  lemma SummedEnd(data: seq<byte>, i: nat, s: nat)
    requires Summed(data, i, s) && i + 1 >= |data|
    ensures (if i < |data| then Add32(s, data[i]) else s % WORD) == Sum(data) % WORD
  {
    SumRest(data, i);
  }

  /** The summing loop. */
  method AddUp(data: seq<byte>) returns (sum: word)
    ensures sum == Sum(data) % WORD
  {
    sum := 0;
    var i: nat := 0;
    assert data[0..] == data;
    while |data| - i > 1
      invariant Summed(data, i, sum)
    {
      SummedPair(data, i, sum);
      sum := Add32(sum, Pair(data[i], data[i + 1]));
      i := i + 2;
    }
    SummedEnd(data, i, sum);
    if |data| - i == 1 { sum := Add32(sum, data[i]); }
  }

  /** `tcp_checksum`: the 32-bit sum, its folding, and the complement. It is the Internet
      checksum exactly if the sum of the words fits 32 bits. */
  method TcpChecksum(data: seq<byte>) returns (r: half)
    requires |data| < WORD
    ensures r == Complement(Sum(data) % WORD)
    ensures r == Check(data) <==> Sum(data) < WORD
  {
    var sum := AddUp(data);
    sum := Fold(sum);
    SumBound(data);
    WrapFolds(Sum(data));
    return 65535 - sum;
  }

  /** The folding loop. */
  method Fold(s: nat) returns (sum: half)
    ensures sum == Folded(s)
  {
    var t := s;
    while t / 65536 != 0
      invariant Folded(t) == Folded(s)
      decreases t
    {
      FoldOnce(t);
      t := t % 65536 + t / 65536;
    }
    SmallFolded(t);
    return t;
  }

  lemma SumBound(data: seq<byte>)
    requires |data| < WORD
    ensures Sum(data) < 65535 * WORD
  {
    TotalBound(Words(data));
    WordCount(data);
  }

  /** Cutting a sum to 32 bits keeps what it folds to exactly if it cuts nothing off. */
  lemma WrapFolds(s: nat)
    requires s < 65535 * WORD
    ensures Folded(s % WORD) == Folded(s) <==> s < WORD
  {
    var q, r := s / WORD, s % WORD;
    if q > 0 && r > 0 {
      var k := (r - 1) / 65535;
      assert r == 65535 * k + Folded(r);
      assert s == 65535 * (65537 * q + k) + (q + Folded(r));
      if q + Folded(r) < 65536 {
        FoldedIs(s, q + Folded(r), 65537 * q + k);
      } else {
        FoldedIs(s, q + Folded(r) - 65535, 65537 * q + k + 1);
      }
    }
  }

  lemma FoldOnce(s: nat)
    requires s >= 65536
    ensures Folded(s % 65536 + s / 65536) == Folded(s) && s % 65536 + s / 65536 < s
  {
    var t, h := s % 65536 + s / 65536, s / 65536;
    assert s == t + 65535 * h;
    var q := (t - 1) / 65535;
    assert t == 65535 * q + Folded(t);
    FoldedIs(s, Folded(t), q + h);
  }

  lemma SmallFolded(s: nat)
    requires s < 65536
    ensures Folded(s) == s
  {
    if s > 0 { FoldedIs(s, s, 0); }
  }

  // ------------------------------------------------------- storing the checksum

  lemma SumPair(data: seq<byte>)
    requires |data| >= 2
    ensures Sum(data) == Pair(data[0], data[1]) + Sum(data[2..])
  {
    SumRest(data, 0);
    assert data[0..] == data;
  }

  /** Changing the word at an even offset changes the sum by that word. */
  lemma {:induction false} SumUpdate(data: seq<byte>, i: nat, lo: byte, hi: byte)
    requires i % 2 == 0 && i + 1 < |data| && data[i] == data[i + 1] == 0
    ensures Sum(data[i := lo][i + 1 := hi]) == Sum(data) + Pair(lo, hi)
    decreases i
  {
    var stored := data[i := lo][i + 1 := hi];
    SumPair(data);
    SumPair(stored);
    if i == 0 {
      assert stored[2..] == data[2..];
    } else {
      SumUpdate(data[2..], i - 2, lo, hi);
      assert stored[2..] == data[2..][i - 2 := lo][i - 1 := hi];
    }
  }

  /** Data that carries its own checksum, in a field that was zero, checks to zero. */
  lemma StoredChecksToZero(data: seq<byte>, i: nat)
    requires i % 2 == 0 && i + 1 < |data| && data[i] == data[i + 1] == 0
    ensures var c := Check(data); Check(data[i := c % 256][i + 1 := c / 256]) == 0
  {
    var c, s := Check(data), Sum(data);
    SumUpdate(data, i, c % 256, c / 256);
    if s == 0 {
      FoldedIs(65535, 65535, 0);
    } else {
      var q := (s - 1) / 65535;
      assert s == 65535 * q + Folded(s);
      FoldedIs(s + c, 65535, q);
    }
  }

  // ------------------------------------------------------------- byte swapping

  ghost function Swapped(data: seq<byte>): (r: seq<byte>)
    ensures |r| == |data|
  {
    if |data| < 2 then data else [data[1], data[0]] + Swapped(data[2..])
  }

  function Swap(w: half): half {
    w % 256 * 256 + w / 256
  }

  /** Modulo 65535 a swap of bytes is a multiplication by 256. */
  lemma {:induction false} SwappedSum(data: seq<byte>) returns (k: int)
    requires |data| % 2 == 0
    ensures Sum(Swapped(data)) == 256 * Sum(data) - 65535 * k
    ensures Sum(Swapped(data)) == 0 <==> Sum(data) == 0
  {
    if data == [] {
      k := 0;
    } else {
      var rest := SwappedSum(data[2..]);
      var swapped := Swapped(data);
      SumPair(data);
      SumPair(swapped);
      assert swapped[2..] == Swapped(data[2..]);
      k := rest + data[1];
    }
  }

  lemma SwapIsTimes256(w: half)
    ensures Swap(w) == 256 * w - 65535 * (w / 256) && (Swap(w) == 0 <==> w == 0)
    ensures Swap(65535 - w) == 65535 - Swap(w)
  {
    var lo, hi := w % 256, w / 256;
    assert 65535 - w == 256 * (255 - hi) + (255 - lo);
  }

  /** Swapping the bytes of every pair swaps the bytes of the checksum. */
  lemma SwapCommutes(data: seq<byte>)
    requires |data| % 2 == 0
    ensures Check(Swapped(data)) == Swap(Check(data))
  {
    var k := SwappedSum(data);
    SwapFolded(Sum(data), Sum(Swapped(data)), k);
  }

  lemma SwapFolded(s: nat, t: nat, k: int)
    requires t == 256 * s - 65535 * k && (s == 0 <==> t == 0)
    ensures Complement(t) == Swap(Complement(s))
  {
    var f := Folded(s);
    SwapIsTimes256(f);
    if s > 0 {
      var q := (s - 1) / 65535;
      assert s == 65535 * q + f;
      var m := 256 * q + f / 256 - k;
      assert t == 65535 * m + Swap(f);
      assert m >= 0;
      FoldedIs(t, Swap(f), m);
    }
  }

  // ------------------------------------------------------------------ an overflow

  /** The sum of `n` bytes that are all ones. */
  lemma {:induction false} OnesSumIs(data: seq<byte>)
    requires forall i :: 0 <= i < |data| ==> data[i] == 255
    ensures Sum(data) == |data| / 2 * 65535 + |data| % 2 * 255
    decreases |data|
  {
    if |data| < 2 {
      assert data[0..] == data;
      SumRest(data, 0);
    } else {
      SumPair(data);
      OnesSumIs(data[2..]);
    }
  }

  /** One byte more than `SumFits` allows, and the result is not the checksum. */
  lemma SumOverflows() returns (data: seq<byte>)
    ensures |data| == 131075 && Sum(data) >= WORD && Complement(Sum(data) % WORD) != Check(data)
  {
    data := seq(131075, _ => 255);
    OnesSumIs(data);
    SumBound(data);
    WrapFolds(Sum(data));
  }
}
