/** The unsigned 32-bit operators the kernel's C code relies on, written over
    naturals, and what the power-of-two idioms built from them compute. */
module Bits {

  const WORD: nat := 0x1_0000_0000

  /** A value of a C `uint32_t` or 32-bit `size_t`. */
  type word = x: nat | x < WORD

  /** The bitwise conjunction of two unsigned numbers, bit by bit. */
  function And(x: nat, y: nat): nat {
    if x == 0 || y == 0 then 0
    else (if x % 2 == 1 && y % 2 == 1 then 1 else 0) + 2 * And(x / 2, y / 2)
  }

  /** The 32-bit complement. */
  function Not32(x: nat): nat
    requires x < WORD
  {
    WORD - 1 - x
  }

  ghost predicate IsPow2(a: nat) {
    a == 1 || (a > 1 && a % 2 == 0 && IsPow2(a / 2))
  }

  /** `align_up` of the memory manager: both the sum and the mask are 32 bits wide. */
  function AlignUp(v: nat, a: nat): nat
    requires v < WORD && a < WORD
  {
    if a == 0 then v else And((v + (a - 1)) % WORD, Not32(a - 1))
  }

  // ---------------------------------------------------------------- division

  lemma MulAtLeast(a: nat, k: int)
    requires k >= 1
    ensures a * k >= a
  {
    assert a * k == a + a * (k - 1);
  }

  lemma DivModUnique(x: nat, a: nat, q: nat, r: nat)
    requires a > 0 && r < a && x == a * q + r
    ensures x / a == q && x % a == r
  {
    var d := q - x / a;
    assert a * d == a * q - a * (x / a);
    assert a * (-d) == -(a * d);
    if d >= 1 {
      MulAtLeast(a, d);
    } else if d <= -1 {
      MulAtLeast(a, -d);
    }
  }

  lemma HalfMod(x: nat, a: nat)
    requires a > 0 && a % 2 == 0
    ensures x % a == x % 2 + 2 * ((x / 2) % (a / 2))
  {
    var b, y := a / 2, x / 2;
    var q, r := y / b, y % b;
    assert y == b * q + r;
    assert x == 2 * (b * q + r) + x % 2;
    assert 2 * (b * q) == a * q;
    DivModUnique(x, a, q, 2 * r + x % 2);
  }

  // ------------------------------------------------------------------- masks

  lemma {:induction false} AndSelf(z: nat)
    ensures And(z, z) == z
  {
    if z == 0 {
    } else {
      AndSelf(z / 2);
    }
  }

  /** Masking with all ones changes nothing. */
  lemma {:induction false} AndOnes(x: nat, top: nat)
    requires IsPow2(top) && x < top
    ensures And(x, top - 1) == x
    decreases top
  {
    if top <= 1 {
    } else {
      AndOnes(x / 2, top / 2);
      assert (top - 1) / 2 == top / 2 - 1;
    }
  }

  /** Masking with `top - a`, for powers of two `a <= top`, clears the low bits. */
  lemma {:induction false} AndTopMask(x: nat, top: nat, a: nat)
    requires IsPow2(top) && IsPow2(a) && a <= top && x < top
    ensures And(x, top - a) == x - x % a
    decreases top
  {
    if a == 1 {
      AndOnes(x, top);
    } else {
      AndTopMask(x / 2, top / 2, a / 2);
      HalfMod(x, a);
      assert (top - a) / 2 == top / 2 - a / 2;
    }
  }

  lemma Pow2Doubled(a: nat)
    requires IsPow2(a)
    ensures IsPow2(2 * a)
  {
  }

  lemma Pow2Times16(a: nat)
    requires IsPow2(a)
    ensures IsPow2(16 * a)
  {
    Pow2Doubled(a);
    Pow2Doubled(2 * a);
    Pow2Doubled(4 * a);
    Pow2Doubled(8 * a);
  }

  lemma WordIsPow2()
    ensures IsPow2(0x8000_0000) && IsPow2(WORD)
  {
    assert IsPow2(8);
    Pow2Times16(0x8);
    Pow2Times16(0x80);
    Pow2Times16(0x800);
    Pow2Times16(0x8000);
    Pow2Times16(0x8_0000);
    Pow2Times16(0x80_0000);
    Pow2Times16(0x800_0000);
    Pow2Doubled(0x8000_0000);
  }

  /** The test `(a & (a - 1)) == 0` recognises exactly the powers of two. */
  lemma {:induction false} Pow2Test(a: nat)
    requires a > 0
    ensures And(a, a - 1) == 0 <==> IsPow2(a)
  {
    if a % 2 == 1 {
      AndSelf(a / 2);
      assert a > 1 ==> (a - 1) / 2 == a / 2 && (a - 1) % 2 == 0;
    } else {
      Pow2Test(a / 2);
      assert (a - 1) / 2 == a / 2 - 1;
    }
  }

  /** A multiple of `a` that is below the multiple `r` is at least `a` below it. */
  lemma MultipleGap(m: nat, r: nat, a: nat)
    requires a > 0 && m % a == 0 && r % a == 0 && m < r
    ensures m + a <= r
  {
    var p, q := m / a, r / a;
    assert m == a * p && r == a * q;
    MulMonotone(a, q, p);
    MulAtLeast(a, q - p);
    assert a * (q - p) == r - m;
  }

  lemma MulMonotone(a: nat, p: nat, q: nat)
    ensures p <= q ==> a * p <= a * q
  {
    if p <= q {
      assert a * q == a * p + a * (q - p);
      assert a * (q - p) >= 0;
    }
  }

  lemma FloorMultiple(x: nat, a: nat)
    requires a > 0
    ensures x - x % a >= 0 && (x - x % a) % a == 0
  {
    DivModUnique(x - x % a, a, x / a, 0);
  }

  lemma AlignUpIsMask(v: nat, a: nat, x: nat)
    requires 0 < a < WORD && v + a <= WORD && x == v + (a - 1)
    ensures AlignUp(v, a) == And(x, WORD - a)
  {
    assert x % WORD == x;
    assert Not32(a - 1) == WORD - a;
  }

  lemma AlignUpMask(v: nat, a: nat, x: nat, top: nat)
    requires top == WORD && IsPow2(top) && IsPow2(a) && a < top && v + a <= top && x == v + (a - 1)
    ensures AlignUp(v, a) == x - x % a
  {
    AlignUpIsMask(v, a, x);
    AndTopMask(x, top, a);
  }

  /** Without wrap-around `align_up` yields the least multiple of a power of two
      that is not below its argument: it is a multiple, and one less than `a` away. */
  lemma AlignUpBounds(v: nat, a: nat)
    requires IsPow2(a) && v + a <= WORD && a < WORD
    ensures AlignUp(v, a) % a == 0 && v <= AlignUp(v, a) < v + a
  {
    var x := v + (a - 1);
    WordIsPow2();
    AlignUpMask(v, a, x, WORD);
    FloorMultiple(x, a);
  }

  lemma WrappedIsMask(v: nat, a: nat, x: nat)
    requires 0 < a < WORD && v < WORD && x == (v + (a - 1)) % WORD
    ensures AlignUp(v, a) == And(x, WORD - a)
  {
  }

  lemma MaskMultiple(x: nat, a: nat, top: nat)
    requires IsPow2(top) && IsPow2(a) && a < top && x < top
    ensures And(x, top - a) % a == 0 && And(x, top - a) <= x
  {
    AndTopMask(x, top, a);
    FloorMultiple(x, a);
  }

  /** Whether or not the sum wraps, `align_up` yields a 32-bit multiple of a power of two. */
  lemma AlignUpMultiple(v: nat, a: nat, top: nat)
    requires top == WORD && IsPow2(top) && IsPow2(a) && v < top && a < top
    ensures AlignUp(v, a) % a == 0 && AlignUp(v, a) < top
  {
    var x := (v + (a - 1)) % top;
    WrappedIsMask(v, a, x);
    MaskMultiple(x, a, top);
  }

  lemma AlignUpLeast(v: nat, a: nat, m: nat)
    requires IsPow2(a) && v + a <= WORD && a < WORD
    requires m % a == 0 && v <= m
    ensures AlignUp(v, a) <= m
  {
    AlignUpBounds(v, a);
    if m < AlignUp(v, a) { MultipleGap(m, AlignUp(v, a), a); }
  }

  /** Powers of two grow by doubling. */
  lemma {:induction false} Pow2Gap(a: nat, b: nat)
    requires IsPow2(a) && IsPow2(b) && a < b
    ensures 2 * a <= b && IsPow2(2 * a)
  {
    if a <= 1 {
    } else {
      Pow2Gap(a / 2, b / 2);
    }
  }
}
