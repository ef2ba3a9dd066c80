/**
 The alignment macros of the display colour formats in 32-bit arithmetic
 (compat/kernel-headers/include/display/media/mmm_color_fmt.h).
 */
module Alignment {
  const WORD := 0x1_0000_0000

  type U32 = x: int | 0 <= x < WORD

  function Wrap(x: nat): U32 {
    x % WORD
  }

  /** Bitwise and. */
  function And(x: nat, y: nat): (r: nat)
    ensures r <= x
  {
    if x == 0 || y == 0 then 0
    else 2 * And(x / 2, y / 2) + if x % 2 == 1 && y % 2 == 1 then 1 else 0
  }

  function Not(x: U32): U32 {
    WORD - 1 - x
  }

  /** The macro: a mask if the alignment is a power of two, a division otherwise. */
  function MacroAlign(size: U32, align: U32): U32
    requires align > 0
  {
    var sum := Wrap(size + align - 1);
    if And(align, align - 1) != 0 then
      DivisionBelow(sum, align);
      Wrap(sum / align * align)
    else And(sum, Not(align - 1))
  }

  /** Its division branch, for every alignment. */
  function Align(size: U32, align: U32): U32
    requires align > 0
  {
    var sum := Wrap(size + align - 1);
    DivisionBelow(sum, align);
    sum / align * align
  }

  function RoundUp(size: U32, r: U32): U32
    requires r > 0
  {
    Wrap(size + r - 1) / r
  }

  function Pow2(k: nat): (p: nat)
    ensures p > 0
  {
    if k == 0 then 1 else 2 * Pow2(k - 1)
  }

  lemma {:induction false} AndSelf(x: nat)
    ensures And(x, x) == x
  {
    if x != 0 { AndSelf(x / 2); }
  }

  lemma AndEven(x: nat, y: nat)
    ensures And(x, 2 * y) == 2 * And(x / 2, y)
  {
  }

  lemma AndOdd(x: nat, y: nat)
    ensures And(2 * x, 2 * y + 1) == 2 * And(x, y)
  {
  }

  lemma {:induction false} PowersPassTheTest(k: nat)
    ensures And(Pow2(k), Pow2(k) - 1) == 0
  {
    if k > 0 {
      PowersPassTheTest(k - 1);
      AndOdd(Pow2(k - 1), Pow2(k - 1) - 1);
    }
  }

  lemma {:induction false} OnlyPowersPassTheTest(a: nat) returns (k: nat)
    requires a > 0 && And(a, a - 1) == 0
    ensures a == Pow2(k)
  {
    if a == 1 { return 0; }
    if a % 2 == 1 {
      AndEven(a, a / 2);
      AndSelf(a / 2);
      assert false;
    }
    AndOdd(a / 2, a / 2 - 1);
    k := OnlyPowersPassTheTest(a / 2);
    k := k + 1;
  }

  /** The test the macro uses, no bit in common with the predecessor, finds the powers of two. */
  lemma PowerOfTwoTest(a: nat)
    requires a > 0
    ensures And(a, a - 1) == 0 <==> exists k: nat :: a == Pow2(k)
  {
    if And(a, a - 1) == 0 { var k := OnlyPowersPassTheTest(a); }
    forall k: nat | a == Pow2(k) ensures And(a, a - 1) == 0 { PowersPassTheTest(k); }
  }

  lemma {:induction false} AndOnes(x: nat, n: nat)
    requires x < Pow2(n)
    ensures And(x, Pow2(n) - 1) == x
  {
    if x != 0 {
      assert (Pow2(n) - 1) / 2 == Pow2(n - 1) - 1;
      AndOnes(x / 2, n - 1);
    }
  }

  /** The low k bits are 0. */
  predicate EndsInZeros(m: nat, k: nat) {
    k == 0 || (m % 2 == 0 && EndsInZeros(m / 2, k - 1))
  }

  /** Clearing the low k bits of a number that fits n bits leaves what is above them. */
  lemma {:induction false} AndMask(a: nat, b: nat, m: nat, r: nat, k: nat, n: nat)
    requires EndsInZeros(m, k) && k <= n && r < Pow2(k) <= Pow2(n) && a == m + r < Pow2(n) && b == Pow2(n) - Pow2(k)
    ensures And(a, b) == m
  {
    if k == 0 { AndOnes(m, n); }
    else {
      var p, q, x := Pow2(n - 1), Pow2(k - 1), m / 2;
      assert m == 2 * x && EndsInZeros(x, k - 1);
      HalfSum(x, r, p);
      AndMask(x + r / 2, p - q, x, r / 2, k - 1, n - 1);
      AndStep(a, p - q, x);
      assert b == 2 * (p - q);
    }
  }

  lemma AndStep(a: nat, d: nat, x: nat)
    requires And(a / 2, d) == x
    ensures And(a, 2 * d) == 2 * x
  {
    AndEven(a, d);
  }

  lemma HalfSum(x: nat, r: nat, p: nat)
    requires 2 * x + r < 2 * p
    ensures (2 * x + r) / 2 == x + r / 2 < p
  {
  }

  lemma {:induction false} MultipleEndsInZeros(c: nat, k: nat)
    ensures EndsInZeros(c * Pow2(k), k)
  {
    if k > 0 {
      TimesTwice(c, Pow2(k - 1));
      MultipleEndsInZeros(c, k - 1);
    }
  }

  lemma TimesTwice(c: nat, q: nat)
    ensures c * (2 * q) == 2 * (c * q)
  {
  }

  lemma Pow2Monotone(k: nat, n: nat)
    ensures k <= n <==> Pow2(k) <= Pow2(n)
  {
    if k < n { Pow2Monotone(k, n - 1); }
    if n < k { Pow2Monotone(n, k - 1); }
  }

  lemma WordIsPow2()
    ensures Pow2(32) == WORD
  {
    assert Pow2(8) == 256;
    assert Pow2(16) == 0x1_0000;
    assert Pow2(24) == 0x100_0000;
  }

  lemma Divided(x: nat, p: nat) returns (c: nat, r: nat)
    requires p > 0
    ensures r < p && x == c * p + r && x / p * p == c * p
  {
    c, r := x / p, x % p;
  }

  lemma MaskIsDivision(sum: nat, k: nat, n: nat)
    requires Pow2(k) <= Pow2(n) && sum < Pow2(n)
    ensures And(sum, Pow2(n) - Pow2(k)) == sum / Pow2(k) * Pow2(k)
  {
    Pow2Monotone(k, n);
    var c, r := Divided(sum, Pow2(k));
    MultipleEndsInZeros(c, k);
    AndMask(sum, Pow2(n) - Pow2(k), c * Pow2(k), r, k, n);
  }

  /** The macro's two branches agree: the mask does what dividing and multiplying would. */
  lemma MacroIsAlign(size: U32, align: U32)
    requires align > 0
    ensures MacroAlign(size, align) == Align(size, align)
  {
    var sum := Wrap(size + align - 1);
    DivisionBelow(sum, align);
    if And(align, align - 1) == 0 {
      var k := OnlyPowersPassTheTest(align);
      MaskOfWord(sum, k);
    }
  }

  lemma MaskOfWord(sum: U32, k: nat)
    requires Pow2(k) < WORD
    ensures And(sum, Not(Pow2(k) - 1)) == sum / Pow2(k) * Pow2(k)
  {
    WordIsPow2();
    var n := 32;
    assert Pow2(n) == WORD && Not(Pow2(k) - 1) == Pow2(n) - Pow2(k);
    MaskIsDivision(sum, k, n);
  }

  lemma WrapSmall(x: nat)
    requires x < WORD
    ensures Wrap(x) == x
  {
  }

  lemma Multiples(p: int, q: int, a: int)
    requires a > 0 && p * a < q * a + a
    ensures p <= q
  {
    TimesInOrder(q + 1, p, a);
    assert (q + 1) * a == q * a + a;
  }

  /** Without wrap-around the aligned size is the next multiple. */
  lemma AlignBounds(size: U32, align: U32)
    requires align > 0 && size + align <= WORD
    ensures size <= Align(size, align) < size + align
  {
    var sum := size + align - 1;
    WrapSmall(sum);
    assert sum == sum / align * align + sum % align;
  }

  /** The aligned size as a multiple. */
  lemma AlignIsMultiple(size: U32, align: U32) returns (q: nat)
    requires align > 0 && size + align <= WORD
    ensures Align(size, align) == q * align
  {
    WrapSmall(size + align - 1);
    q := (size + align - 1) / align;
  }

  lemma AlignMonotone(x: U32, y: U32, align: U32)
    requires align > 0 && x <= y && y + align <= WORD
    ensures Align(x, align) <= Align(y, align)
  {
    AlignBounds(x, align);
    AlignBounds(y, align);
    var p := AlignIsMultiple(x, align);
    var q := AlignIsMultiple(y, align);
    Multiples(p, q, align);
    TimesKeepsOrder(p, q, align);
  }

  /** Aligning what fits twice into a size takes at most twice its aligned size. */
  lemma AlignOfDouble(full: U32, half: U32, align: U32)
    requires align > 0 && full <= 2 * half && full + align <= WORD && half + align <= WORD
    ensures Align(full, align) <= 2 * Align(half, align)
  {
    AlignBounds(full, align);
    AlignBounds(half, align);
    var p := AlignIsMultiple(full, align);
    var q := AlignIsMultiple(half, align);
    TwiceTimes(q, align);
    Multiples(p, 2 * q, align);
    TimesKeepsOrder(p, 2 * q, align);
  }

  lemma TimesInOrder(p: int, q: int, a: int)
    requires a >= 0
    ensures p <= q ==> p * a <= q * a
  {
    if p <= q { TimesKeepsOrder(p, q, a); }
  }

  lemma TimesKeepsOrder(p: int, q: int, a: int)
    requires p <= q && a >= 0
    ensures p * a <= q * a
  {
    assert (q - p) * a >= 0;
    assert (q - p) * a == q * a - p * a;
  }

  lemma RoundUpBounds(size: U32, r: U32)
    requires r > 0 && size + r <= WORD
    ensures RoundUp(size, r) * r < size + r && size <= RoundUp(size, r) * r && RoundUp(size, r) <= size
  {
    var sum := size + r - 1;
    WrapSmall(sum);
    assert sum == sum / r * r + sum % r;
    TimesInOrder(size + 1, sum / r, r);
    assert (size + 1) * r == size * r + r;
    TimesOne(size, r);
  }

  lemma TwiceTimes(q: int, a: int)
    ensures 2 * (q * a) == 2 * q * a
  {
  }

  lemma TimesOne(x: int, r: int)
    requires r >= 1 && x >= 0
    ensures x * r >= x
  {
    assert x * (r - 1) >= 0;
    assert x * (r - 1) == x * r - x;
  }

  lemma RoundUpOfDouble(full: U32, half: U32, r: U32)
    requires r > 0 && full <= 2 * half && full + r <= WORD && half + r <= WORD
    ensures RoundUp(full, r) <= 2 * RoundUp(half, r)
  {
    RoundUpBounds(full, r);
    RoundUpBounds(half, r);
    var p: int, q: int := RoundUp(full, r), RoundUp(half, r);
    TwiceTimes(q, r);
    Multiples(p, 2 * q, r);
  }

  lemma DivisionBelow(sum: nat, align: nat)
    requires align > 0
    ensures 0 <= sum / align * align <= sum
  {
    assert sum == sum / align * align + sum % align;
  }
}
