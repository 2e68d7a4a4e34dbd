// Unsigned machine arithmetic on naturals: the bitwise operators the C++ code
// uses, what masking means, and rounding up to a power of two as in
// src/core/helper.hpp.
module Bits {
  const WORD: nat := 0x1_0000_0000_0000_0000

  function Pow2(k: nat): (p: nat)
    ensures p > 0
  {
    if k == 0 then 1 else 2 * Pow2(k - 1)
  }

  function And(a: nat, b: nat): nat {
    if a == 0 || b == 0 then 0
    else 2 * And(a / 2, b / 2) + (if a % 2 == 1 && b % 2 == 1 then 1 else 0)
  }

  function Xor(a: nat, b: nat): nat
    decreases a + b
  {
    if a == 0 && b == 0 then 0
    else 2 * Xor(a / 2, b / 2) + (if a % 2 != b % 2 then 1 else 0)
  }

  lemma MultipleNotSmall(d: nat, e: int)
    requires e != 0
    ensures d * e >= d || d * e + d <= 0
  {
    if e >= 1 {
      var k: nat := e - 1;
      assert d * (k + 1) == d * k + d;
    } else {
      var k: nat := -e - 1;
      assert d * (k + 1) == d * k + d;
      assert d * e == -(d * (k + 1));
    }
  }

  lemma DivisionUnique(x: nat, d: nat, q: int, r: nat)
    requires d > 0 && r < d && x == d * q + r
    ensures x / d == q && x % d == r
  {
    var e := q - x / d;
    assert d * e == d * q - d * (x / d) == x % d - r;
    if e != 0 { MultipleNotSmall(d, e); }
  }

  lemma HalvesModulo(x: nat, p: nat)
    requires p > 0
    ensures x % (2 * p) == 2 * ((x / 2) % p) + x % 2
  {
    var q, r := (x / 2) / p, (x / 2) % p;
    assert x == (2 * p) * q + (2 * r + x % 2);
    DivisionUnique(x, 2 * p, q, 2 * r + x % 2);
  }

  lemma AndOdd(x: nat, c: nat)
    ensures And(x, 2 * c + 1) == 2 * And(x / 2, c) + x % 2
  {
    assert (2 * c + 1) / 2 == c && (2 * c + 1) % 2 == 1;
  }

  lemma MaskStep(x: nat, p: nat, c: nat)
    requires p == c + 1 && And(x / 2, c) == (x / 2) % p
    ensures And(x, 2 * c + 1) == x % (2 * p)
  {
    HalvesModulo(x, p);
    AndOdd(x, c);
  }

  lemma ModuloOne(x: nat)
    ensures x % 1 == 0
  {
  }

  // `value & (size - 1)` is the remainder, for a power of two.
  lemma {:induction false} MaskIsModulo(x: nat, k: nat)
    ensures And(x, Pow2(k) - 1) == x % Pow2(k)
  {
    if k > 0 {
      MaskIsModulo(x / 2, k - 1);
      MaskStep(x, Pow2(k - 1), Pow2(k - 1) - 1);
      assert 2 * (Pow2(k - 1) - 1) + 1 == Pow2(k) - 1;
    } else {
      ModuloOne(x);
    }
  }

  lemma AndEven(x: nat, c: nat)
    ensures And(x, 2 * c) == 2 * And(x / 2, c)
  {
    if x > 0 && c > 0 {
      assert (2 * c) / 2 == c && (2 * c) % 2 == 0;
    } else if x == 0 {
      assert And(x / 2, c) == 0;
    }
  }

  lemma DoubleMask(x: nat, p: nat, c: nat)
    requires p > 0 && And(x / 2, c) == x / 2 - (x / 2) % p
    ensures And(x, 2 * c) == x - x % (2 * p)
  {
    AndEven(x, c);
    HalvesModulo(x, p);
  }

  lemma {:induction false} Pow2Monotone(k: nat, n: nat)
    requires k <= n
    ensures Pow2(k) <= Pow2(n)
  {
    if k < n { Pow2Monotone(k, n - 1); }
  }

  lemma MaskAll(x: nat, n: nat)
    requires x < Pow2(n)
    ensures And(x, Pow2(n) - 1) == x
  {
    MaskIsModulo(x, n);
    DivisionUnique(x, Pow2(n), 0, x);
  }

  // Masking with `-size` (in n-bit arithmetic) clears exactly the remainder.
  lemma {:induction false} NegativeMask(x: nat, k: nat, n: nat)
    requires k <= n && x < Pow2(n)
    ensures Pow2(n) >= Pow2(k)
    ensures And(x, Pow2(n) - Pow2(k)) == x - x % Pow2(k)
  {
    Pow2Monotone(k, n);
    if k == 0 {
      MaskAll(x, n);
      ModuloOne(x);
    } else {
      var p, c := Pow2(k - 1), Pow2(n - 1) - Pow2(k - 1);
      NegativeMask(x / 2, k - 1, n - 1);
      DoubleMask(x, p, c);
      assert Pow2(k) == 2 * p && Pow2(n) - Pow2(k) == 2 * c;
    }
  }

  lemma WordIsPow2()
    ensures Pow2(64) == WORD
  {
    assert Pow2(8) == 256;
    assert Pow2(16) == 0x1_0000;
    assert Pow2(24) == 0x100_0000;
    assert Pow2(32) == 0x1_0000_0000;
    assert Pow2(40) == 0x100_0000_0000;
    assert Pow2(48) == 0x1_0000_0000_0000;
    assert Pow2(56) == 0x100_0000_0000_0000;
  }

  lemma ClearedRemainder(sum: nat, m: nat)
    requires m > 0
    ensures (sum - sum % m) % m == 0 && sum - m < sum - sum % m <= sum
    ensures sum < m ==> sum - sum % m == 0
  {
    assert sum - sum % m == m * (sum / m) + 0;
    DivisionUnique(sum - sum % m, m, sum / m, 0);
    if sum < m { DivisionUnique(sum, m, 0, sum); }
  }

  // number + one_less, wrapped around at 64 bits.
  function RoundingSum(number: nat, multiple: nat): nat
    requires multiple > 0
  {
    var total := number + multiple - 1;
    if total < WORD then total else total - WORD
  }

  // roundup_to_multiple: (number + one_less) & -multiple, in 64-bit arithmetic.
  function RoundUp(number: nat, k: nat): nat
    requires k <= 64 && number < WORD
  {
    WordIsPow2();
    Pow2Monotone(k, 64);
    And(RoundingSum(number, Pow2(k)), WORD - Pow2(k))
  }

  lemma SumWraps(number: nat, multiple: nat)
    requires number < WORD && 0 < multiple <= WORD
    ensures (number + multiple - 1) % WORD == RoundingSum(number, multiple) < WORD
  {
    var total := number + multiple - 1;
    DivisionUnique(total, WORD, if total < WORD then 0 else 1, RoundingSum(number, multiple));
  }

  lemma NegativeMaskWord(x: nat, k: nat)
    requires k <= 64 && x < WORD
    ensures Pow2(k) <= WORD && And(x, WORD - Pow2(k)) == x - x % Pow2(k)
  {
    WordIsPow2();
    NegativeMask(x, k, 64);
  }

  lemma RoundUpMasked(number: nat, k: nat)
    requires k <= 64 && number < WORD
    ensures var sum := RoundingSum(number, Pow2(k)); RoundUp(number, k) == sum - sum % Pow2(k)
  {
    WordIsPow2();
    Pow2Monotone(k, 64);
    SumWraps(number, Pow2(k));
    NegativeMaskWord(RoundingSum(number, Pow2(k)), k);
  }

  lemma Rounded(sum: nat, m: nat, r: nat)
    requires m > 0 && r == sum - sum % m
    ensures r % m == 0 && r <= sum < r + m
    ensures sum < m ==> r == 0
  {
    ClearedRemainder(sum, m);
  }

  // It is the least multiple not below the number exactly when the sum does
  // not wrap around; when it does, the result is zero.
  lemma RoundUpLeastMultiple(number: nat, k: nat)
    requires k <= 64 && number < WORD
    ensures var r, m := RoundUp(number, k), Pow2(k);
            && r % m == 0
            && (number + m - 1 < WORD ==> number <= r < number + m)
            && (number + m - 1 >= WORD ==> r == 0)
  {
    RoundUpMasked(number, k);
    WordIsPow2();
    Pow2Monotone(k, 64);
    Rounded(RoundingSum(number, Pow2(k)), Pow2(k), RoundUp(number, k));
  }

  lemma {:induction false} XorSelfInverse(a: nat, b: nat)
    ensures Xor(Xor(a, b), b) == a
    decreases a + b
  {
    if a > 0 || b > 0 {
      XorSelfInverse(a / 2, b / 2);
      var x := Xor(a, b);
      assert x / 2 == Xor(a / 2, b / 2) && x % 2 == if a % 2 != b % 2 then 1 else 0;
    }
  }

  lemma {:induction false} XorCommutes(a: nat, b: nat)
    ensures Xor(a, b) == Xor(b, a)
    decreases a + b
  {
    if a > 0 || b > 0 { XorCommutes(a / 2, b / 2); }
  }

  lemma {:induction false} XorBound(a: nat, b: nat, k: nat)
    requires a < Pow2(k) && b < Pow2(k)
    ensures Xor(a, b) < Pow2(k)
  {
    if k > 0 { XorBound(a / 2, b / 2, k - 1); }
  }

  lemma {:induction false} XorZero(a: nat)
    ensures Xor(a, 0) == a
  {
    if a > 0 { XorZero(a / 2); }
  }

  lemma XorStep(a: nat, b: nat)
    ensures Xor(a, b) == 2 * Xor(a / 2, b / 2) + if a % 2 != b % 2 then 1 else 0
  {
  }

  lemma HalfShifted(p: nat, h: nat, l: nat, x: nat)
    requires x == 2 * p * h + l
    ensures x / 2 == p * h + l / 2 && x % 2 == l % 2
  {
    var q := p * h;
    assert x == 2 * q + l;
  }

  lemma Doubled(p: nat, z: nat)
    ensures 2 * p * z == 2 * (p * z)
  {
  }

  // High and low bits of an exclusive or.
  lemma {:induction false} XorSplit(x: nat, y: nat, h: nat, l: nat, g: nat, o: nat, k: nat)
    requires x == Pow2(k) * h + l && y == Pow2(k) * g + o && l < Pow2(k) && o < Pow2(k)
    ensures Xor(x, y) == Pow2(k) * Xor(h, g) + Xor(l, o)
  {
    if k > 0 {
      var p := Pow2(k - 1);
      HalfShifted(p, h, l, x);
      HalfShifted(p, g, o, y);
      XorSplit(x / 2, y / 2, h, l / 2, g, o / 2, k - 1);
      XorStep(x, y);
      XorStep(l, o);
      Doubled(p, Xor(h, g));
    }
  }
}
