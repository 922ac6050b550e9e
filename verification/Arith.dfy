/** Integer arithmetic shared by the bignum and codec models: powers, bit lengths, congruence,
    and C's truncating division. */
module Arith {

  function Pow(b: nat, n: nat): (r: nat) {
    if n == 0 then 1 else b * Pow(b, n - 1)
  }

  lemma Associate(x: int, y: int, z: int)
    ensures x * (y * z) == (x * y) * z
  {
  }

  lemma {:induction false} PowPositive(b: nat, n: nat)
    requires b > 0
    ensures Pow(b, n) > 0
  {
    if n > 0 {
      PowPositive(b, n - 1);
    }
  }

  lemma {:induction false} PowAdd(b: nat, m: nat, n: nat)
    ensures Pow(b, m + n) == Pow(b, m) * Pow(b, n)
  {
    if m > 0 {
      PowAdd(b, m - 1, n);
      Associate(b, Pow(b, m - 1), Pow(b, n));
    }
  }

  lemma {:induction false} PowProduct(a: nat, b: nat, n: nat)
    ensures Pow(a * b, n) == Pow(a, n) * Pow(b, n)
  {
    if n > 0 {
      PowProduct(a, b, n - 1);
      MulInterchange(a, b, Pow(a, n - 1), Pow(b, n - 1));
    }
  }

  lemma MulInterchange(a: int, b: int, x: int, y: int)
    ensures (a * b) * (x * y) == (a * x) * (b * y)
  {
  }

  lemma {:induction false} PowPower(b: nat, m: nat, n: nat)
    ensures Pow(Pow(b, m), n) == Pow(b, m * n)
  {
    if n > 0 {
      PowPower(b, m, n - 1);
      PowAdd(b, m, m * (n - 1));
      assert m + m * (n - 1) == m * n;
    } else {
      assert m * n == 0;
    }
  }

  lemma {:induction false} PowMonotone(b: nat, m: nat, n: nat)
    requires b > 0 && m <= n
    ensures Pow(b, m) <= Pow(b, n)
  {
    PowAdd(b, m, n - m);
    PowPositive(b, n - m);
    PowPositive(b, m);
    MulMonotone(1, Pow(b, n - m), Pow(b, m));
  }

  lemma MulMonotone(x: int, y: int, k: int)
    requires x <= y && 0 <= k
    ensures x * k <= y * k
  {
  }

  /** The number of bits of |n|: the least k with n < 2^k. */
  function NumBits(n: nat): nat {
    if n == 0 then 0 else 1 + NumBits(n / 2)
  }

  lemma {:induction false} NumBitsBounds(n: nat)
    ensures n < Pow(2, NumBits(n))
    ensures n > 0 ==> NumBits(n) > 0 && Pow(2, NumBits(n) - 1) <= n
  {
    if n > 1 {
      NumBitsBounds(n / 2);
      assert Pow(2, NumBits(n)) == 2 * Pow(2, NumBits(n / 2));
      assert Pow(2, NumBits(n) - 1) == 2 * Pow(2, NumBits(n / 2) - 1);
    }
  }

  lemma NumBitsZero(n: nat)
    ensures NumBits(n) == 0 <==> n == 0
  {
  }

  /** A number lying between two neighbouring powers of two has exactly that many bits. */
  lemma {:induction false} NumBitsUnique(n: nat, k: nat)
    requires k > 0 && Pow(2, k - 1) <= n < Pow(2, k)
    ensures NumBits(n) == k
  {
    NumBitsBounds(n);
    PowPositive(2, k - 1);
    if NumBits(n) < k {
      PowMonotone(2, NumBits(n), k - 1);
    } else if k < NumBits(n) {
      PowMonotone(2, k, NumBits(n) - 1);
    }
  }

  /** C's integer division and remainder, which truncate towards zero. */
  function TDiv(a: int, b: int): int
    requires b != 0
  {
    if (a < 0) == (b < 0) then Abs(a) / Abs(b) else 0 - Abs(a) / Abs(b)
  }

  function TRem(a: int, b: int): int
    requires b != 0
  {
    a - b * TDiv(a, b)
  }

  function Abs(a: int): nat {
    if a < 0 then -a else a
  }

  /** The remainder keeps the sign of the dividend and is smaller than the divisor. */
  lemma TRemBounds(a: int, b: int)
    requires b != 0
    ensures Abs(TRem(a, b)) == Abs(a) % Abs(b) < Abs(b)
    ensures a >= 0 ==> TRem(a, b) >= 0
    ensures a <= 0 ==> TRem(a, b) <= 0
    ensures a >= 0 && b > 0 ==> TDiv(a, b) == a / b && TRem(a, b) == a % b
  {
    var p: int, q: int := Abs(a), Abs(b);
    DivMod(p, q);
    Signs(b, p / q);
  }

  lemma DivMod(x: int, y: int)
    requires y > 0
    ensures x == (x / y) * y + x % y && 0 <= x % y < y
    ensures x >= 0 ==> x / y >= 0
  {
  }

  lemma Signs(b: int, k: int)
    ensures k * Abs(b) == (if b < 0 then 0 - b * k else b * k) && b * (0 - k) == 0 - b * k
  {
  }

  lemma Distribute(x: int, y: int, k: int)
    ensures (x - y) * k == x * k - y * k && y * k == k * y
  {
  }

  /** Truncated quotient and remainder are determined by the equation and the sign rule. */
  lemma TDivUnique(a: int, b: int, q: int, r: int)
    requires b != 0 && a == q * b + r && Abs(r) < Abs(b)
    requires (a >= 0 ==> r >= 0) && (a <= 0 ==> r <= 0)
    ensures q == TDiv(a, b) && r == TRem(a, b)
  {
    hide TDiv;
    TRemBounds(a, b);
    Distribute(q, TDiv(a, b), b);
    SmallMultipleIsZero(q - TDiv(a, b), b, TRem(a, b) - r);
  }

  lemma SmallMultipleIsZero(k: int, b: int, x: int)
    requires k * b == x && Abs(x) < Abs(b)
    ensures k == 0 && x == 0
  {
  }

  lemma EuclidUnique(v: int, m: int, k: int, x: int)
    requires m > 0 && v == m * k + x && 0 <= x < m
    ensures v % m == x && v / m == k
  {
    DivMod(v, m);
    Distribute(k, v / m, m);
    Distribute(0, k, m);
    SmallMultipleIsZero(k - v / m, m, v % m - x);
  }

  // ---------------------------------------------------------------- C's 32-bit int

  const INT_MAX: nat := 0x7FFF_FFFF

  /** A number kept in a C int: its low 32 bits, signed. */
  function ToInt(x: int): (r: int)
    ensures -0x8000_0000 <= r <= INT_MAX
    ensures -0x8000_0000 <= x <= INT_MAX ==> r == x
    ensures 0 <= x ==> r <= x
  {
    (x + 0x8000_0000) % 0x1_0000_0000 - 0x8000_0000
  }

  lemma ToIntAdd(x: int, y: int)
    ensures ToInt(ToInt(x) + y) == ToInt(x + y)
  {
  }

  lemma ToIntShift(x: int, k: int)
    ensures ToInt(x + 0x1_0000_0000 * k) == ToInt(x)
  {
  }

  /** What wrapping takes away is a multiple of 2^32. */
  lemma ToIntMultiple(x: int) returns (k: int)
    ensures ToInt(x) == x - 0x1_0000_0000 * k
    ensures k == 0 <==> -0x8000_0000 <= x <= INT_MAX
  {
    k := (x + 0x8000_0000) / 0x1_0000_0000;
  }
}
