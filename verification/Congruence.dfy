/** Congruence of integers and powers modulo m, and the shifted exponents of the exponentiation loops. */
module Congruence {
  import opened Arith

  ghost predicate Cong(a: int, b: int, m: int)
    requires m > 0
  {
    a % m == b % m
  }

  lemma CongRefl(x: int, m: int)
    requires m > 0
    ensures Cong(x, x, m)
  {
  }

  lemma CongSym(x: int, y: int, m: int)
    requires m > 0 && Cong(x, y, m)
    ensures Cong(y, x, m)
  {
  }

  lemma CongTrans(x: int, y: int, z: int, m: int)
    requires m > 0 && Cong(x, y, m) && Cong(y, z, m)
    ensures Cong(x, z, m)
  {
  }

  lemma AddMultiple(x: int, k: int, m: int)
    requires m > 0
    ensures (x + m * k) % m == x % m
  {
    assert x == m * (x / m) + x % m;
    assert m * (x / m + k) == m * (x / m) + m * k;
    EuclidUnique(x + m * k, m, x / m + k, x % m);
  }

  /** Congruent numbers differ by a multiple of m, and conversely. */
  lemma CongQuotient(a: int, b: int, m: int) returns (k: int)
    requires m > 0 && Cong(a, b, m)
    ensures a == b + m * k
  {
    k := a / m - b / m;
    assert m * k == m * (a / m) - m * (b / m);
  }

  lemma CongFromQuotient(a: int, b: int, m: int, k: int)
    requires m > 0 && a == b + m * k
    ensures Cong(a, b, m)
  {
    AddMultiple(b, k, m);
  }

  lemma CongMul(a: int, b: int, c: int, d: int, m: int)
    requires m > 0 && Cong(a, b, m) && Cong(c, d, m)
    ensures Cong(a * c, b * d, m)
  {
    hide Cong;
    var k := CongQuotient(a, b, m);
    var l := CongQuotient(c, d, m);
    CongMulArith(b, d, m, k, l);
    CongFromQuotient(a * c, b * d, m, b * l + k * d + m * k * l);
  }

  lemma CongMulArith(b: int, d: int, m: int, k: int, l: int)
    ensures (b + m * k) * (d + m * l) == b * d + m * (b * l + k * d + m * k * l)
  {
  }

  lemma CongAdd(a: int, b: int, c: int, d: int, m: int)
    requires m > 0 && Cong(a, b, m) && Cong(c, d, m)
    ensures Cong(a + c, b + d, m) && Cong(a - c, b - d, m)
  {
    hide Cong;
    var k := CongQuotient(a, b, m);
    var l := CongQuotient(c, d, m);
    CongFromQuotient(a + c, b + d, m, k + l);
    CongFromQuotient(a - c, b - d, m, k - l);
  }

  lemma CongMod(a: int, m: int)
    requires m > 0
    ensures Cong(a % m, a, m)
  {
  }

  /** C's remainder is congruent to the dividend. */
  lemma CongTRem(a: int, b: int)
    requires b != 0
    ensures Cong(TRem(a, b), a, Abs(b))
  {
    var q := TDiv(a, b);
    var k := if b < 0 then q else 0 - q;
    assert b * q == 0 - Abs(b) * k by {
      assert (0 - b) * q == 0 - b * q && b * (0 - q) == 0 - b * q;
    }
    AddMultiple(a, k, Abs(b));
  }

  /** Powers of an integer. */
  function IPow(b: int, n: nat): int {
    if n == 0 then 1 else b * IPow(b, n - 1)
  }

  lemma {:induction false} IPowAdd(b: int, m: nat, n: nat)
    ensures IPow(b, m + n) == IPow(b, m) * IPow(b, n)
  {
    if m > 0 {
      IPowAdd(b, m - 1, n);
      Associate(b, IPow(b, m - 1), IPow(b, n));
    }
  }

  lemma IPowSquare(b: int, n: nat)
    ensures IPow(b, 2 * n) == IPow(b, n) * IPow(b, n)
  {
    IPowAdd(b, n, n);
  }

  lemma {:induction false} IPowCong(a: int, b: int, n: nat, m: int)
    requires m > 0 && Cong(a, b, m)
    ensures Cong(IPow(a, n), IPow(b, n), m)
  {
    if n > 0 {
      IPowCong(a, b, n - 1, m);
      CongMul(a, b, IPow(a, n - 1), IPow(b, n - 1), m);
    }
  }

  // ---------------------------------------------------------------- exponent bits

  /** p >> k. */
  function Sh(p: nat, k: nat): nat {
    if k == 0 then p else Sh(p, k - 1) / 2
  }

  /** BN_is_bit_set, which answers 0 for negative positions. */
  predicate Bit(p: nat, i: int) {
    i >= 0 && Sh(p, i) % 2 == 1
  }

  function BitValue(p: nat, i: int): nat {
    if Bit(p, i) then 1 else 0
  }

  lemma ShiftDown(p: nat, i: nat)
    ensures Sh(p, i) == 2 * Sh(p, i + 1) + BitValue(p, i)
  {
  }

  lemma {:induction false} ShiftHalf(p: nat, k: nat)
    ensures Sh(p / 2, k) == Sh(p, k + 1)
  {
    if k > 0 {
      ShiftHalf(p, k - 1);
    }
  }

  /** The shifted exponent runs out exactly at the bit length, and the top bit is set. */
  lemma {:induction false} ShiftBits(p: nat)
    ensures Sh(p, NumBits(p)) == 0
    ensures p > 0 ==> Sh(p, NumBits(p) - 1) == 1
  {
    if p > 1 {
      ShiftBits(p / 2);
      ShiftHalf(p, NumBits(p / 2));
      ShiftHalf(p, NumBits(p / 2) - 1);
    } else {
      assert p == 1 ==> NumBits(p / 2) == 0 && Sh(p, 1) == Sh(p, 0) / 2;
    }
  }

  /** Beyond the bit length there are no bits. */
  lemma {:induction false} ShiftBeyond(p: nat, k: nat)
    requires k >= NumBits(p)
    ensures Sh(p, k) == 0
  {
    if k == NumBits(p) {
      ShiftBits(p);
    } else {
      ShiftBeyond(p, k - 1);
    }
  }
}
