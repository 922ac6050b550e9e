/** Modular exponentiation with sliding windows (crypto/bn/exponentiation.c). Values are the integers the
    BIGNUMs hold; BN_mul, BN_mod and Montgomery multiplication enter by their contracts. Exponents enter by
    their magnitude, which is all the code reads. */
module Exponentiation {
  import opened Arith
  import opened Limbs
  import opened LongDivision
  import opened Congruence
  import opened Montgomery
  import opened Reciprocal
  import opened Windows

  /** x stands for a^e in the domain of c. */
  ghost predicate Power(c: MontCtx, x: int, a: int, e: nat)
    requires c.m > 0
  {
    c.Rep(x, IPow(a, e))
  }

  lemma MulPower(c: MontCtx, x: int, y: int, a: int, e: nat, f: nat)
    requires c.Valid() && Power(c, x, a, e) && Power(c, y, a, f)
    ensures Power(c, c.Mul(x, y), a, e + f)
  {
    MulRep(c, x, y, IPow(a, e), IPow(a, f));
    IPowAdd(a, e, f);
  }

  /** Plain multiplication modulo m is the case R = 1. */
  function Plain(m: int): (c: MontCtx)
    requires m > 0
    ensures c.Valid() && c.m == m
  {
    MontCtx(m, 1, 1)
  }

  /** The window table: val[i] = a^(2i+1) for every index an odd window value can select. */
  ghost predicate OddPowers(c: MontCtx, val: seq<int>, a: int, window: nat)
    requires c.m > 0
  {
    && 1 <= window <= 6
    && Pow(2, window - 1) <= |val|
    && forall i :: 0 <= i < Pow(2, window - 1) ==> Power(c, val[i], a, 2 * i + 1)
  }

  /** What one pass of the window loop keeps: r = a^(p >> (wstart + 1)), and `start` only while that is a^0. */
  ghost predicate Sliding(c: MontCtx, r: int, a: int, p: nat, wstart: int, start: bool)
    requires c.m > 0
  {
    && wstart >= -1
    && Power(c, r, a, Sh(p, wstart + 1))
    && (start ==> Sh(p, wstart + 1) == 0)
  }

  lemma SlideZero(c: MontCtx, r: int, r': int, a: int, p: nat, wstart: nat, start: bool)
    requires c.Valid() && Sliding(c, r, a, p, wstart, start) && !Bit(p, wstart)
    requires r' == if start then r else c.Mul(r, r)
    ensures Sliding(c, r', a, p, wstart - 1, start)
  {
    ShiftDown(p, wstart);
    if !start {
      MulPower(c, r, r, a, Sh(p, wstart + 1), Sh(p, wstart + 1));
    }
  }

  /** After wend + 1 squarings and one table multiplication the window has been consumed. */
  lemma SlideWindow(c: MontCtx, r: int, r': int, v: int, a: int, p: nat, wstart: nat, wend: nat, w: nat)
    requires c.Valid() && wend <= wstart
    requires Power(c, r, a, Sh(p, wstart + 1) * Pow(2, wend + 1)) && Power(c, v, a, w) && r' == c.Mul(r, v)
    requires Sh(p, wstart - wend) == Sh(p, wstart + 1) * Pow(2, wend + 1) + w
    ensures Sliding(c, r', a, p, wstart - wend - 1, false)
  {
    hide Power, Sh, Pow;
    MulPower(c, r, v, a, Sh(p, wstart + 1) * Pow(2, wend + 1), w);
  }

  lemma DoubleExponent(e: nat, i: nat)
    ensures e * Pow(2, i) + e * Pow(2, i) == e * Pow(2, i + 1)
  {
  }

  // ---------------------------------------------------------------- Montgomery form

  method Squarings(c: MontCtx, r0: int, j: nat, ghost a: int, ghost e: nat) returns (r: int)
    requires c.Valid() && Power(c, r0, a, e)
    ensures Power(c, r, a, e * Pow(2, j))
  {
    hide Power, Pow;
    r := r0;
    assert e * Pow(2, 0) == e by { PowZero(); }
    for i := 0 to j
      invariant Power(c, r, a, e * Pow(2, i))
    {
      MulPower(c, r, r, a, e * Pow(2, i), e * Pow(2, i));
      DoubleExponent(e, i);
      r := c.Mul(r, r);
    }
  }

  lemma PowZero()
    ensures Pow(2, 0) == 1
  {
  }

  /** val[i] := val[i-1] * a^2 for i below 2^(window-1). */
  method OddPowerTable(c: MontCtx, x: int, window: nat, ghost a: int) returns (val: array<int>)
    requires c.Valid() && Power(c, x, a, 1) && 1 <= window <= 6
    ensures fresh(val) && OddPowers(c, val[..], a, window)
  {
    hide Power, Pow;
    val := new int[TABLE_SIZE](i => 0);
    val[0] := x;
    TableFits(window);
    assert Pow(2, 0) == 1 by { PowZero(); }
    if window > 1 {
      var d := c.Mul(val[0], val[0]);
      MulPower(c, x, x, a, 1, 1);
      var j := Pow(2, window - 1);
      for i := 1 to j
        invariant forall k :: 0 <= k < i ==> Power(c, val[k], a, 2 * k + 1)
      {
        MulPower(c, val[i - 1], d, a, 2 * (i - 1) + 1, 2);
        val[i] := c.Mul(val[i - 1], d);
      }
    }
  }

  /** The window loop of BN_mod_exp_mont. */
  method SlidingLoop(c: MontCtx, r0: int, val: array<int>, p: nat, window: nat, ghost a: int) returns (r: int)
    requires c.Valid() && p > 0 && Power(c, r0, a, 0) && OddPowers(c, val[..], a, window)
    ensures Power(c, r, a, p)
  {
    hide Power, Pow, Sh;
    ShiftBits(p);
    NumBitsBounds(p);
    r := r0;
    var start := true;
    var wstart: int := NumBits(p) - 1;
    assert Sliding(c, r, a, p, wstart, start);
    while true
      invariant wstart >= 0 && Sliding(c, r, a, p, wstart, start)
      decreases wstart
    {
      if !Bit(p, wstart) {
        ghost var r1 := r;
        if !start {
          r := c.Mul(r, r);
        }
        SlideZero(c, r1, r, a, p, wstart, start);
        if wstart == 0 {
          break;
        }
        wstart := wstart - 1;
        continue;
      }
      var wvalue, wend := ScanWindow(p, wstart, window);
      WindowIndex(wvalue, wend, window);
      if !start {
        r := Squarings(c, r, wend + 1, a, Sh(p, wstart + 1));
      }
      assert Power(c, val[..][wvalue / 2], a, 2 * (wvalue / 2) + 1);
      ghost var r1 := r;
      r := c.Mul(r, val[wvalue / 2]);
      SlideWindow(c, r1, r, val[wvalue / 2], a, p, wstart, wend, wvalue);
      wstart := wstart - (wend + 1);
      start := false;
      if wstart < 0 {
        break;
      }
    }
    assert Sh(p, 0) == p by { ShiftZero(p); }
  }

  lemma ShiftZero(p: nat)
    ensures Sh(p, 0) == p
  {
  }

  /** The Montgomery form of one: R - m when the top bit of m is set, otherwise a conversion. */
  method MontgomeryOne(c: MontCtx, m: nat) returns (r: int)
    requires m % 2 == 1 && c == NewMont(m)
    ensures c.Rep(r, 1)
  {
    hide Val, FromNat, Pow;
    var words := FromNat(m);
    OddLowWord(words);
    if words[|words| - 1] >= HALF {
      TopBitMeansSmall(words, c);
      var d := NegateWords(words);
      r := Val(d);
    } else {
      ToRep(c, 1);
      r := c.To(1);
    }
  }

  lemma OddLowWord(s: seq<Word>)
    requires Val(s) % 2 == 1
    ensures s != [] && s[0] != 0
  {
  }

  /** Reducing the base does not change the power. */
  lemma PowerOfResidue(a: int, a': int, p: nat, m: int)
    requires m > 0 && Cong(a, a', m)
    ensures IPow(a, p) % m == IPow(a', p) % m
    ensures p > 0 && a' % m == 0 ==> IPow(a, p) % m == 0
  {
    IPowCong(a, a', p, m);
    if p > 0 && a' % m == 0 {
      IPowCong(a', 0, p, m);
    }
  }

  lemma {:induction false} PowerNonNegative(a: int, p: nat)
    requires a >= 0
    ensures IPow(a, p) >= 0
  {
    if p > 0 {
      PowerNonNegative(a, p - 1);
      MulMonotone(0, a, IPow(a, p - 1));
    }
  }

  /** BN_mod_exp_mont: right for every base, odd modulus of either sign and exponent, except that a zero
      exponent answers 1 even for the modulus 1. */
  method ModExpMont(a: int, p: nat, m: int) returns (ok: bool, rr: int)
    ensures ok <==> m % 2 == 1
    ensures ok ==> (rr == IPow(a, p) % Arith.Abs(m) <==> !(p == 0 && Arith.Abs(m) == 1))
  {
    hide Power, IPow, TRem, Pow, NumBits;
    if m % 2 != 1 {
      return false, 0;
    }
    var M := Arith.Abs(m);
    OddMagnitude(m);
    NumBitsZero(p);
    if NumBits(p) == 0 {
      assert IPow(a, 0) == 1 by { ZeroPower(a); }
      return true, 1;
    }
    var aa := if a < 0 || Arith.Abs(a) >= M then a % M else a;
    CongMod(a, M);
    PowerOfResidue(a, aa, p, M);
    if aa == 0 {
      return true, 0;
    }
    rr := MontPower(aa, p, M);
    ok := true;
  }

  /** Lines 670-768: the window algorithm on a reduced base. */
  method MontPower(aa: nat, p: nat, M: nat) returns (rr: int)
    requires M % 2 == 1 && p > 0
    ensures rr == IPow(aa, p) % M
  {
    hide Power, IPow, TRem, Pow;
    var c := NewMont(M);
    ToRep(c, aa);
    var x := c.To(aa);
    var window := WindowBits(NumBits(p));
    FirstPower(c, x, aa);
    var val := OddPowerTable(c, x, window, aa);
    var r := MontgomeryOne(c, M);
    FirstPower(c, r, aa);
    r := SlidingLoop(c, r, val, p, window, aa);
    rr := c.From(r);
    FinishPower(c, r, aa, p);
  }

  lemma OddMagnitude(m: int)
    requires m % 2 == 1
    ensures Arith.Abs(m) > 0 && Arith.Abs(m) % 2 == 1
  {
  }

  lemma ZeroPower(a: int)
    ensures IPow(a, 0) == 1
  {
  }

  lemma FirstPower(c: MontCtx, x: int, a: int)
    requires c.m > 0
    ensures c.Rep(x, a) ==> Power(c, x, a, 1)
    ensures c.Rep(x, 1) ==> Power(c, x, a, 0)
  {
    assert IPow(a, 1) == a * IPow(a, 0);
  }

  lemma FinishPower(c: MontCtx, r: int, a: int, p: nat)
    requires c.Valid() && Power(c, r, a, p) && a >= 0
    ensures c.From(r) == IPow(a, p) % c.m
  {
    FromRep(c, r, IPow(a, p));
    PowerNonNegative(a, p);
    TRemBounds(IPow(a, p), c.m);
  }

  // ---------------------------------------------------------------- reciprocal form

  /** The same table and loop, multiplying through the reciprocal context (mod_exp_recp). */
  method RecpOddPowers(recp: RecpCtx, x: int, window: nat, ghost a: int) returns (val: array<int>)
    requires recp.Valid() && recp.N > 0 && Power(Plain(recp.N), x, a, 1) && 1 <= window <= 6
    modifies recp`Nr, recp`shift
    ensures fresh(val) && recp.Valid() && OddPowers(Plain(recp.N), val[..], a, window)
  {
    hide Power, Pow;
    ghost var c := Plain(recp.N);
    val := new int[TABLE_SIZE](i => 0);
    val[0] := x;
    TableFits(window);
    assert Pow(2, 0) == 1 by { PowZero(); }
    if window > 1 {
      var ok, d := recp.ModMul(val[0], val[0], true);
      MulPower(c, x, x, a, 1, 1);
      var j := Pow(2, window - 1);
      for i := 1 to j
        invariant recp.Valid()
        invariant forall k :: 0 <= k < i ==> Power(c, val[k], a, 2 * k + 1)
      {
        MulPower(c, val[i - 1], d, a, 2 * (i - 1) + 1, 2);
        ok, val[i] := recp.ModMul(val[i - 1], d, true);
      }
    }
  }

  method RecpSquarings(recp: RecpCtx, r0: int, j: nat, ghost a: int, ghost e: nat) returns (r: int)
    requires recp.Valid() && recp.N > 0 && Power(Plain(recp.N), r0, a, e)
    modifies recp`Nr, recp`shift
    ensures recp.Valid() && Power(Plain(recp.N), r, a, e * Pow(2, j))
  {
    hide Power, Pow;
    r := r0;
    assert e * Pow(2, 0) == e by { PowZero(); }
    for i := 0 to j
      invariant recp.Valid() && Power(Plain(recp.N), r, a, e * Pow(2, i))
    {
      MulPower(Plain(recp.N), r, r, a, e * Pow(2, i), e * Pow(2, i));
      DoubleExponent(e, i);
      var ok;
      ok, r := recp.ModMul(r, r, true);
    }
  }

  method RecpLoop(recp: RecpCtx, val: array<int>, p: nat, window: nat, ghost a: int) returns (r: int)
    requires recp.Valid() && recp.N > 1 && p > 0 && OddPowers(Plain(recp.N), val[..], a, window)
    modifies recp`Nr, recp`shift
    ensures recp.Valid() && Power(Plain(recp.N), r, a, p)
  {
    hide Power, Pow, Sh;
    ghost var c := Plain(recp.N);
    ShiftBits(p);
    NumBitsBounds(p);
    r := 1;
    TDivUnique(1, c.m, 0, 1);
    FirstPower(c, 1, a);
    var start := true;
    var wstart: int := NumBits(p) - 1;
    while true
      invariant recp.Valid() && wstart >= 0 && Sliding(c, r, a, p, wstart, start)
      decreases wstart
    {
      var ok;
      ghost var r1 := r;
      if !Bit(p, wstart) {
        if !start {
          ok, r := recp.ModMul(r, r, true);
        }
        SlideZero(c, r1, r, a, p, wstart, start);
        if wstart == 0 {
          break;
        }
        wstart := wstart - 1;
        continue;
      }
      var wvalue, wend := ScanWindow(p, wstart, window);
      WindowIndex(wvalue, wend, window);
      if !start {
        r := RecpSquarings(recp, r, wend + 1, a, Sh(p, wstart + 1));
      }
      assert Power(c, val[..][wvalue / 2], a, 2 * (wvalue / 2) + 1);
      r1 := r;
      ok, r := recp.ModMul(r, val[wvalue / 2], true);
      SlideWindow(c, r1, r, val[wvalue / 2], a, p, wstart, wend, wvalue);
      wstart := wstart - (wend + 1);
      start := false;
      if wstart < 0 {
        break;
      }
    }
    assert Sh(p, 0) == p by { ShiftZero(p); }
  }

  /** mod_exp_recp: right for every base, non-zero modulus and exponent, with the same exception. */
  method ModExpRecp(a: int, p: nat, m: int) returns (ok: bool, r: int)
    ensures ok <==> p == 0 || m != 0
    ensures ok && m != 0 ==> (r == IPow(a, p) % Arith.Abs(m) <==> !(p == 0 && Arith.Abs(m) == 1))
  {
    hide Power, IPow, TRem, NumBits;
    NumBitsZero(p);
    if NumBits(p) == 0 {
      NoPower(a, m);
      return true, 1;
    }
    if m == 0 {
      return false, 0;
    }
    r := RecpPower(a, p, Arith.Abs(m));
    ok := true;
  }

  lemma NoPower(a: int, m: int)
    ensures m != 0 ==> (1 == IPow(a, 0) % Arith.Abs(m) <==> Arith.Abs(m) != 1)
  {
    ZeroPower(a);
    if Arith.Abs(m) > 1 {
      EuclidUnique(1, Arith.Abs(m), 0, 1);
    }
  }

  method RecpPower(a: int, p: nat, M: nat) returns (r: int)
    requires p > 0 && M > 0
    ensures r == IPow(a, p) % M
  {
    hide Power, IPow, TRem, NumBits;
    var recp := new RecpCtx(M);
    var x := a % M;
    CongMod(a, M);
    PowerOfResidue(a, x, p, M);
    if x == 0 {
      return 0;
    }
    var window := WindowBits(NumBits(p));
    TDivUnique(x, M, 0, x);
    FirstPower(Plain(M), x, x);
    var val := RecpOddPowers(recp, x, window, x);
    r := RecpLoop(recp, val, p, window, x);
    PlainPower(M, r, x, p);
  }

  lemma PlainPower(m: int, r: int, a: int, p: nat)
    requires m > 0 && Power(Plain(m), r, a, p) && a >= 0
    ensures r == IPow(a, p) % m
  {
    PowerNonNegative(a, p);
    TRemBounds(IPow(a, p), m);
  }

  /** 2^0 is 0 modulo 1, and so it is modulo -1, but both functions answer 1. */
  method ZeroPowerOfOne(negative: bool) returns (mont: int, recp: int)
    ensures mont != IPow(2, 0) % 1 && recp != IPow(2, 0) % 1
  {
    var m := if negative then -1 else 1;
    var ok1, ok2;
    ok1, mont := ModExpMont(2, 0, m);
    ok2, recp := ModExpRecp(2, 0, m);
  }
}
