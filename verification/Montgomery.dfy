/** Montgomery multiplication by its contract: multiplication modulo m up to a fixed factor R
    (the BN_MONT_CTX operations that crypto/bn/exponentiation.c calls). */
module Montgomery {
  import opened Arith
  import opened Limbs
  import opened LongDivision
  import opened Congruence

  /** A modulus, the factor R = 2^(BN_BITS2 * top), and an inverse of R. */
  datatype MontCtx = MontCtx(m: int, R: int, rinv: int) {
    ghost predicate Valid() {
      m > 0 && R > 0 && rinv >= 0 && Cong(R * rinv, 1, m)
    }

    /** BN_mod_mul_montgomery: x * y / R modulo m, with the sign of the product. */
    function Mul(x: int, y: int): int
      requires m > 0
    {
      TRem(x * y * rinv, m)
    }

    /** BN_to_montgomery multiplies by RR = R^2 mod m; BN_from_montgomery by one. */
    function To(x: int): int
      requires m > 0
    {
      Mul(x, R * R % m)
    }

    function From(x: int): int
      requires m > 0
    {
      Mul(x, 1)
    }

    /** x stands for v in the Montgomery domain. */
    ghost predicate Rep(x: int, v: int)
      requires m > 0
    {
      x == TRem(v * R, m)
    }
  }

  lemma MulSign(x: int, y: int, v: int, w: int)
    requires (v >= 0 ==> x >= 0) && (v <= 0 ==> x <= 0) && (w >= 0 ==> y >= 0) && (w <= 0 ==> y <= 0)
    ensures (v * w >= 0 ==> x * y >= 0) && (v * w <= 0 ==> x * y <= 0)
  {
  }

  /** The truncated remainder is the only congruent number of the right size and sign. */
  lemma TRemUnique(x: int, a: int, m: int)
    requires m > 0 && Cong(x, a, m) && Abs(x) < m
    requires (a >= 0 ==> x >= 0) && (a <= 0 ==> x <= 0)
    ensures x == TRem(a, m)
  {
    var k := CongQuotient(a, x, m);
    TDivUnique(a, m, k, x);
  }

  /** Scaling a truncated remainder by a non-negative factor and reducing again. */
  lemma TRemScale(a: int, b: int, c: int, m: int)
    requires m > 0 && c >= 0 && Cong(a * c, b, m)
    requires (b >= 0 ==> a >= 0) && (b <= 0 ==> a <= 0)
    ensures TRem(a * c, m) == TRem(b, m)
  {
    TRemBounds(a * c, m);
    CongTRem(a * c, m);
    MulSign(a, c, a, c);
    assert (b >= 0 ==> a * c >= 0) && (b <= 0 ==> a * c <= 0);
    TRemUnique(TRem(a * c, m), b, m);
  }

  lemma RepSign(v: int, R: int, m: int)
    requires m > 0 && R > 0
    ensures var x := TRem(v * R, m); (v >= 0 ==> x >= 0) && (v <= 0 ==> x <= 0) && Cong(x, v * R, m)
  {
    MulSign(v, R, v, R);
    TRemBounds(v * R, m);
    CongTRem(v * R, m);
  }

  /** Multiplication in the domain is multiplication of the represented numbers. */
  lemma MulRep(c: MontCtx, x: int, y: int, v: int, w: int)
    requires c.Valid() && c.Rep(x, v) && c.Rep(y, w)
    ensures c.Rep(c.Mul(x, y), v * w)
  {
    hide TRem, Cong;
    RepSign(v, c.R, c.m);
    RepSign(w, c.R, c.m);
    CongMul(x, v * c.R, y, w * c.R, c.m);
    MulSign(x, y, v, w);
    FactorOut(c, x * y, v * w) by {
      assert (v * c.R) * (w * c.R) == v * w * c.R * c.R by { Regroup(v, c.R, w, c.R); }
    }
  }

  lemma Regroup(a: int, b: int, c: int, d: int)
    ensures (a * b) * (c * d) == a * c * b * d
  {
  }

  /** Cancelling one factor R. */
  lemma FactorOut(c: MontCtx, z: int, v: int)
    requires c.Valid() && Cong(z, v * c.R * c.R, c.m)
    requires (v >= 0 ==> z >= 0) && (v <= 0 ==> z <= 0)
    ensures TRem(z * c.rinv, c.m) == TRem(v * c.R, c.m)
  {
    hide TRem, Cong;
    var vr := v * c.R;
    CongRefl(c.rinv, c.m);
    CongRefl(vr, c.m);
    CongMul(z, vr * c.R, c.rinv, c.rinv, c.m);
    Associate(vr, c.R, c.rinv);
    CongMul(vr, vr, c.R * c.rinv, 1, c.m);
    CongTrans(z * c.rinv, vr * (c.R * c.rinv), vr, c.m);
    MulSign(v, c.R, v, c.R);
    MulSign(v, 1, v, c.R);
    TRemScale(z, vr, c.rinv, c.m);
  }

  lemma ToRep(c: MontCtx, a: int)
    requires c.Valid()
    ensures c.Rep(c.To(a), a)
  {
    hide TRem, Cong;
    var rr := c.R * c.R % c.m;
    CongMod(c.R * c.R, c.m);
    CongRefl(a, c.m);
    CongMul(a, a, rr, c.R * c.R, c.m);
    Associate(a, c.R, c.R);
    MulSign(a, rr, a, 1);
    FactorOut(c, a * rr, a);
  }

  lemma FromRep(c: MontCtx, x: int, v: int)
    requires c.Valid() && c.Rep(x, v)
    ensures c.From(x) == TRem(v, c.m)
  {
    hide TRem, Cong;
    RepSign(v, c.R, c.m);
    CongRefl(c.rinv, c.m);
    CongMul(x, v * c.R, c.rinv, c.rinv, c.m);
    Associate(v, c.R, c.rinv);
    CongRefl(v, c.m);
    CongMul(v, v, c.R * c.rinv, 1, c.m);
    CongTrans(x * c.rinv, v * (c.R * c.rinv), v, c.m);
    TRemScale(x, v, c.rinv, c.m);
    assert x * 1 * c.rinv == x * c.rinv;
  }

  /** BN_MONT_CTX_set for an odd modulus; (m + 1) / 2 is an inverse of two, and R a power of two. */
  function NewMont(m: nat): (c: MontCtx)
    requires m % 2 == 1
    ensures c.Valid() && c.m == m && c.R == Pow(BASE, |FromNat(m)|)
  {
    var k := BITS * |FromNat(m)|;
    WordPower(|FromNat(m)|);
    PowPositive(2, k);
    PowProduct(2, (m + 1) / 2, k);
    InverseOfTwo(m, k);
    MontCtx(m, Pow(2, k), Pow((m + 1) / 2, k))
  }

  lemma {:induction false} InverseOfTwo(m: nat, k: nat)
    requires m % 2 == 1
    ensures Cong(Pow(2 * ((m + 1) / 2), k), 1, m)
  {
    if k > 0 {
      InverseOfTwo(m, k - 1);
      CongFromQuotient(m + 1, 1, m, 1);
      CongMul(m + 1, 1, Pow(m + 1, k - 1), 1, m);
    }
  }

  lemma ComplementColumn(a: seq<Word>, b: seq<Word>, x: Word, y: Word, p: nat)
    requires |a| == |b| && p == Pow(BASE, |a|) && Val(a) + Val(b) == p && y == BASE - 1 - x
    ensures Val(a + [x]) + Val(b + [y]) == BASE * p
  {
    hide Val, Pow;
    ValSnoc(a, x);
    ValSnoc(b, y);
    assert p * x + p * y == p * (BASE - 1);
  }

  /** 2^(top * BN_BITS2) - m computed word by word: negate the lowest word, complement the others. */
  method NegateWords(m: seq<Word>) returns (r: seq<Word>)
    requires m != [] && m[0] != 0
    ensures Val(r) + Val(m) == Pow(BASE, |m|) && Normal(r)
  {
    hide Val;
    r := [(0 - m[0]) % BASE];
    var i := 1;
    OneWord(r);
    OneWord(m[..1]);
    assert Pow(BASE, 1) == BASE;
    while i < |m|
      invariant 1 <= i <= |m| && |r| == i && Val(m[..i]) + Val(r) == Pow(BASE, i)
    {
      ComplementColumn(m[..i], r, m[i], BASE - 1 - m[i], Pow(BASE, i));
      assert m[..i + 1] == m[..i] + [m[i]];
      r := r + [BASE - 1 - m[i]];
      i := i + 1;
    }
    assert m[..|m|] == m;
    r := CorrectTop(r);
  }

  /** When the top bit of an odd m is set, R - m is R mod m, because R / 2 is even. */
  lemma TopBitMeansSmall(m: seq<Word>, c: MontCtx)
    requires m != [] && Val(m) % 2 == 1 && m[|m| - 1] >= HALF
    requires c.m == Val(m) && c.R == Pow(BASE, |m|)
    ensures 0 < c.R - c.m < c.m && c.R - c.m == TRem(1 * c.R, c.m)
  {
    hide Val;
    ValTop(m);
    ValBound(m[..|m| - 1]);
    TopBitArith(Pow(BASE, |m| - 1), m[|m| - 1], Val(m[..|m| - 1]), c.m);
    TDivUnique(1 * c.R, c.m, 1, c.R - c.m);
  }

  lemma TopBitArith(h: int, top: Word, low: int, m: int)
    requires 0 <= low < h && HALF <= top && m == low + h * top && m % 2 == 1
    ensures 0 < BASE * h - m < m
  {
    MulMonotone(HALF, top, h);
    MulMonotone(top, BASE - 1, h);
    assert HALF * h == 2 * ((HALF / 2) * h);
  }
}
