/** BN_mod_exp_mont_word: exponentiation of a one-word base, keeping part of the accumulator in a machine
    word for as long as it does not overflow (crypto/bn/exponentiation.c). */
module WordExponentiation {
  import opened Arith
  import opened Limbs
  import opened Congruence
  import opened Montgomery
  import opened Exponentiation

  /** The wrapped product divided by one factor gives the other factor back exactly when nothing was lost. */
  lemma OverflowDetected(w: Word, a: Word)
    requires a > 0
    ensures ((w * a) % BASE) / a == w <==> w * a < BASE
  {
    Detected(w * a, w, a);
  }

  lemma Detected(x: int, w: int, a: int)
    requires 0 <= w < BASE && 0 < a < BASE && x == w * a
    ensures (x % BASE) / a == w <==> x < BASE
  {
    if x < BASE {
      EuclidUnique(x, a, w, 0);
    } else {
      var y := x % BASE;
      DivMod(x, BASE);
      DivMod(y, a);
      if y / a >= w {
        MulMonotone(w, y / a, a);
      }
    }
  }

  /** r * w is the Montgomery form of V; while r is still one, w itself is V. */
  ghost predicate Product(c: MontCtx, r: int, rIsOne: bool, w: int, V: int)
    requires c.m > 0
  {
    && 0 < w < BASE
    && (rIsOne ==> w == V)
    && (!rIsOne ==> 0 <= r < c.m && Cong(r * w, V * c.R, c.m))
  }

  /** BN_MOD_MUL_WORD or BN_TO_MONTGOMERY_WORD: multiply the word into r. */
  method FoldWord(c: MontCtx, r: int, rIsOne: bool, w: Word, ghost V: int) returns (r': int)
    requires c.Valid() && Product(c, r, rIsOne, w, V) && V > 0
    ensures 0 <= r' < c.m && Cong(r', V * c.R, c.m)
  {
    hide TRem, Cong;
    if rIsOne {
      ToRep(c, w);
      RepSign(w, c.R, c.m);
      TRemBounds(w * c.R, c.m);
      r' := c.To(w);
    } else {
      MulMonotone(0, r, w);
      TRemBounds(r * w, c.m);
      CongTRem(r * w, c.m);
      CongTrans(TRem(r * w, c.m), r * w, V * c.R, c.m);
      r' := TRem(r * w, c.m);
    }
  }

  /** Squaring both parts squares the represented number. */
  lemma SquareProduct(c: MontCtx, r: int, w: int, V: int)
    requires c.Valid() && 0 <= r < c.m && 0 < w && V > 0 && Cong(r * w, V * c.R, c.m)
    ensures 0 <= c.Mul(r, r) < c.m
    ensures Cong(c.Mul(r, r) * (w * w), (V * V) * c.R, c.m)
  {
    hide TRem, Cong;
    var z := r * r * c.rinv;
    var VR := V * c.R;
    MulMonotone(0, r, r);
    MulMonotone(0, r * r, c.rinv);
    TRemBounds(z, c.m);
    CongTRem(z, c.m);
    CongRefl(w * w, c.m);
    CongMul(TRem(z, c.m), z, w * w, w * w, c.m);
    CongMul(r * w, VR, r * w, VR, c.m);
    CongRefl(c.rinv, c.m);
    CongMul((r * w) * (r * w), VR * VR, c.rinv, c.rinv, c.m);
    SquareArith(r, w, c.rinv, V, c.R);
    CongRefl((V * V) * c.R, c.m);
    CongMul((V * V) * c.R, (V * V) * c.R, c.R * c.rinv, 1, c.m);
    CongTrans(z * (w * w), ((V * V) * c.R) * (c.R * c.rinv), (V * V) * c.R, c.m);
    CongTrans(TRem(z, c.m) * (w * w), z * (w * w), (V * V) * c.R, c.m);
  }

  lemma SquareArith(r: int, w: int, i: int, V: int, R: int)
    ensures (r * r * i) * (w * w) == ((r * w) * (r * w)) * i
    ensures ((V * R) * (V * R)) * i == ((V * V) * R) * (R * i)
  {
  }

  lemma ScaleProduct(c: MontCtx, x: int, V: int, a: int)
    requires c.Valid() && Cong(x, V * c.R, c.m)
    ensures Cong(x * a, (V * a) * c.R, c.m)
  {
    hide Cong;
    CongRefl(a, c.m);
    CongMul(x, V * c.R, a, a, c.m);
    assert (V * c.R) * a == (V * a) * c.R;
  }

  lemma {:induction false} PowerPositive(a: int, e: nat)
    requires a > 0
    ensures IPow(a, e) > 0
  {
    if e > 0 {
      PowerPositive(a, e - 1);
      MulMonotone(1, a, IPow(a, e - 1));
    }
  }

  /** First, square r*w. */
  method SquareStep(c: MontCtx, r0: int, one0: bool, w0: Word, ghost V: int)
    returns (r: int, rIsOne: bool, w: Word)
    requires c.Valid() && Product(c, r0, one0, w0, V) && V > 0
    ensures Product(c, r, rIsOne, w, V * V)
  {
    hide TRem, Cong;
    r, rIsOne, w := r0, one0, w0;
    OverflowDetected(w, w);
    var nextW := (w * w) % BASE;
    if nextW / w != w {
      r := FoldWord(c, r, rIsOne, w, V);
      rIsOne := false;
      nextW := 1;
      SquareProduct(c, r, 1, V);
    } else {
      MulMonotone(1, w, w);
      if !rIsOne {
        SquareProduct(c, r, w, V);
      }
    }
    w := nextW;
    if !rIsOne {
      r := c.Mul(r, r);
    }
  }

  /** Second, multiply r*w by a. */
  method MultiplyStep(c: MontCtx, r0: int, one0: bool, w0: Word, a: Word, ghost V: int)
    returns (r: int, rIsOne: bool, w: Word)
    requires c.Valid() && Product(c, r0, one0, w0, V) && V > 0 && a > 0
    ensures Product(c, r, rIsOne, w, V * a)
  {
    hide TRem, Cong;
    r, rIsOne, w := r0, one0, w0;
    OverflowDetected(w, a);
    var nextW := (w * a) % BASE;
    if nextW / a != w {
      r := FoldWord(c, r, rIsOne, w, V);
      rIsOne := false;
      nextW := a;
      ScaleProduct(c, r, V, a);
    } else {
      MulMonotone(1, w, a);
      if !rIsOne {
        ScaleProduct(c, r * w, V, a);
        Associate(r, w, a);
      }
    }
    w := nextW;
  }

  /** Lines 1263-1338 for a reduced non-zero base. */
  method WordPower(c: MontCtx, a: Word, p: nat) returns (rr: int)
    requires c.Valid() && a > 0 && p > 0 && c.m > 1
    ensures rr == IPow(a, p) % c.m
  {
    hide TRem, Cong, IPow, Sh, NumBits, Product;
    ShiftBits(p);
    NumBitsZero(p);
    var rIsOne, r, w := true, 1, a;
    var b: int := NumBits(p) - 2;
    StartProduct(c, a);
    while b >= 0
      invariant -1 <= b && Product(c, r, rIsOne, w, IPow(a, Sh(p, b + 1)))
    {
      ghost var e := Sh(p, b + 1);
      PowerPositive(a, e);
      ShiftDown(p, b);
      IPowSquare(a, e);
      r, rIsOne, w := SquareStep(c, r, rIsOne, w, IPow(a, e));
      if Bit(p, b) {
        PowerPositive(a, 2 * e);
        NextPower(a, 2 * e);
        r, rIsOne, w := MultiplyStep(c, r, rIsOne, w, a, IPow(a, 2 * e));
      }
      b := b - 1;
    }
    assert Sh(p, 0) == p by { ShiftZero(p); }
    ghost var V := IPow(a, p);
    PowerPositive(a, p);
    rr := FinishProduct(c, r, rIsOne, w, V);
  }

  /** The closing lines: fold the word in and leave the Montgomery domain. */
  method FinishProduct(c: MontCtx, r0: int, one0: bool, w: Word, ghost V: int) returns (rr: int)
    requires c.Valid() && c.m > 1 && V > 0 && Product(c, r0, one0, w, V)
    ensures rr == V % c.m
  {
    hide TRem, Cong;
    var r, rIsOne := r0, one0;
    if w != 1 {
      r := FoldWord(c, r, rIsOne, w, V);
      rIsOne := false;
    }
    if rIsOne {
      return 1;
    }
    MulSign(V, c.R, V, 1);
    TRemUnique(r, V * c.R, c.m);
    FromRep(c, r, V);
    TRemBounds(V, c.m);
    rr := c.From(r);
  }

  lemma StartProduct(c: MontCtx, a: Word)
    requires c.m > 0 && a > 0
    ensures Product(c, 1, true, a, IPow(a, 1))
  {
    assert IPow(a, 1) == a * IPow(a, 0);
  }

  lemma NextPower(a: int, e: nat)
    ensures IPow(a, e + 1) == IPow(a, e) * a
  {
  }

  /** A one-word modulus reduces the base first. */
  method ReduceWord(a0: Word, M: nat) returns (a: Word)
    requires M > 0
    ensures Cong(a0, a, M) && (M == 1 ==> a == 0)
    ensures a == 0 ==> a % M == 0
  {
    if M < BASE {
      CongMod(a0, M);
      a := a0 % M;
    } else {
      a := a0;
    }
  }

  /** BN_mod_exp_mont_word: right for every word, exponent and odd modulus; only the modulus -1 with a zero
      exponent is answered 1 instead of 0. */
  method ModExpMontWord(a0: Word, p: nat, m: int) returns (ok: bool, rr: int)
    ensures ok <==> m % 2 == 1
    ensures ok ==> (rr == IPow(a0, p) % Arith.Abs(m) <==> !(p == 0 && m == -1))
  {
    hide TRem, Cong, IPow, NumBits;
    if m % 2 != 1 {
      return false, 0;
    }
    OddMagnitude(m);
    NumBitsZero(p);
    if NumBits(p) == 0 {
      EmptyPower(a0, m);
      return true, if m == 1 then 0 else 1;
    }
    rr := PositivePower(a0, p, Arith.Abs(m));
    ok := true;
  }

  lemma EmptyPower(a0: int, m: int)
    requires m != 0
    ensures (if m == 1 then 0 else 1) == IPow(a0, 0) % Arith.Abs(m) <==> m != -1
  {
    ZeroPower(a0);
    if Arith.Abs(m) > 1 {
      EuclidUnique(1, Arith.Abs(m), 0, 1);
    }
  }

  method PositivePower(a0: Word, p: nat, M: nat) returns (rr: int)
    requires p > 0 && M % 2 == 1
    ensures rr == IPow(a0, p) % M
  {
    hide TRem, Cong, IPow, NumBits;
    var a := ReduceWord(a0, M);
    PowerOfResidue(a0, a, p, M);
    if a == 0 {
      return 0;
    }
    var c := NewMont(M);
    rr := WordPower(c, a, p);
  }

  /** 2^0 is 0 modulo -1, but the answer is 1; modulo 1 it is right. */
  method ZeroPowerOfMinusOne() returns (wrong: int, right: int)
    ensures wrong != IPow(2, 0) % 1 && right == IPow(2, 0) % 1
  {
    var ok1, ok2;
    ok1, wrong := ModExpMontWord(2, 0, -1);
    ok2, right := ModExpMontWord(2, 0, 1);
  }
}
