/** BN_mod_exp2_mont: a1^p1 * a2^p2 with two independent, interleaved sliding windows
    (crypto/bn/exponentiation.c). */
module DualExponentiation {
  import opened Arith
  import opened Congruence
  import opened Montgomery
  import opened Windows
  import opened Exponentiation

  /** One exponent's progress below bit `next`, k squarings short of its next bit: e is the exponent already
      multiplied in and w the value of the open window ending at bit wpos (0 when none is open). */
  ghost predicate Tracking(p: nat, next: nat, e: nat, w: nat, wpos: nat, window: nat, squared: bool) {
    if w == 0 then e == (if squared then 2 * Sh(p, next) else Sh(p, next))
    else
      && wpos < next
      && w % 2 == 1 && w < Pow(2, window)
      && e * Pow(2, if squared then next - 1 - wpos else next - wpos) + w == Sh(p, wpos)
  }

  lemma TrackSquare(p: nat, next: nat, e: nat, w: nat, wpos: nat, window: nat)
    requires Tracking(p, next, e, w, wpos, window, false)
    ensures Tracking(p, next, 2 * e, w, wpos, window, true)
  {
  }

  /** Opening a window at set bit b: its bottom is the lowest set bit among the next `window` positions. */
  method OpenWindow(p: nat, b: nat, window: nat) returns (wvalue: nat, wpos: nat)
    requires Bit(p, b) && window > 0
    ensures wpos <= b < wpos + window && Bit(p, wpos) && wvalue > 0
    ensures forall j :: b - window < j < wpos ==> !Bit(p, j)
    ensures Tracking(p, b + 1, 2 * Sh(p, b + 1), wvalue, wpos, window, true)
  {
    var i: int := b - window + 1;
    while !Bit(p, i)
      invariant b - window + 1 <= i <= b
      invariant forall j :: b - window < j < i ==> !Bit(p, j)
      decreases b - i
    {
      i := i + 1;
    }
    wpos := i;
    wvalue := 1;
    i := b - 1;
    ShiftDown(p, b);
    PowUnit();
    while i >= wpos
      invariant wpos - 1 <= i < b
      invariant wvalue < Pow(2, b - i)
      invariant Sh(p, i + 1) == Sh(p, b + 1) * Pow(2, b - i) + wvalue
    {
      ShiftDown(p, i);
      DoubleTail(Sh(p, b + 1), b - i, wvalue);
      wvalue := wvalue * 2;
      if Bit(p, i) {
        wvalue := wvalue + 1;
      }
      i := i - 1;
    }
    CloseValue(p, b, wpos, wvalue, window);
  }

  lemma PowUnit()
    ensures Pow(2, 0) == 1 && Pow(2, 1) == 2
  {
  }

  lemma DoubleTail(x: nat, k: nat, w: nat)
    ensures 2 * (x * Pow(2, k) + w) == x * Pow(2, k + 1) + w * 2
    ensures Pow(2, k + 1) == 2 * Pow(2, k)
  {
  }

  lemma CloseValue(p: nat, b: nat, wpos: nat, w: nat, window: nat)
    requires wpos <= b < wpos + window && Bit(p, wpos)
    requires w < Pow(2, b + 1 - wpos) && Sh(p, wpos) == Sh(p, b + 1) * Pow(2, b + 1 - wpos) + w
    ensures w > 0 && Tracking(p, b + 1, 2 * Sh(p, b + 1), w, wpos, window, true)
  {
    PowMonotone(2, b + 1 - wpos, window);
    assert Pow(2, b + 1 - wpos) == 2 * Pow(2, b - wpos);
    hide Pow, Sh;
    CloseArith(Sh(p, wpos), Sh(p, b + 1), Pow(2, b - wpos), w);
  }

  lemma CloseArith(s: int, x: int, h: int, w: int)
    requires s == x * (2 * h) + w
    ensures s == 2 * x * h + w && s % 2 == w % 2
  {
    assert x * (2 * h) == 2 * (x * h) && 2 * x * h == 2 * (x * h);
  }

  /** No window open and the bit is clear, or a window stays open: the state for the next bit. */
  lemma TrackNext(p: nat, b: nat, e: nat, w: nat, wpos: nat, window: nat)
    requires Tracking(p, b + 1, e, w, wpos, window, true)
    requires w == 0 ==> !Bit(p, b)
    requires w != 0 ==> wpos != b
    ensures Tracking(p, b, e, w, wpos, window, false)
  {
  }

  /** Closing the window at its bottom bit. */
  lemma TrackClose(p: nat, b: nat, e: nat, w: nat, window: nat)
    requires w != 0 && Tracking(p, b + 1, e, w, b, window, true)
    ensures Tracking(p, b, e + w, 0, b, window, false)
  {
  }

  /** The index of a closing window lies in its table. */
  lemma TrackIndex(p: nat, next: nat, e: nat, w: nat, wpos: nat, window: nat)
    requires w != 0 && Tracking(p, next, e, w, wpos, window, true) && 1 <= window <= 6
    ensures w / 2 < Pow(2, window - 1) <= TABLE_SIZE && w == 2 * (w / 2) + 1
  {
    TableFits(window);
    assert Pow(2, window) == 2 * Pow(2, window - 1);
  }

  /** An open window lies below, and its index in the table. */
  lemma OpenIndex(p: nat, next: nat, e: nat, w: nat, wpos: nat, window: nat)
    requires w != 0 && Tracking(p, next, e, w, wpos, window, false) && 1 <= window <= 6
    ensures wpos < next && w % 2 == 1 && w / 2 < Pow(2, window - 1) <= TABLE_SIZE
  {
    WindowIndex(w, window - 1, window);
  }

  /** r stands for a1^e1 * a2^e2. */
  ghost predicate Both(c: MontCtx, r: int, a1: int, e1: nat, a2: int, e2: nat)
    requires c.m > 0
  {
    c.Rep(r, IPow(a1, e1) * IPow(a2, e2))
  }

  lemma BothSquare(c: MontCtx, r: int, a1: int, e1: nat, a2: int, e2: nat)
    requires c.Valid() && Both(c, r, a1, e1, a2, e2)
    ensures Both(c, c.Mul(r, r), a1, 2 * e1, a2, 2 * e2)
  {
    var x, y := IPow(a1, e1), IPow(a2, e2);
    MulRep(c, r, r, x * y, x * y);
    IPowSquare(a1, e1);
    IPowSquare(a2, e2);
    MulInterchange(x, y, x, y);
  }

  lemma BothMultiply(c: MontCtx, r: int, v: int, a1: int, e1: nat, a2: int, e2: nat, w: nat)
    requires c.Valid() && Both(c, r, a1, e1, a2, e2)
    ensures Power(c, v, a1, w) ==> Both(c, c.Mul(r, v), a1, e1 + w, a2, e2)
    ensures Power(c, v, a2, w) ==> Both(c, c.Mul(r, v), a1, e1, a2, e2 + w)
  {
    var x, y := IPow(a1, e1), IPow(a2, e2);
    if Power(c, v, a1, w) {
      MulRep(c, r, v, x * y, IPow(a1, w));
      IPowAdd(a1, e1, w);
      assert x * y * IPow(a1, w) == x * IPow(a1, w) * y;
    }
    if Power(c, v, a2, w) {
      MulRep(c, r, v, x * y, IPow(a2, w));
      IPowAdd(a2, e2, w);
      Associate(x, y, IPow(a2, w));
    }
  }

  /** One exponent's share of a pass: open a window on a set bit, and multiply when its bottom is reached. */
  method Advance(c: MontCtx, r0: int, one0: bool, val: array<int>, p: nat, b: nat, w0: nat, wpos0: nat, window: nat,
                 ghost a: int, ghost e0: nat, ghost first: bool, ghost a': int, ghost e': nat)
    returns (r: int, rIsOne: bool, w: nat, wpos: nat, ghost e: nat)
    requires c.Valid() && 1 <= window <= 6 && OddPowers(c, val[..], a, window)
    requires if first then Both(c, r0, a, e0, a', e') else Both(c, r0, a', e', a, e0)
    requires Tracking(p, b + 1, e0, w0, wpos0, window, true)
    ensures if first then Both(c, r, a, e, a', e') else Both(c, r, a', e', a, e)
    ensures Tracking(p, b, e, w, wpos, window, false)
    ensures rIsOne ==> one0 && r == r0 && e == e0
    ensures w != 0 ==> wpos < b && w % 2 == 1 && w / 2 < Pow(2, window - 1) <= TABLE_SIZE
  {
    hide Power, Both, Pow, IPow, Sh, Tracking;
    r, rIsOne, w, wpos, e := r0, one0, w0, wpos0, e0;
    if w == 0 && Bit(p, b) {
      w, wpos := OpenWindow(p, b, window);
      TrackingZero(p, b + 1, e0, wpos0, window);
    }
    if w != 0 && b == wpos {
      TrackIndex(p, b + 1, e, w, wpos, window);
      assert Power(c, val[..][w / 2], a, 2 * (w / 2) + 1);
      if first {
        BothMultiply(c, r, val[w / 2], a, e, a', e', w);
      } else {
        BothMultiply(c, r, val[w / 2], a', e', a, e, w);
      }
      r := c.Mul(r, val[w / 2]);
      TrackClose(p, b, e, w, window);
      e := e + w;
      w := 0;
      rIsOne := false;
    } else {
      TrackNext(p, b, e, w, wpos, window);
    }
    if w != 0 {
      OpenIndex(p, b, e, w, wpos, window);
    }
  }

  lemma TrackingZero(p: nat, next: nat, e: nat, wpos: nat, window: nat)
    requires Tracking(p, next, e, 0, wpos, window, true)
    ensures e == 2 * Sh(p, next)
  {
  }

  /** The main loop: both exponents are consumed bit by bit from the top. */
  method DualLoop(c: MontCtx, r0: int, val1: array<int>, p1: nat, window1: nat, val2: array<int>, p2: nat, window2: nat,
                  ghost a1: int, ghost a2: int) returns (r: int)
    requires c.Valid() && 1 <= window1 <= 6 && 1 <= window2 <= 6 && Both(c, r0, a1, 0, a2, 0)
    requires OddPowers(c, val1[..], a1, window1) && OddPowers(c, val2[..], a2, window2)
    ensures Both(c, r, a1, p1, a2, p2)
  {
    hide Power, Both, Pow, IPow, Sh, Tracking, OddPowers;
    var bits := if NumBits(p1) > NumBits(p2) then NumBits(p1) else NumBits(p2);
    r := r0;
    var rIsOne := true;
    var w1, wpos1, w2, wpos2 := 0, 0, 0, 0;
    ghost var e1, e2 := 0, 0;
    var b: int := bits - 1;
    NothingTracked(p1, bits, window1);
    NothingTracked(p2, bits, window2);
    while b >= 0
      invariant -1 <= b
      invariant Both(c, r, a1, e1, a2, e2) && (rIsOne ==> e1 == 0 && e2 == 0)
      invariant Tracking(p1, b + 1, e1, w1, wpos1, window1, false)
      invariant Tracking(p2, b + 1, e2, w2, wpos2, window2, false)
    {
      TrackSquare(p1, b + 1, e1, w1, wpos1, window1);
      TrackSquare(p2, b + 1, e2, w2, wpos2, window2);
      if !rIsOne {
        BothSquare(c, r, a1, e1, a2, e2);
        r := c.Mul(r, r);
      }
      e1, e2 := 2 * e1, 2 * e2;
      r, rIsOne, w1, wpos1, e1 := Advance(c, r, rIsOne, val1, p1, b, w1, wpos1, window1, a1, e1, true, a2, e2);
      r, rIsOne, w2, wpos2, e2 := Advance(c, r, rIsOne, val2, p2, b, w2, wpos2, window2, a2, e2, false, a1, e1);
      b := b - 1;
    }
    AllTracked(p1, e1, w1, wpos1, window1);
    AllTracked(p2, e2, w2, wpos2, window2);
  }

  lemma NothingTracked(p: nat, bits: nat, window: nat)
    requires bits >= NumBits(p)
    ensures Tracking(p, bits, 0, 0, 0, window, false)
  {
    ShiftBeyond(p, bits);
  }

  lemma AllTracked(p: nat, e: nat, w: nat, wpos: nat, window: nat)
    requires Tracking(p, 0, e, w, wpos, window, false)
    ensures e == p
  {
  }

  /** A base reduced with its sign has the same Montgomery form as the base itself. */
  lemma ReducedForm(c: MontCtx, a: int)
    requires c.Valid()
    ensures Power(c, c.To(TRem(a, c.m)), a, 1)
    ensures TRem(a, c.m) == 0 <==> a % c.m == 0
  {
    hide TRem, Cong, Power, Pow;
    var x := TRem(a, c.m);
    ToRep(c, x);
    TRemBounds(a, c.m);
    CongTRem(a, c.m);
    CongRefl(c.R, c.m);
    CongMul(x, a, c.R, c.R, c.m);
    SignOfScaled(a, c.R);
    TRemScale(x, a * c.R, c.R, c.m);
    FirstOfRep(c, c.To(x), a);
    ZeroRemainder(a, c.m);
  }

  lemma SignOfScaled(a: int, R: int)
    requires R > 0
    ensures (a * R >= 0 <==> a >= 0) && (a * R <= 0 <==> a <= 0)
  {
  }

  lemma FirstOfRep(c: MontCtx, x: int, a: int)
    requires c.m > 0 && x == TRem(a * c.R, c.m)
    ensures Power(c, x, a, 1)
  {
  }

  lemma ZeroRemainder(a: int, m: int)
    requires m > 0
    ensures TRem(a, m) == 0 <==> a % m == 0
  {
    CongTRem(a, m);
    TRemBounds(a, m);
    if a % m == 0 {
      TRemUnique(0, a, m);
    }
  }

  /** What a caller is promised: the product of the powers, reduced like C's remainder. */
  ghost function Expected(a1: int, p1: nat, a2: int, p2: nat, m: int): int
    requires m > 0
  {
    TRem(IPow(a1, p1) * IPow(a2, p2), m)
  }

  /** The calls whose constant answer differs from the expected value. */
  ghost predicate ShortCircuited(a1: int, p1: nat, a2: int, p2: nat, M: int)
    requires M > 0
  {
    || (p1 == 0 && p2 == 0 && M == 1)
    || (p1 == 0 && p2 > 0 && a1 % M == 0 && IPow(a2, p2) % M != 0)
    || (p2 == 0 && p1 > 0 && a2 % M == 0 && IPow(a1, p1) % M != 0)
  }

  /** For non-negative bases the expected value is the least non-negative residue. */
  lemma ExpectedResidue(a1: int, p1: nat, a2: int, p2: nat, m: int)
    requires m > 0 && a1 >= 0 && a2 >= 0
    ensures Expected(a1, p1, a2, p2, m) == (IPow(a1, p1) * IPow(a2, p2)) % m
  {
    PowerNonNegative(a1, p1);
    PowerNonNegative(a2, p2);
    MulMonotone(0, IPow(a1, p1), IPow(a2, p2));
    TRemBounds(IPow(a1, p1) * IPow(a2, p2), m);
  }

  /** 3^0 * 2^1 is 2 modulo 3, but the vanishing first base makes the answer 0. */
  method VanishingBase() returns (ok: bool, rr: int)
    ensures ok && rr != (IPow(3, 0) * IPow(2, 1)) % 3
  {
    ok, rr := ModExp2Mont(3, 0, 2, 1, 3);
    ExpectedResidue(3, 0, 2, 1, 3);
    assert IPow(2, 1) == 2 * IPow(2, 0);
    assert 2 % 3 == 2;
  }

  /** BN_mod_exp2_mont. A base that vanishes modulo m short-circuits the answer to 0, also when its exponent
      is 0; and two zero exponents answer 1 also for the modulus 1. In every other case it is right. */
  method ModExp2Mont(a1: int, p1: nat, a2: int, p2: nat, m: int) returns (ok: bool, rr: int)
    ensures ok <==> m % 2 == 1
    ensures ok ==> Arith.Abs(m) > 0
    ensures ok ==> (rr == Expected(a1, p1, a2, p2, Arith.Abs(m)) <==> !ShortCircuited(a1, p1, a2, p2, Arith.Abs(m)))
  {
    hide Power, IPow, TRem, NumBits, OddPowers, Both;
    if m % 2 != 1 {
      return false, 0;
    }
    var M := Arith.Abs(m);
    OddMagnitude(m);
    NumBitsZero(p1);
    NumBitsZero(p2);
    SpecialCases(a1, p1, a2, p2, M);
    if NumBits(p1) == 0 && NumBits(p2) == 0 {
      return true, 1;
    }
    var c := NewMont(M);
    ReducedForm(c, a1);
    ReducedForm(c, a2);
    var x1 := if a1 < 0 || Arith.Abs(a1) >= M then TRem(a1, M) else a1;
    SmallRemainder(a1, M);
    if x1 == 0 {
      return true, 0;
    }
    var window1, window2 := WindowBits(NumBits(p1)), WindowBits(NumBits(p2));
    var val1 := OddPowerTable(c, c.To(x1), window1, a1);
    var x2 := if a2 < 0 || Arith.Abs(a2) >= M then TRem(a2, M) else a2;
    SmallRemainder(a2, M);
    if x2 == 0 {
      return true, 0;
    }
    var val2 := OddPowerTable(c, c.To(x2), window2, a2);
    ToRep(c, 1);
    var r := c.To(1);
    BothOne(c, r, a1, a2);
    r := DualLoop(c, r, val1, p1, window1, val2, p2, window2, a1, a2);
    FinishBoth(c, r, a1, p1, a2, p2);
    rr := c.From(r);
    ok := true;
  }

  lemma SmallRemainder(a: int, M: int)
    requires M > 0
    ensures 0 <= a && Arith.Abs(a) < M ==> TRem(a, M) == a
  {
    hide TDiv;
    if 0 <= a < M {
      TDivUnique(a, M, 0, a);
    }
  }

  lemma BothOne(c: MontCtx, r: int, a1: int, a2: int)
    requires c.m > 0 && c.Rep(r, 1)
    ensures Both(c, r, a1, 0, a2, 0)
  {
  }

  lemma FinishBoth(c: MontCtx, r: int, a1: int, p1: nat, a2: int, p2: nat)
    requires c.Valid() && Both(c, r, a1, p1, a2, p2)
    ensures c.From(r) == Expected(a1, p1, a2, p2, c.m)
  {
    FromRep(c, r, IPow(a1, p1) * IPow(a2, p2));
  }

  /** The expected value where the code answers a constant. */
  lemma SpecialCases(a1: int, p1: nat, a2: int, p2: nat, M: int)
    requires M > 0
    ensures p1 == 0 && p2 == 0 ==> (Expected(a1, p1, a2, p2, M) == 1 <==> M != 1)
    ensures p1 > 0 && a1 % M == 0 ==> IPow(a1, p1) % M == 0 && Expected(a1, p1, a2, p2, M) == 0
    ensures p2 > 0 && a2 % M == 0 ==> IPow(a2, p2) % M == 0 && Expected(a1, p1, a2, p2, M) == 0
    ensures p1 == 0 ==> (Expected(a1, p1, a2, p2, M) == 0 <==> IPow(a2, p2) % M == 0)
    ensures p2 == 0 ==> (Expected(a1, p1, a2, p2, M) == 0 <==> IPow(a1, p1) % M == 0)
  {
    hide TRem, Cong;
    var x, y := IPow(a1, p1), IPow(a2, p2);
    ZeroRemainder(x * y, M);
    UnitRemainder(M);
    CongRefl(a1, M);
    CongRefl(a2, M);
    PowerOfResidue(a1, a1, p1, M);
    PowerOfResidue(a2, a2, p2, M);
    VanishingFactor(x, y, M);
  }

  lemma UnitRemainder(M: int)
    requires M > 0
    ensures TRem(1, M) == if M == 1 then 0 else 1
  {
  }

  lemma VanishingFactor(x: int, y: int, M: int)
    requires M > 0
    ensures x % M == 0 || y % M == 0 ==> (x * y) % M == 0
  {
    CongRefl(x, M);
    CongRefl(y, M);
    if x % M == 0 {
      CongMul(x, 0, y, y, M);
    }
    if y % M == 0 {
      CongMul(x, x, y, 0, M);
    }
  }
}
