/** BIGNUM objects, and the division entry points that read and write them in place
    (crypto/bn/div.c, crypto/bn/bn.c). */
module BigNums {
  import opened Arith
  import opened Limbs
  import opened LongDivision

  /** A BIGNUM: words d[..top] without the spare capacity, the sign, and the BN_FLG_CONSTTIME flag. */
  class BigNum {
    var d: seq<Word>
    var neg: bool
    var constTime: bool

    constructor ()
      ensures Value() == 0 && Normal(d) && !neg && !constTime
    {
      d, neg, constTime := [], false, false;
    }

    function Value(): int
      reads this
    {
      if neg then 0 - Val(d) else Val(d)
    }

    /** A sign flag left on a zero magnitude. */
    predicate NegativeZero()
      reads this
    {
      neg && d == []
    }

    /** The contract of every exact primitive (BN_add, BN_sub, BN_mul, shifts, BN_set_word): the
        destination holds the integer result in normal form and zero is never negative. */
    method Set(v: int)
      modifies this`d, this`neg
      ensures Normal(d) && Value() == v && !NegativeZero() && neg == (v < 0)
    {
      d := FromNat(Arith.Abs(v));
      neg := v < 0;
    }

    /** BN_copy; the flag is not copied. */
    method Copy(src: BigNum)
      modifies this`d, this`neg
      ensures d == old(src.d) && neg == old(src.neg)
    {
      d, neg := src.d, src.neg;
    }
  }

  /** BN_div takes the short way out when the numerator is smaller and neither operand is flagged. */
  predicate ShortCut(num: seq<Word>, den: seq<Word>, noBranch: bool) {
    !noBranch && Val(num) < Val(den)
  }

  lemma ZeroIsEmpty(s: seq<Word>)
    requires Normal(s)
    ensures Val(s) == 0 <==> s == []
  {
  }

  lemma MagnitudeDivision(a: nat, b: nat, q: nat, r: nat, na: bool, nb: bool)
    requires a == q * b + r && r < b
    ensures var x, y := if na then 0 - a else a, if nb then 0 - b else b;
            (if na != nb then 0 - q else q) == TDiv(x, y) && (if na then 0 - r else r) == TRem(x, y)
    ensures r == a % b && q == a / b
  {
    var x: int, y: int := if na then 0 - a else a, if nb then 0 - b else b;
    var k: int, m: int := if na != nb then 0 - q else q, if na then 0 - r else r;
    var qb: int := q * b;
    assert (0 - q) * b == 0 - qb && q * (0 - b) == 0 - qb && (0 - q) * (0 - b) == qb;
    TDivUnique(x, y, k, m);
    TDivUnique(a, b, q, r);
    TRemBounds(a, b);
  }

  /** BN_div. The sign of the remainder is read from num after the sign of dv has been written, so it is
      wrong in exactly one family of calls: dv is num itself, the divisor is negative, the call does not
      take the short cut and the remainder is not zero. */
  method Div(dv: BigNum?, rm: BigNum?, num: BigNum, divisor: BigNum) returns (ok: bool)
    requires dv == null || dv != rm
    modifies dv, rm
    ensures ok <==> old(Normal(num.d) && Normal(divisor.d) && divisor.d != [])
    ensures ok ==> old(Val(divisor.d)) > 0 && old(divisor.Value()) != 0
    ensures !ok ==> (dv != null ==> unchanged(dv)) && (rm != null ==> unchanged(rm))
    ensures ok && dv != null ==> Normal(dv.d) && dv.Value() == TDiv(old(num.Value()), old(divisor.Value()))
    ensures ok && dv != null && dv.NegativeZero() ==> old(num.constTime || divisor.constTime)
    ensures ok && rm != null ==> Normal(rm.d) && Val(rm.d) == old(Val(num.d)) % old(Val(divisor.d))
    ensures ok && rm != null ==>
              (rm.Value() == TRem(old(num.Value()), old(divisor.Value())) <==>
               !(dv == num && old(divisor.neg) && old(Val(num.d)) % old(Val(divisor.d)) != 0 &&
                 !ShortCut(old(num.d), old(divisor.d), old(num.constTime || divisor.constTime))))
    ensures ok && rm != null && dv != num ==>
              (rm.NegativeZero() <==>
               (old(num.NegativeZero()) &&
                ShortCut(old(num.d), old(divisor.d), old(num.constTime || divisor.constTime))))
    ensures dv != null ==> dv.constTime == old(dv.constTime)
    ensures rm != null ==> rm.constTime == old(rm.constTime)
  {
    hide Val, TDiv, TRem, FromNat;
    if (|num.d| > 0 && num.d[|num.d| - 1] == 0) || (|divisor.d| > 0 && divisor.d[|divisor.d| - 1] == 0) {
      return false;
    }
    var noBranch := num.constTime || divisor.constTime;
    if |divisor.d| == 0 {
      return false;
    }
    ghost var a, b, na, nb := Val(num.d), Val(divisor.d), num.neg, divisor.neg;
    ZeroIsEmpty(num.d);
    ZeroIsEmpty(divisor.d);
    if !noBranch && Val(num.d) < Val(divisor.d) {
      MagnitudeDivision(a, b, 0, a, na, nb);
      if rm != null {
        rm.Copy(num);
      }
      if dv != null {
        dv.d, dv.neg := [], false;
        ZeroIsEmpty(dv.d);
      }
      return true;
    }
    var q, r := DivideMagnitudes(num.d, divisor.d, noBranch);
    MagnitudeDivision(a, b, Val(q), Val(r), na, nb);
    ZeroIsEmpty(q);
    ZeroIsEmpty(r);
    if dv != null {
      dv.neg := num.neg != divisor.neg;
      dv.d := q;
    }
    if rm != null {
      var neg := num.neg;
      rm.d, rm.neg := r, false;
      if rm.d != [] {
        rm.neg := neg;
      }
    }
    return true;
  }

  /** BN_nnmod. The promise 0 <= r < |den| holds except in two families of calls: r is den and the
      remainder is negative (den has been overwritten when it is added back), or num is a zero whose sign
      flag is set and the division takes the short cut (then |den| is returned). */
  method NNMod(r: BigNum, num: BigNum, den: BigNum) returns (ok: bool)
    modifies r
    ensures ok <==> old(Normal(num.d) && Normal(den.d) && den.d != [])
    ensures ok ==> old(Val(den.d)) > 0
    ensures !ok ==> unchanged(r)
    ensures ok ==> Normal(r.d) && r.constTime == old(r.constTime)
    ensures ok ==> (r.Value() == old(num.Value()) % old(Val(den.d)) <==>
                    !(r == den && old(num.Value()) < 0 && old(num.Value()) % old(Val(den.d)) != 0) &&
                    !(r != den && old(num.NegativeZero()) && !old(num.constTime || den.constTime)))
    ensures ok && r == den && old(num.Value()) < 0 ==> r.Value() == 0
    ensures (ok && r != den && old(num.NegativeZero()) && !old(num.constTime || den.constTime)) ==>
              r.Value() == old(Val(den.d))
  {
    hide Val, TDiv, TRem, FromNat;
    ghost var v, m := num.Value(), Val(den.d);
    ghost var other := den.Value();
    if Normal(num.d) {
      ZeroIsEmpty(num.d);
    }
    ok := Div(null, r, num, den);
    if !ok {
      return;
    }
    TRemBounds(v, other);
    ZeroIsEmpty(r.d);
    NonNegativeRemainder(v, other);
    if !r.neg {
      return true;
    }
    if den.neg {
      r.Set(r.Value() - den.Value());
    } else {
      r.Set(r.Value() + den.Value());
    }
    return true;
  }

  lemma NonNegativeRemainder(v: int, den: int)
    requires den != 0
    ensures v % Arith.Abs(den) == if TRem(v, den) < 0 then TRem(v, den) + Arith.Abs(den) else TRem(v, den)
  {
    TRemBounds(v, den);
    var m: int, t := Arith.Abs(den), TRem(v, den);
    var q := TDiv(v, den);
    assert v == den * q + t;
    var k := if den < 0 then 0 - q else q;
    assert den * q == m * k;
    var x := if t < 0 then t + m else t;
    assert v == m * (if t < 0 then k - 1 else k) + x;
    EuclidUnique(v, m, if t < 0 then k - 1 else k, x);
  }

  /** -7 = 3 * -2 - 1, but with the quotient written over the numerator the remainder comes out as 1. */
  method AliasedDivision() returns (quotient: int, remainder: int)
    ensures quotient == TDiv(-7, -2) == 3 && remainder == 1 && TRem(-7, -2) == -1
  {
    var a := new BigNum();
    var b := new BigNum();
    var r := new BigNum();
    a.Set(-7);
    b.Set(-2);
    ghost var x, y := a.d, b.d;
    assert Val(x) == 7 && Val(y) == 2;
    ZeroIsEmpty(y);
    var ok := Div(a, r, a, b);
    quotient, remainder := a.Value(), r.Value();
  }

  /** -7 is 2 modulo 3, but written over the 3 the residue comes out as 0. */
  method AliasedModulus() returns (ok: bool, residue: int)
    ensures ok && residue == 0 && -7 % 3 == 2
  {
    var a := new BigNum();
    var m := new BigNum();
    a.Set(-7);
    m.Set(3);
    ghost var y := m.d;
    assert Val(y) == 3;
    ZeroIsEmpty(y);
    ok := NNMod(m, a, m);
    residue := m.Value();
  }

  /** A zero with its sign flag set is reduced to the modulus. */
  method NegativeZeroResidue() returns (ok: bool, residue: int)
    ensures ok && residue == 5
  {
    var a := new BigNum();
    var m := new BigNum();
    var r := new BigNum();
    ZeroIsEmpty(a.d);
    a.neg := true;
    m.Set(5);
    ghost var y := m.d;
    assert Val(y) == 5;
    ZeroIsEmpty(y);
    ok := NNMod(r, a, m);
    residue := r.Value();
  }
}
