/** Common divisors, and the binary algorithm of BN_gcd (crypto/bn/gcd.c). */
module Gcd {
  import opened Arith
  import opened Limbs
  import opened Congruence
  import opened BigNums

  ghost predicate Divides(d: nat, x: int) {
    d > 0 && x % d == 0
  }

  /** A and B have exactly the common divisors of a and n: the invariant gcd(A, B) = gcd(a, n). */
  ghost predicate SameDivisors(A: int, B: int, a: int, n: int) {
    forall d: nat {:trigger Divides(d, a)} {:trigger Divides(d, A)} ::
      Divides(d, A) && Divides(d, B) <==> Divides(d, a) && Divides(d, n)
  }

  /** The divisors of g are the common divisors of x and y; for x = y = 0 that leaves 0. */
  ghost predicate IsGcd(g: int, x: int, y: int) {
    g >= 0 && SameDivisors(g, 0, x, y)
  }

  lemma DividesLinear(d: nat, x: int, y: int, k: int)
    requires Divides(d, x) && Divides(d, y)
    ensures Divides(d, x + k * y)
  {
    CongRefl(k, d);
    CongMul(k, k, y, 0, d);
    CongAdd(x, 0, k * y, k * 0, d);
  }

  lemma DividesMultiple(d: nat, y: int, k: int)
    requires Divides(d, y)
    ensures Divides(d, k * y)
  {
    DividesLinear(d, 0, y, k);
  }

  /** Replacing A by A - k*B keeps the common divisors. */
  lemma SubtractKeeps(A: int, B: int, k: int, a: int, n: int)
    requires SameDivisors(A, B, a, n)
    ensures SameDivisors(B, A - k * B, a, n) && SameDivisors(A - k * B, B, a, n)
  {
    forall d: nat
      ensures Divides(d, A - k * B) && Divides(d, B) <==> Divides(d, a) && Divides(d, n)
    {
      if Divides(d, A) && Divides(d, B) {
        DividesLinear(d, A, B, 0 - k);
      }
      if Divides(d, A - k * B) && Divides(d, B) {
        DividesLinear(d, A - k * B, B, k);
      }
    }
  }

  lemma SwapKeeps(A: int, B: int, a: int, n: int)
    requires SameDivisors(A, B, a, n)
    ensures SameDivisors(B, A, a, n)
  {
  }

  /** Halving one number while the other is odd keeps the common divisors, also of equal multiples of both. */
  lemma HalfKeeps(k: int, A: int, B: int, a: int, n: int)
    requires SameDivisors(k * A, 2 * (k * B), a, n) && A % 2 == 1
    ensures SameDivisors(k * A, k * B, a, n)
  {
    forall d: nat
      ensures Divides(d, k * A) && Divides(d, k * B) <==> Divides(d, a) && Divides(d, n)
    {
      if Divides(d, k * A) && Divides(d, k * B) {
        DividesMultiple(d, k * B, 2);
      }
      if Divides(d, k * A) && Divides(d, 2 * (k * B)) {
        OddDivisor(d, k, A, B);
      }
    }
  }

  /** B is B*A - (A/2)*(2*B). */
  lemma OddDivisor(d: nat, k: int, A: int, B: int)
    requires Divides(d, k * A) && Divides(d, 2 * (k * B)) && A % 2 == 1
    ensures Divides(d, k * B)
  {
    hide Divides;
    OddCombination(k, A, B);
    DividesMultiple(d, k * A, B);
    DividesLinear(d, B * (k * A), 2 * (k * B), 0 - A / 2);
  }

  lemma OddCombination(k: int, A: int, B: int)
    requires A % 2 == 1
    ensures B * (k * A) + (0 - A / 2) * (2 * (k * B)) == k * B
  {
    assert A == 2 * (A / 2) + 1;
  }

  /** There is only one greatest common divisor. */
  lemma GcdUnique(g: int, h: int, x: int, y: int)
    requires IsGcd(g, x, y) && IsGcd(h, x, y)
    ensures g == h
  {
    Below(g, h, x, y);
    Below(h, g, x, y);
  }

  lemma Below(g: int, h: int, x: int, y: int)
    requires IsGcd(g, x, y) && IsGcd(h, x, y)
    ensures g <= h
  {
    if h == 0 {
      assert Divides(g + 1, 0);
      assert Divides(g + 1, g);
    } else if g > 0 {
      assert Divides(g, g) && Divides(g, 0);
      assert Divides(g, h);
    }
  }

  /** The same common divisors, in two steps. */
  lemma SameTrans(g: int, a: int, b: int, x: int, y: int)
    requires SameDivisors(g, 0, a, b) && SameDivisors(a, b, x, y)
    ensures SameDivisors(g, 0, x, y)
  {
  }

  lemma SameSelf(a: int, b: int)
    ensures SameDivisors(a, b, a, b)
  {
  }

  /** The greatest common divisor is a combination of the two numbers. */
  lemma {:induction false} Bezout(a: nat, b: nat) returns (x: int, y: int)
    ensures IsGcd(x * a + y * b, a, b)
    decreases b
  {
    if b == 0 {
      x, y := 1, 0;
    } else {
      hide SameDivisors;
      var k := a / b;
      var u, v := Bezout(b, a % b);
      x, y := v, u - k * v;
      BackStep(u, v, a, b, k);
      SameSelf(a, b);
      SubtractKeeps(a, b, k, a, b);
      SameTrans(u * b + v * (a % b), b, a - k * b, a, b);
    }
  }

  lemma BackStep(u: int, v: int, a: nat, b: nat, k: int)
    requires b > 0 && k == a / b
    ensures a - k * b == a % b && v * a + (u - k * v) * b == u * b + v * (a % b)
  {
    DivMod(a, b);
    assert v * (a - k * b) == v * a - k * v * b;
  }

  // ---------------------------------------------------------------- the loop

  /** a and b, times the power of two taken out of both, have the common divisors of x and y. */
  ghost predicate Reduced(a: int, b: int, shifts: nat, x: int, y: int) {
    0 <= b <= a && SameDivisors(Pow(2, shifts) * a, Pow(2, shifts) * b, x, y)
  }

  /** The larger of the two numbers comes first again. */
  lemma Ordered(a: int, b: int, shifts: nat, x: int, y: int)
    requires a >= 0 && b >= 0 && SameDivisors(Pow(2, shifts) * a, Pow(2, shifts) * b, x, y)
    ensures if a < b then Reduced(b, a, shifts, x, y) else Reduced(a, b, shifts, x, y)
  {
    SwapKeeps(Pow(2, shifts) * a, Pow(2, shifts) * b, x, y);
  }

  /** Both odd: the difference is even, and half of it will do. */
  lemma BothOdd(a: int, b: int, shifts: nat, x: int, y: int)
    requires Reduced(a, b, shifts, x, y) && a % 2 == 1 && b % 2 == 1
    ensures SameDivisors(Pow(2, shifts) * ((a - b) / 2), Pow(2, shifts) * b, x, y)
  {
    var k, h := Pow(2, shifts), (a - b) / 2;
    SubtractKeeps(k * a, k * b, 1, x, y);
    assert k * a - 1 * (k * b) == 2 * (k * h) by {
      Halved(k, a, b, h);
    }
    HalfKeeps(k, b, h, x, y);
    SwapKeeps(k * b, k * h, x, y);
  }

  lemma Halved(k: int, a: int, b: int, h: int)
    requires a - b == 2 * h
    ensures k * a - 1 * (k * b) == 2 * (k * h)
  {
    assert k * (a - b) == k * (2 * h);
  }

  /** One odd, the other even. */
  lemma OneEven(a: int, b: int, shifts: nat, x: int, y: int)
    requires SameDivisors(Pow(2, shifts) * a, Pow(2, shifts) * b, x, y) && a % 2 == 1 && b % 2 == 0
    ensures SameDivisors(Pow(2, shifts) * a, Pow(2, shifts) * (b / 2), x, y)
  {
    var k := Pow(2, shifts);
    Halved(k, b, 0, b / 2);
    HalfKeeps(k, a, b / 2, x, y);
  }

  /** Both even: a factor two goes to the count. */
  lemma BothEven(a: int, b: int, shifts: nat, x: int, y: int)
    requires Reduced(a, b, shifts, x, y) && a % 2 == 0 && b % 2 == 0
    ensures Reduced(a / 2, b / 2, shifts + 1, x, y)
  {
    Doubled(Pow(2, shifts), a);
    Doubled(Pow(2, shifts), b);
  }

  lemma Doubled(k: int, a: int)
    requires a % 2 == 0
    ensures 2 * k * (a / 2) == k * a
  {
    assert a == 2 * (a / 2);
  }

  /** euclid: the two numbers are worked on in place, and the object that ends up with the result is returned. */
  method Euclid(a0: BigNum, b0: BigNum, ghost x: int, ghost y: int) returns (a: BigNum)
    requires a0 != b0 && Normal(a0.d) && Normal(b0.d) && Reduced(a0.Value(), b0.Value(), 0, x, y)
    modifies a0, b0
    ensures (a == a0 || a == b0) && Normal(a.d) && IsGcd(a.Value(), x, y)
  {
    hide SameDivisors, Val, Pow, IsGcd;
    a := a0;
    var b := b0;
    var shifts := 0;
    while b.Value() != 0
      invariant (a == a0 && b == b0) || (a == b0 && b == a0)
      invariant Normal(a.d) && Normal(b.d)
      invariant Reduced(a.Value(), b.Value(), shifts, x, y)
      decreases a.Value() + b.Value()
    {
      a, b, shifts := Pass(a, b, shifts, x, y);
    }
    NothingLeft(a.Value(), shifts, x, y);
    a.Set(a.Value() * Pow(2, shifts));
  }

  lemma NothingLeft(a: int, shifts: nat, x: int, y: int)
    requires Reduced(a, 0, shifts, x, y)
    ensures IsGcd(a * Pow(2, shifts), x, y)
  {
    hide Pow;
    PowPositive(2, shifts);
    MulMonotone(0, a, Pow(2, shifts));
  }

  /** One round of the loop. */
  method Pass(a: BigNum, b: BigNum, shifts: nat, ghost x: int, ghost y: int)
    returns (a': BigNum, b': BigNum, shifts': nat)
    requires a != b && Normal(a.d) && Normal(b.d) && Reduced(a.Value(), b.Value(), shifts, x, y) && b.Value() != 0
    modifies a, b
    ensures (a', b') == (a, b) || (a', b') == (b, a)
    ensures Normal(a'.d) && Normal(b'.d) && Reduced(a'.Value(), b'.Value(), shifts', x, y)
    ensures 0 <= a'.Value() + b'.Value() < old(a.Value() + b.Value())
  {
    hide SameDivisors, Val, Pow;
    a', b', shifts' := a, b, shifts;
    if a.Value() % 2 == 1 {
      if b.Value() % 2 == 1 {
        BothOdd(a.Value(), b.Value(), shifts, x, y);
        a.Set(a.Value() - b.Value());
        a.Set(a.Value() / 2);
      } else {
        OneEven(a.Value(), b.Value(), shifts, x, y);
        b.Set(b.Value() / 2);
      }
    } else if b.Value() % 2 == 1 {
      SwapKeeps(Pow(2, shifts) * a.Value(), Pow(2, shifts) * b.Value(), x, y);
      OneEven(b.Value(), a.Value(), shifts, x, y);
      a.Set(a.Value() / 2);
      SwapKeeps(Pow(2, shifts) * b.Value(), Pow(2, shifts) * a.Value(), x, y);
    } else {
      BothEven(a.Value(), b.Value(), shifts, x, y);
      a.Set(a.Value() / 2);
      b.Set(b.Value() / 2);
      shifts' := shifts + 1;
      return;
    }
    Ordered(a.Value(), b.Value(), shifts, x, y);
    if a.Value() < b.Value() {
      a', b' := b, a;
    }
  }

  /** BN_gcd: the greatest common divisor, for operands of any sign, whichever of the objects are the same. */
  method BnGcd(r: BigNum, x: BigNum, y: BigNum)
    requires Normal(x.d) && Normal(y.d)
    modifies r
    ensures Normal(r.d) && IsGcd(r.Value(), old(x.Value()), old(y.Value()))
  {
    hide SameDivisors, Val, Pow;
    var a := new BigNum();
    var b := new BigNum();
    a.Copy(x);
    b.Copy(y);
    a.neg, b.neg := false, false;
    SignsDropped(x.Value(), a.Value(), y.Value(), b.Value());
    Ordered(a.Value(), b.Value(), 0, x.Value(), y.Value());
    if a.Value() < b.Value() {
      a, b := b, a;
    }
    var t := Euclid(a, b, x.Value(), y.Value());
    r.Copy(t);
  }

  lemma SignsDropped(x: int, a: int, y: int, b: int)
    requires (a == x || a == 0 - x) && (b == y || b == 0 - y)
    ensures SameDivisors(Pow(2, 0) * a, Pow(2, 0) * b, x, y)
  {
    forall d: nat
      ensures Divides(d, x) <==> Divides(d, a)
      ensures Divides(d, y) <==> Divides(d, b)
    {
      Negated(d, x);
      Negated(d, y);
    }
  }

  lemma Negated(d: nat, x: int)
    ensures Divides(d, x) <==> Divides(d, 0 - x)
  {
    if Divides(d, x) {
      DividesMultiple(d, x, -1);
    }
    if Divides(d, 0 - x) {
      DividesMultiple(d, 0 - x, -1);
    }
  }
}
