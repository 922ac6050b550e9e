/** BN_mod_inverse_ex and BN_mod_inverse_no_branch (crypto/bn/gcd.c). */
module ModularInverse {
  import opened Arith
  import opened Limbs
  import opened Congruence
  import opened BigNums
  import opened Gcd

  ghost predicate HasInverse(a: int, n: int)
    requires n > 0
  {
    exists r: int :: Cong(a * r, 1, n)
  }

  /** x*a is B and y*a is A modulo n, up to the alternating sign. */
  ghost predicate Tied(A: int, B: int, x: int, y: int, sign: int, a: int, n: int)
    requires n > 0
  {
    && (sign == 1 || sign == -1)
    && x >= 0 && y >= 0
    && Cong((0 - sign) * x * a, B, n)
    && Cong(sign * y * a, A, n)
  }

  lemma HalveCong(x: int, y: int, n: int)
    requires n > 0 && n % 2 == 1 && Cong(2 * x, 2 * y, n)
    ensures Cong(x, y, n)
  {
    var k := CongQuotient(2 * x, 2 * y, n);
    assert n * k == 2 * ((n / 2) * k) + k;
    assert n * k == 2 * (n * (k / 2)) by { assert k == 2 * (k / 2); }
    CongFromQuotient(x, y, n, k / 2);
  }

  /** Halving x modulo an odd n: add n first when x is odd. */
  lemma HalveTied(x: int, x': int, s: int, a: int, b: int, n: int)
    requires n > 0 && n % 2 == 1 && Cong(s * x * a, 2 * b, n)
    requires 2 * x' == if x % 2 == 1 then x + n else x
    ensures Cong(s * x' * a, b, n)
  {
    hide Cong;
    if x % 2 == 1 {
      assert s * (x + n) * a == s * x * a + n * (s * a);
      CongFromQuotient(s * (x + n) * a, s * x * a, n, s * a);
      CongTrans(s * (x + n) * a, s * x * a, 2 * b, n);
    }
    assert s * (2 * x') * a == 2 * (s * x' * a);
    HalveCong(s * x' * a, b, n);
  }

  /** With B gone, A is the greatest common divisor: it is 1 exactly when a has an inverse. */
  lemma GcdDecides(A: int, y: int, a: int, n: int)
    requires n > 0 && A > 0 && SameDivisors(A, 0, a, n) && Cong(y * a, A, n)
    ensures A == 1 <==> HasInverse(a, n)
    ensures A == 1 ==> Cong(a * y, 1, n)
  {
    assert a * y == y * a;
    if A == 1 {
      assert Cong(a * y, 1, n);
    } else {
      assert Divides(A, A) && Divides(A, 0);
      forall r: int | Cong(a * r, 1, n) ensures false {
        var k := CongQuotient(a * r, 1, n);
        assert Divides(A, a) && Divides(A, n);
        DividesLinear(A, 0, a, r);
        DividesLinear(A, r * a, n, 0 - k);
        assert r * a + (0 - k) * n == 1;
        OneHasNoDivisor(A);
      }
    }
  }

  lemma OneHasNoDivisor(A: nat)
    requires A > 1
    ensures !Divides(A, 1)
  {
  }

  /** An inverse exists exactly when the greatest common divisor, BN_gcd's answer, is 1. */
  lemma InverseIffCoprime(a: int, n: int, g: int)
    requires n > 0 && IsGcd(g, a, n)
    ensures HasInverse(a, n) <==> g == 1
  {
    hide SameDivisors, Cong;
    var x, y := Bezout(a % n, n);
    var h := x * (a % n) + y * n;
    CongMod(a, n);
    InitialState(a % n, a, n);
    SwapKeeps(n, a % n, a, n);
    SameTrans(h, a % n, n, a, n);
    GcdUnique(g, h, a, n);
    GcdPositive(g, a, n);
    MultipleOfResidue(a, n, x, y);
    GcdDecides(g, x, a, n);
  }

  lemma GcdPositive(g: int, a: int, n: int)
    requires n > 0 && IsGcd(g, a, n)
    ensures g > 0
  {
    if g == 0 {
      assert Divides(n + 1, 0);
    }
  }

  lemma MultipleOfResidue(a: int, n: int, x: int, y: int)
    requires n > 0
    ensures Cong(x * a, x * (a % n) + y * n, n)
  {
    CongRefl(x, n);
    CongMod(a, n);
    CongMul(x, x, a % n, a, n);
    AddMultiple(x * (a % n), y, n);
  }

  /** The inverse below n is unique. */
  lemma InverseUnique(a: int, n: int, r: int, t: int)
    requires n > 0 && 0 <= r < n && 0 <= t < n && Cong(a * r, 1, n) && Cong(a * t, 1, n)
    ensures r == t
  {
    CongResidues(r, t, n) by {
      hide Cong;
      CongRefl(t, n);
      CongMul(a * r, 1, t, t, n);
      CongRefl(r, n);
      CongMul(a * t, 1, r, r, n);
      assert (a * r) * t == (a * t) * r;
      CongSym((a * t) * r, 1 * r, n);
      CongTrans(r, (a * t) * r, t, n);
    }
  }

  lemma CongResidues(r: int, t: int, n: int)
    requires n > 0 && 0 <= r < n && 0 <= t < n && Cong(r, t, n)
    ensures r == t
  {
  }

  // ---------------------------------------------------------------- Euclid's algorithm

  /** One division step with (X, Y, sign) := (Y + D*X, X, -sign). */
  lemma EuclidStep(A: int, B: int, x: int, y: int, sign: int, D: int, a: int, n: int)
    requires n > 0 && Tied(A, B, x, y, sign, a, n) && D >= 0
    ensures Tied(B, A - D * B, D * x + y, x, 0 - sign, a, n)
  {
    hide Cong;
    CongRefl(D, n);
    CongMul((0 - sign) * x * a, B, D, D, n);
    CongAdd(sign * y * a, A, ((0 - sign) * x * a) * D, B * D, n);
    MulMonotone(0, D, x);
    EuclidStepArith(x, y, sign, D, a);
    assert B * D == D * B;
  }

  /** The unsigned cofactors of the plain algorithm: they never outgrow n. */
  predicate Bounded(A: int, B: int, x: int, y: int, n: int) {
    A * x + B * y == n && 0 <= y <= x
  }

  lemma BoundedStep(A: int, B: int, x: int, y: int, D: int, n: int)
    requires Bounded(A, B, x, y, n) && D > 0
    ensures Bounded(B, A - D * B, D * x + y, x, n)
  {
  }

  lemma BoundedEnd(A: int, x: int, y: int, n: int)
    requires Bounded(A, 0, x, y, n) && A > 0
    ensures y <= n
  {
  }

  lemma EuclidStepArith(x: int, y: int, s: int, D: int, a: int)
    ensures s * y * a - ((0 - s) * x * a) * D == (0 - (0 - s)) * (D * x + y) * a
  {
  }

  /** What the plain algorithm ends with: the greatest common divisor, its unsigned cofactor and the sign. */
  function EuclidResult(A: nat, B: nat, x: nat, y: nat, sign: int): (nat, nat, int)
    decreases B
  {
    if B == 0 then (A, y, sign) else EuclidResult(B, A % B, (A / B) * x + y, x, 0 - sign)
  }

  /** Equal bit lengths mean a quotient of one; one more bit means one, two or three. */
  lemma ShortQuotient(A: nat, B: nat)
    requires 0 < B <= A
    ensures NumBits(A) == NumBits(B) ==> A < 2 * B
    ensures NumBits(A) == NumBits(B) + 1 ==> A < 4 * B
  {
    NumBitsBounds(A);
    NumBitsBounds(B);
    assert Pow(2, NumBits(B)) == 2 * Pow(2, NumBits(B) - 1);
    assert Pow(2, NumBits(B) + 1) == 2 * Pow(2, NumBits(B));
  }

  /** (D, M) := (A / B, A % B) of the general branch, with the shortcuts for small quotients. */
  method DivideStep(D: BigNum, M: BigNum, T: BigNum, A: BigNum, B: BigNum, shortcuts: bool)
    requires D != M && D != T && M != T && A !in {D, M, T} && B !in {D, M, T}
    requires Normal(A.d) && Normal(B.d) && 0 < B.Value() <= A.Value()
    modifies D, M, T
    ensures A.Value() == D.Value() * B.Value() + M.Value() && 0 <= M.Value() < B.Value() && D.Value() > 0
    ensures Normal(D.d) && Normal(M.d)
  {
    hide NumBits, Val;
    ShortQuotient(A.Value(), B.Value());
    var bitsA, bitsB := NumBits(A.Value()), NumBits(B.Value());
    if shortcuts && bitsA == bitsB {
      D.Set(1);
      M.Set(A.Value() - B.Value());
    } else if shortcuts && bitsA == bitsB + 1 {
      SmallQuotient(D, M, T, A, B);
    } else {
      LongQuotient(D, M, A, B, !shortcuts);
    }
  }

  /** The quotient is one, two or three. */
  method SmallQuotient(D: BigNum, M: BigNum, T: BigNum, A: BigNum, B: BigNum)
    requires D != M && D != T && M != T && A !in {D, M, T} && B !in {D, M, T}
    requires 0 < B.Value() <= A.Value() < 4 * B.Value()
    modifies D, M, T
    ensures A.Value() == D.Value() * B.Value() + M.Value() && 0 <= M.Value() < B.Value() && D.Value() > 0
    ensures Normal(D.d) && Normal(M.d)
  {
    hide Val;
    T.Set(2 * B.Value());
    if A.Value() < T.Value() {
      D.Set(1);
      M.Set(A.Value() - B.Value());
    } else {
      M.Set(A.Value() - T.Value());
      D.Set(T.Value() + B.Value());
      if A.Value() < D.Value() {
        D.Set(2);
      } else {
        D.Set(3);
        M.Set(M.Value() - B.Value());
      }
    }
  }

  method LongQuotient(D: BigNum, M: BigNum, A: BigNum, B: BigNum, flagged: bool)
    requires D != M && A !in {D, M} && B !in {D, M}
    requires Normal(A.d) && Normal(B.d) && 0 < B.Value() <= A.Value()
    modifies D, M
    ensures A.Value() == D.Value() * B.Value() + M.Value() && 0 <= M.Value() < B.Value() && D.Value() > 0
    ensures Normal(D.d) && Normal(M.d)
  {
    hide Val, TDiv, TRem;
    ZeroIsEmpty(B.d);
    var pA := new BigNum();
    pA.Copy(A);
    pA.constTime := flagged;
    var ok := Div(D, M, pA, B);
    PositiveQuotient(A.Value(), B.Value());
  }

  lemma PositiveQuotient(x: int, y: int)
    requires 0 < y <= x
    ensures TDiv(x, y) > 0 && x == TDiv(x, y) * y + TRem(x, y) && 0 <= TRem(x, y) < y
  {
  }

  predicate Distinct(A: BigNum, B: BigNum, X: BigNum, D: BigNum, M: BigNum, Y: BigNum, T: BigNum) {
    && A != B && A != X && A != D && A != M && A != Y && A != T
    && B != X && B != D && B != M && B != Y && B != T
    && X != D && X != M && X != Y && X != T
    && D != M && D != Y && D != T
    && M != Y && M != T
    && Y != T
  }

  /** tmp := D*X + Y, with the addition alone when D is one. */
  method Combine(tmp: BigNum, D: BigNum, X: BigNum, Y: BigNum)
    requires tmp != D && tmp != X && tmp != Y
    modifies tmp
    ensures Normal(tmp.d) && tmp.Value() == D.Value() * X.Value() + Y.Value()
  {
    if D.Value() == 1 {
      tmp.Set(X.Value() + Y.Value());
    } else {
      tmp.Set(D.Value() * X.Value());
      tmp.Set(tmp.Value() + Y.Value());
    }
  }

  /** What the loops keep, in terms of the numbers held by the objects in their current roles. */
  ghost predicate Euclidean(A: BigNum, B: BigNum, X: BigNum, Y: BigNum, sign: int, a: int, n: nat)
    requires n > 0
    reads A, B, X, Y
  {
    && Normal(A.d) && Normal(B.d)
    && 0 <= B.Value() <= A.Value() && 0 < A.Value()
    && SameDivisors(A.Value(), B.Value(), a, n)
    && Tied(A.Value(), B.Value(), X.Value(), Y.Value(), sign, a, n)
    && Bounded(A.Value(), B.Value(), X.Value(), Y.Value(), n)
  }

  /** What the algorithm will end with from here. */
  ghost function Ahead(A: BigNum, B: BigNum, X: BigNum, Y: BigNum, sign: int): (nat, nat, int)
    reads A, B, X, Y
  {
    if A.Value() >= 0 && B.Value() >= 0 && X.Value() >= 0 && Y.Value() >= 0
    then EuclidResult(A.Value(), B.Value(), X.Value(), Y.Value(), sign) else (0, 0, 0)
  }

  lemma AheadStep(A: nat, B: nat, x: nat, y: nat, sign: int, D: nat, M: nat)
    requires B > 0 && A == D * B + M && M < B
    ensures 0 <= D * x && EuclidResult(A, B, x, y, sign) == EuclidResult(B, M, D * x + y, x, 0 - sign)
  {
    MulMonotone(0, D, x);
    EuclidUnique(A, B, D, M);
  }

  /** One pass: the old A receives the new X, and the objects change roles. */
  method EuclidPass(A: BigNum, B: BigNum, X: BigNum, D: BigNum, M: BigNum, Y: BigNum, T: BigNum, sign: int,
                    shortcuts: bool, ghost a: int, ghost n: nat)
    returns (A': BigNum, B': BigNum, X': BigNum, M': BigNum, Y': BigNum, sign': int)
    requires n > 0 && Distinct(A, B, X, D, M, Y, T) && Euclidean(A, B, X, Y, sign, a, n) && B.Value() != 0
    modifies A, D, M, T
    ensures A' == B && B' == M && X' == A && M' == Y && Y' == X
    ensures Distinct(A', B', X', D, M', Y', T)
    ensures sign' == 0 - sign && Euclidean(A', B', X', Y', sign', a, n) && 0 <= B'.Value() < old(B.Value())
    ensures Ahead(A', B', X', Y', sign') == old(Ahead(A, B, X, Y, sign))
  {
    hide Cong, SameDivisors, Val, Bounded, EuclidResult;
    DivideStep(D, M, T, A, B, shortcuts);
    AheadStep(A.Value(), B.Value(), X.Value(), Y.Value(), sign, D.Value(), M.Value());
    BoundedStep(A.Value(), B.Value(), X.Value(), Y.Value(), D.Value(), n);
    SubtractKeeps(A.Value(), B.Value(), D.Value(), a, n);
    EuclidStep(A.Value(), B.Value(), X.Value(), Y.Value(), sign, D.Value(), a, n);
    var tmp := A;
    A' := B;
    B' := M;
    Combine(tmp, D, X, Y);
    M' := Y;
    Y' := X;
    X' := tmp;
    sign' := 0 - sign;
  }

  /** The general loop (lines 375-500) and, without the shortcuts, the loop of BN_mod_inverse_no_branch
      (lines 606-669). */
  method EuclidLoop(b0: nat, n: nat, shortcuts: bool, ghost a: int) returns (g: nat, y: nat, sign: int)
    requires 0 < n && b0 <= n && SameDivisors(n, b0, a, n) && Tied(n, b0, 1, 0, -1, a, n)
    ensures g > 0 && SameDivisors(g, 0, a, n) && Tied(g, 0, 0, y, sign, a, n) && y <= n
    ensures (g, y, sign) == EuclidResult(n, b0, 1, 0, -1)
  {
    hide Cong, SameDivisors, Tied, Val, Distinct, Euclidean, EuclidResult;
    var A := new BigNum();
    var B := new BigNum();
    var X := new BigNum();
    var D := new BigNum();
    var M := new BigNum();
    var Y := new BigNum();
    var T := new BigNum();
    Y.Set(0);
    X.Set(1);
    B.Set(b0);
    A.Set(n);
    sign := -1;
    assert Distinct(A, B, X, D, M, Y, T) by { AllDifferent(A, B, X, D, M, Y, T); }
    EuclidStart(A, B, X, Y, b0, a, n);
    while B.Value() != 0
      invariant fresh(A) && fresh(B) && fresh(X) && fresh(D) && fresh(M) && fresh(Y) && fresh(T)
      invariant Distinct(A, B, X, D, M, Y, T) && Euclidean(A, B, X, Y, sign, a, n) && 0 <= B.Value()
      invariant Ahead(A, B, X, Y, sign) == EuclidResult(n, b0, 1, 0, -1)
      decreases B.Value()
    {
      A, B, X, M, Y, sign := EuclidPass(A, B, X, D, M, Y, T, sign, shortcuts, a, n);
    }
    EuclidEnd(A, B, X, Y, sign, a, n);
    AheadEnd(A, B, X, Y, sign, a, n);
    g, y := A.Value(), Y.Value();
  }

  lemma AllDifferent(A: BigNum, B: BigNum, X: BigNum, D: BigNum, M: BigNum, Y: BigNum, T: BigNum)
    requires A !in {B, X, D, M, Y, T} && B !in {X, D, M, Y, T} && X !in {D, M, Y, T}
    requires D !in {M, Y, T} && M !in {Y, T} && Y != T
    ensures Distinct(A, B, X, D, M, Y, T)
  {
  }

  lemma EuclidStart(A: BigNum, B: BigNum, X: BigNum, Y: BigNum, b0: nat, a: int, n: nat)
    requires 0 < n && b0 <= n && SameDivisors(n, b0, a, n) && Tied(n, b0, 1, 0, -1, a, n)
    requires Normal(A.d) && Normal(B.d) && A.Value() == n && B.Value() == b0 && X.Value() == 1 && Y.Value() == 0
    ensures Euclidean(A, B, X, Y, -1, a, n)
  {
  }

  lemma EuclidEnd(A: BigNum, B: BigNum, X: BigNum, Y: BigNum, sign: int, a: int, n: nat)
    requires 0 < n && Euclidean(A, B, X, Y, sign, a, n) && B.Value() == 0
    ensures A.Value() > 0 && SameDivisors(A.Value(), 0, a, n)
    ensures 0 <= Y.Value() <= n && Tied(A.Value(), 0, 0, Y.Value(), sign, a, n)
  {
    hide Cong, SameDivisors;
    BoundedEnd(A.Value(), X.Value(), Y.Value(), n);
    assert (0 - sign) * 0 * a == 0;
    CongRefl(0, n);
  }

  lemma AheadEnd(A: BigNum, B: BigNum, X: BigNum, Y: BigNum, sign: int, a: int, n: nat)
    requires 0 < n && Euclidean(A, B, X, Y, sign, a, n) && B.Value() == 0
    ensures A.Value() >= 0 && Y.Value() >= 0 && Ahead(A, B, X, Y, sign) == (A.Value(), Y.Value(), sign)
  {
    hide SameDivisors, Cong, Bounded;
  }

  // ---------------------------------------------------------------- the binary algorithm

  /** v without its factors two, and x divided by as many twos modulo the odd n. */
  function Stripped(v: nat, x: nat, n: nat): (r: (nat, nat))
    requires v > 0
    ensures 0 < r.0 <= v && r.0 % 2 == 1
  {
    if v % 2 == 1 then (v, x) else Stripped(v / 2, (if x % 2 == 1 then x + n else x) / 2, n)
  }

  /** One pass of the binary loop on A, B and their unsigned cofactors y, x. */
  function BinaryPass(A: nat, B: nat, x: nat, y: nat, n: nat): (r: (nat, nat, nat, nat))
    requires A > 0 && B > 0
    ensures r.0 > 0 && r.0 + r.1 < A + B
  {
    var (b, u) := Stripped(B, x, n);
    var (c, v) := Stripped(A, y, n);
    if b >= c then (c, b - c, u + v, v) else (c - b, b, u, v + u)
  }

  /** What the binary algorithm ends with: the greatest common divisor and its unsigned cofactor. */
  function BinaryResult(A: nat, B: nat, x: nat, y: nat, n: nat): (nat, nat)
    requires A > 0
    decreases A + B
  {
    if B == 0 then (A, y)
    else
      var r := BinaryPass(A, B, x, y, n);
      BinaryResult(r.0, r.1, r.2, r.3, n)
  }

  /** Divides v by its largest power of two and x by the same power modulo the odd n. */
  method StripTwos(v: nat, other: nat, x0: nat, n: nat, ghost s: int, ghost a: int) returns (w: nat, x: nat)
    requires v > 0 && n % 2 == 1 && (v % 2 == 1 || other % 2 == 1)
    requires SameDivisors(other, v, a, n) && Cong(s * x0 * a, v, n)
    ensures w % 2 == 1 && 0 < w <= v && SameDivisors(other, w, a, n) && Cong(s * x * a, w, n)
    ensures (w, x) == Stripped(v, x0, n)
  {
    hide Cong, SameDivisors, Stripped;
    x := x0;
    var shift := 0;
    while !Bit(v, shift)
      invariant 0 < Sh(v, shift) <= v && (shift > 0 ==> v % 2 == 0)
      invariant SameDivisors(other, Sh(v, shift), a, n) && Cong(s * x * a, Sh(v, shift), n)
      invariant Stripped(Sh(v, shift), x, n) == Stripped(v, x0, n)
      decreases Sh(v, shift)
    {
      ShiftDown(v, shift);
      ghost var half := Sh(v, shift + 1);
      HalfKeeps(1, other, half, a, n);
      shift := shift + 1;
      ghost var was := x;
      if x % 2 == 1 {
        x := x + n;
      }
      x := x / 2;
      HalveTied(was, x, s, a, half, n);
      StripHalf(half, was, n);
    }
    w := Sh(v, shift);
    StripNothing(w, x, n);
  }

  lemma StripHalf(half: nat, x: nat, n: nat)
    requires half > 0
    ensures Stripped(2 * half, x, n) == Stripped(half, (if x % 2 == 1 then x + n else x) / 2, n)
  {
  }

  lemma StripNothing(v: nat, x: nat, n: nat)
    requires v % 2 == 1
    ensures Stripped(v, x, n) == (v, x)
  {
  }

  /** The binary loop (lines 289-371); the sign stays -1, so X*a is B and -Y*a is A. */
  method BinaryLoop(b0: nat, n: nat, ghost a: int) returns (g: nat, y: nat)
    requires n % 2 == 1 && b0 <= n && SameDivisors(n, b0, a, n) && Tied(n, b0, 1, 0, -1, a, n)
    ensures g > 0 && SameDivisors(g, 0, a, n) && Cong(-1 * y * a, g, n)
    ensures (g, y) == BinaryResult(n, b0, 1, 0, n)
  {
    hide Cong, SameDivisors, Stripped;
    var A, B, X: nat, Y: nat := n, b0, 1, 0;
    while B != 0
      invariant 0 <= A && 0 <= B && A > 0 && (A % 2 == 1 || B % 2 == 1)
      invariant SameDivisors(A, B, a, n)
      invariant Cong(1 * X * a, B, n) && Cong(-1 * Y * a, A, n)
      invariant BinaryResult(A, B, X, Y, n) == BinaryResult(n, b0, 1, 0, n)
      decreases A + B
    {
      ghost var sum := A + B;
      B, X := StripTwos(B, A, X, n, 1, a);
      SwapKeeps(A, B, a, n);
      A, Y := StripTwos(A, B, Y, n, -1, a);
      SwapKeeps(B, A, a, n);
      CrossSum(X, Y, a, A, B, n);
      if B >= A {
        SubtractKeeps(B, A, 1, a, n) by { SwapKeeps(A, B, a, n); }
        X := X + Y;
        B := B - A;
      } else {
        SubtractKeeps(A, B, 1, a, n);
        Y := Y + X;
        A := A - B;
      }
    }
    g, y := A, Y;
  }

  lemma CrossSum(x: int, y: int, a: int, A: int, B: int, n: int)
    requires n > 0 && Cong(1 * x * a, B, n) && Cong(-1 * y * a, A, n)
    ensures Cong(1 * (x + y) * a, B - A, n) && Cong(-1 * (y + x) * a, A - B, n)
  {
    hide Cong;
    CongAdd(1 * x * a, B, -1 * y * a, A, n);
    CongAdd(-1 * y * a, A, 1 * x * a, B, n);
    assert 1 * x * a - -1 * y * a == 1 * (x + y) * a;
    assert -1 * y * a - 1 * x * a == -1 * (y + x) * a;
  }

  // ---------------------------------------------------------------- the entry point

  /** Lines 509-514: from sign*Y*a = A to Y*a = A. */
  lemma FixSign(y: int, sign: int, n0: int, a: int, g: int)
    requires n0 != 0 && (sign == 1 || sign == -1) && Cong(sign * y * a, g, Arith.Abs(n0))
    ensures Cong((if sign < 0 then n0 - y else y) * a, g, Arith.Abs(n0))
  {
    hide Cong;
    var n := Arith.Abs(n0);
    if sign < 0 {
      var k := if n0 < 0 then 0 - a else a;
      assert (n0 - y) * a == -1 * y * a + n0 * a;
      assert n0 * a == n * k by { assert (0 - n0) * (0 - a) == n0 * a; }
      CongFromQuotient((n0 - y) * a, -1 * y * a, n, k);
      CongTrans((n0 - y) * a, -1 * y * a, g, n);
    }
  }

  lemma InitialState(b: int, a: int, n: int)
    requires n > 0 && Cong(b, a, n)
    ensures SameDivisors(n, b, a, n) && Tied(n, b, 1, 0, -1, a, n)
  {
    var k := CongQuotient(b, a, n);
    CongFromQuotient(1 * 1 * a, b, n, 0 - k) by { assert n * (0 - k) == 0 - n * k; }
    CongFromQuotient(-1 * 0 * a, n, n, -1);
    forall d: nat
      ensures Divides(d, n) && Divides(d, b) <==> Divides(d, a) && Divides(d, n)
    {
      if Divides(d, n) && Divides(d, b) {
        DividesLinear(d, b, n, 0 - k);
        assert (0 - k) * n == 0 - n * k;
      }
      if Divides(d, n) && Divides(d, a) {
        DividesLinear(d, a, n, k);
        assert k * n == n * k;
      }
    }
  }

  /** B = a mod |n|; in the branch-free variant the division is flagged (lines 269-273, 588-597). */
  method ReduceBase(a: BigNum, A: BigNum, noBranch: bool) returns (ok: bool, b: nat)
    requires Normal(a.d) && Normal(A.d) && !A.neg && !A.constTime
    ensures ok <==> Val(A.d) != 0
    ensures ok ==> b <= Val(A.d) && Cong(b, a.Value(), Val(A.d))
    ensures ok ==> b == a.Value() % Val(A.d) || (a.Value() == 0 && b == Val(A.d))
  {
    hide Val;
    var B := new BigNum();
    B.Copy(a);
    ghost var v, n := a.Value(), Val(A.d);
    ZeroIsEmpty(A.d);
    ZeroIsEmpty(B.d);
    if B.neg || Val(B.d) >= Val(A.d) {
      var pB := new BigNum();
      pB.Copy(a);
      pB.constTime := noBranch;
      ok := NNMod(B, pB, A);
      if !ok {
        return false, 0;
      }
      ReducedCong(v, n, B.Value());
    } else {
      ReducedCong(v, n, B.Value());
    }
    return true, B.Value();
  }

  lemma ReducedCong(v: int, n: int, b: int)
    requires n > 0 && (b == v % n || (b == v && 0 <= v < n) || (v == 0 && b == n))
    ensures 0 <= b <= n && Cong(b, v, n) && (b == v % n || (v == 0 && b == n))
  {
  }

  /** The algorithm is chosen by the flags, the parity and the size of the modulus. */
  predicate UsesBinary(n: nat, noBranch: bool) {
    !noBranch && n % 2 == 1 && NumBits(n) <= 2048
  }

  /** The Y that the run ends with, after lines 509-514. */
  function Cofactor(b: nat, n0: int, noBranch: bool): int
    requires n0 != 0
  {
    var n := Arith.Abs(n0);
    if UsesBinary(n, noBranch) then n0 - BinaryResult(n, b, 1, 0, n).1
    else
      var (g, y, sign) := EuclidResult(n, b, 1, 0, -1);
      if sign < 0 then n0 - y else y
  }

  method RunInversion(b: nat, n0: int, noBranch: bool, ghost a: int) returns (g: nat, y: int)
    requires n0 != 0 && b <= Arith.Abs(n0) && Cong(b, a, Arith.Abs(n0))
    ensures g > 0 && SameDivisors(g, 0, a, Arith.Abs(n0)) && Cong(y * a, g, Arith.Abs(n0))
    ensures y == Cofactor(b, n0, noBranch)
  {
    hide Cong, SameDivisors, NumBits, EuclidResult, BinaryResult;
    var n := Arith.Abs(n0);
    InitialState(b, a, n);
    var sign;
    if UsesBinary(n, noBranch) {
      g, y := BinaryLoop(b, n, a);
      sign := -1;
    } else {
      g, y, sign := EuclidLoop(b, n, !noBranch, a);
    }
    FixSign(y, sign, n0, a, g);
    if sign < 0 {
      y := n0 - y;
    }
  }

  /** BN_mod_inverse_ex: it succeeds exactly when an inverse exists, and what is returned is the unique one below
      |n|, unless the result is written over n itself and the run on these inputs ends with a negative cofactor;
      then the closing BN_nnmod reads its own output and leaves 0. */
  method ModInverseEx(out: BigNum, a: BigNum, n: BigNum) returns (ok: bool, noInverse: bool)
    requires Normal(a.d) && Normal(n.d)
    modifies out
    ensures old(n.Value()) == 0 ==> !ok && !noInverse
    ensures old(n.Value()) != 0 ==> Arith.Abs(old(n.Value())) > 0
    ensures old(n.Value()) != 0 ==> (ok <==> HasInverse(old(a.Value()), Arith.Abs(old(n.Value())))) && noInverse == !ok
    ensures !ok ==> unchanged(out)
    ensures ok ==> 0 <= out.Value() < Arith.Abs(old(n.Value())) && Normal(out.d)
    ensures ok ==> (Cong(old(a.Value()) * out.Value(), 1, Arith.Abs(old(n.Value()))) <==>
                    !(out == n && SpoilsModulus(old(a.Value()), old(n.Value()), old(a.constTime || n.constTime))))
    ensures (ok && out == n && SpoilsModulus(old(a.Value()), old(n.Value()), old(a.constTime || n.constTime))) ==>
              out.Value() == 0
  {
    hide Cong, SameDivisors, Val, HasInverse, UsesBinary, Cofactor, SpoilsModulus, NumBits;
    var noBranch := a.constTime || n.constTime;
    ghost var va, vn := a.Value(), n.Value();
    var A := new BigNum();
    A.Copy(n);
    A.neg := false;
    var ok1, b := ReduceBase(a, A, noBranch);
    if !ok1 {
      return false, false;
    }
    var g, y := RunInversion(b, n.Value(), noBranch, va);
    GcdDecides(g, y, va, Arith.Abs(vn));
    if g != 1 {
      return false, true;
    }
    StoreInverse(out, y, n);
    InverseOutcome(va, vn, noBranch, b, y, out.Value(), out == n);
    return true, false;
  }

  /** What the last lines make of the cofactor y that the run on b ends with. */
  lemma InverseOutcome(a: int, n: int, noBranch: bool, b: nat, y: int, r: int, aliased: bool)
    requires n != 0 && y == Cofactor(b, n, noBranch) && Cong(a * y, 1, Arith.Abs(n))
    requires b == a % Arith.Abs(n) || (a == 0 && b == Arith.Abs(n))
    requires r == if aliased && y < 0 then 0 else y % Arith.Abs(n)
    ensures 0 <= r < Arith.Abs(n)
    ensures Cong(a * r, 1, Arith.Abs(n)) <==> !(aliased && SpoilsModulus(a, n, noBranch))
    ensures aliased && SpoilsModulus(a, n, noBranch) ==> r == 0
  {
    hide Cofactor;
    var m := Arith.Abs(n);
    InverseResidue(a, y, m);
    CofactorResidue(a, y, m);
    if a == 0 {
      ZeroHasNone(y, m);
    }
  }

  lemma ZeroHasNone(y: int, n: int)
    requires n > 0 && Cong(0 * y, 1, n)
    ensures n == 1
  {
  }

  /** The run ends with a negative cofactor, for a modulus other than 1 and -1. */
  predicate SpoilsModulus(a: int, n: int, noBranch: bool)
    requires n != 0
  {
    Arith.Abs(n) > 1 && Cofactor(a % Arith.Abs(n), n, noBranch) < 0
  }

  /** How many divisions the plain algorithm makes. */
  function Divisions(A: nat, B: nat): nat
    decreases B
  {
    if B == 0 then 0 else 1 + Divisions(B, A % B)
  }

  /** When that happens: for a positive n only in the binary branch; for a negative n always in the binary branch,
      and in the other one exactly after an even number of divisions. */
  lemma SpoilsWhen(a: int, n: int, noBranch: bool)
    requires n != 0
    ensures n > 0 && !UsesBinary(n, noBranch) ==> !SpoilsModulus(a, n, noBranch)
    ensures n < -1 && UsesBinary(0 - n, noBranch) ==> SpoilsModulus(a, n, noBranch)
    ensures n < -1 && !UsesBinary(0 - n, noBranch) ==>
              (SpoilsModulus(a, n, noBranch) <==> Divisions(0 - n, a % (0 - n)) % 2 == 0)
  {
    hide UsesBinary, BinaryResult;
    var m := Arith.Abs(n);
    EuclidFacts(m, a % m, 1, 0, -1, m);
  }

  lemma {:induction false} EuclidFacts(A: nat, B: nat, x: nat, y: nat, sign: int, n: int)
    requires B <= A && A > 0 && Bounded(A, B, x, y, n)
    ensures EuclidResult(A, B, x, y, sign).1 <= n
    ensures EuclidResult(A, B, x, y, sign).2 == if Divisions(A, B) % 2 == 0 then sign else 0 - sign
    decreases B
  {
    if B == 0 {
      BoundedEnd(A, x, y, n);
    } else {
      hide EuclidResult, Bounded;
      var D, M := A / B, A % B;
      DivMod(A, B);
      assert D > 0;
      AheadStep(A, B, x, y, sign, D, M);
      BoundedStep(A, B, x, y, D, n);
      EuclidFacts(B, M, D * x + y, x, 0 - sign, n);
    }
  }

  lemma RunOnEleven()
    ensures SpoilsModulus(5, 11, false)
  {
    hide BinaryPass;
    assert NumBits(11) == 4;
    PassesOnEleven();
    assert BinaryResult(2, 1, 9, 15, 11) == (1, 13);
    assert BinaryResult(3, 2, 7, 6, 11) == (1, 13);
    assert BinaryResult(6, 5, 1, 1, 11) == (1, 13);
    assert BinaryResult(11, 5, 1, 0, 11) == (1, 13);
  }

  lemma PassesOnEleven()
    ensures BinaryPass(11, 5, 1, 0, 11) == (6, 5, 1, 1) && BinaryPass(6, 5, 1, 1, 11) == (3, 2, 7, 6)
    ensures BinaryPass(3, 2, 7, 6, 11) == (2, 1, 9, 15) && BinaryPass(2, 1, 9, 15, 11) == (1, 0, 22, 13)
  {
    assert Stripped(6, 1, 11) == (3, 6) && Stripped(2, 7, 11) == (1, 9) && Stripped(2, 15, 11) == (1, 13);
  }

  /** 5 * 9 is 1 modulo 11, but written over the 11 the inverse of 5 comes out as 0. */
  method AliasedInverse() returns (ok: bool, noInverse: bool, r: int)
    ensures ok && !noInverse && r == 0 && Cong(5 * 9, 1, 11) && !Cong(5 * r, 1, 11)
  {
    var a := new BigNum();
    var n := new BigNum();
    a.Set(5);
    n.Set(11);
    assert HasInverse(5, 11) by {
      assert Cong(5 * 9, 1, 11);
    }
    RunOnEleven();
    ok, noInverse := ModInverseEx(n, a, n);
    r := n.Value();
  }

  /** The end of the function: the cofactor as it is, or reduced by BN_nnmod. */
  method StoreInverse(out: BigNum, y: int, n: BigNum)
    requires Normal(n.d) && n.Value() != 0
    modifies out
    ensures Normal(out.d) && Arith.Abs(old(n.Value())) > 0
    ensures out.Value() ==
            if out == n && y < 0 then 0 else y % Arith.Abs(old(n.Value()))
  {
    hide Val;
    ghost var m := Arith.Abs(n.Value());
    var Y := new BigNum();
    Y.Set(y);
    ZeroIsEmpty(n.d);
    if !Y.neg && Val(Y.d) < Val(n.d) {
      EuclidUnique(y, m, 0, y);
      out.Copy(Y);
    } else {
      var ok := NNMod(out, Y, n);
    }
  }

  lemma CofactorResidue(a: int, y: int, n: int)
    requires n > 0 && Cong(a * y, 1, n)
    ensures Cong(a * 0, 1, n) <==> n == 1
    ensures n == 1 ==> y % n == 0
  {
  }

  lemma InverseResidue(a: int, y: int, n: int)
    requires n > 0 && Cong(a * y, 1, n)
    ensures Cong(a * (y % n), 1, n) && 0 <= y % n < n
    ensures 0 <= y < n ==> y % n == y
  {
    hide Cong;
    CongMod(y, n);
    CongRefl(a, n);
    CongMul(a, a, y % n, y, n);
    CongTrans(a * (y % n), a * y, 1, n);
    if 0 <= y < n {
      EuclidUnique(y, n, 0, y);
    }
  }
}
