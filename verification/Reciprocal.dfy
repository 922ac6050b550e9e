/** BN_RECP_CTX: division by a fixed number through a cached reciprocal (crypto/bn/exponentiation.c). */
module Reciprocal {
  import opened Arith
  import opened Congruence

  /** With m = A*P + a, P*Q = R*N + s and A*R = d*Q + t, the trial quotient d misses m by a sum of
      three small parts. */
  lemma TrialError(m: int, N: int, P: int, Q: int, A: int, a: int, R: int, s: int, d: int, t: int)
    requires m == A * P + a && P * Q == R * N + s && A * R == d * Q + t
    ensures Q * (m - d * N) == N * t + A * s + a * Q
  {
  }

  lemma ProductBelow(x: int, y: int, X: int, Y: int)
    requires 0 <= x < X && 0 <= y <= Y && 0 < Y
    ensures 0 <= x * y < X * Y
  {
  }

  lemma SmallParts(N: int, P: int, Q: int, A: int, a: int, s: int, t: int, e: int)
    requires N > 0 && Q > 0 && P <= 2 * N && 0 <= A < Q && 0 <= a < P && 0 <= s < N && 0 <= t < Q
    requires Q * e == N * t + A * s + a * Q
    ensures 0 <= e < 4 * N
  {
    ProductBelow(t, N, Q, N);
    ProductBelow(A, s, Q, N);
    ProductBelow(a, Q, 2 * N, Q);
    ScaledRange(Q, N, e);
  }

  lemma ScaledRange(Q: int, N: int, e: int)
    requires Q > 0 && 0 <= Q * e < 4 * (Q * N)
    ensures 0 <= e < 4 * N
  {
  }

  /** Shift down by P, multiply by the reciprocal R, shift down by Q. */
  function Trial(m: nat, R: nat, P: nat, Q: nat): nat
    requires P > 0 && Q > 0
  {
    ProductBelow(m / P, R, m / P + 1, R + 1);
    ((m / P) * R) / Q
  }

  /** The trial quotient never exceeds floor(m / N) and is at most 3 below it. */
  lemma TrialQuotient(m: nat, N: nat, k: nat, i: nat, R: nat)
    requires N > 0 && k == NumBits(N) && k <= i && m < Pow(2, i) && R == Pow(2, i) / N
    ensures Pow(2, k) > 0 && Pow(2, i - k) > 0
    ensures var d := Trial(m, R, Pow(2, k), Pow(2, i - k)); d * N <= m < (d + 4) * N
  {
    hide Pow, NumBits;
    NumBitsBounds(N);
    PowPositive(2, k);
    PowPositive(2, i - k);
    PowAdd(2, k, i - k);
    PowAdd(2, 1, k - 1);
    assert Pow(2, 1) == 2 by {
      TwoOnce();
    }
    TrialParts(m, N, Pow(2, k), Pow(2, i - k));
  }

  lemma TwoOnce()
    ensures Pow(2, 1) == 2
  {
  }

  lemma TrialParts(m: int, N: int, P: int, Q: int)
    requires 0 < N < P <= 2 * N && Q > 0 && 0 <= m < P * Q
    ensures var d := ((m / P) * ((P * Q) / N)) / Q; d * N <= m < (d + 4) * N
  {
    var A, R := m / P, (P * Q) / N;
    DivMod(m, P);
    DivMod(P * Q, N);
    DivMod(A * R, Q);
    var d := (A * R) / Q;
    Below(A, m, P, Q);
    TrialError(m, N, P, Q, A, m % P, R, (P * Q) % N, d, (A * R) % Q);
    SmallParts(N, P, Q, A, m % P, (P * Q) % N, (A * R) % Q, m - d * N);
    MoreOf(d, N);
  }

  lemma Below(A: int, m: int, P: int, Q: int)
    requires P > 0 && A * P <= m < P * Q
    ensures A < Q
  {
  }

  lemma MoreOf(d: int, N: int)
    ensures (d + 4) * N == d * N + 4 * N
  {
  }

  class RecpCtx {
    var N: int
    var Nr: int
    var numBits: nat
    var shift: int

    /** Whenever shift is set, Nr is the exact reciprocal for it; -1 marks a failed computation. */
    ghost predicate Valid()
      reads this
    {
      && N != 0
      && numBits == NumBits(Abs(N))
      && shift >= -1
      && (shift > 0 ==> Abs(Nr) == Pow(2, shift) / Abs(N))
    }

    /** BN_RECP_CTX_set. */
    constructor (d: int)
      requires d != 0
      ensures Valid() && N == d
    {
      N, Nr, numBits, shift := d, 0, NumBits(Abs(d)), 0;
    }

    /** BN_div_recp lines 308-317: the reciprocal is recomputed exactly when the precision changes. */
    method Refresh(i: nat, reciprocalOk: bool)
      requires Valid() && i > 0
      modifies this`Nr, this`shift
      ensures Valid() && (shift == -1 || shift == i) && (reciprocalOk ==> shift == i)
      ensures old(shift) == i ==> Nr == old(Nr) && shift == i
    {
      hide Pow, NumBits;
      if i != shift {
        if reciprocalOk {
          PowPositive(2, i);
          Nr := TDiv(Pow(2, i), N);
          shift := i;
          QuotientSign(Pow(2, i), N);
        } else {
          shift := -1;
        }
      }
    }

    /** The quotient estimate from the cached reciprocal (lines 325-334). */
    method TrialFor(m: nat, i: nat) returns (d: nat)
      requires Valid() && shift == i && 0 < numBits <= i && m < Pow(2, i)
      ensures d * Abs(N) <= m < (d + 4) * Abs(N)
    {
      hide Pow, NumBits, Trial;
      TrialQuotient(m, Abs(N), numBits, i, Abs(Nr));
      d := Trial(m, Abs(Nr), Pow(2, numBits), Pow(2, i - numBits));
    }

    /** BN_div_recp; reciprocalOk says whether BN_reciprocal, if called, succeeds. */
    method DivRecp(m: int, reciprocalOk: bool) returns (ok: bool, d: int, r: int)
      requires Valid()
      modifies this`Nr, this`shift
      ensures Valid()
      ensures reciprocalOk ==> ok
      ensures ok ==> d == TDiv(m, N) && r == TRem(m, N)
    {
      hide Pow, NumBits, TDiv, TRem;
      if Abs(m) < Abs(N) {
        TDivUnique(m, N, 0, m);
        return true, 0, m;
      }
      var i := NumBits(Abs(m));
      var j := numBits * 2;
      if j > i {
        i := j;
      }
      PrecisionSuffices(Abs(m), Abs(N), i);
      Refresh(i, reciprocalOk);
      if shift == -1 {
        return false, 0, m;
      }
      d := TrialFor(Abs(m), i);
      ok, d, r := CorrectQuotient(Abs(m), Abs(N), d);
      r := if m < 0 then 0 - r else r;
      d := if (m < 0) != (N < 0) then 0 - d else d;
      SignedQuotient(m, N, d, r);
    }

    /** BN_mod_mul_reciprocal: the product of x and y reduced by N. */
    method ModMul(x: int, y: int, reciprocalOk: bool) returns (ok: bool, r: int)
      requires Valid()
      modifies this`Nr, this`shift
      ensures Valid() && (reciprocalOk ==> ok)
      ensures ok ==> r == TRem(x * y, N)
    {
      var d;
      ok, d, r := DivRecp(x * y, reciprocalOk);
    }
  }

  /** The closing loop of BN_div_recp: at most three corrections, so its error exit is never taken. */
  method CorrectQuotient(m: nat, n: nat, d0: nat) returns (ok: bool, d: int, r: int)
    requires 0 < n && d0 * n <= m < (d0 + 4) * n
    ensures ok && 0 <= d && m == d * n + r && 0 <= r < n
  {
    ExpandFour(d0, n);
    d := d0;
    r := m - n * d;
    var j := 0;
    while r >= n
      invariant d == d0 + j && m == d * n + r && 0 <= r < (4 - j) * n && 0 <= j <= 3
      decreases 4 - j
    {
      StepDown(d, n, 4 - (j + 1));
      if j > 2 {
        return false, d, r;
      }
      j := j + 1;
      r := r - n;
      d := d + 1;
    }
    ok := true;
  }

  lemma ExpandFour(d: int, n: int)
    ensures (d + 4) * n == d * n + 4 * n && n * d == d * n
  {
  }

  lemma StepDown(d: int, n: int, k: int)
    ensures (d + 1) * n == d * n + n && (k + 1) * n == k * n + n
  {
  }

  /** i is at least the bit length of m and of N. */
  lemma PrecisionSuffices(m: nat, N: nat, i: nat)
    requires 0 < N <= m && i >= NumBits(m)
    ensures 0 < NumBits(N) <= i && m < Pow(2, i)
  {
    hide Pow, NumBits;
    PowMonotone(2, NumBits(m), i);
    if NumBits(N) > i {
      PowMonotone(2, i, NumBits(N) - 1);
    }
    NumBitsBounds(m);
    NumBitsBounds(N);
  }

  lemma QuotientSign(a: nat, b: int)
    requires b != 0
    ensures Abs(TDiv(a, b)) == a / Abs(b)
  {
  }

  lemma SignedQuotient(m: int, N: int, d: int, r: int)
    requires N != 0 && Abs(m) == Abs(d) * Abs(N) + Abs(r) && Abs(r) < Abs(N)
    requires d == if (m < 0) != (N < 0) then 0 - Abs(d) else Abs(d)
    requires r == if m < 0 then 0 - Abs(r) else Abs(r)
    ensures d == TDiv(m, N) && r == TRem(m, N)
  {
    var x: int, y: int := Abs(d), Abs(N);
    assert (0 - x) * y == 0 - x * y && x * (0 - y) == 0 - x * y && (0 - x) * (0 - y) == x * y;
    TDivUnique(m, N, d, r);
  }
}
