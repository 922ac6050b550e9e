/** BN_div: schoolbook long division on word arrays with a two-word quotient estimate
    (crypto/bn/div.c). */
module LongDivision {
  import opened Arith
  import opened Limbs

  // ---------------------------------------------------------------- one quotient digit

  /** The leading two words of a divisor and the leading three of a dividend window. */
  function Two(d0: Word, d1: Word): nat { d0 * BASE + d1 }

  function Three(n0: Word, n1: Word, n2: Word): nat { (n0 * BASE + n1) * BASE + n2 }

  /** With d0 normalised and W < D * BASE, what the estimate may answer: all ones when the leading words
      agree, otherwise the exact quotient of the leading three words by the leading two. */
  ghost predicate Estimates(q: Word, n0: Word, n1: Word, n2: Word, d0: Word, d1: Word) {
    if n0 == d0 then q == BASE - 1
    else q * Two(d0, d1) <= Three(n0, n1, n2) < (q + 1) * Two(d0, d1)
  }

  lemma FirstGuess(num: nat, n2: Word, d0: Word, d1: Word, q: nat)
    requires d0 > 0 && q == num / d0
    ensures num * BASE + n2 < (q + 1) * Two(d0, d1)
    ensures num - q * d0 == num % d0
  {
  }

  lemma GuessIsWord(n0: Word, n1: Word, d0: Word)
    requires n0 < d0
    ensures 0 <= (n0 * BASE + n1) / d0 < BASE
  {
  }

  lemma WrappedRemainder(n0: Word, n1: Word, p: nat)
    requires 0 <= n0 * BASE + n1 - p < BASE
    ensures (n1 - p) % BASE == n0 * BASE + n1 - p
  {
  }

  lemma WordProduct(x: Word, y: Word)
    ensures x * y < BASE * BASE
  {
    MulMonotone(x, BASE - 1, y);
  }

  /** rem and t2 as the loop keeps them, with every quotient above q already refuted. */
  ghost predicate Correcting(num: int, n2: int, d0: int, d1: int, q: int, rem: int, t2: int) {
    0 <= q && rem == num - q * d0 && t2 == d1 * q && num * BASE + n2 < (q + 1) * (d0 * BASE + d1)
  }

  /** The loop test compares q times the two leading words with the three leading words. */
  lemma CorrectingStep(num: int, n2: int, d0: int, d1: int, q: int, rem: int, t2: int)
    requires Correcting(num, n2, d0, d1, q, rem, t2)
    requires 0 <= rem && 0 <= n2 && 0 <= d1
    ensures num * BASE + n2 < (q + 1) * (d0 * BASE + d1)
    ensures t2 <= rem * BASE + n2 <==> q * (d0 * BASE + d1) <= num * BASE + n2
    ensures t2 == d1 * q
    ensures t2 > rem * BASE + n2 ==> q > 0 && Correcting(num, n2, d0, d1, q - 1, rem + d0, t2 - d1)
  {
  }

  /** The overflow test of the loop. */
  lemma OverflowTest(rem: Word, d0: Word)
    ensures var r := (rem + d0) % BASE; if r < d0 then rem + d0 >= BASE else r == rem + d0
  {
  }

  /** The correction loop: it leaves the exact two-by-three-word quotient, although rem is a single word. */
  method CorrectEstimate(ghost num: nat, n2: Word, d0: Word, d1: Word, q0: Word, rem0: Word) returns (q: Word)
    requires Correcting(num, n2, d0, d1, q0, rem0, d1 * q0)
    ensures q * (d0 * BASE + d1) <= num * BASE + n2 < (q + 1) * (d0 * BASE + d1)
  {
    hide Correcting;
    q := q0;
    var rem, t2 := rem0, d1 * q;
    while true
      invariant 0 <= rem < BASE && Correcting(num, n2, d0, d1, q, rem, t2)
      decreases q
    {
      CorrectingStep(num, n2, d0, d1, q, rem, t2);
      if t2 <= rem * BASE + n2 {
        break;
      }
      q := q - 1;
      OverflowTest(rem, d0);
      ghost var sum := rem + d0;
      rem := (rem + d0) % BASE;
      if rem < d0 {
        WordProduct(d1, q);
        CorrectingStep(num, n2, d0, d1, q, sum, d1 * q);
        break;
      }
      t2 := t2 - d1;
    }
  }

  method EstimateDigit(n0: Word, n1: Word, n2: Word, d0: Word, d1: Word) returns (q: Word)
    requires n0 <= d0 && HALF <= d0
    ensures Estimates(q, n0, n1, n2, d0, d1)
  {
    if n0 == d0 {
      return BASE - 1;
    }
    GuessIsWord(n0, n1, d0);
    var num := n0 * BASE + n1;
    q := num / d0;
    FirstGuess(num, n2, d0, d1, q);
    WrappedRemainder(n0, n1, q * d0);
    q := CorrectEstimate(num, n2, d0, d1, q, (n1 - q * d0) % BASE);
  }

  /** The heart of the method: D and W agree with their leading words up to parts below P, and the
      estimate is the true digit or one too large. */
  lemma EstimateIsNear(q: Word, n0: Word, n1: Word, n2: Word, d0: Word, d1: Word, P: nat, D: nat, W: nat)
    requires HALF <= d0 && n0 <= d0 && Estimates(q, n0, n1, n2, d0, d1)
    requires Two(d0, d1) * P <= D < (Two(d0, d1) + 1) * P
    requires Three(n0, n1, n2) * P <= W < (Three(n0, n1, n2) + 1) * P
    requires W < BASE * D
    ensures (q - 1) * D <= W < (q + 1) * D
  {
    UpperEstimate(q, n0, n1, n2, d0, d1, P, D, W);
    LowerEstimate(q, n0, n1, n2, d0, d1, P, D, W);
  }

  lemma UpperEstimate(q: Word, n0: Word, n1: Word, n2: Word, d0: Word, d1: Word, P: nat, D: nat, W: nat)
    requires n0 <= d0 && Estimates(q, n0, n1, n2, d0, d1)
    requires Two(d0, d1) * P <= D && W < (Three(n0, n1, n2) + 1) * P && W < BASE * D
    ensures W < (q + 1) * D
  {
    var d2: int, n3: int, q0: int := Two(d0, d1), Three(n0, n1, n2), q;
    if n0 < d0 {
      MulMonotone(n3 + 1, (q0 + 1) * d2, P);
      Associate(q0 + 1, d2, P);
      ScaleLeft(q0 + 1, d2 * P, D);
    }
  }

  lemma LowerEstimate(q: Word, n0: Word, n1: Word, n2: Word, d0: Word, d1: Word, P: nat, D: nat, W: nat)
    requires HALF <= d0 && n0 <= d0 && Estimates(q, n0, n1, n2, d0, d1)
    requires D < (Two(d0, d1) + 1) * P && Three(n0, n1, n2) * P <= W
    ensures (q - 1) * D <= W
  {
    var d2: int, n3: int, q0: int := Two(d0, d1), Three(n0, n1, n2), q;
    if q0 >= 2 {
      if n0 < d0 {
        ExpandLower(q0, d2);
      } else {
        MulMonotone(d2 + 1, (d0 + 1) * BASE, BASE - 2);
      }
      assert (q0 - 1) * (d2 + 1) <= n3;
      LowerProduct(q0, d2, n3, P, D, W);
    } else {
      NoDigit(q0, D);
    }
  }

  lemma LowerProduct(q: int, d2: int, n3: int, P: int, D: int, W: int)
    requires q >= 2 && P >= 0 && (q - 1) * (d2 + 1) <= n3 && D <= (d2 + 1) * P && n3 * P <= W
    ensures (q - 1) * D <= W
  {
  }

  lemma NoDigit(q: int, D: int)
    requires 0 <= q <= 1 && D >= 0
    ensures (q - 1) * D <= 0
  {
  }

  lemma ScaleLeft(k: int, x: int, y: int)
    requires k >= 0 && x <= y
    ensures k * x <= k * y
  {
  }

  lemma ExpandLower(q: int, d2: int)
    requires q <= BASE && d2 >= HALF * BASE
    ensures (q - 1) * (d2 + 1) <= q * d2
  {
  }

  /** With a one-word divisor the second divisor word reads as zero and the estimate is exact. */
  lemma EstimateIsExact(q: Word, n0: Word, n1: Word, n2: Word, d0: Word)
    requires HALF <= d0 && n0 <= d0 && Estimates(q, n0, n1, n2, d0, 0)
    requires n0 * BASE + n1 < BASE * d0
    ensures (q - 1) * d0 <= q * d0 <= n0 * BASE + n1 < (q + 1) * d0
  {
    assert q * (d0 * BASE) == (q * d0) * BASE;
    assert (q + 1) * (d0 * BASE) == ((q + 1) * d0) * BASE;
  }

  /** The leading words of a sequence and its value, up to a part below BASE^(length - 2). */
  lemma LeadingTwo(s: seq<Word>)
    requires |s| >= 2
    ensures var P, t := Pow(BASE, |s| - 2), Two(s[|s| - 1], s[|s| - 2]); t * P <= Val(s) < (t + 1) * P
  {
    hide Val;
    var n := |s|;
    ValTop(s);
    ValTop(s[..n - 1]);
    ValBound(s[..n - 2]);
    assert s[..n - 1][..n - 2] == s[..n - 2];
    var P: int := Pow(BASE, n - 2);
    LeadingArith(P, s[n - 1], s[n - 2], Val(s[..n - 2]));
  }

  lemma LeadingArith(P: int, x: int, y: int, low: int)
    requires 0 <= low < P
    ensures (x * BASE + y) * P <= low + P * y + (BASE * P) * x < (x * BASE + y + 1) * P
  {
  }

  lemma LeadingThree(s: seq<Word>)
    requires |s| >= 3
    ensures var P, t := Pow(BASE, |s| - 3), Three(s[|s| - 1], s[|s| - 2], s[|s| - 3]); t * P <= Val(s) < (t + 1) * P
  {
    hide Val;
    var n := |s|;
    var P: int, Q: int := Pow(BASE, n - 3), Pow(BASE, n - 1);
    assert Pow(BASE, n - 2) == BASE * P && Q == BASE * Pow(BASE, n - 2);
    hide Pow;
    ValTop(s);
    LeadingTwo(s[..n - 1]);
    LeadingThreeArith(P, Q, s[n - 1], s[n - 2], s[n - 3], Val(s[..n - 1]));
  }

  lemma LeadingThreeArith(P: int, Q: int, x: int, y: int, z: int, low: int)
    requires Q == BASE * (BASE * P) && (y * BASE + z) * P <= low < (y * BASE + z + 1) * P
    ensures ((x * BASE + y) * BASE + z) * P <= low + Q * x < ((x * BASE + y) * BASE + z + 1) * P
  {
  }

  /** What BN_div computes for one window: the estimate is the true digit or one too large. */
  lemma DigitEstimate(w: seq<Word>, s: seq<Word>, n2: Word, q: Word)
    requires |s| > 0 && |w| == |s| + 1 && s[|s| - 1] >= HALF && Val(w) < BASE * Val(s)
    requires |s| > 1 ==> n2 == w[|s| - 2]
    requires w[|s|] <= s[|s| - 1]
    requires Estimates(q, w[|s|], w[|s| - 1], n2, s[|s| - 1], if |s| == 1 then 0 else s[|s| - 2])
    ensures (q - 1) * Val(s) <= Val(w) < (q + 1) * Val(s)
  {
    hide Val, Pow, Two, Three, Estimates;
    if |s| == 1 {
      OneWord(s);
      TwoWords(w);
      EstimateIsExact(q, w[1], w[0], n2, s[0]);
    } else {
      LeadingTwo(s);
      LeadingThree(w);
      EstimateIsNear(q, w[|s|], w[|s| - 1], n2, s[|s| - 1], s[|s| - 2], Pow(BASE, |s| - 2), Val(s), Val(w));
    }
  }

  lemma OneWord(s: seq<Word>)
    requires |s| == 1
    ensures Val(s) == s[0]
  {
  }

  lemma TwoWords(w: seq<Word>)
    requires |w| == 2
    ensures Val(w) == w[1] * BASE + w[0]
  {
    assert w == [w[0]] + [w[1]];
    ValSnoc([w[0]], w[1]);
    ValSingle(w[0]);
    assert Pow(BASE, 1) == BASE;
  }

  /** The leading word of a window never exceeds that of the divisor. */
  lemma LeadingWord(w: seq<Word>, s: seq<Word>)
    requires |s| > 0 && |w| == |s| + 1 && Val(w) < BASE * Val(s)
    ensures w[|s|] <= s[|s| - 1]
  {
    var n := |s|;
    ValTop(w);
    ValTop(s);
    ValBound(s[..n - 1]);
    LeadingWordArith(Pow(BASE, n - 1), w[n], s[n - 1], Val(s[..n - 1]));
  }

  lemma LeadingWordArith(P: int, x: int, y: int, low: int)
    requires 0 <= low < P && (BASE * P) * x < BASE * (low + P * y)
    ensures x <= y
  {
    if x > y {
      MulMonotone(y + 1, x, P);
    }
  }

  /** Subtracting q * D from W modulo M, where q may be one too large: no borrow exactly when q was right. */
  lemma BorrowMeaning(W: int, D: int, M: int, q: int, r: int, c: int)
    requires (q - 1) * D <= W < (q + 1) * D && 0 <= W < M && 0 < D
    requires 0 <= r < M && 0 <= c <= 1 && r + q * D == W + c * M
    ensures c == 0 ==> r == W - q * D && 0 <= r < D
    ensures c == 1 ==> r + D == W - (q - 1) * D + M && 0 <= W - (q - 1) * D < D && q > 0
  {
  }

  /** Adding the divisor back wraps the borrow away: the carry clears the all-ones top word. */
  lemma AddBackWraps(p: int, low: int, top: int, low': int, c: int, D: int, x: int)
    requires p > 0 && 0 <= low < p && 0 <= low' < p && 0 <= top < BASE && 0 <= c <= 1
    requires low' + c * p == low + D && low + p * top + D == x + BASE * p && 0 <= x < p
    ensures c == 1 && top == BASE - 1 && low' == x
  {
    assert low' + p * (top + c - BASE) == x;
    SmallMultipleIsZero(top + c - BASE, p, x - low');
  }

  lemma ProductValue(low: seq<Word>, top: Word, v: nat, q: nat)
    requires Val(low) + top * Pow(BASE, |low|) == v * q
    ensures Val(low + [top]) == q * v
  {
    ValSnoc(low, top);
  }

  /** r[k..k+n+1] -= q * s, with the borrow out. */
  method MultiplySubtract(r: array<Word>, k: nat, s: array<Word>, tmp: array<Word>, q: Word) returns (c: nat)
    requires tmp.Length == s.Length + 1 && r != s && r != tmp && s != tmp && k + s.Length < r.Length
    modifies r, tmp
    ensures c <= 1 && s[..] == old(s[..])
    ensures r[..k] == old(r[..k]) && r[k + s.Length + 1..] == old(r[k + s.Length + 1..])
    ensures Val(r[k..k + s.Length + 1]) + q * Val(s[..])
         == old(Val(r[k..k + s.Length + 1])) + c * Pow(BASE, s.Length + 1)
  {
    hide Val, Pow;
    var n := s.Length;
    var l0 := MulWords(tmp, s, n, q);
    tmp[n] := l0;
    assert s[..n] == s[..];
    assert tmp[..n + 1] == tmp[..n] + [l0];
    ProductValue(tmp[..n], l0, Val(s[..]), q);
    ghost var ss := s[..];
    c := SubWords(r, k, tmp, n + 1);
    assert s[..] == ss;
  }

  /** r[k..k+n+1] += s when the borrow says that q was one too large. */
  method AddBack(r: array<Word>, k: nat, s: array<Word>, ghost x: nat)
    requires 0 < s.Length && r != s && k + s.Length < r.Length
    requires Val(r[k..k + s.Length + 1]) + Val(s[..]) == x + Pow(BASE, s.Length + 1) && x < Val(s[..])
    modifies r
    ensures r[..k] == old(r[..k]) && r[k + s.Length + 1..] == old(r[k + s.Length + 1..])
    ensures Val(r[k..k + s.Length + 1]) == x
  {
    hide Val;
    var n := s.Length;
    ghost var low, top := r[k..k + n], r[k + n];
    assert r[k..k + n + 1] == low + [top];
    ValSnoc(low, top);
    ghost var was := r[..];
    var c2 := AddWords(r, k, s, n);
    assert r[k + n] == top by { assert r[k + n..][0] == was[k + n..][0]; }
    ghost var low' := r[k..k + n];
    assert s[..n] == s[..];
    ValBound(low);
    ValBound(low');
    ValBound(s[..]);
    AddBackWraps(Pow(BASE, n), Val(low), top, Val(low'), c2, Val(s[..]), x);
    if c2 != 0 {
      r[k + n] := (r[k + n] + 1) % BASE;
    }
    assert r[k..k + n + 1] == low' + [0];
    ValSnoc(low', 0);
    assert r[k + n + 1..] == was[k + n + 1..] by {
      assert was[k + n..][1..] == was[k + n + 1..];
    }
  }

  /** One pass of BN_div's main loop: the window r[k..k+n+1] is replaced by its remainder. */
  method DivideStep(r: array<Word>, k: nat, s: array<Word>, tmp: array<Word>) returns (q: Word)
    requires 0 < s.Length && tmp.Length == s.Length + 1 && r != s && r != tmp && s != tmp
    requires k + s.Length < r.Length && (s.Length == 1 ==> k >= 1)
    requires s[s.Length - 1] >= HALF
    requires Val(r[k..k + s.Length + 1]) < BASE * Val(s[..])
    modifies r, tmp
    ensures s[..] == old(s[..])
    ensures r[..k] == old(r[..k]) && r[k + s.Length + 1..] == old(r[k + s.Length + 1..])
    ensures q * Val(s[..]) + Val(r[k..k + s.Length + 1]) == old(Val(r[k..k + s.Length + 1]))
    ensures Val(r[k..k + s.Length + 1]) < Val(s[..])
  {
    hide Val, Pow, Two, Three, Estimates;
    var n := s.Length;
    ghost var w, ss := r[k..k + n + 1], s[..];
    LeadingWord(w, ss);
    var d1 := if n == 1 then 0 else s[n - 2];
    var n2 := r[k + n - 2];
    q := EstimateDigit(r[k + n], r[k + n - 1], n2, s[n - 1], d1);
    DigitEstimate(w, ss, n2, q);
    var c := MultiplySubtract(r, k, s, tmp, q);
    ghost var R := Val(r[k..k + n + 1]);
    ValBound(w);
    ValBound(r[k..k + n + 1]);
    ValTop(ss);
    BorrowMeaning(Val(w), Val(ss), Pow(BASE, n + 1), q, R, c);
    if c != 0 {
      q := q - 1;
      AddBack(r, k, s, Val(w) - q * Val(ss));
    }
  }

  // ---------------------------------------------------------------- normalisation

  lemma WordPower(j: nat)
    ensures Pow(2, BITS) == BASE && Pow(2, BITS * j) == Pow(BASE, j)
    ensures Pow(2, BITS - 1) == HALF
  {
    WordBits();
    PowPower(2, BITS, j);
  }

  lemma ShorterIsSmaller(s: seq<Word>, j: nat)
    requires |s| < j
    ensures Val(s) < Pow(BASE, j - 1) <= Pow(BASE, j - 1) * HALF
  {
    ValBound(s);
    PowMonotone(BASE, |s|, j - 1);
    MulMonotone(1, HALF, Pow(BASE, j - 1));
  }

  /** A value with its highest possible bit set fills its words and has a normalised top word. */
  lemma NormalisedTop(s: seq<Word>, j: nat)
    requires Normal(s) && j > 0 && Pow(2, BITS * j - 1) <= Val(s) < Pow(2, BITS * j)
    ensures |s| == j && s[j - 1] >= HALF
  {
    hide Val;
    WordPower(j);
    WordPower(j - 1);
    var p: int := Pow(BASE, j - 1);
    PowAdd(2, BITS * (j - 1), BITS - 1);
    assert Pow(2, BITS * j - 1) == p * HALF;
    PowPositive(2, BITS * j - 1);
    if |s| > j {
      PowMonotone(BASE, j, |s| - 1);
      ValTop(s);
    } else if |s| < j {
      ShorterIsSmaller(s, j);
    } else {
      ValTop(s);
      ValBound(s[..j - 1]);
      TopAtLeast(p, HALF, s[j - 1], Val(s[..j - 1]));
    }
  }

  lemma TopAtLeast(p: int, h: int, top: int, low: int)
    requires 0 <= low < p && p * h <= low + p * top
    ensures top >= h
  {
    if top < h {
      MulMonotone(top + 1, h, p);
    }
  }

  lemma ShiftedBits(v: nat, shift: nat)
    requires v > 0
    ensures NumBits(v) > 0 && Pow(2, NumBits(v) - 1 + shift) <= v * Pow(2, shift) < Pow(2, NumBits(v) + shift)
  {
    var k: nat, p: int := NumBits(v) - 1, Pow(2, shift);
    NumBitsBounds(v);
    PowPositive(2, shift);
    PowAdd(2, k + 1, shift);
    PowAdd(2, k, shift);
    MulMonotone(Pow(2, k), v, p);
    MulMonotone(v + 1, Pow(2, k + 1), p);
    assert (v + 1) * p == v * p + p;
  }

  /** BN_lshift and BN_rshift by their contracts: exact on values, results normal. */
  method ShiftLeft(a: seq<Word>, n: nat) returns (r: seq<Word>)
    ensures Val(r) == Val(a) * Pow(2, n) && Normal(r)
  {
    r := FromNat(Val(a) * Pow(2, n));
  }

  method ShiftRight(a: seq<Word>, n: nat) returns (r: seq<Word>)
    ensures Pow(2, n) > 0 && Val(r) == Val(a) / Pow(2, n) && Normal(r)
  {
    PowPositive(2, n);
    r := FromNat(Val(a) / Pow(2, n));
  }

  /** bn_correct_top: drops leading zero words. */
  method CorrectTop(s: seq<Word>) returns (r: seq<Word>)
    ensures Val(r) == Val(s) && Normal(r) && r <= s
  {
    var top := |s|;
    assert s[..top] == s;
    while top > 0 && s[top - 1] == 0
      invariant top <= |s| && Val(s[..top]) == Val(s)
    {
      ValTop(s[..top]);
      assert s[..top][..top - 1] == s[..top - 1];
      top := top - 1;
    }
    r := s[..top];
  }

  /** Shifting the divisor so that its bit length is a multiple of the word size. */
  lemma NormalisedDivisor(b: seq<Word>, sd: seq<Word>, shift: nat)
    requires Val(b) > 0 && shift == BITS - NumBits(Val(b)) % BITS
    requires Normal(sd) && Val(sd) == Val(b) * Pow(2, shift)
    ensures |sd| > 0 && sd[|sd| - 1] >= HALF
  {
    ShiftedBits(Val(b), shift);
    NormalisedTop(sd, NumBits(Val(b)) / BITS + 1);
  }

  // ---------------------------------------------------------------- whole numbers

  /** Replacing one window changes the value by the window's change times its weight. */
  lemma ReplaceWindow(a: seq<Word>, b: seq<Word>, k: nat, m: nat)
    requires |a| == |b| && k + m <= |a| && a[..k] == b[..k] && a[k + m..] == b[k + m..]
    ensures Val(a) - Val(b) == Pow(BASE, k) * (Val(a[k..k + m]) - Val(b[k..k + m]))
  {
    hide Val, Pow;
    SplitWindow(a, k, m);
    SplitWindow(b, k, m);
    ScaledDifference(Pow(BASE, k), Val(a[k..k + m]), Val(b[k..k + m]), Pow(BASE, m) * Val(a[k + m..]));
  }

  lemma SplitWindow(a: seq<Word>, k: nat, m: nat)
    requires k + m <= |a|
    ensures Val(a) == Val(a[..k]) + Pow(BASE, k) * (Val(a[k..k + m]) + Pow(BASE, m) * Val(a[k + m..]))
  {
    hide Val, Pow;
    ValSplit(a, k);
    ValSplit(a[k..], m);
    assert a[k..][..m] == a[k..k + m] && a[k..][m..] == a[k + m..];
  }

  lemma ScaledDifference(p: int, x: int, y: int, h: int)
    ensures p * (x + h) - p * (y + h) == p * (x - y)
  {
  }

  /** What BN_div's loop keeps: window remainder below D, zero words above, and no value lost between
      the partial quotient and the partial remainder. */
  ghost predicate Dividing(orig: seq<Word>, r: seq<Word>, q: seq<Word>, D: nat, k: nat, n: nat) {
    && |r| == |orig| && k + n <= |r|
    && r[..k] == orig[..k]
    && Val(r[k..k + n]) < D
    && (forall j :: k + n <= j < |r| ==> r[j] == 0)
    && Val(orig) == Val(r) + D * (Pow(BASE, k) * Val(q))
  }

  /** A remainder below D leaves the top word of its window zero. */
  lemma TopWordCleared(w: seq<Word>, D: nat, n: nat)
    requires |w| == n + 1 && Val(w) < D <= Pow(BASE, n)
    ensures w[n] == 0 && Val(w[..n]) == Val(w)
  {
    ValTop(w);
  }

  lemma DividingStep(orig: seq<Word>, r: seq<Word>, r': seq<Word>, q: seq<Word>, d: Word, D: nat, k: nat, n: nat)
    requires k > 0 && Dividing(orig, r, q, D, k, n) && |r'| == |r| && k + n < |r| + 1 && D <= Pow(BASE, n)
    requires r'[..k - 1] == r[..k - 1] && r'[k + n..] == r[k + n..]
    requires d * D + Val(r'[k - 1..k + n]) == Val(r[k - 1..k + n]) && Val(r'[k - 1..k + n]) < D
    ensures Dividing(orig, r', [d] + q, D, k - 1, n)
  {
    hide Val;
    var p: int := Pow(BASE, k - 1);
    ReplaceWindow(r, r', k - 1, n + 1);
    TopWordCleared(r'[k - 1..k + n], D, n);
    assert r'[k - 1..k + n][..n] == r'[k - 1..k - 1 + n];
    assert r'[k - 1..k + n][n] == r'[k - 1 + n];
    ValAppend([d], q);
    ValSingle(d);
    assert Pow(BASE, 1) == BASE;
    StepArith(p, d, D, Val(q), Val(r), Val(r'));
    assert r'[..k - 1] == r[..k][..k - 1] == orig[..k - 1];
    forall j | k - 1 + n <= j < |r'| ensures r'[j] == 0 {
      if j >= k + n {
        assert r'[j] == r'[k + n..][j - k - n] == r[j];
      }
    }
  }

  lemma StepArith(p: int, d: int, D: int, q: int, v: int, v': int)
    requires v - v' == p * (d * D)
    ensures v + D * ((BASE * p) * q) == v' + D * (p * (d + BASE * q))
  {
  }

  /** The main loop of BN_div from window position k down to 1. */
  method DivideLoop(r: array<Word>, s: array<Word>, q: array<Word>, top: nat, ghost orig: seq<Word>)
    requires 0 < s.Length && s[s.Length - 1] >= HALF && r != s && r != q && s != q
    requires s.Length < r.Length && q.Length == r.Length - s.Length + 1 && top <= r.Length - s.Length <= top + 1
    requires |orig| == r.Length
    requires Dividing(orig, r[..], q[r.Length - s.Length - 1..top], Val(s[..]), r.Length - s.Length, s.Length)
    modifies r, q
    ensures s[..] == old(s[..])
    ensures Dividing(orig, r[..], q[..top], Val(s[..]), 1, s.Length)
    ensures forall j :: r.Length - s.Length - 1 <= j < q.Length ==> q[j] == old(q[j])
    ensures top < r.Length - s.Length && top > 0 && orig[|orig| - 1] != 0 ==> q[top - 1] != 0
  {
    hide Val, Pow, Dividing;
    var n, loop := s.Length, r.Length - s.Length;
    ghost var D := Val(s[..]);
    ghost var ss := s[..];
    ValBound(s[..]);
    var tmp := new Word[n + 1];
    var k := loop;
    while k > 1
      invariant 1 <= k <= loop && s[..] == ss
      invariant Dividing(orig, r[..], q[k - 1..top], D, k, n)
      invariant forall j :: loop - 1 <= j < q.Length ==> q[j] == old(q[j])
      invariant k < loop && top < loop && orig[r.Length - 1] != 0 ==> q[loop - 2] != 0
    {
      ghost var before, qs := r[..], q[k - 1..top];
      DividingWindow(orig, before, qs, D, k, n);
      assert before[k - 1..k + n] == r[k - 1..k - 1 + n + 1];
      var d := DivideStep(r, k - 1, s, tmp);
      ghost var after := r[..];
      assert after[k - 1..k + n] == r[k - 1..k - 1 + n + 1];
      assert after[..k - 1] == r[..k - 1] && before[..k - 1] == after[..k - 1];
      assert after[k + n..] == r[k - 1 + n + 1..] && before[k + n..] == after[k + n..];
      DividingStep(orig, before, after, qs, d, D, k, n);
      if k == loop && top < loop && orig[r.Length - 1] != 0 {
        assert qs == [];
        FirstDigitNonZero(orig, before, after, d, D, k, n);
      }
      q[k - 2] := d;
      assert q[k - 2..top] == [d] + qs;
      k := k - 1;
    }
    assert q[0..top] == q[..top];
  }

  lemma DividingWindow(orig: seq<Word>, r: seq<Word>, q: seq<Word>, D: nat, k: nat, n: nat)
    requires k > 0 && Dividing(orig, r, q, D, k, n)
    ensures |r| == |orig| && k + n <= |r| && Val(r[k - 1..k + n]) < BASE * D
  {
  }

  /** When no digit came out of the first comparison, the next digit is the leading one and is not zero. */
  lemma FirstDigitNonZero(orig: seq<Word>, r: seq<Word>, r': seq<Word>, d: Word, D: nat, k: nat, n: nat)
    requires k > 0 && Dividing(orig, r, [], D, k, n) && k + n == |r| == |r'| && D <= Pow(BASE, n)
    requires d * D + Val(r'[k - 1..k + n]) == Val(r[k - 1..k + n]) && Val(r'[k - 1..k + n]) < D
    requires orig[|orig| - 1] != 0
    ensures d != 0
  {
    hide Val, Pow;
    NoWords();
    ValInjective(orig, r);
    var w := r[k - 1..k + n];
    assert |w| == n + 1 && w[n] == r[|r| - 1];
    ValTop(w);
  }

  /** The shifts cancel: what is left in the window is the remainder, scaled. */
  lemma Unscale(va: nat, vb: nat, P: nat, x: nat, q: nat)
    requires P > 0 && BASE * (va * P) == BASE * x + (vb * P) * (BASE * q) && x < vb * P
    ensures (P * BASE) > 0 && va == q * vb + (BASE * x) / (P * BASE) && (BASE * x) / (P * BASE) < vb
  {
    var rem: int := va - vb * q;
    assert (vb * P) * (BASE * q) == BASE * ((vb * q) * P);
    assert x == rem * P by { assert va * P - (vb * q) * P == rem * P; }
    if rem < 0 {
      MulMonotone(rem, -1, P);
    } else if rem >= vb {
      MulMonotone(vb, rem, P);
    }
    assert BASE * x == rem * (P * BASE);
    DivideExact(rem, P * BASE);
  }

  lemma DivideExact(k: int, m: int)
    requires m > 0
    ensures (k * m) / m == k
  {
    var r := k * m - m * ((k * m) / m);
    assert 0 <= r < m;
    SmallMultipleIsZero(k - (k * m) / m, m, r) by {
      assert (k - (k * m) / m) * m == k * m - ((k * m) / m) * m;
    }
  }

  lemma FinishDivision(orig: seq<Word>, r: seq<Word>, q: seq<Word>, n: nat, va: nat, vb: nat, shift: nat)
    requires Dividing(orig, r, q, vb * Pow(2, shift), 1, n)
    requires Val(orig) == va * Pow(2, shift + BITS)
    ensures Pow(2, shift + BITS) > 0
    ensures var rem := Val(r) / Pow(2, shift + BITS); va == Val(q) * vb + rem && rem < vb
  {
    hide Pow, Val;
    var P: nat := Pow(2, shift);
    PowPositive(2, shift);
    WordPower(1);
    PowAdd(2, shift, BITS);
    var x := Val(r[1..1 + n]);
    ValPad(r[1..1 + n], r[1 + n..]);
    assert r[1..] == r[1..1 + n] + r[1 + n..];
    assert orig[0] == r[0] by { assert orig[..1][0] == r[..1][0]; }
    OneWordPower();
    assert Val(orig) == BASE * (va * P) by { Associate(va, P, BASE); }
    LowWord(orig, va * P);
    LowWord(r, x);
    Unscale(va, vb, P, x, Val(q));
  }

  lemma OneWordPower()
    ensures Pow(BASE, 1) == BASE
  {
  }

  /** A value that is a multiple of BASE has a zero low word, and the other way round. */
  lemma LowWord(s: seq<Word>, x: nat)
    requires s != []
    ensures Val(s) == BASE * x ==> s[0] == 0
    ensures s[0] == 0 && Val(s[1..]) == x ==> Val(s) == BASE * x
  {
  }

  /** Before the loop: at most one subtraction brings the leading window below the divisor. */
  lemma FirstWindow(w: seq<Word>, s: seq<Word>)
    requires |w| == |s| > 0 && s[|s| - 1] >= HALF
    ensures Val(w) < 2 * Val(s)
    ensures w[|w| - 1] == 0 ==> Val(w) < Val(s)
    ensures Val(s) > 0
  {
  }

  lemma StartDividing(orig: seq<Word>, r: seq<Word>, q: seq<Word>, k: nat, n: nat, D: nat)
    requires |orig| == |r| == k + n && r[..k] == orig[..k] && (q == [] || q == [1])
    requires Val(r[k..]) + |q| * D == Val(orig[k..]) && Val(r[k..]) < D
    ensures Dividing(orig, r, q, D, k, n)
  {
    ValSplit(orig, k);
    ValSplit(r, k);
    ValSingle(1);
    assert r[k..k + n] == r[k..];
    StartArith(Pow(BASE, k), Val(r[k..]), D, |q|);
  }

  lemma StartArith(p: int, v: int, D: int, q: int)
    ensures p * (v + q * D) == p * v + D * (p * q)
  {
  }

  lemma PositiveValue(b: seq<Word>)
    requires Normal(b) && b != []
    ensures Val(b) > 0
  {
  }

  /** The dividend is shifted one word further than the divisor, so there is at least one window. */
  lemma EnoughWords(a: seq<Word>, b: seq<Word>, sd: seq<Word>, sn: seq<Word>, shift: nat)
    requires Val(a) >= Val(b) && Normal(sd) && sd != []
    requires Val(sd) == Val(b) * Pow(2, shift) && Val(sn) == Val(a) * Pow(2, shift + BITS)
    ensures |sn| > |sd|
  {
    WordPower(1);
    PowAdd(2, shift, BITS);
    PowPositive(2, shift);
    MulMonotone(Val(b), Val(a), Pow(2, shift));
    Associate(Val(a), Pow(2, shift), BASE);
    var t: seq<Word> := [0] + sd;
    assert t[1..] == sd;
    NormalLength(t, sn);
  }

  /** Normalisation, and in the branch-free variant zero padding of the dividend (lines 167-199). */
  method Normalise(a: seq<Word>, b: seq<Word>, noBranch: bool)
    returns (sn: seq<Word>, sd: seq<Word>, shift: nat)
    requires Normal(a) && Normal(b) && b != [] && (noBranch || Val(a) >= Val(b))
    ensures sd != [] && sd[|sd| - 1] >= HALF && |sn| > |sd|
    ensures Val(sd) == Val(b) * Pow(2, shift) && Val(sn) == Val(a) * Pow(2, shift + BITS)
    ensures noBranch ==> |sn| >= |sd| + 2 && sn[|sn| - 1] == 0
    ensures !noBranch ==> Normal(sn)
  {
    hide Val, Pow, FromNat;
    PositiveValue(b);
    shift := BITS - NumBits(Val(b)) % BITS;
    sd := ShiftLeft(b, shift);
    sn := ShiftLeft(a, shift + BITS);
    NormalisedDivisor(b, sd, shift);
    if noBranch {
      var pad: seq<Word> := seq(if |sn| <= |sd| + 1 then |sd| + 2 - |sn| else 1, i => 0);
      ValPad(sn, pad);
      sn := sn + pad;
    } else {
      EnoughWords(a, b, sd, sn, shift);
    }
  }

  lemma NoBorrow(M: int, w: int, d: int, r: int, c: int)
    requires 0 <= d <= w && 0 <= r < M && 0 <= c <= 1 && r + d == w + c * M
    ensures c == 0
  {
  }

  /** The comparison before the loop (lines 234-241): a leading quotient word of one, or none. */
  method FirstDigit(rr: array<Word>, ss: array<Word>, res: array<Word>, noBranch: bool) returns (top: nat)
    requires 0 < ss.Length < rr.Length && ss[ss.Length - 1] >= HALF && res.Length == rr.Length - ss.Length + 1
    requires rr != ss && rr != res && ss != res
    requires noBranch ==> rr.Length >= ss.Length + 2 && rr[rr.Length - 1] == 0
    modifies rr, res
    ensures ss[..] == old(ss[..])
    ensures rr.Length - ss.Length - 1 <= top <= rr.Length - ss.Length
    ensures Dividing(old(rr[..]), rr[..], res[rr.Length - ss.Length - 1..top], Val(ss[..]), rr.Length - ss.Length, ss.Length)
    ensures top == rr.Length - ss.Length ==> !noBranch && res[top - 1] != 0
  {
    hide Val, Pow, Dividing;
    var n, loop := ss.Length, rr.Length - ss.Length;
    ghost var sn, sd := rr[..], ss[..];
    assert rr[loop..loop + n] == sn[loop..] && ss[..n] == sd;
    FirstWindow(sn[loop..], sd);
    top := loop - 1;
    if !noBranch {
      var c := CompareWords(rr, loop, ss, n);
      if c >= 0 {
        var borrow := SubWords(rr, loop, ss, n);
        assert ss[..] == sd;
        ValBound(rr[loop..loop + n]);
        NoBorrow(Pow(BASE, n), Val(sn[loop..]), Val(sd), Val(rr[loop..loop + n]), borrow);
        res[loop - 1] := 1;
        top := loop;
      }
    }
    ghost var start, q0 := rr[..], res[loop - 1..top];
    assert start[loop..] == rr[loop..loop + n] && start[..loop] == rr[..loop];
    StartDividing(sn, start, q0, loop, n, Val(sd));
  }

  /** The window loop on scratch arrays (lines 201-359): quotient digits, and what is left of snum. */
  method DivideWindows(sn: seq<Word>, sd: seq<Word>, noBranch: bool) returns (q: seq<Word>, low: seq<Word>)
    requires sd != [] && sd[|sd| - 1] >= HALF && |sn| > |sd|
    requires if noBranch then |sn| >= |sd| + 2 && sn[|sn| - 1] == 0 else Normal(sn)
    ensures Dividing(sn, low, q, Val(sd), 1, |sd|)
    ensures !noBranch ==> Normal(q)
  {
    hide Val, Pow, Dividing;
    var rr := new Word[|sn|](i requires 0 <= i < |sn| => sn[i]);
    var ss := new Word[|sd|](i requires 0 <= i < |sd| => sd[i]);
    var res := new Word[|sn| - |sd| + 1];
    assert rr[..] == sn && ss[..] == sd;
    var top := FirstDigit(rr, ss, res, noBranch);
    DivideLoop(rr, ss, res, top, sn);
    low := rr[..];
    q := res[..top];
  }

  lemma QuotientNotEmpty(q: seq<Word>, va: nat, vb: nat, r: nat)
    requires va >= vb > r && va == Val(q) * vb + r
    ensures q != []
  {
  }

  /** Lines 167-374 of BN_div, on magnitudes. */
  method DivideMagnitudes(a: seq<Word>, b: seq<Word>, noBranch: bool) returns (q: seq<Word>, r: seq<Word>)
    requires Normal(a) && Normal(b) && b != [] && (noBranch || Val(a) >= Val(b))
    ensures Val(a) == Val(q) * Val(b) + Val(r) && Val(r) < Val(b)
    ensures Normal(q) && Normal(r)
    ensures !noBranch ==> q != []
  {
    hide Val, Pow, Dividing;
    var sn, sd, shift := Normalise(a, b, noBranch);
    var digits, low := DivideWindows(sn, sd, noBranch);
    FinishDivision(sn, low, digits, |sd|, Val(a), Val(b), shift);
    low := CorrectTop(low);
    r := ShiftRight(low, shift + BITS);
    q := digits;
    if noBranch {
      q := CorrectTop(q);
    } else {
      QuotientNotEmpty(q, Val(a), Val(b), Val(r));
    }
  }
}
