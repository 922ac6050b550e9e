/** Octets, and numbers written big-endian in some base. */
module Bytes {
  import opened Arith

  type Byte = x: nat | x < 256

  datatype Option<T> = None | Some(value: T)

  function Zeros(n: nat): (z: seq<Byte>)
    ensures |z| == n && forall i :: 0 <= i < n ==> z[i] == 0
  {
    seq(n, i => 0)
  }

  /** The shortest digits of x, most significant first; none for 0. */
  function Digits(x: nat, base: nat): (s: seq<nat>)
    requires base >= 2
    ensures forall i :: 0 <= i < |s| ==> s[i] < base
    ensures x == 0 <==> s == []
    ensures x > 0 ==> s[0] > 0
  {
    if x == 0 then [] else Digits(x / base, base) + [x % base]
  }

  lemma DigitsUnfold(x: nat, base: nat)
    requires base >= 2
    ensures Digits(0, base) == [] && (x > 0 ==> Digits(x, base) == Digits(x / base, base) + [x % base])
  {
  }

  lemma Shrinks(t: nat, base: nat)
    requires base >= 2 && t > 0
    ensures t / base < t
  {
    QuotientBelow(t, base, t);
  }

  /** Reading further digits after a number that is already known. */
  function Number(acc: nat, s: seq<nat>, base: nat): nat
    decreases |s|
  {
    if s == [] then acc else Number(acc * base + s[0], s[1..], base)
  }

  lemma {:induction false} NumberSnoc(acc: nat, s: seq<nat>, d: nat, base: nat)
    ensures Number(acc, s + [d], base) == Number(acc, s, base) * base + d
    decreases |s|
  {
    if s == [] {
      assert [d][1..] == [];
    } else {
      assert (s + [d])[1..] == s[1..] + [d];
      NumberSnoc(acc * base + s[0], s[1..], d, base);
    }
  }

  lemma {:induction false} DigitsNumber(x: nat, base: nat)
    requires base >= 2
    ensures Number(0, Digits(x, base), base) == x
  {
    hide Digits;
    DigitsUnfold(x, base);
    if x > 0 {
      Shrinks(x, base);
      hide Number;
      DigitsNumber(x / base, base);
      NumberSnoc(0, Digits(x / base, base), x % base, base);
      Recompose(x, base);
    }
  }

  lemma {:induction false} DigitsLength(x: nat, base: nat, k: nat)
    requires base >= 2 && x < Pow(base, k)
    ensures |Digits(x, base)| <= k
  {
    hide Digits;
    DigitsUnfold(x, base);
    if x > 0 {
      Shrinks(x, base);
      assert k > 0 by {
        assert Pow(base, 0) == 1;
      }
      QuotientBelow(x, base, Pow(base, k - 1));
      DigitsLength(x / base, base, k - 1);
    }
  }

  /** The k lowest digits of x, with leading zeros. */
  function Padded(x: nat, k: nat, base: nat): (s: seq<nat>)
    requires base >= 2
    ensures |s| == k && forall i :: 0 <= i < k ==> s[i] < base
  {
    if k == 0 then [] else Padded(x / base, k - 1, base) + [x % base]
  }

  lemma {:induction false} PaddedNumber(x: nat, k: nat, base: nat)
    requires base >= 2 && x < Pow(base, k)
    ensures Number(0, Padded(x, k, base), base) == x
  {
    if k > 0 {
      hide Number;
      QuotientBelow(x, base, Pow(base, k - 1));
      PaddedNumber(x / base, k - 1, base);
      NumberSnoc(0, Padded(x / base, k - 1, base), x % base, base);
      Recompose(x, base);
    }
  }

  /** Digits are the padded digits of the number they stand for, so no others do. */
  lemma {:induction false} NumberPadded(s: seq<nat>, base: nat)
    requires base >= 2 && forall i :: 0 <= i < |s| ==> s[i] < base
    ensures Padded(Number(0, s, base), |s|, base) == s
    ensures Number(0, s, base) < Pow(base, |s|)
    decreases |s|
  {
    if s != [] {
      hide Number;
      var n := |s| - 1;
      var front, d := s[..n], s[n];
      assert s == front + [d];
      NumberPadded(front, base);
      NumberSnoc(0, front, d, base);
      QuotientDigit(Number(0, front, base), d, base);
      NextPlace(Number(0, front, base), Pow(base, n), d, base);
    }
  }

  lemma NextPlace(v: nat, p: nat, d: nat, base: nat)
    requires v < p && d < base
    ensures v * base + d < base * p
  {
    MulMonotone(v + 1, p, base);
  }

  /** Byte k of a number. */
  function ByteAt(x: nat, k: nat): Byte {
    if k == 0 then x % 256 else ByteAt(x / 256, k - 1)
  }

  /** Padded octets are the bytes from the top down. */
  lemma {:induction false} PaddedAt(x: nat, k: nat, j: nat)
    requires j < k
    ensures Padded(x, k, 256)[j] == ByteAt(x, k - 1 - j)
  {
    if j < k - 1 {
      PaddedAt(x / 256, k - 1, j);
    }
  }

  lemma {:induction false} HighBytesZero(x: nat, k: nat, n: nat)
    requires x < Pow(256, n) && n <= k
    ensures ByteAt(x, k) == 0
  {
    if n > 0 {
      HighBytesZero(x / 256, k - 1, n - 1);
    } else if k > 0 {
      HighBytesZero(x / 256, k - 1, 0);
    }
  }

  /** Octets, and whether the first one is full, as the number of bits tells. */
  lemma {:induction false} BitsAndOctets(u: nat)
    ensures |Digits(u, 256)| == (NumBits(u) + 7) / 8
    ensures NumBits(u) % 8 == 0 <==> u == 0 || Digits(u, 256)[0] > 127
  {
    hide NumBits;
    if u >= 256 {
      BitsAndOctets(u / 256);
      EightMore(u);
    } else if u > 0 {
      assert Digits(0, 256) == [];
      assert Digits(u, 256) == [u];
      ByteBits(u);
    } else {
      NumBitsZero(0);
    }
  }

  lemma EightMore(u: nat)
    requires u >= 256
    ensures NumBits(u) == NumBits(u / 256) + 8
  {
    hide NumBits, Pow;
    NumBitsBounds(u / 256);
    var k := NumBits(u / 256);
    PowTwoEight();
    PowAdd(2, k, 8);
    PowAdd(2, k - 1, 8);
    MulMonotone(u / 256 + 1, Pow(2, k), 256);
    MulMonotone(Pow(2, k - 1), u / 256, 256);
    NumBitsUnique(u, k + 8);
  }

  lemma PowTwoEight()
    ensures Pow(2, 8) == 256 && Pow(2, 7) == 128
  {
  }

  lemma ByteBits(d: nat)
    requires 0 < d < 256
    ensures 1 <= NumBits(d) <= 8 && (NumBits(d) == 8 <==> d > 127)
  {
    hide NumBits, Pow;
    PowTwoEight();
    NumBitsBounds(d);
    if NumBits(d) > 8 {
      PowMonotone(2, 8, NumBits(d) - 1);
      assert false;
    }
    if NumBits(d) <= 7 {
      PowMonotone(2, NumBits(d), 7);
    }
  }

  lemma QuotientDigit(q: nat, d: nat, base: nat)
    requires d < base
    ensures (q * base + d) / base == q && (q * base + d) % base == d
  {
    EuclidUnique(q * base + d, base, q, d);
  }

  lemma DivideTwice(v: nat, a: nat, b: nat)
    requires a > 0 && b > 0
    ensures a * b > 0 && v / (a * b) == v / a / b
  {
    var q, r := v / a / b, v / a % b;
    assert v / a == b * q + r && v == a * (v / a) + v % a;
    DivideArith(v, a, b, q, r, v % a);
    EuclidUnique(v, a * b, q, a * r + v % a);
  }

  lemma DivideArith(v: int, a: int, b: int, q: int, r: int, s: int)
    requires a > 0 && b > 0 && v == a * (b * q + r) + s && 0 <= r < b && 0 <= s < a
    ensures a * b > 0 && v == (a * b) * q + (a * r + s) && 0 <= a * r + s < a * b
  {
    MulMonotone(r + 1, b, a);
  }

  lemma QuotientBelow(x: nat, base: nat, p: nat)
    requires base > 0 && x < base * p
    ensures x / base < p
  {
  }

  lemma Recompose(x: nat, base: nat)
    requires base > 0
    ensures x / base * base + x % base == x
  {
  }

  // ---------------------------------------------------------------- decimal characters

  predicate IsDigit(c: char) {
    '0' <= c <= '9'
  }

  function DigitChar(n: nat): char
    requires n < 10
  {
    '0' + n as char
  }

  /** How many wanted characters a string starts with. */
  function WantedRun(s: string, want: char -> bool): (n: nat)
    ensures n <= |s| && (forall i :: 0 <= i < n ==> want(s[i])) && (n < |s| ==> !want(s[n]))
  {
    if s != "" && want(s[0]) then 1 + WantedRun(s[1..], want) else 0
  }

  lemma AllWanted(s: string, want: char -> bool)
    requires forall i :: 0 <= i < |s| ==> want(s[i])
    ensures WantedRun(s, want) == |s|
  {
  }

  /** The loop of bn_x2bn: how many wanted characters follow the sign, as far as an int counts both. */
  method ScanWanted(s: string, neg: nat, want: char -> bool) returns (i: nat)
    requires neg <= |s| && neg <= 1
    ensures i == var run := WantedRun(s[neg..], want); if run <= INT_MAX - neg then run else INT_MAX - neg
  {
    i := 0;
    ghost var run := WantedRun(s[neg..], want);
    while neg + i < |s| && want(s[neg + i]) && i + neg < INT_MAX
      invariant i <= run && i + neg <= INT_MAX
    {
      assert s[neg + i] == s[neg..][i];
      i := i + 1;
    }
    if i < run {
      assert s[neg + i] == s[neg..][i];
    }
  }
}
