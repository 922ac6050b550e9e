/** Decimal printing and parsing of a BIGNUM (crypto/bn/convert.c). */
module Decimal {
  import opened Arith
  import opened Bytes
  import opened Limbs
  import opened LongDivision
  import opened BigNums
  import opened WordOps

  /** BN_DEC_NUM digits fit in a word; BN_DEC_CONV is 10 to that power. */
  const DEC_NUM: nat := 19
  const DEC_CONV: Word := 10_000_000_000_000_000_000

  lemma DecConv()
    ensures Pow(10, DEC_NUM) == DEC_CONV
  {
    assert Pow(10, 4) == 10_000;
    PowAdd(10, 4, 4);
    PowAdd(10, 8, 8);
    assert Pow(10, 3) == 1000;
    PowAdd(10, 16, 3);
  }

  // ---------------------------------------------------------------- decimal text

  function Chars(ds: seq<nat>): (s: string)
    requires forall i :: 0 <= i < |ds| ==> ds[i] < 10
    ensures |s| == |ds| && forall i :: 0 <= i < |s| ==> s[i] == DigitChar(ds[i])
  {
    if ds == [] then [] else Chars(ds[..|ds| - 1]) + [DigitChar(ds[|ds| - 1])]
  }

  /** The decimal text of a number: a sign if it is negative, no leading zero. */
  function Text(v: int): string {
    if v == 0 then "0" else (if v < 0 then "-" else "") + Chars(Digits(Abs(v), 10))
  }

  /** Cutting a number at the k-th digit. */
  lemma {:induction false} DigitsCut(high: nat, low: nat, k: nat)
    requires high > 0 && low < Pow(10, k)
    ensures Digits(high * Pow(10, k) + low, 10) == Digits(high, 10) + Padded(low, k, 10)
    decreases k
  {
    if k > 0 {
      QuotientBelow(low, 10, Pow(10, k - 1));
      DigitsCut(high, low / 10, k - 1);
      var front := high * Pow(10, k - 1) + low / 10;
      Recompose(low, 10);
      LastDigit(high, Pow(10, k - 1), low);
      QuotientDigit(front, low % 10, 10);
      assert Digits(high, 10) + Padded(low / 10, k - 1, 10) + [low % 10] ==
             Digits(high, 10) + (Padded(low / 10, k - 1, 10) + [low % 10]);
    }
  }

  lemma LastDigit(high: nat, p: nat, low: nat)
    ensures high * (10 * p) + low == (high * p + low / 10) * 10 + low % 10
  {
  }

  // ---------------------------------------------------------------- the buffer bound

  /** BN_bn2dec's estimate of the digits of a number of b bits. */
  function Estimate(b: nat): nat {
    b * 3 / 10 + b * 3 / 1000 + 1 + 1
  }

  /** 1024^100 <= 11 * 1000^100, by repeated squaring of 1024^10 rounded up. */
  lemma ThousandBits()
    ensures Pow(1024, 100) <= 11 * Pow(1000, 100)
  {
    hide Pow;
    Power10(1024);
    Power10(1000);
    PowPower(1024, 10, 10);
    PowPower(1000, 10, 10);
    Power10(Pow(1024, 10));
    Power10(Pow(1000, 10));
    Chain(1024, 1000);
  }

  /** x^10 by multiplications. */
  lemma Power10(x: nat)
    ensures Pow(x, 10) == x * x * (x * x) * (x * x * (x * x)) * (x * x)
  {
    PowAdd(x, 4, 4);
    PowAdd(x, 8, 2);
    PowAdd(x, 2, 2);
    PowAdd(x, 1, 1);
  }

  lemma Chain(x: nat, y: nat)
    requires x == 1024 && y == 1000
    ensures Tenth(Tenth(x)) <= 11 * Tenth(Tenth(y))
  {
  }

  function Tenth(x: nat): nat {
    x * x * (x * x) * (x * x * (x * x)) * (x * x)
  }

  lemma {:induction false} PowBase(x: nat, y: nat, n: nat)
    requires x <= y
    ensures Pow(x, n) <= Pow(y, n)
  {
    if n > 0 {
      PowBase(x, y, n - 1);
      MulBounds(x, y, Pow(x, n - 1), Pow(y, n - 1));
    }
  }

  lemma MulBounds(a: nat, b: nat, x: nat, y: nat)
    requires a <= b && x <= y
    ensures a * x <= b * y
  {
  }

  /** The excess of 1024 over 1000 stays below 11 for a hundred factors. */
  lemma TenBits(u: nat)
    requires u <= 100
    ensures Pow(1024, u) <= 11 * Pow(1000, u)
  {
    hide Pow;
    ThousandBits();
    PowAdd(1024, u, 100 - u);
    PowAdd(1000, u, 100 - u);
    PowBase(1000, 1024, 100 - u);
    PowPositive(1000, 100 - u);
    CancelFactor(Pow(1024, u), Pow(1000, u), Pow(1024, 100 - u), Pow(1000, 100 - u));
  }

  lemma CancelFactor(a: nat, b: nat, x: nat, y: nat)
    requires a * x <= 11 * (b * y) && 0 < y <= x
    ensures a <= 11 * b
  {
  }

  lemma FewBits(v: nat)
    requires v < 10
    ensures Pow(2, v) <= 8 * Pow(10, 3 * v / 10)
  {
    hide Pow;
    SmallPowers();
    assert v == 0 || v == 1 || v == 2 || v == 3 || v == 4 || v == 5 || v == 6 || v == 7 || v == 8 || v == 9;
  }

  lemma SmallPowers()
    ensures Pow(2, 0) == 1 && Pow(2, 1) == 2 && Pow(2, 2) == 4 && Pow(2, 3) == 8 && Pow(2, 4) == 16
    ensures Pow(2, 5) == 32 && Pow(2, 6) == 64 && Pow(2, 7) == 128 && Pow(2, 8) == 256 && Pow(2, 9) == 512
    ensures Pow(10, 0) == 1 && Pow(10, 1) == 10 && Pow(10, 2) == 100 && Pow(10, 3) == 1000
  {
  }

  lemma ThousandsOfBits(q: nat)
    ensures Pow(2, 1000 * q) <= Pow(10, 303 * q)
  {
    hide Pow;
    SmallPowers();
    TenBits(100);
    assert Pow(1024, 1) == 1024 && Pow(2, 10) == 1024 by {
      PowAdd(2, 5, 5);
      PowOnce(1024);
    }
    PowPower(2, 10, 100);
    PowPower(10, 3, 100);
    PowAdd(10, 3, 300);
    assert Pow(2, 1000) <= Pow(10, 303);
    PowBase(Pow(2, 1000), Pow(10, 303), q);
    PowPower(2, 1000, q);
    PowPower(10, 303, q);
  }

  lemma PowOnce(x: nat)
    ensures Pow(x, 1) == x
  {
  }

  lemma EstimateFrom(q: nat, u: nat, v: nat)
    requires u < 100 && v < 10
    ensures Estimate(1000 * q + 10 * u + v) >= 303 * q + 3 * u + 3 * v / 10 + 2
  {
  }

  /** The estimate is enough: a number of b bits has no more decimal digits than BN_bn2dec allows for. */
  lemma EstimateIsEnough(b: nat)
    ensures Pow(2, b) <= Pow(10, Estimate(b))
  {
    hide Pow, Estimate;
    var q, u, v := b / 1000, b % 1000 / 10, b % 10;
    var e := 303 * q + 3 * u + 3 * v / 10;
    EstimateFrom(q, u, v);
    ThousandsOfBits(q);
    TenBits(u);
    FewBits(v);
    SmallPowers();
    PowAdd(2, 5, 5);
    PowPower(2, 10, u);
    PowPower(10, 3, u);
    PowAdd(2, 1000 * q, 10 * u + v);
    PowAdd(2, 10 * u, v);
    var w := 3 * v / 10;
    PowAdd(10, 303 * q, 3 * u + w);
    PowAdd(10, 3 * u, w);
    Combined(Pow(2, 1000 * q), Pow(2, 10 * u), Pow(2, v), Pow(10, 303 * q), Pow(10, 3 * u), Pow(10, w));
    PowAdd(10, 2, e);
    PowMonotone(10, e + 2, Estimate(b));
  }

  /** Three factors, each nearly bounded by its power of ten. */
  lemma Combined(a: nat, b: nat, c: nat, x: nat, y: nat, z: nat)
    requires a <= x && b <= 11 * y && c <= 8 * z
    ensures a * (b * c) <= 100 * (x * (y * z))
  {
    MulBounds(b, 11 * y, c, 8 * z);
    Regroup(y, z);
    MulBounds(a, x, b * c, 88 * (y * z));
    Scaled(x, y * z);
  }

  lemma Regroup(x: nat, y: nat)
    ensures 11 * x * (8 * y) == 88 * (x * y)
  {
  }

  lemma Scaled(x: nat, y: nat)
    ensures x * (88 * y) <= 100 * (x * y)
  {
  }

  // ---------------------------------------------------------------- printing

  /** Words as digits of base 10^19, the lowest first. */
  function Blocks(ws: seq<Word>): nat {
    if ws == [] then 0 else Blocks(ws[..|ws| - 1]) + ws[|ws| - 1] * Pow(DEC_CONV, |ws| - 1)
  }

  lemma PushBlock(v: nat, t: nat, q: nat, w: Word, ws: seq<Word>)
    requires v == t * Pow(DEC_CONV, |ws|) + Blocks(ws) && t == q * DEC_CONV + w
    ensures v == q * Pow(DEC_CONV, |ws| + 1) + Blocks(ws + [w])
  {
    var p := Pow(DEC_CONV, |ws|);
    assert (ws + [w])[..|ws|] == ws;
    PushArith(q, w, p);
  }

  lemma PushArith(q: nat, w: nat, p: nat)
    ensures (q * DEC_CONV + w) * p == q * (DEC_CONV * p) + w * p
  {
  }

  /** The first loop of BN_bn2dec: blocks of 19 digits, the lowest first, into an array that is long enough. */
  method Split(t: BigNum, data: array<Word>, num: nat) returns (lp: nat)
    requires Normal(t.d) && t.d != [] && data.Length == num / DEC_NUM + 1 && Val(t.d) < Pow(10, num)
    modifies t`d, data
    ensures 0 < lp <= data.Length && data[lp - 1] > 0
    ensures forall i :: 0 <= i < lp ==> data[i] < DEC_CONV
    ensures Blocks(data[..lp]) == old(Val(t.d))
  {
    hide Val, Pow, Blocks;
    ghost var v := Val(t.d);
    PositiveValue(t.d);
    lp := 0;
    assert v == v * Pow(DEC_CONV, 0) + Blocks(data[..0]) by {
      NoBlocks();
    }
    while t.d != []
      invariant lp <= data.Length && Normal(t.d) && v < Pow(10, num)
      invariant v == Val(t.d) * Pow(DEC_CONV, lp) + Blocks(data[..lp])
      invariant forall i :: 0 <= i < lp ==> data[i] < DEC_CONV
      invariant t.d == [] ==> lp > 0 && data[lp - 1] > 0
      decreases Val(t.d)
    {
      PositiveValue(t.d);
      RoomForBlock(v, Val(t.d), lp, Blocks(data[..lp]), num);
      ghost var before, ws := Val(t.d), data[..lp];
      var w := DivWord(t, DEC_CONV);
      PushBlock(v, before, Val(t.d), w, ws);
      data[lp] := w;
      assert data[..lp + 1] == ws + [w];
      lp := lp + 1;
      if t.d == [] {
        NoWords();
      }
      QuotientSmaller(before, Val(t.d), w);
    }
    NoWords();
  }

  lemma QuotientSmaller(t: nat, q: nat, w: nat)
    requires t > 0 && t == q * DEC_CONV + w
    ensures q < t
  {
  }

  lemma NoBlocks()
    ensures Pow(DEC_CONV, 0) == 1 && Blocks([]) == 0
  {
  }

  /** While something is left the array still has a free word. */
  lemma RoomForBlock(v: nat, t: nat, lp: nat, low: nat, num: nat)
    requires v == t * Pow(DEC_CONV, lp) + low && t > 0 && v < Pow(10, num)
    ensures lp <= num / DEC_NUM
  {
    hide Pow;
    DecConv();
    PowPower(10, DEC_NUM, lp);
    MulMonotone(1, t, Pow(DEC_CONV, lp));
    if DEC_NUM * lp >= num {
      PowMonotone(10, num, DEC_NUM * lp);
      assert false;
    }
  }

  /** BIO_snprintf where there is room: the text and a NUL. */
  method PutText(buf: array<char>, p: nat, s: string) returns (q: nat)
    requires p + |s| < buf.Length
    modifies buf
    ensures q == p + |s| && buf[..q] == old(buf[..p]) + s
  {
    var i := 0;
    while i < |s|
      invariant 0 <= i <= |s| && buf[..p + i] == old(buf[..p]) + s[..i]
    {
      buf[p + i] := s[i];
      i := i + 1;
    }
    buf[p + i] := '\0';
    q := p + i;
  }

  lemma {:induction false} CharsAppend(a: seq<nat>, b: seq<nat>)
    requires forall i :: 0 <= i < |a| ==> a[i] < 10
    requires forall i :: 0 <= i < |b| ==> b[i] < 10
    ensures Chars(a + b) == Chars(a) + Chars(b)
  {
  }

  /** The second loop: the highest block without, the others with leading zeros; the text always fits. */
  method Join(buf: array<char>, start: nat, data: array<Word>, n: nat, ghost v: nat, num: nat) returns (p: nat)
    requires 0 < n <= data.Length && data[n - 1] > 0 && start <= 1 && buf.Length == num + 3
    requires forall i :: 0 <= i < n ==> data[i] < DEC_CONV
    requires v == Blocks(data[..n]) && v < Pow(10, num)
    modifies buf
    ensures start <= p <= buf.Length && buf[..p] == old(buf[..start]) + Chars(Digits(v, 10))
  {
    hide Pow, Digits, Padded, Chars, Blocks;
    var lp := n - 1;
    ghost var high: nat, prefix, ws := data[lp], buf[..start], data[..n];
    HighBlock(ws, num);
    p := PutText(buf, start, Chars(Digits(data[lp], 10)));
    while lp != 0
      invariant 0 <= lp < n && high > 0 && v == high * Pow(DEC_CONV, lp) + Blocks(ws[..lp])
      invariant start <= p <= buf.Length
      invariant buf[..p] == prefix + Chars(Digits(high, 10))
    {
      lp := lp - 1;
      var w := data[lp];
      assert ws[..lp + 1][lp] == w && ws[..lp + 1][..lp] == ws[..lp];
      NextBlock(ws[..lp + 1], high, num, v);
      CharsAppend(Digits(high, 10), Padded(w, DEC_NUM, 10));
      p := PutText(buf, p, Chars(Padded(w, DEC_NUM, 10)));
      high := high * DEC_CONV + w;
    }
    assert high * Pow(DEC_CONV, 0) + Blocks(ws[..0]) == high by {
      NoBlocks();
    }
  }

  lemma HighBlock(ws: seq<Word>, num: nat)
    requires ws != [] && ws[|ws| - 1] > 0 && Blocks(ws) < Pow(10, num)
    ensures Blocks(ws) == ws[|ws| - 1] * Pow(DEC_CONV, |ws| - 1) + Blocks(ws[..|ws| - 1])
    ensures |Digits(ws[|ws| - 1], 10)| <= num
  {
    hide Pow, Digits;
    var w, p := ws[|ws| - 1], Pow(DEC_CONV, |ws| - 1);
    PowPositive(DEC_CONV, |ws| - 1);
    MulMonotone(1, p, w);
    DigitsLength(w, 10, num);
  }

  /** Taking in one more block. */
  lemma NextBlock(ws: seq<Word>, high: nat, num: nat, v: nat)
    requires ws != [] && high > 0 && ws[|ws| - 1] < DEC_CONV && v < Pow(10, num)
    requires v == high * Pow(DEC_CONV, |ws|) + Blocks(ws)
    ensures var w, next := ws[|ws| - 1], high * DEC_CONV + ws[|ws| - 1];
            && v == next * Pow(DEC_CONV, |ws| - 1) + Blocks(ws[..|ws| - 1])
            && Digits(next, 10) == Digits(high, 10) + Padded(w, DEC_NUM, 10) && |Digits(next, 10)| <= num
  {
    hide Digits, Padded;
    var w, p := ws[|ws| - 1], Pow(DEC_CONV, |ws| - 1);
    var next := high * DEC_CONV + w;
    PushArith(high, w, p);
    DecConv();
    DigitsCut(high, w, DEC_NUM);
    PowPositive(DEC_CONV, |ws| - 1);
    MulMonotone(1, p, next);
    DigitsLength(next, 10, num);
  }

  /** BN_bn2dec: the decimal text of the value. Every write is inside the two buffers. */
  method Bn2Dec(a: BigNum) returns (text: string)
    requires Normal(a.d)
    ensures text == Text(a.Value())
  {
    hide Val, Pow, Digits, NumBits, Estimate, Chars, Text;
    var num := Estimate(NumBits(Val(a.d)));
    var data := new Word[num / DEC_NUM + 1];
    var buf := new char[num + 3];
    var t := new BigNum();
    t.Copy(a);
    ZeroIsEmpty(a.d);
    if t.d == [] {
      buf[0] := '0';
      buf[1] := '\0';
      text := buf[..1];
    } else {
      NumBitsBounds(Val(a.d));
      EstimateIsEnough(NumBits(Val(a.d)));
      text := PrintBlocks(t, data, buf, num);
    }
    SignAndDigits(a.neg, Val(a.d));
  }

  lemma SignAndDigits(neg: bool, v: nat)
    ensures v > 0 ==> Text(if neg then 0 - v else v) == (if neg then "-" else "") + Chars(Digits(v, 10))
    ensures Text(0) == "0"
  {
    hide Digits;
  }

  /** The sign, then both loops. */
  method PrintBlocks(t: BigNum, data: array<Word>, buf: array<char>, num: nat) returns (text: string)
    requires Normal(t.d) && t.d != [] && Val(t.d) < Pow(10, num)
    requires data.Length == num / DEC_NUM + 1 && buf.Length == num + 3
    modifies t`d, data, buf
    ensures text == (if t.neg then "-" else "") + Chars(Digits(old(Val(t.d)), 10))
  {
    hide Val, Pow, Digits, Chars;
    ghost var v := Val(t.d);
    var p := 0;
    if t.neg {
      buf[0] := '-';
      p := 1;
    }
    assert buf[..p] == if t.neg then "-" else "";
    var lp := Split(t, data, num);
    p := Join(buf, p, data, lp, v, num);
    text := buf[..p];
  }

  // ---------------------------------------------------------------- parsing

  function DigitsOf(s: string): (ds: seq<nat>)
    requires forall i :: 0 <= i < |s| ==> IsDigit(s[i])
    ensures |ds| == |s|
  {
    if s == "" then []
    else
      assert IsDigit(s[|s| - 1]);
      var digit: nat := s[|s| - 1] as int - '0' as int;
      DigitsOf(s[..|s| - 1]) + [digit]
  }

  /** What bn_x2bn reads from a non-empty string: an optional minus sign and digits, as many as an int can
      count; the number read, and how many characters were used. */
  function Read(s: string): (int, nat) {
    var neg := if s != "" && s[0] == '-' then 1 else 0;
    var run := WantedRun(s[neg..], IsDigit);
    var n := if run <= INT_MAX - neg then run else INT_MAX - neg;
    var v := Number(0, DigitsOf(s[neg..][..n]), 10);
    (if neg == 1 then 0 - v else v, n + neg)
  }

  /** decode_dec: 19 digits at a time, the first group being shorter. capacity is how many words the array of bn
      holds already; the number is refused exactly when it takes more words than that and than bn_wexpand allows. */
  method DecodeDec(bn: BigNum, s: string, capacity: nat) returns (ok: bool)
    requires bn.d == [] && !bn.neg && forall i :: 0 <= i < |s| ==> IsDigit(s[i])
    modifies bn
    ensures ok <==> Room(capacity, Words(Number(0, DigitsOf(s), 10)))
    ensures ok ==> Normal(bn.d) && bn.Value() == Number(0, DigitsOf(s), 10) && !bn.NegativeZero()
  {
    hide Val, Pow, Number, DigitsOf, Shifted, Aligned, Words, Room;
    var j := DEC_NUM - |s| % DEC_NUM;
    if j == DEC_NUM {
      j := 0;
    }
    var l: Word, i := 0, 0;
    NoWords();
    NothingFits(capacity);
    Start(j, |s|);
    assert s[..0] == "";
    while i < |s|
      invariant 0 <= i <= |s| && 0 <= j < DEC_NUM && Aligned(|s| - i, j)
      invariant Normal(bn.d) && !bn.NegativeZero() && bn.Value() >= 0 && l < Pow(10, j)
      invariant Number(0, DigitsOf(s[..i]), 10) == Shifted(bn.Value(), l, j)
      invariant Room(capacity, Words(bn.Value()))
    {
      var digit: nat := s[i] as nat - '0' as nat;
      NextDigit(s, i, digit);
      TakeDigit(bn.Value(), j, l, digit);
      AlignedStep(|s| - i, j);
      l := l * 10 + digit;
      j := j + 1;
      i := i + 1;
      if j == DEC_NUM {
        ok := TakeGroup(bn, l, capacity);
        if !ok {
          PrefixSmaller(s, i);
          Outgrown(Number(0, DigitsOf(s[..i]), 10), Number(0, DigitsOf(s), 10), capacity);
          return;
        }
        l := 0;
        j := 0;
      }
    }
    AlignedEnd(bn.Value(), l, j);
    assert s[..|s|] == s;
    ok := true;
  }

  lemma NothingFits(capacity: nat)
    ensures Room(capacity, Words(0))
  {
  }

  /** A number that is too long already does not get shorter. */
  lemma Outgrown(v: nat, w: nat, capacity: nat)
    requires v <= w && !Room(capacity, Words(v))
    ensures !Room(capacity, Words(w))
  {
    WordsMonotone(v, w);
  }

  lemma {:induction false} PrefixSmaller(s: string, i: nat)
    requires i <= |s| && forall k :: 0 <= k < |s| ==> IsDigit(s[k])
    ensures Number(0, DigitsOf(s[..i]), 10) <= Number(0, DigitsOf(s), 10)
    decreases |s| - i
  {
    if i == |s| {
      assert s[..i] == s;
    } else {
      hide Number, DigitsOf;
      NextDigit(s, i, s[i] as int - '0' as int);
      PrefixSmaller(s, i + 1);
    }
  }

  /** The number read so far: v, and l with the j digits of the group being read. */
  function Shifted(v: int, l: nat, j: nat): int {
    v * Pow(10, j) + l
  }

  /** With j digits of a group read, what remains of the text ends with a whole group. */
  predicate Aligned(rest: int, j: int) {
    (rest + j) % DEC_NUM == 0
  }

  lemma AlignedStep(rest: int, j: int)
    requires Aligned(rest, j)
    ensures Aligned(rest - 1, j + 1) && (j + 1 == DEC_NUM ==> Aligned(rest - 1, 0))
  {
  }

  lemma AlignedEnd(v: int, l: nat, j: nat)
    requires Aligned(0, j) && j < DEC_NUM && l < Pow(10, j)
    ensures Shifted(v, l, j) == v
  {
  }

  /** BN_mul_word and BN_add_word, both refusing a result that has no room. */
  method TakeGroup(bn: BigNum, l: Word, capacity: nat) returns (ok: bool)
    requires Normal(bn.d) && bn.Value() >= 0
    modifies bn`d, bn`neg
    ensures ok <==> Room(capacity, Words(old(Shifted(bn.Value(), l, DEC_NUM))))
    ensures ok ==> Normal(bn.d) && !bn.NegativeZero() && bn.Value() >= 0
    ensures ok ==> Shifted(bn.Value(), 0, 0) == old(Shifted(bn.Value(), l, DEC_NUM)) == bn.Value() && Pow(10, 0) == 1
  {
    hide Val, Pow, Words, Room;
    DecConv();
    NoShift();
    var product: nat := bn.Value() * DEC_CONV;
    ok := Room(capacity, Words(product));
    if !ok {
      Outgrown(product, product + l, capacity);
      return;
    }
    bn.Set(product);
    ok := Room(capacity, Words(product + l));
    if !ok {
      return;
    }
    AddWord(bn, l);
  }

  lemma NoShift()
    ensures Pow(10, 0) == 1
  {
  }

  lemma NextDigit(s: string, i: nat, digit: nat)
    requires i < |s| && (forall k :: 0 <= k < |s| ==> IsDigit(s[k])) && digit == s[i] as int - '0' as int
    ensures Number(0, DigitsOf(s[..i + 1]), 10) == Number(0, DigitsOf(s[..i]), 10) * 10 + digit
  {
    hide Number;
    assert s[..i + 1][..i] == s[..i];
    NumberSnoc(0, DigitsOf(s[..i]), digit, 10);
  }

  lemma Start(j: nat, n: nat)
    requires j == if n % DEC_NUM == 0 then 0 else DEC_NUM - n % DEC_NUM
    ensures Pow(10, j) > 0 && Aligned(n, j) && Number(0, DigitsOf(""), 10) == Shifted(0, 0, j)
  {
    hide Pow;
    PowPositive(10, j);
    NoShift();
    if n % DEC_NUM == 0 {
      EuclidUnique(n + j, DEC_NUM, n / DEC_NUM, 0);
    } else {
      EuclidUnique(n + j, DEC_NUM, n / DEC_NUM + 1, 0);
    }
  }

  lemma TakeDigit(v: nat, j: nat, l: nat, digit: nat)
    requires j < DEC_NUM && l < Pow(10, j) && digit < 10
    ensures Shifted(v, l, j) * 10 + digit == Shifted(v, l * 10 + digit, j + 1)
    ensures l * 10 + digit < Pow(10, j + 1) <= DEC_CONV
  {
    PowMonotone(10, j + 1, DEC_NUM);
    DecConv();
    TakeArith(v, Pow(10, j));
  }

  lemma TakeArith(v: nat, p: nat)
    ensures v * p * 10 == v * (10 * p)
  {
  }

  /** BN_dec2bn into an existing BIGNUM whose array holds `capacity` words. */
  method Dec2Bn(out: BigNum, s: string, capacity: nat) returns (num: nat)
    modifies out
    ensures s == "" ==> num == 0 && unchanged(out)
    ensures s != "" && Room(capacity, Words(Read(s).0)) ==>
              Normal(out.d) && (out.Value(), num) == Read(s) && !out.NegativeZero()
    ensures s != "" && !Room(capacity, Words(Read(s).0)) ==> num == 0
  {
    hide Number, DigitsOf, Val, Words, Room;
    if s == "" {
      return 0;
    }
    var neg: nat := if s[0] == '-' then 1 else 0;
    var i := ScanWanted(s, neg, IsDigit);
    num := i + neg;
    out.d, out.neg := [], false;
    var ok := DecodeDec(out, s[neg..][..i], capacity);
    SameWords(Number(0, DigitsOf(s[neg..][..i]), 10));
    if !ok {
      return 0;
    }
    if out.d != [] {
      out.neg := neg == 1;
    }
    NoWords();
  }

  lemma SameWords(v: int)
    ensures Words(v) == Words(0 - v)
  {
  }

  // ---------------------------------------------------------------- round trip

  lemma {:induction false} DigitsOfChars(ds: seq<nat>)
    requires forall i :: 0 <= i < |ds| ==> ds[i] < 10
    ensures DigitsOf(Chars(ds)) == ds
  {
    if ds != [] {
      var n := |ds| - 1;
      DigitsOfChars(ds[..n]);
      assert Chars(ds)[..n] == Chars(ds[..n]);
      assert ds == ds[..n] + [ds[n]];
    }
  }

  /** Reading the text of any integer gives it back and uses every character, as long as an int can count
      them. */
  lemma TextReads(v: int)
    requires |Text(v)| <= INT_MAX
    ensures Read(Text(v)) == (v, |Text(v)|)
  {
    hide Number, Digits, DigitsOf, Chars;
    var s := Text(v);
    if v == 0 {
      ZeroReads();
    } else {
      var ds := Digits(Abs(v), 10);
      var neg := if v < 0 then 1 else 0;
      assert s[neg..] == Chars(ds);
      assert v > 0 ==> s[0] == Chars(ds)[0];
      AllWanted(Chars(ds), IsDigit);
      DigitsOfChars(ds);
      DigitsNumber(Abs(v), 10);
      assert Chars(ds)[..|ds|] == Chars(ds);
    }
  }

  lemma ZeroReads()
    ensures Read("0") == (0, 1)
  {
    assert "0"[1..] == "" && WantedRun("0", IsDigit) == 1;
    assert "0"[0..] == "0" && "0"[..1] == "0" && "0"[..0] == "";
    assert DigitsOf("0") == [0] && [0][1..] == [];
  }

  /** BN_dec2bn of what BN_bn2dec printed, for every number the library allocates itself. */
  method PrintAndRead(a: BigNum, out: BigNum, capacity: nat) returns (num: nat)
    requires Normal(a.d) && out != a && |a.d| <= MAX_WORDS
    modifies out
    ensures Normal(out.d) && out.Value() == a.Value() && num == |Text(a.Value())|
  {
    hide Read, Text, Val, Words;
    var text := Bn2Dec(a);
    TextFits(a.d, a.neg);
    TextReads(a.Value());
    TextNotEmpty(a.Value());
    num := Dec2Bn(out, text, capacity);
  }

  /** An int counts the characters of the longest such number. */
  lemma TextFits(d: seq<Word>, neg: bool)
    requires Normal(d) && |d| <= MAX_WORDS
    ensures var v := if neg then 0 - Val(d) else Val(d); |Text(v)| <= INT_MAX && Words(v) == |d|
  {
    hide Val, Pow, Digits, Chars, Estimate, NumBits;
    var v := Val(d);
    NormalUnique(d, FromNat(v));
    SignAndDigits(neg, v);
    assert 0 - 0 == 0;
    ValBound(d);
    WordPower(|d|);
    var b := BITS * |d|;
    EstimateIsEnough(b);
    DigitsLength(v, 10, Estimate(b));
    EstimateSmall(b);
  }

  lemma EstimateSmall(b: nat)
    requires b <= BITS * MAX_WORDS
    ensures Estimate(b) < INT_MAX
  {
  }

  lemma TextNotEmpty(v: int)
    ensures Text(v) != ""
  {
  }
}
