/** Big-endian octets of a BIGNUM (crypto/bn/convert.c): reading them, writing the shortest ones, and writing a
    given number of them without branching on the value. */
module BinaryForm {
  import opened Arith
  import opened Bytes
  import opened Limbs
  import opened Congruence
  import opened SignedSums

  // ---------------------------------------------------------------- octets of words

  /** The bytes of low + 256^n * high are those of low, and then those of high. */
  lemma {:induction false} BytesSplit(low: nat, high: nat, n: nat, k: nat)
    requires low < Pow(256, n)
    ensures ByteAt(low + Pow(256, n) * high, k) == if k < n then ByteAt(low, k) else ByteAt(high, k - n)
  {
    if n == 0 {
      assert Pow(256, 0) == 1;
    } else {
      var p := Pow(256, n - 1);
      QuotientBelow(low, 256, p);
      LowPart(low, high, p);
      if k > 0 {
        BytesSplit(low / 256, high, n - 1, k - 1);
      }
    }
  }

  lemma LowPart(low: nat, high: nat, p: nat)
    ensures var v := low + 256 * p * high; v % 256 == low % 256 && v / 256 == low / 256 + p * high
  {
    EuclidUnique(low + 256 * p * high, 256, low / 256 + p * high, low % 256);
  }

  /** Byte i of a magnitude is a byte of word i / 8, or 0 above the words. */
  lemma {:induction false} WordByte(s: seq<Word>, i: nat)
    ensures ByteAt(Val(s), i) == if i / 8 < |s| then ByteAt(s[i / 8], i % 8) else 0
  {
    if s == [] {
      HighBytesZero(0, i, 0);
    } else {
      BytePower(1);
      assert Pow(BASE, 1) == BASE;
      BytesSplit(s[0], Val(s[1..]), 8, i);
      if i >= 8 {
        WordByte(s[1..], i - 8);
      }
    }
  }

  lemma {:induction false} ShiftQuotient(x: nat, k: nat)
    ensures Pow(2, k) > 0 && Sh(x, k) == x / Pow(2, k)
  {
    PowPositive(2, k);
    if k > 0 {
      ShiftQuotient(x, k - 1);
      DivideTwice(x, Pow(2, k - 1), 2);
      assert Pow(2, k) == Pow(2, k - 1) * 2;
    }
  }

  lemma {:induction false} ByteQuotient(x: nat, k: nat)
    ensures Pow(256, k) > 0 && ByteAt(x, k) == x / Pow(256, k) % 256
  {
    PowPositive(256, k);
    if k > 0 {
      ByteQuotient(x / 256, k - 1);
      DivideTwice(x, 256, Pow(256, k - 1));
    }
  }

  /** (l >> (8 * k)) & 0xff. */
  function ShiftedByte(l: Word, k: nat): Byte {
    Sh(l, 8 * k) % 256
  }

  lemma ShiftByte(x: nat, k: nat)
    ensures Sh(x, 8 * k) % 256 == ByteAt(x, k)
    ensures Sh(x, 8 * k) == 0 <==> x < Pow(256, k)
  {
    hide Pow, Sh, ByteAt;
    ShiftQuotient(x, 8 * k);
    ByteQuotient(x, k);
    EightBits();
    PowPower(2, 8, k);
    QuotientZero(x, Pow(256, k));
  }

  lemma EightBits()
    ensures Pow(2, 8) == 256
  {
    PowAdd(2, 4, 4);
    assert Pow(2, 4) == 16;
  }

  lemma QuotientZero(x: nat, p: nat)
    requires p > 0
    ensures x / p == 0 <==> x < p
  {
  }

  // ---------------------------------------------------------------- reading

  /** BN_bin2bn into an existing BIGNUM: the number of the octets, which is not negative. Without any octet the
      sign flag keeps its old value, on a zero. It fails exactly when the octets, leading zeros included, take more
      words than there is room for. */
  method Bin2Bn(ret: Big, input: seq<Byte>) returns (ok: bool)
    requires ret.top <= ret.d.Length
    modifies ret, ret.d
    ensures ok <==> Room(old(ret.d.Length), (|input| + 7) / 8)
    ensures ok ==> ret.Valid() && ret.Value() == Number(0, input, 256)
    ensures ok ==> ret.neg == (input == [] && old(ret.neg))
    ensures !ok ==> unchanged(ret) && ret.d[..] == old(ret.d[..])
    ensures ret.d == old(ret.d) || fresh(ret.d)
  {
    if input == [] {
      ret.top := 0;
      assert ret.d[..0] == [];
      return true;
    }
    var numWords := (|input| - 1) / 8 + 1;
    ok := ret.Expand(numWords);
    if !ok {
      return;
    }
    ret.top := numWords;
    ret.neg := false;
    ReadWords(ret.d, numWords, input);
    ret.CorrectTop();
  }

  /** The octets before the word that is being read have been stored, the others make up `word`. */
  ghost predicate Taken(stored: seq<Word>, word: nat, input: seq<Byte>, k: nat, partial: nat) {
    && k <= |input| && word < Pow(256, partial)
    && Number(0, input[..k], 256) == Val(stored) * Pow(256, partial) + word
  }

  /** The loop of BN_bin2bn. */
  method ReadWords(d: array<Word>, numWords: nat, input: seq<Byte>)
    requires input != [] && numWords == (|input| - 1) / 8 + 1 <= d.Length
    modifies d
    ensures Val(d[..numWords]) == Number(0, input, 256)
  {
    hide Val, Pow, Number;
    var n := numWords;
    var m: nat := (|input| - 1) % 8;
    var word: nat := 0;
    var k := 0;
    ghost var partial: nat := 0;
    NothingTaken(d[n..numWords], input);
    while k < |input|
      invariant k <= |input| && n <= numWords && |input| - k == 8 * n - 8 + (if n > 0 then m + 1 else 8) && m < 8
      invariant n > 0 ==> partial + m + 1 <= 8 && (n < numWords ==> partial + m + 1 == 8)
      invariant n == 0 ==> partial == 0
      invariant Taken(d[n..numWords], word, input, k, partial)
    {
      TakeOctet(d[n..numWords], word, input, k, partial);
      word := word * 256 + input[k];
      partial := partial + 1;
      k := k + 1;
      if m == 0 {
        n := n - 1;
        ghost var stored := d[n + 1..numWords];
        d[n] := word;
        assert d[n..numWords] == [word] + stored;
        StoreWord(stored, word, input, k, partial);
        word, partial := 0, 0;
        m := 7;
      } else {
        m := m - 1;
      }
    }
    assert d[..numWords] == d[0..numWords];
    AllTaken(d[..numWords], word, input);
  }

  lemma NothingTaken(stored: seq<Word>, input: seq<Byte>)
    requires stored == []
    ensures Taken(stored, 0, input, 0, 0)
  {
    assert input[..0] == [];
  }

  lemma TakeOctet(stored: seq<Word>, word: nat, input: seq<Byte>, k: nat, partial: nat)
    requires Taken(stored, word, input, k, partial) && k < |input|
    ensures Taken(stored, word * 256 + input[k], input, k + 1, partial + 1)
    ensures partial < 8 ==> word * 256 + input[k] < BASE
  {
    assert input[..k + 1] == input[..k] + [input[k]];
    NumberSnoc(0, input[..k], input[k], 256);
    NextPlace(word, Pow(256, partial), input[k], 256);
    assert Val(stored) * Pow(256, partial) * 256 == Val(stored) * (256 * Pow(256, partial));
    if partial < 8 {
      PowMonotone(256, partial + 1, 8);
      BytePower(1);
      assert Pow(BASE, 1) == BASE;
    }
  }

  lemma StoreWord(stored: seq<Word>, word: Word, input: seq<Byte>, k: nat, partial: nat)
    requires Taken(stored, word, input, k, partial) && (stored != [] ==> partial == 8)
    ensures Taken([word] + stored, 0, input, k, 0)
  {
    assert Val([word] + stored) == word + BASE * Val(stored) by {
      assert ([word] + stored)[1..] == stored;
    }
    assert Pow(256, 0) == 1;
    BytePower(1);
    assert Pow(BASE, 1) == BASE;
  }

  lemma AllTaken(stored: seq<Word>, word: nat, input: seq<Byte>)
    requires Taken(stored, word, input, |input|, 0)
    ensures Val(stored) == Number(0, input, 256)
  {
    assert input[..|input|] == input && Pow(256, 0) == 1;
  }

  // ---------------------------------------------------------------- writing

  /** BN_bn2bin: the shortest octets of the magnitude, none for zero. */
  method Bn2Bin(x: Big, out: array<Byte>) returns (n: nat)
    requires x.Valid() && |Digits(x.Magnitude(), 256)| <= out.Length
    modifies out
    ensures n <= out.Length && out[..n] == old(Digits(x.Magnitude(), 256)) && out[n..] == old(out[n..])
  {
    hide Val, Digits, NumBits, Sh, Padded;
    ghost var v := x.Magnitude();
    n := (NumBits(Val(x.d[..x.top])) + 7) / 8;
    BitsAndOctets(v);
    var i: nat := n;
    while i > 0
      invariant i <= n == |Digits(v, 256)| && out[n..] == old(out[n..])
      invariant forall j :: 0 <= j < n - i ==> out[j] == ByteAt(v, n - 1 - j)
    {
      i := i - 1;
      WordsEnough(x.d[..x.top], i, n);
      var l := x.d[i / 8];
      WordByte(x.d[..x.top], i);
      ShiftByte(l, i % 8);
      out[n - 1 - i] := ShiftedByte(l, i % 8);
    }
    DigitsPadded(v, 256);
    forall j | 0 <= j < n ensures out[..n][j] == Digits(v, 256)[j] {
      PaddedAt(v, n, j);
    }
  }

  /** Every octet that is written lies in a word that is in use. */
  lemma WordsEnough(s: seq<Word>, i: nat, n: nat)
    requires i < n == |Digits(Val(s), 256)|
    ensures i / 8 < |s|
  {
    hide Val, Digits, Pow;
    ValBound(s);
    BytePower(|s|);
    DigitsLength(Val(s), 256, 8 * |s|);
  }

  lemma {:induction false} DigitsPadded(x: nat, base: nat)
    requires base >= 2
    ensures Padded(x, |Digits(x, base)|, base) == Digits(x, base)
  {
    hide Digits;
    DigitsUnfold(x, base);
    if x > 0 {
      Shrinks(x, base);
      DigitsPadded(x / base, base);
    }
  }

  // ---------------------------------------------------------------- writing without branches

  /** size_t and BN_ULONG have 64 bits; sizes of objects have the top one clear. */
  const SIZE_LIMIT: nat := HALF

  /** C's & and |, bit by bit. */
  function And(x: nat, y: nat): (r: nat)
    ensures r <= x && r <= y
  {
    if x == 0 || y == 0 then 0 else 2 * And(x / 2, y / 2) + (x % 2) * (y % 2)
  }

  function Or(x: nat, y: nat): (r: nat)
    ensures r <= x + y
  {
    if x == 0 && y == 0 then 0 else 2 * Or(x / 2, y / 2) + (if x % 2 == 1 || y % 2 == 1 then 1 else 0)
  }

  lemma {:induction false} AllOnes(x: nat, k: nat)
    requires x < Pow(2, k)
    ensures And(Pow(2, k) - 1, x) == x && And(0, x) == 0 && Or(x, 0) == x && Or(0, x) == x
  {
    if k > 0 {
      AllOnes(x / 2, k - 1);
    }
  }

  /** constant_time_select_ulong; the mask is all ones or zero. */
  function Select(v: nat, x: Word, y: Word): nat {
    var mask := (v - 1) % BASE;
    Or(And(BASE - 1 - mask, x), And(mask, y))
  }

  lemma SelectChooses(x: Word, y: Word)
    ensures Select(1, x, y) == x && Select(0, x, y) == y
  {
    hide And, Or, Pow;
    WordBits();
    AllOnes(x, BITS);
    AllOnes(y, BITS);
    assert (1 - 1) % BASE == 0 && (0 - 1) % BASE == BASE - 1;
  }

  /** constant_time_le_size_t: the sign bit of x - y - 1. */
  function LessEqual(x: nat, y: nat): (r: nat)
    requires x < SIZE_LIMIT && y < SIZE_LIMIT
    ensures r == if x <= y then 1 else 0
  {
    (x - y - 1) % BASE / HALF % 2
  }

  /** read_word_padded: word i of the number, which is 0 from its top on, whatever the array holds there. */
  method ReadWordPadded(x: Big, i: nat) returns (l: Word)
    requires x.top <= x.d.Length < SIZE_LIMIT && x.d.Length > 0 && i < SIZE_LIMIT
    ensures l == if i < x.top then x.d[i] else 0
  {
    hide Select;
    SelectChooses(x.d.Length - 1, i);
    var at := Select(LessEqual(x.d.Length, i), x.d.Length - 1, i);
    l := x.d[at];
    SelectChooses(0, l);
    l := Select(LessEqual(x.top, i), 0, l);
  }

  /** BN_bn2bin_padded: it succeeds exactly when the magnitude fits, and then writes all the octets. */
  method Bn2BinPadded(out: array<Byte>, x: Big) returns (ok: bool)
    requires x.Valid() && x.d.Length < SIZE_LIMIT && out.Length < SIZE_LIMIT
    modifies out
    ensures ok <==> x.Magnitude() < Pow(256, out.Length)
    ensures ok ==> out[..] == Padded(x.Magnitude(), out.Length, 256)
    ensures !ok ==> out[..] == old(out[..])
  {
    hide Val, Pow, Padded, Sh, Select, LessEqual;
    var len := out.Length;
    ghost var s, v := x.d[..x.top], x.Magnitude();
    ZeroIsZero(s);
    if x.top == 0 {
      forall i | 0 <= i < len {
        out[i] := 0;
      }
      ZeroFits(len);
      PaddedZeros(out[..], v);
      return true;
    }
    Fits(s, len);
    if x.top > (len + 7) / 8 {
      return false;
    }
    if len % 8 != 0 {
      var l := ReadWordPadded(x, len / 8);
      NothingShifted(len % 8);
      if Sh(l, 8 * (len % 8)) != 0 {
        return false;
      }
    }
    WriteOctets(out, x);
    return true;
  }

  /** The loop of BN_bn2bin_padded. */
  method WriteOctets(out: array<Byte>, x: Big)
    requires x.top <= x.d.Length < SIZE_LIMIT && x.d.Length > 0 && out.Length < SIZE_LIMIT
    modifies out
    ensures out[..] == Padded(x.Magnitude(), out.Length, 256)
  {
    hide Val, Pow, Padded, Sh, Select, LessEqual;
    ghost var s, v := x.d[..x.top], x.Magnitude();
    var len := out.Length;
    var i: nat := len;
    while i > 0
      invariant i <= len
      invariant forall j :: 0 <= j < len - i ==> out[j] == ByteAt(v, len - 1 - j)
    {
      i := i - 1;
      var l := ReadWordPadded(x, i / 8);
      WordByte(s, i);
      ShiftByte(l, i % 8);
      HighBytesZero(0, i % 8, 0) by {
        PowPositive(256, 0);
      }
      out[len - 1 - i] := ShiftedByte(l, i % 8);
    }
    forall j | 0 <= j < len ensures out[..][j] == Padded(v, len, 256)[j] {
      PaddedAt(v, len, j);
    }
  }

  lemma ZeroIsZero(s: seq<Word>)
    ensures s == [] ==> Val(s) == 0
  {
  }

  lemma ZeroFits(len: nat)
    ensures 0 < Pow(256, len)
  {
    PowPositive(256, len);
  }

  lemma NothingShifted(k: nat)
    ensures Sh(0, 8 * k) == 0
  {
    PowPositive(256, k);
    ShiftByte(0, k);
  }

  lemma PaddedZeros(zs: seq<Byte>, v: nat)
    requires v == 0 && forall i :: 0 <= i < |zs| ==> zs[i] == 0
    ensures zs == Padded(v, |zs|, 256)
  {
    forall j | 0 <= j < |zs| ensures zs[j] == Padded(v, |zs|, 256)[j] {
      PaddedAt(v, |zs|, j);
      PowPositive(256, 0);
      HighBytesZero(0, |zs| - 1 - j, 0);
    }
  }

  /** What the two checks find out: how many octets a number in normal form has. */
  lemma Fits(s: seq<Word>, len: nat)
    requires Normal(s) && s != []
    ensures var q, r := len / 8, len % 8;
            Val(s) < Pow(256, len) <==>
            |s| <= (len + 7) / 8 && (r != 0 && q < |s| ==> Sh(s[q], 8 * r) == 0)
  {
    hide Val, Pow, Sh;
    var q, r := len / 8, len % 8;
    BytePower(q);
    PowAdd(256, 8 * q, r);
    PowPositive(256, r);
    ValBound(s);
    ValTop(s);
    if |s| <= q {
      PowMonotone(BASE, |s|, q);
      MulMonotone(1, Pow(256, r), Pow(256, 8 * q));
    } else if |s| > q + 1 || r == 0 {
      TooLong(s, q, r);
    } else {
      ShiftByte(s[q], r);
      ValBound(s[..q]);
      TopWordFits(Val(s[..q]), s[q], Pow(BASE, q), Pow(256, r));
    }
  }

  lemma TooLong(s: seq<Word>, q: nat, r: nat)
    requires s != [] && Val(s) >= Pow(BASE, |s| - 1) && r < 8
    requires |s| > q + 1 || (|s| == q + 1 && r == 0)
    ensures Val(s) >= Pow(256, 8 * q) * Pow(256, r)
  {
    hide Val, Pow;
    BytePower(|s| - 1);
    PowAdd(256, 8 * q, r);
    PowMonotone(256, 8 * q + r, 8 * (|s| - 1));
  }

  lemma TopWordFits(low: nat, w: nat, p: nat, c: nat)
    requires low < p
    ensures low + p * w < p * c <==> w < c
  {
    if w < c {
      MulMonotone(w + 1, c, p);
    } else {
      MulMonotone(c, w, p);
    }
  }

  /** Any octets are read as a number that is written back as the same octets: reading and padded writing are
      inverse to each other, for every length. */
  lemma PaddedRoundTrip(s: seq<Byte>, v: nat)
    ensures Padded(Number(0, s, 256), |s|, 256) == s && Number(0, s, 256) < Pow(256, |s|)
    ensures v < Pow(256, |s|) ==> Number(0, Padded(v, |s|, 256), 256) == v
  {
    NumberPadded(s, 256);
    if v < Pow(256, |s|) {
      PaddedNumber(v, |s|, 256);
    }
  }

  /** BN_bin2bn of what BN_bn2bin_padded wrote. */
  method WriteAndRead(x: Big, out: array<Byte>, y: Big) returns (ok: bool)
    requires x.Valid() && x.d.Length < SIZE_LIMIT && out.Length < SIZE_LIMIT
    requires y.top <= y.d.Length && x != y && x.d != y.d
    modifies out, y, y.d
    ensures ok <==> x.Magnitude() < Pow(256, out.Length) && Room(old(y.d.Length), (out.Length + 7) / 8)
    ensures ok ==> y.Valid() && y.Value() == x.Magnitude()
  {
    hide Val, Pow, Padded, Number;
    ghost var v := x.Magnitude();
    ok := Bn2BinPadded(out, x);
    if ok {
      PaddedRoundTrip(out[..], v);
      ok := Bin2Bn(y, out[..]);
    }
  }

  /** Reading no octets into -1 leaves a zero with a sign flag. */
  method NothingRead() returns (ok: bool, top: nat, neg: bool)
    ensures ok && top == 0 && neg
  {
    var x := new Big.One(true);
    ok := Bin2Bn(x, []);
    top, neg := x.top, x.neg;
    PositiveTop(x);
  }
}
