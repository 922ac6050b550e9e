/** Hexadecimal printing and parsing of a BIGNUM (crypto/bn/convert.c). */
module HexForm {
  import opened Arith
  import opened Bytes
  import opened Limbs
  import opened Congruence
  import opened SignedSums
  import opened BinaryForm

  // ---------------------------------------------------------------- hexadecimal text

  /** hextable. */
  function HexChar(n: nat): char
    requires n < 16
  {
    if n < 10 then '0' + n as char else 'a' + (n - 10) as char
  }

  /** isxdigit. */
  predicate IsHex(c: char) {
    '0' <= c <= '9' || 'a' <= c <= 'f' || 'A' <= c <= 'F'
  }

  function HexValue(c: char): (n: nat)
    requires IsHex(c)
    ensures n < 16
  {
    if '0' <= c <= '9' then c as int - '0' as int
    else if 'a' <= c <= 'f' then c as int - 'a' as int + 10
    else c as int - 'A' as int + 10
  }

  /** Two characters for each octet. */
  function HexChars(bs: seq<nat>): (s: string)
    requires forall i :: 0 <= i < |bs| ==> bs[i] < 256
    ensures |s| == 2 * |bs| && forall i :: 0 <= i < |s| ==> IsHex(s[i])
  {
    if bs == [] then []
    else
      assert bs[|bs| - 1] / 16 < 16;
      HexChars(bs[..|bs| - 1]) + [HexChar(bs[|bs| - 1] / 16), HexChar(bs[|bs| - 1] % 16)]
  }

  /** What BN_bn2hex prints: a sign, and the octets of the magnitude without leading zero octets. */
  function Text(neg: bool, v: nat): string {
    (if neg then "-" else "") + (if v == 0 then "0" else HexChars(Digits(v, 256)))
  }

  // ---------------------------------------------------------------- printing

  /** The octets of v above the lowest k. */
  function High(v: nat, k: nat): nat {
    if k == 0 then v else High(v / 256, k - 1)
  }

  lemma {:induction false} HighNext(v: nat, k: nat)
    ensures High(v, k) == High(v, k + 1) * 256 + ByteAt(v, k)
  {
    if k > 0 {
      HighNext(v / 256, k - 1);
    }
  }

  lemma {:induction false} HighNone(v: nat, k: nat)
    requires v < Pow(256, k)
    ensures High(v, k) == 0
  {
    if k > 0 {
      QuotientBelow(v, 256, Pow(256, k - 1));
      HighNone(v / 256, k - 1);
    }
  }

  /** The text of the octets that have been looked at: nothing until one of them is not zero. */
  ghost function Printed(v: nat, k: nat): string {
    HexChars(Digits(High(v, k), 256))
  }

  lemma PrintedNext(v: nat, k: nat)
    ensures var b := ByteAt(v, k);
            Printed(v, k) == (if High(v, k + 1) > 0 || b != 0
                              then Printed(v, k + 1) + [HexChar(b / 16), HexChar(b % 16)] else "")
    ensures High(v, k) > 0 <==> High(v, k + 1) > 0 || ByteAt(v, k) != 0
    ensures High(v, k + 1) == 0 ==> Printed(v, k + 1) == ""
  {
    hide High, ByteAt, Digits, HexChars;
    var h, b := High(v, k + 1), ByteAt(v, k);
    HighNext(v, k);
    OneMoreDigit(h, b);
    OneMoreOctet(Digits(h, 256), b);
  }

  lemma OneMoreDigit(h: nat, b: nat)
    requires b < 256
    ensures h > 0 || b > 0 ==> Digits(h * 256 + b, 256) == Digits(h, 256) + [b]
    ensures Digits(0, 256) == []
  {
    QuotientDigit(h, b, 256);
  }

  lemma OneMoreOctet(ds: seq<nat>, b: nat)
    requires b < 256 && forall i :: 0 <= i < |ds| ==> ds[i] < 256
    ensures b / 16 < 16 && HexChars(ds + [b]) == HexChars(ds) + [HexChar(b / 16), HexChar(b % 16)]
    ensures HexChars([]) == ""
  {
    assert (ds + [b])[..|ds|] == ds;
  }

  /** BN_bn2hex. The buffer of 16 characters a word and two more is enough unless the number is a zero with its
      sign flag set, for which the text and its NUL take three. */
  method Bn2Hex(x: Big) returns (text: string)
    requires x.Valid()
    ensures text == Text(x.neg, x.Magnitude())
    ensures |text| + 1 <= 16 * x.top + 2 <==> !(x.neg && x.top == 0)
  {
    hide Val, Pow, Printed, High, Sh, HexChars;
    ghost var s, v := x.d[..x.top], x.Magnitude();
    text := if x.neg then "-" else "";
    ghost var sign := text;
    ZeroTop(s);
    if x.top == 0 {
      text := text + "0";
      return;
    }
    WholeNumber(s);
    var z := false;
    var i: nat := x.top;
    while i > 0
      invariant i <= x.top && text == sign + Printed(v, 8 * i) && z == (High(v, 8 * i) > 0)
    {
      i := i - 1;
      var j: nat := BITS;
      ghost var k: nat := 8;
      while j > 0
        invariant j == 8 * k && k <= 8
        invariant text == sign + Printed(v, 8 * i + k) && z == (High(v, 8 * i + k) > 0)
      {
        j := j - 8;
        k := k - 1;
        var b := Sh(x.d[i], j) % 256;
        ByteOfWord(s, i, k);
        PrintedNext(v, 8 * i + k);
        if z || b != 0 {
          text := text + [HexChar(b / 16), HexChar(b % 16)];
          z := true;
        }
      }
    }
    AllPrinted(s, v);
  }

  lemma ZeroTop(s: seq<Word>)
    requires Normal(s)
    ensures Val(s) == 0 <==> s == []
  {
    if s != [] {
      ValTop(s);
      PowPositive(BASE, |s| - 1);
    }
  }

  lemma ByteOfWord(s: seq<Word>, i: nat, k: nat)
    requires i < |s| && k < 8
    ensures Sh(s[i], 8 * k) % 256 == ByteAt(Val(s), 8 * i + k)
  {
    hide Val, Sh, ByteAt;
    assert (8 * i + k) / 8 == i && (8 * i + k) % 8 == k;
    WordByte(s, 8 * i + k);
    ShiftByte(s[i], k);
  }

  lemma WholeNumber(s: seq<Word>)
    ensures High(Val(s), 8 * |s|) == 0 && Printed(Val(s), 8 * |s|) == ""
  {
    ValBound(s);
    BytePower(|s|);
    HighNone(Val(s), 8 * |s|);
    assert Digits(0, 256) == [];
  }

  lemma AllPrinted(s: seq<Word>, v: nat)
    requires v == Val(s)
    ensures Printed(v, 0) == HexChars(Digits(v, 256)) && |Digits(v, 256)| <= 8 * |s|
  {
    ValBound(s);
    BytePower(|s|);
    DigitsLength(v, 256, 8 * |s|);
  }

  // ---------------------------------------------------------------- parsing

  function Values(s: string): (ds: seq<nat>)
    requires forall i :: 0 <= i < |s| ==> IsHex(s[i])
    ensures |ds| == |s| && forall i :: 0 <= i < |ds| ==> ds[i] == HexValue(s[i]) < 16
  {
    seq(|s|, i requires 0 <= i < |s| => HexValue(s[i]))
  }

  /** The digits of one word, the last ones of what is left. */
  method ReadWord(s: string) returns (word: Word)
    requires |s| <= 16 && forall i :: 0 <= i < |s| ==> IsHex(s[i])
    ensures word == Number(0, Values(s), 16) && word < Pow(16, |s|)
  {
    hide Number, Pow;
    var w: nat := 0;
    var i := 0;
    NoDigits(Values(s));
    while i < |s|
      invariant i <= |s| && w == Number(0, Values(s)[..i], 16) && w < Pow(16, i)
    {
      assert Values(s)[..i + 1] == Values(s)[..i] + [HexValue(s[i])];
      NumberSnoc(0, Values(s)[..i], HexValue(s[i]), 16);
      NextPlace(w, Pow(16, i), HexValue(s[i]), 16);
      PowStep(16, i);
      w := w * 16 + HexValue(s[i]);
      i := i + 1;
    }
    assert Values(s)[..|s|] == Values(s);
    SixteenDigits(|s|);
    word := w;
  }

  lemma NoDigits(ds: seq<nat>)
    ensures Number(0, ds[..0], 16) == 0 && Pow(16, 0) == 1
  {
  }

  lemma PowStep(b: nat, k: nat)
    ensures Pow(b, k + 1) == b * Pow(b, k)
  {
  }

  lemma SixteenDigits(k: nat)
    ensures Pow(16, 16) == BASE && (k <= 16 ==> Pow(16, k) <= BASE)
  {
    assert Pow(16, 2) == 256;
    PowAdd(16, 2, 2);
    PowAdd(16, 4, 4);
    PowAdd(16, 8, 8);
    if k <= 16 {
      PowMonotone(16, k, 16);
    }
  }

  /** The words that n digits are given. */
  function WordsFor(n: nat): nat {
    (n * 4 + 63) / 64
  }

  /** decode_hex: a word at a time, from the end of the digits. Too many digits, or more words than there is room
      for, are an error. */
  method DecodeHex(bn: Big, s: string) returns (ok: bool)
    requires bn.top == 0 && forall i :: 0 <= i < |s| ==> IsHex(s[i])
    modifies bn`d, bn`top, bn.d
    ensures ok <==> |s| <= INT_MAX / 4 && Room(old(bn.d.Length), WordsFor(|s|))
    ensures bn.top <= bn.d.Length && (bn.d == old(bn.d) || fresh(bn.d))
    ensures bn.Magnitude() == if ok then Number(0, Values(s), 16) else 0
  {
    hide Number, Pow, Val;
    NoWords();
    assert bn.d[..0] == [];
    if |s| > INT_MAX / 4 {
      return false;
    }
    ok := bn.Expand(WordsFor(|s|));
    assert bn.d[..0] == [];
    if !ok {
      return;
    }
    var d := bn.d;
    var i: nat := 0;
    var left: nat := |s|;
    ghost var ds := Values(s);
    NothingRead(d[..0], ds);
    while left > 0
      invariant left <= |s| && (left > 0 ==> |s| - left == 16 * i) && 16 * i < |s| + 16
      invariant bn.d == d && bn.top == 0 && i <= d.Length && Val(d[..i]) == Number(0, ds[left..], 16)
    {
      var todo := if 16 > left then left else 16;
      var word := ReadWord(s[left - todo..left]);
      assert Values(s[left - todo..left]) == ds[left - todo..left];
      ghost var low := d[..i];
      d[i] := word;
      assert d[..i + 1] == low + [word];
      OneMoreWord(low, word, ds, left, todo);
      i := i + 1;
      left := left - todo;
    }
    assert ds[0..] == ds;
    bn.top := i;
    return true;
  }

  lemma NothingRead(ws: seq<Word>, ds: seq<nat>)
    requires ws == []
    ensures Val(ws) == Number(0, ds[|ds|..], 16)
  {
  }

  /** A further word above the digits that have been read. */
  lemma OneMoreWord(low: seq<Word>, word: Word, ds: seq<nat>, left: nat, todo: nat)
    requires todo <= left <= |ds| && |ds| - left == 16 * |low|
    requires Val(low) == Number(0, ds[left..], 16) && word == Number(0, ds[left - todo..left], 16)
    ensures Val(low + [word]) == Number(0, ds[left - todo..], 16)
  {
    hide Number, Val, Pow;
    ValSnoc(low, word);
    assert ds[left - todo..] == ds[left - todo..left] + ds[left..];
    NumberAppend(ds[left - todo..left], ds[left..], 16);
    SixteenDigits(0);
    PowPower(16, 16, |low|);
  }

  lemma {:induction false} NumberAppend(a: seq<nat>, b: seq<nat>, base: nat)
    ensures Number(0, a + b, base) == Number(0, a, base) * Pow(base, |b|) + Number(0, b, base)
    decreases |b|
  {
    if b == [] {
      assert a + b == a;
    } else {
      hide Number, Pow;
      var n := |b| - 1;
      assert b == b[..n] + [b[n]] && a + b == (a + b[..n]) + [b[n]];
      NumberAppend(a, b[..n], base);
      NumberSnoc(0, a + b[..n], b[n], base);
      NumberSnoc(0, b[..n], b[n], base);
      PowStep(base, n);
      OneDigitMore(Number(0, a, base), Pow(base, n), Number(0, b[..n], base), base);
    }
  }

  lemma OneDigitMore(x: nat, p: nat, y: nat, base: nat)
    ensures (x * p + y) * base == x * (base * p) + y * base
  {
  }

  /** What bn_x2bn reads from a non-empty string of hexadecimal digits: the number and the characters used. */
  function Read(s: string): (int, nat) {
    var neg := if s != "" && s[0] == '-' then 1 else 0;
    var run := WantedRun(s[neg..], IsHex);
    var n := if run <= INT_MAX - neg then run else INT_MAX - neg;
    var v := Number(0, Values(s[neg..][..n]), 16);
    (if neg == 1 then 0 - v else v, n + neg)
  }

  /** How many digits bn_x2bn hands to decode_hex. */
  function DigitCount(s: string): nat {
    Read(s).1 - (if s != "" && s[0] == '-' then 1 else 0)
  }

  /** Whether decode_hex takes the digits of s into an array of that length. */
  predicate Decodes(s: string, length: nat) {
    DigitCount(s) <= INT_MAX / 4 && Room(length, WordsFor(DigitCount(s)))
  }

  /** BN_hex2bn into an existing BIGNUM; too many digits are an error, which leaves zero. */
  method Hex2Bn(out: Big, s: string) returns (num: nat)
    requires out.top <= out.d.Length
    modifies out, out.d
    ensures s == "" ==> num == 0 && unchanged(out)
    ensures s != "" ==> out.Valid() && (out.neg ==> out.top > 0)
    ensures s != "" && old(Decodes(s, out.d.Length)) ==> (out.Value(), num) == Read(s)
    ensures s != "" && !old(Decodes(s, out.d.Length)) ==> num == 0 && out.Value() == 0
    ensures out.d == old(out.d) || fresh(out.d)
  {
    hide Number, Val, Values, WantedRun, Room, WordsFor, Read, DigitCount;
    if s == "" {
      return 0;
    }
    var neg: nat := if s[0] == '-' then 1 else 0;
    var i := ScanWanted(s, neg, IsHex);
    num := i + neg;
    ReadParts(s, neg, i);
    out.top, out.neg := 0, false;
    var ok := DecodeHex(out, s[neg..][..i]);
    NoWords();
    assert out.d[..0] == [];
    if !ok {
      out.top := 0;
      return 0;
    }
    out.CorrectTop();
    if out.top > 0 {
      out.neg := neg == 1;
    }
  }

  lemma ReadParts(s: string, neg: nat, i: nat)
    requires s != "" && neg == if s[0] == '-' then 1 else 0
    requires i == var run := WantedRun(s[neg..], IsHex); if run <= INT_MAX - neg then run else INT_MAX - neg
    ensures i <= |s| - neg && (forall k :: 0 <= k < i ==> IsHex(s[neg..][..i][k])) && DigitCount(s) == i
    ensures Read(s) == var v := Number(0, Values(s[neg..][..i]), 16); (if neg == 1 then 0 - v else v, i + neg)
  {
  }

  // ---------------------------------------------------------------- round trip

  /** The digits of the printed octets make the same number. */
  lemma {:induction false} HexNumber(bs: seq<nat>)
    requires forall i :: 0 <= i < |bs| ==> bs[i] < 256
    ensures Number(0, Values(HexChars(bs)), 16) == Number(0, bs, 256)
  {
    if bs == [] {
      assert Values("") == [];
    } else {
      hide Number;
      var n := |bs| - 1;
      var front, b := bs[..n], bs[n];
      HexNumber(front);
      assert bs == front + [b];
      NumberSnoc(0, front, b, 256);
      var vs := Values(HexChars(front));
      HexBack(b);
      assert Values(HexChars(bs)) == (vs + [b / 16]) + [b % 16];
      NumberSnoc(0, vs, b / 16, 16);
      NumberSnoc(0, vs + [b / 16], b % 16, 16);
    }
  }

  lemma HexBack(b: nat)
    requires b < 256
    ensures HexValue(HexChar(b / 16)) == b / 16 && HexValue(HexChar(b % 16)) == b % 16
  {
  }

  /** Reading the text of any number gives it back and uses every character, as long as an int can count them. */
  lemma TextReads(v: int)
    requires |Text(v < 0, Abs(v))| <= INT_MAX
    ensures Read(Text(v < 0, Abs(v))) == (v, |Text(v < 0, Abs(v))|)
  {
    hide Number, Digits, HexChars, Values;
    var s := Text(v < 0, Abs(v));
    if v == 0 {
      ZeroReads();
    } else {
      var ds := Digits(Abs(v), 256);
      var body := HexChars(ds);
      var neg := if v < 0 then 1 else 0;
      assert s[neg..] == body;
      assert v > 0 ==> s[0] == body[0];
      AllWanted(body, IsHex);
      HexNumber(ds);
      DigitsNumber(Abs(v), 256);
      assert body[..|body|] == body;
    }
  }

  lemma ZeroReads()
    ensures Read("0") == (0, 1) && Text(false, 0) == "0"
  {
    assert "0"[0..] == "0" && WantedRun("0", IsHex) == 1;
    assert "0"[..1] == "0";
    assert Values("0") == [0] && [0][1..] == [];
  }

  /** BN_hex2bn of what BN_bn2hex printed, for every number the library allocates itself. */
  method PrintAndRead(x: Big, out: Big) returns (num: nat)
    requires x.Valid() && (x.neg ==> x.top > 0) && out.top <= out.d.Length && x != out && x.d != out.d
    requires x.top <= MAX_WORDS
    modifies out, out.d
    ensures out.Valid() && out.Value() == x.Value() && num == |Text(x.neg, x.Magnitude())|
  {
    hide Read, Text, Val, DigitCount;
    var text := Bn2Hex(x);
    ZeroTop(x.d[..x.top]);
    TextShort(x.neg, x.d[..x.top]);
    TextReads(x.Value());
    TextNotEmpty(x.neg, x.Magnitude());
    CountText(x.neg, x.Magnitude());
    num := Hex2Bn(out, text);
  }

  lemma TextShort(neg: bool, s: seq<Word>)
    ensures |Text(neg, Val(s))| <= (if neg then 1 else 0) + Max(16 * |s|, 1)
  {
    AllPrinted(s, Val(s));
  }

  /** The sign is not counted. */
  lemma CountText(neg: bool, v: nat)
    requires neg ==> v > 0
    requires Read(Text(neg, v)).1 == |Text(neg, v)|
    ensures DigitCount(Text(neg, v)) == |Text(neg, v)| - (if neg then 1 else 0)
  {
    hide Read, Digits;
  }

  /** A zero with a sign flag takes three characters, and gets a buffer of two. */
  method SignedZeroText() returns (text: string, room: nat)
    ensures text == "-0" && room == 2 && |text| + 1 > room
  {
    var x := new Big.One(true);
    var ok := Bin2Bn(x, []);
    PositiveTop(x);
    text := Bn2Hex(x);
    room := 16 * x.top + 2;
  }

  lemma TextNotEmpty(neg: bool, v: nat)
    ensures Text(neg, v) != ""
  {
  }
}
