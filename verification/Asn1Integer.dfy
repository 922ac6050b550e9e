/** The contents octets of an ASN.1 INTEGER, section 8.3 of X.690 (crypto/asn1/a_int.c), and the second codec
    for C longs (crypto/asn1/x_long.c). */
module Asn1Integer {
  import opened Arith
  import opened Bytes

  // ---------------------------------------------------------------- what the octets mean

  /** A big-endian magnitude. */
  function Magnitude(s: seq<Byte>): nat {
    Number(0, s, 256)
  }

  /** Two's complement, section 8.3.3. */
  function Twos(s: seq<Byte>): int {
    if s != [] && s[0] >= 128 then Magnitude(s) - Pow(256, |s|) else Magnitude(s)
  }

  /** Section 8.3.2: the first nine bits are not all equal. */
  predicate Shortest(s: seq<Byte>) {
    |s| >= 1 && (|s| > 1 ==> !(s[0] == 0 && s[1] < 128) && !(s[0] == 255 && s[1] >= 128))
  }

  /** A magnitude without leading zero octets; zero may be written with one or none. */
  predicate Plain(s: seq<Byte>) {
    |s| > 1 ==> s[0] != 0
  }

  lemma MagnitudeSnoc(s: seq<Byte>, b: Byte)
    ensures Magnitude(s + [b]) == Magnitude(s) * 256 + b
  {
    NumberSnoc(0, s, b, 256);
  }

  lemma {:induction false} MagnitudeBound(s: seq<Byte>)
    ensures Magnitude(s) < Pow(256, |s|)
  {
    hide Magnitude;
    if s == [] {
      NoOctets();
    } else {
      var n := |s| - 1;
      MagnitudeBound(s[..n]);
      assert s == s[..n] + [s[n]];
      MagnitudeSnoc(s[..n], s[n]);
    }
  }

  lemma NoOctets()
    ensures Magnitude([]) == 0 && Pow(256, 0) == 1
  {
  }

  lemma {:induction false} MagnitudeCons(b: Byte, s: seq<Byte>)
    ensures Magnitude([b] + s) == b * Pow(256, |s|) + Magnitude(s)
    decreases |s|
  {
    hide Magnitude;
    if s == [] {
      assert [b] + [] == [] + [b];
      MagnitudeSnoc([], b);
      NoOctets();
    } else {
      var n := |s| - 1;
      MagnitudeCons(b, s[..n]);
      assert [b] + s == ([b] + s[..n]) + [s[n]] && s == s[..n] + [s[n]];
      MagnitudeSnoc([b] + s[..n], s[n]);
      MagnitudeSnoc(s[..n], s[n]);
      ScaleByte(b, Pow(256, n));
    }
  }

  lemma ScaleByte(b: nat, p: nat)
    ensures b * p * 256 == b * (256 * p)
  {
  }

  /** The first octet places the magnitude. */
  lemma FirstOctet(s: seq<Byte>)
    requires s != []
    ensures s[0] * Pow(256, |s| - 1) <= Magnitude(s) < (s[0] + 1) * Pow(256, |s| - 1)
    ensures Magnitude(s) == s[0] * Pow(256, |s| - 1) + Magnitude(s[1..])
  {
    hide Magnitude, Pow;
    assert s == [s[0]] + s[1..];
    MagnitudeCons(s[0], s[1..]);
    MagnitudeBound(s[1..]);
  }

  /** Octets of the same number and magnitude are the same. */
  lemma {:induction false} MagnitudeInjective(s: seq<Byte>, t: seq<Byte>)
    requires |s| == |t| && Magnitude(s) == Magnitude(t)
    ensures s == t
  {
    hide Magnitude;
    if s != [] {
      var n := |s| - 1;
      MagnitudeSnoc(s[..n], s[n]);
      MagnitudeSnoc(t[..n], t[n]);
      assert s == s[..n] + [s[n]] && t == t[..n] + [t[n]];
      MagnitudeInjective(s[..n], t[..n]);
    }
  }

  /** n octets hold the numbers from -128 * 256^(n-1) up to but not including 128 * 256^(n-1). */
  lemma TwosRange(s: seq<Byte>)
    requires s != []
    ensures 0 - 128 * Pow(256, |s| - 1) <= Twos(s) < 128 * Pow(256, |s| - 1)
    ensures Twos(s) < 0 <==> s[0] >= 128
  {
    hide Magnitude, Pow;
    FirstOctet(s);
    MagnitudeBound(s);
    PowPositive(256, |s| - 1);
    PowNext(|s| - 1);
    if s[0] >= 128 {
      MulMonotone(128, s[0], Pow(256, |s| - 1));
    } else {
      MulMonotone(s[0] + 1, 128, Pow(256, |s| - 1));
    }
  }

  lemma PowNext(n: nat)
    ensures Pow(256, n + 1) == 256 * Pow(256, n)
  {
  }

  /** The shortest octets are too many for any smaller number of them. */
  lemma ShortestRange(s: seq<Byte>)
    requires Shortest(s) && |s| > 1
    ensures Twos(s) < 0 - 128 * Pow(256, |s| - 2) || Twos(s) >= 128 * Pow(256, |s| - 2)
  {
    hide Magnitude, Pow;
    var n := |s| - 2;
    var p := Pow(256, n);
    PowPositive(256, n);
    PowNext(n);
    PowNext(n + 1);
    FirstOctet(s);
    FirstOctet(s[1..]);
    var a: int, b: int := s[0], s[1];
    TwoOctets(a, b, p, Magnitude(s[1..][1..]));
    MagnitudeBound(s[1..][1..]);
    assert Magnitude(s) == a * (256 * p) + b * p + Magnitude(s[1..][1..]);
  }

  lemma TwoOctets(a: int, b: int, p: int, rest: int)
    requires 0 <= a < 256 && 0 <= b < 256 && p > 0 && 0 <= rest < p
    requires !(a == 0 && b < 128) && !(a == 255 && b >= 128)
    ensures var v := a * (256 * p) + b * p + rest;
            if a >= 128 then v - 256 * (256 * p) < 0 - 128 * p else v >= 128 * p
  {
    assert a * (256 * p) + b * p == (256 * a + b) * p;
    if a >= 128 {
      MulMonotone(256 * a + b + 1, 65408, p);
      assert (256 * a + b + 1) * p == (256 * a + b) * p + p;
    } else {
      MulMonotone(128, 256 * a + b, p);
    }
  }

  /** There is only one shortest encoding of a number. */
  lemma ShortestUnique(s: seq<Byte>, t: seq<Byte>)
    requires Shortest(s) && Shortest(t) && Twos(s) == Twos(t)
    ensures s == t
  {
    hide Magnitude, Pow;
    LengthFrom(s, t);
    LengthFrom(t, s);
    TwosRange(s);
    TwosRange(t);
    MagnitudeInjective(s, t);
  }

  lemma LengthFrom(s: seq<Byte>, t: seq<Byte>)
    requires Shortest(s) && t != [] && Twos(s) == Twos(t)
    ensures |s| <= |t|
  {
    hide Magnitude, Pow, Twos;
    if |s| > |t| {
      ShortestRange(s);
      PowMonotone(256, |t| - 1, |s| - 2);
      TwosRange(t);
      assert false;
    }
  }

  // ---------------------------------------------------------------- negation, octet by octet

  /** The complement and one, kept in an octet. */
  function Next(b: Byte): Byte {
    if b == 0 then 0 else 256 - b
  }

  function Flip(s: seq<Byte>): (t: seq<Byte>)
    ensures |t| == |s|
  {
    if s == [] then [] else Flip(s[..|s| - 1]) + [255 - s[|s| - 1]]
  }

  /** Trailing zeros stay, the last non-zero octet is complemented and incremented, the others complemented. */
  function Negated(s: seq<Byte>): (t: seq<Byte>)
    ensures |t| == |s|
  {
    if s == [] then []
    else
      var n := |s| - 1;
      if s[n] == 0 then Negated(s[..n]) + [0] else Flip(s[..n]) + [Next(s[n])]
  }

  lemma {:induction false} FlipValue(s: seq<Byte>)
    ensures Magnitude(Flip(s)) == Pow(256, |s|) - 1 - Magnitude(s)
  {
    hide Magnitude;
    if s == [] {
      NoOctets();
    } else {
      var n := |s| - 1;
      FlipValue(s[..n]);
      MagnitudeSnoc(Flip(s[..n]), 255 - s[n]);
      assert s == s[..n] + [s[n]];
      MagnitudeSnoc(s[..n], s[n]);
    }
  }

  lemma {:induction false} NegatedValue(s: seq<Byte>)
    ensures Magnitude(Negated(s)) == if Magnitude(s) == 0 then 0 else Pow(256, |s|) - Magnitude(s)
  {
    hide Magnitude;
    if s == [] {
      NoOctets();
    } else {
      var n := |s| - 1;
      assert s == s[..n] + [s[n]];
      MagnitudeSnoc(s[..n], s[n]);
      if s[n] == 0 {
        NegatedValue(s[..n]);
        MagnitudeSnoc(Negated(s[..n]), 0);
      } else {
        FlipValue(s[..n]);
        MagnitudeSnoc(Flip(s[..n]), Next(s[n]));
      }
    }
  }

  /** Where the zeros at the end start. */
  lemma {:induction false} NegatedParts(s: seq<Byte>, i: nat)
    requires 0 < i <= |s| && (forall k :: i <= k < |s| ==> s[k] == 0) && (s[i - 1] != 0 || i == 1)
    ensures Negated(s) == Flip(s[..i - 1]) + [Next(s[i - 1])] + Zeros(|s| - i)
    decreases |s| - i
  {
    var n := |s| - 1;
    if i == |s| {
      assert Zeros(0) == [];
      if s[n] == 0 {
        assert s[..0] == [];
      }
    } else {
      NegatedParts(s[..n], i);
      assert s[..n][..i - 1] == s[..i - 1];
      assert Zeros(n - i) + [0] == Zeros(|s| - i);
    }
  }

  lemma {:induction false} NegatedZeros(s: seq<Byte>)
    requires forall k :: 0 <= k < |s| ==> s[k] == 0
    ensures Magnitude(s) == 0
  {
    hide Magnitude;
    if s == [] {
      NoOctets();
    } else {
      var n := |s| - 1;
      assert s == s[..n] + [s[n]];
      MagnitudeSnoc(s[..n], s[n]);
      NegatedZeros(s[..n]);
    }
  }

  /** The loop over trailing zeros, which stops at octet number stop. */
  method CopyZeros(buf: array<Byte>, p: nat, s: seq<Byte>, stop: nat) returns (i: nat)
    requires p + |s| <= buf.Length && stop <= |s|
    modifies buf
    ensures stop <= i <= |s| && (forall k :: i <= k < |s| ==> s[k] == 0) && (i == stop || s[i - 1] != 0)
    ensures buf[..p] == old(buf[..p]) && buf[p + i..p + |s|] == Zeros(|s| - i)
  {
    i := |s|;
    while i > stop && s[i - 1] == 0
      invariant stop <= i <= |s| && forall k :: i <= k < |s| ==> s[k] == 0
      invariant buf[..p] == old(buf[..p]) && buf[p + i..p + |s|] == Zeros(|s| - i)
    {
      i := i - 1;
      buf[p + i] := 0;
      assert [0] + Zeros(|s| - i - 1) == Zeros(|s| - i);
    }
  }

  /** The octet before the zeros and all others. */
  method FlipRest(buf: array<Byte>, p: nat, s: seq<Byte>, i: nat)
    requires 0 < i <= |s| && p + |s| <= buf.Length
    modifies buf
    ensures buf[..p] == old(buf[..p])
    ensures buf[p..p + |s|] == Flip(s[..i - 1]) + [Next(s[i - 1])] + old(buf[p + i..p + |s|])
  {
    hide Flip;
    var j := i - 1;
    buf[p + j] := Next(s[j]);
    ghost var tail := buf[p + i - 1..p + |s|];
    assert tail == [Next(s[i - 1])] + old(buf[p + i..p + |s|]);
    FlipNone(s);
    while j > 0
      invariant 0 <= j < i && buf[..p] == old(buf[..p]) && buf[p + i - 1..p + |s|] == tail
      invariant Flip(s[..i - 1]) == Flip(s[..j]) + buf[p + j..p + i - 1]
    {
      j := j - 1;
      ghost var done := buf[p + j + 1..p + i - 1];
      FlipLast(s, j);
      buf[p + j] := 255 - s[j];
      assert buf[p + j..p + i - 1] == [255 - s[j]] + done;
    }
    FlipNone(s);
    assert buf[p..p + |s|] == buf[p..p + i - 1] + buf[p + i - 1..p + |s|];
  }

  lemma FlipLast(s: seq<Byte>, j: nat)
    requires j < |s|
    ensures Flip(s[..j + 1]) == Flip(s[..j]) + [255 - s[j]]
  {
    assert s[..j + 1][..j] == s[..j];
  }

  lemma FlipNone(s: seq<Byte>)
    ensures Flip(s[..0]) == []
  {
  }

  // ---------------------------------------------------------------- ASN1_INTEGER

  /** The sign, which the code keeps in the type, and the magnitude. */
  class Integer {
    var neg: bool
    var data: seq<Byte>

    constructor ()
      ensures !neg && data == []
    {
      neg, data := false, [];
    }

    function Value(): int
      reads this
    {
      if neg then 0 - Magnitude(data) else Magnitude(data)
    }
  }

  /** Whether i2c puts an octet in front, and which. */
  function Padding(neg: bool, data: seq<Byte>): seq<Byte>
    requires data != []
  {
    if !neg && data[0] > 127 then [0]
    else if neg && (data[0] > 128 || (data[0] == 128 && !ZeroTail(data))) then [255]
    else []
  }

  /** What i2c writes. */
  function Contents(neg: bool, data: seq<Byte>): seq<Byte> {
    if data == [] then [0]
    else if neg && data != [0] then Padding(true, data) + Negated(data)
    else Padding(false, data) + data
  }

  /** i2c yields two's complement octets of the value, for every magnitude; when the magnitude has no leading
      zeros they are the shortest. */
  lemma ContentsValue(neg: bool, data: seq<Byte>)
    ensures Twos(Contents(neg, data)) == if neg then 0 - Magnitude(data) else Magnitude(data)
    ensures Plain(data) ==> Shortest(Contents(neg, data))
  {
    hide Magnitude;
    if data == [] || data == [0] {
      NoOctets();
      MagnitudeSnoc([], 0);
      assert [] + [0] == [0];
    } else if !neg {
      PositiveContents(data);
    } else {
      NegativeContents(data);
    }
  }

  lemma PositiveContents(data: seq<Byte>)
    requires data != []
    ensures Twos(Contents(false, data)) == Magnitude(data)
    ensures Plain(data) ==> Shortest(Contents(false, data))
  {
    hide Magnitude, Pow;
    MagnitudeCons(0, data);
    assert [] + data == data;
  }

  lemma NegativeContents(data: seq<Byte>)
    requires data != [] && data != [0]
    ensures Twos(Contents(true, data)) == 0 - Magnitude(data)
    ensures Plain(data) ==> Shortest(Contents(true, data))
  {
    hide Magnitude, Pow;
    var t := Negated(data);
    var pad := Padding(true, data);
    FirstOctet(data);
    MagnitudeBound(data);
    FirstNegated(data);
    NegatedValue(data);
    if pad == [255] {
      MagnitudeCons(255, t);
      PowNext(|data|);
      assert ([255] + t)[0] == 255 && ([255] + t)[1] == t[0];
    } else {
      assert [] + t == t;
    }
  }

  predicate ZeroTail(s: seq<Byte>) {
    forall i :: 1 <= i < |s| ==> s[i] == 0
  }

  /** The sign bit of the negation: set exactly when the magnitude is not zero and needs no padding. */
  lemma FirstNegated(data: seq<Byte>)
    requires data != []
    ensures Negated(data)[0] == if ZeroTail(data) then Next(data[0]) else 255 - data[0]
    ensures ZeroTail(data) ==> Magnitude(data[1..]) == 0 && ZeroTail(Negated(data))
    ensures !ZeroTail(data) ==> Magnitude(data) > 0
    ensures Magnitude(data) == 0 ==> data[0] == 0
  {
    hide Magnitude, Pow, Negated;
    NegatedFirst(data);
    ZeroMagnitude(data);
    if ZeroTail(data) {
      NegatedZeros(data[1..]);
    }
  }

  lemma {:induction false} NegatedFirst(data: seq<Byte>)
    requires data != []
    ensures Negated(data)[0] == if ZeroTail(data) then Next(data[0]) else 255 - data[0]
    ensures ZeroTail(data) ==> ZeroTail(Negated(data))
  {
    var n := |data| - 1;
    if n == 0 {
      assert data[..0] == [];
    } else if data[n] == 0 {
      NegatedFirst(data[..n]);
      ZeroTailFront(data);
    } else {
      FlipFirst(data[..n]);
    }
  }

  lemma ZeroTailFront(s: seq<Byte>)
    requires |s| > 1 && s[|s| - 1] == 0
    ensures ZeroTail(s) == ZeroTail(s[..|s| - 1])
  {
  }

  lemma {:induction false} FlipFirst(s: seq<Byte>)
    requires s != []
    ensures Flip(s)[0] == 255 - s[0]
  {
    if |s| > 1 {
      FlipFirst(s[..|s| - 1]);
    } else {
      assert s[..0] == [];
    }
  }

  lemma {:induction false} ZeroMagnitude(s: seq<Byte>)
    ensures Magnitude(s) == 0 ==> forall i :: 0 <= i < |s| ==> s[i] == 0
  {
    hide Magnitude;
    if s != [] {
      var n := |s| - 1;
      assert s == s[..n] + [s[n]];
      MagnitudeSnoc(s[..n], s[n]);
      ZeroMagnitude(s[..n]);
      if Magnitude(s) == 0 {
        assert forall i :: 0 <= i < n ==> s[i] == s[..n][i];
      }
    }
  }

  // ---------------------------------------------------------------- reading

  predicate AllZero(s: seq<Byte>) {
    forall i :: 0 <= i < |s| ==> s[i] == 0
  }

  /** What c2i makes of contents octets: the sign and the magnitude. One leading octet that only carries the
      sign is skipped. */
  function Parsed(s: seq<Byte>): (bool, seq<Byte>) {
    if s == [] then (false, [])
    else if s[0] >= 128 then
      var rest := if s[0] == 255 && |s| != 1 then s[1..] else s;
      (true, if AllZero(rest) then [1] + Zeros(|rest|) else Negated(rest))
    else (false, if s[0] == 0 && |s| != 1 then s[1..] else s)
  }

  /** c2i yields exactly the two's complement value, and on the shortest octets a magnitude without leading
      zeros. */
  lemma ParsedValue(s: seq<Byte>)
    ensures var (neg, data) := Parsed(s); Twos(s) == if neg then 0 - Magnitude(data) else Magnitude(data)
    ensures Shortest(s) ==> Plain(Parsed(s).1) && Parsed(s).1 != [] && (Parsed(s).0 ==> Magnitude(Parsed(s).1) > 0)
  {
    hide Magnitude, Pow;
    if s == [] {
    } else {
      FirstOctet(s);
      PowNext(|s| - 1);
      if s[0] >= 128 {
        NegativeParsed(s);
      }
    }
  }

  lemma NegativeParsed(s: seq<Byte>)
    requires s != [] && s[0] >= 128
    ensures Twos(s) == 0 - Magnitude(Parsed(s).1) < 0
    ensures Shortest(s) ==> Plain(Parsed(s).1) && Parsed(s).1 != []
  {
    hide Magnitude, Pow;
    var rest := if s[0] == 255 && |s| != 1 then s[1..] else s;
    FirstOctet(s);
    PowNext(|s| - 1);
    MagnitudeBound(s);
    NegatedValue(rest);
    if AllZero(rest) {
      NegatedZeros(rest);
      NegatedZeros(Zeros(|rest|));
      MagnitudeCons(1, Zeros(|rest|));
    } else {
      NegatedFirst(rest);
      ZeroMagnitude(rest);
    }
  }

  /** Writing what was read restores the octets exactly when they are the shortest. */
  lemma ReadThenWrite(s: seq<Byte>)
    requires s != []
    ensures Contents(Parsed(s).0, Parsed(s).1) == s <==> Shortest(s)
  {
    hide Magnitude, Pow;
    var (neg, data) := Parsed(s);
    ParsedValue(s);
    ContentsValue(neg, data);
    if Shortest(s) {
      ShortestUnique(Contents(neg, data), s);
    } else {
      assert s[0] == 0 ==> Contents(neg, data) == Padding(false, data) + data && |data| < |s|;
      if s[0] == 255 {
        NegatedFirst(s[1..]);
        assert |Padding(true, data) + Negated(data)| < |s|;
      }
    }
  }

  /** The same magnitude without leading zeros is the same octets. */
  lemma PlainUnique(s: seq<Byte>, t: seq<Byte>)
    requires Plain(s) && Plain(t) && s != [] && t != [] && Magnitude(s) == Magnitude(t)
    ensures s == t
  {
    hide Magnitude, Pow;
    PlainLength(s, t);
    PlainLength(t, s);
    MagnitudeInjective(s, t);
  }

  lemma PlainLength(s: seq<Byte>, t: seq<Byte>)
    requires Plain(s) && s != [] && t != [] && Magnitude(s) <= Magnitude(t)
    ensures |s| <= |t|
  {
    hide Magnitude, Pow;
    if |s| > |t| {
      FirstOctet(s);
      MulMonotone(1, s[0], Pow(256, |s| - 1));
      PowMonotone(256, |t|, |s| - 1);
      MagnitudeBound(t);
      assert false;
    }
  }

  /** Reading what was written restores every integer in normal form. */
  lemma WriteThenRead(neg: bool, data: seq<Byte>)
    requires Plain(data) && data != [] && (neg ==> Magnitude(data) > 0)
    ensures Parsed(Contents(neg, data)) == (neg, data)
  {
    hide Magnitude, Pow;
    var s := Contents(neg, data);
    ContentsValue(neg, data);
    ParsedValue(s);
    PlainUnique(Parsed(s).1, data);
  }

  // ---------------------------------------------------------------- the code

  /** The number of octets, and the sign octet in front of them. */
  method Plan(neg0: bool, data: seq<Byte>) returns (neg: bool, pad: nat, pb: Byte)
    requires data != []
    ensures neg == (neg0 && data != [0])
    ensures Padding(neg, data) == if pad == 1 then [pb] else []
    ensures pad <= 1
  {
    neg, pad, pb := neg0, 0, 0;
    var i := data[0];
    if |data| == 1 && i == 0 {
      neg := false;
    }
    if !neg && i > 127 {
      pad := 1;
    } else if neg {
      if i > 128 {
        pad, pb := 1, 255;
      } else if i == 128 {
        var k := 1;
        while k < |data| && data[k] == 0
          invariant 1 <= k <= |data| && forall j :: 1 <= j < k ==> data[j] == 0
        {
          k := k + 1;
        }
        if k < |data| {
          pad, pb := 1, 255;
        }
      }
    }
  }

  /** i2c_ASN1_INTEGER into a buffer with room. */
  method I2c(a: Integer, buf: array<Byte>) returns (ret: nat)
    requires |a.data| + 1 <= buf.Length
    modifies buf
    ensures ret == |Contents(a.neg, a.data)| <= buf.Length && buf[..ret] == Contents(a.neg, a.data)
  {
    hide Negated, Padding;
    if |a.data| == 0 {
      buf[0] := 0;
      return 1;
    }
    var neg, pad, pb := Plan(a.neg, a.data);
    ret := |a.data| + pad;
    if pad == 1 {
      buf[0] := pb;
    }
    ghost var front := buf[..pad];
    PutBody(buf, pad, a.data, neg);
    assert buf[..ret] == buf[..pad] + buf[pad..ret];
    assert buf[..pad] == front == Padding(neg, a.data);
  }

  /** The octets behind the padding: the magnitude, or its negation. */
  method PutBody(buf: array<Byte>, p: nat, data: seq<Byte>, neg: bool)
    requires data != [] && p + |data| <= buf.Length
    modifies buf
    ensures buf[..p] == old(buf[..p]) && buf[p..p + |data|] == if neg then Negated(data) else data
  {
    hide Negated, Flip;
    if !neg {
      forall i | 0 <= i < |data| {
        buf[p + i] := data[i];
      }
    } else {
      var i := CopyZeros(buf, p, data, 1);
      NegatedParts(data, i);
      FlipRest(buf, p, data, i);
    }
  }

  /** c2i_ASN1_INTEGER. */
  method C2i(a: Integer, s: seq<Byte>)
    modifies a
    ensures (a.neg, a.data) == Parsed(s)
    ensures a.Value() == Twos(s)
  {
    hide Magnitude, Twos;
    ParsedValue(s);
    if |s| == 0 {
      a.neg, a.data := false, [];
    } else if s[0] >= 128 {
      a.neg := true;
      var p := s;
      if s[0] == 255 && |s| != 1 {
        p := s[1..];
      }
      a.data := ReadNegative(p);
    } else {
      a.neg := false;
      a.data := if s[0] == 0 && |s| != 1 then s[1..] else s;
    }
  }

  /** The magnitude of negative octets: one longer than they are when all of them are zero. */
  method ReadNegative(p: seq<Byte>) returns (data: seq<Byte>)
    requires p != []
    ensures data == if AllZero(p) then [1] + Zeros(|p|) else Negated(p)
  {
    var buf := new Byte[|p| + 1];
    var i := CopyZeros(buf, 0, p, 0);
    var len := |p|;
    if i == 0 {
      buf[0] := 1;
      buf[len] := 0;
      len := len + 1;
      assert buf[..len] == [1] + Zeros(|p|);
    } else {
      NegatedParts(p, i);
      FlipRest(buf, 0, p, i);
      assert buf[..len] == buf[0..len];
    }
    data := buf[..len];
  }

  /** memcmp. */
  method CompareOctets(s: seq<Byte>, t: seq<Byte>) returns (r: int)
    requires |s| == |t|
    ensures r < 0 <==> Magnitude(s) < Magnitude(t)
    ensures r > 0 <==> Magnitude(s) > Magnitude(t)
  {
    hide Magnitude;
    var i := 0;
    while i < |s| && s[i] == t[i]
      invariant 0 <= i <= |s| && s[..i] == t[..i]
    {
      i := i + 1;
    }
    if i == |s| {
      assert s == s[..i] && t == t[..i];
      return 0;
    }
    FirstDifference(s, t, i);
    var x: int, y: int := s[i], t[i];
    r := x - y;
  }

  lemma FirstDifference(s: seq<Byte>, t: seq<Byte>, i: nat)
    requires |s| == |t| && i < |s| && s[..i] == t[..i] && s[i] != t[i]
    ensures if s[i] < t[i] then Magnitude(s) < Magnitude(t) else Magnitude(s) > Magnitude(t)
  {
    hide Magnitude, Pow;
    var p := s[..i];
    assert s == p + s[i..] && t == p + t[i..];
    MagnitudeAppend(p, s[i..]);
    MagnitudeAppend(p, t[i..]);
    FirstOctet(s[i..]);
    FirstOctet(t[i..]);
    var n := |s| - i - 1;
    if s[i] < t[i] {
      MulMonotone(s[i] as int + 1, t[i], Pow(256, n));
    } else {
      MulMonotone(t[i] as int + 1, s[i], Pow(256, n));
    }
  }

  lemma {:induction false} MagnitudeAppend(p: seq<Byte>, s: seq<Byte>)
    ensures Magnitude(p + s) == Magnitude(p) * Pow(256, |s|) + Magnitude(s)
    decreases |s|
  {
    hide Magnitude;
    if s == [] {
      assert p + [] == p;
      NoOctets();
    } else {
      var n := |s| - 1;
      assert p + s == (p + s[..n]) + [s[n]] && s == s[..n] + [s[n]];
      MagnitudeSnoc(p + s[..n], s[n]);
      MagnitudeSnoc(s[..n], s[n]);
      MagnitudeAppend(p, s[..n]);
      ScaleByte(Magnitude(p), Pow(256, n));
    }
  }

  /** What c2i and BN_to_ASN1_INTEGER produce. */
  predicate NormalForm(neg: bool, data: seq<Byte>) {
    Plain(data) && data != [] && (neg ==> data != [0])
  }

  /** Signs are compared first and lengths next. That is the order of the values unless both are zero, or the
      one with more octets is not the larger. */
  predicate Comparable(xneg: bool, x: seq<Byte>, yneg: bool, y: seq<Byte>) {
    if xneg != yneg then Magnitude(x) > 0 || Magnitude(y) > 0
    else (|x| > |y| ==> Magnitude(x) > Magnitude(y)) && (|y| > |x| ==> Magnitude(y) > Magnitude(x))
  }

  /** ASN1_INTEGER_cmp: for which integers, in any representation, it is the order of the values. */
  method Compare(x: Integer, y: Integer) returns (ret: int)
    ensures Comparable(x.neg, x.data, y.neg, y.data) <==>
              (ret < 0 <==> x.Value() < y.Value()) && (ret > 0 <==> x.Value() > y.Value())
    ensures NormalForm(x.neg, x.data) && NormalForm(y.neg, y.data) ==> Comparable(x.neg, x.data, y.neg, y.data)
    ensures x.neg != y.neg ==> ret != 0 && (ret < 0 <==> x.neg)
    ensures x.neg == y.neg && |x.data| != |y.data| ==> ret != 0 && (ret < 0 <==> x.neg == (|x.data| > |y.data|))
  {
    hide Magnitude, NormalForm;
    if NormalForm(x.neg, x.data) && NormalForm(y.neg, y.data) {
      NormalComparable(x.neg, x.data, y.neg, y.data);
    }
    if x.neg != y.neg {
      return if x.neg then -1 else 1;
    }
    ret := |x.data| - |y.data|;
    if ret == 0 {
      ret := CompareOctets(x.data, y.data);
    }
    if x.neg {
      ret := 0 - ret;
    }
  }

  lemma NormalComparable(xneg: bool, x: seq<Byte>, yneg: bool, y: seq<Byte>)
    requires NormalForm(xneg, x) && NormalForm(yneg, y)
    ensures Comparable(xneg, x, yneg, y)
  {
    hide Magnitude;
    NotZero(xneg, x);
    NotZero(yneg, y);
    if Magnitude(x) <= Magnitude(y) {
      PlainLength(x, y);
    }
    if Magnitude(y) <= Magnitude(x) {
      PlainLength(y, x);
    }
  }

  /** Integers as they are read from 00 00 01 and from 02: 1 is ordered above 2. */
  method OrderedByLength() returns (first: int, second: int, ret: int)
    ensures first == 1 && second == 2 && ret > 0
  {
    hide Magnitude;
    var x := new Integer();
    var y := new Integer();
    C2i(x, [0, 0, 1]);
    C2i(y, [2]);
    OneAndTwo();
    first, second := x.Value(), y.Value();
    ret := Compare(x, y);
  }

  lemma OneAndTwo()
    ensures Parsed([0, 0, 1]) == (false, [0, 1]) && Parsed([2]) == (false, [2])
    ensures Magnitude([0, 1]) == 1 && Magnitude([2]) == 2
  {
  }

  lemma NotZero(neg: bool, data: seq<Byte>)
    requires NormalForm(neg, data)
    ensures neg ==> Magnitude(data) > 0
  {
    hide Magnitude;
    ZeroMagnitude(data);
    if neg && Magnitude(data) == 0 {
      assert false;
    }
  }

  // ---------------------------------------------------------------- the codec for longs

  const LONG_LIMIT: nat := 0x8000_0000_0000_0000

  /** A number kept in a C long. */
  function ToLong(x: int): int {
    (x + LONG_LIMIT) % (2 * LONG_LIMIT) - LONG_LIMIT
  }

  lemma NegatedLess(v: int)
    requires 0 - LONG_LIMIT <= v < LONG_LIMIT
    ensures v < 0 ==> ToLong(ToLong(0 - v) - 1) == 0 - v - 1
  {
  }

  /** The shortest octets of a number that is not negative. */
  function PositiveOctets(u: nat): seq<Byte> {
    Contents(false, if u == 0 then [] else Digits(u, 256))
  }

  lemma PositiveOctetsValue(u: nat)
    ensures Twos(PositiveOctets(u)) == u && Shortest(PositiveOctets(u)) && PositiveOctets(u)[0] < 128
  {
    hide Magnitude, Pow;
    DigitsNumber(u, 256);
    NoOctets();
    var data := if u == 0 then [] else Digits(u, 256);
    assert Magnitude(data) == u by {
      DigitsMagnitude(u);
    }
    ContentsValue(false, data);
    TwosRange(PositiveOctets(u));
  }

  lemma DigitsMagnitude(u: nat)
    ensures Magnitude(Digits(u, 256)) == u
  {
    DigitsNumber(u, 256);
  }

  /** Complementing every octet of v gives -1 - v, and keeps the encoding shortest. */
  lemma FlipTwos(s: seq<Byte>)
    requires s != []
    ensures Twos(Flip(s)) == 0 - 1 - Twos(s) && (Shortest(s) ==> Shortest(Flip(s)))
  {
    hide Magnitude, Pow;
    FlipValue(s);
    FlipFirst(s);
    if |s| > 1 {
      FlipAt(s, 1);
    }
  }

  lemma {:induction false} FlipAt(s: seq<Byte>, k: nat)
    requires k < |s|
    ensures Flip(s)[k] == 255 - s[k]
  {
    if k < |s| - 1 {
      FlipAt(s[..|s| - 1], k);
    }
  }

  /** The octets of a long. */
  function LongOctets(v: int): seq<Byte> {
    if v < 0 then Flip(PositiveOctets(0 - v - 1)) else PositiveOctets(v)
  }

  /** The two codecs agree: the octets of a long are the shortest ones of its value, so they are what i2c
      writes for any integer of that value without leading zeros, and what c2i reads back. */
  lemma LongAgrees(v: int, neg: bool, data: seq<Byte>)
    requires Plain(data) && v == if neg then 0 - Magnitude(data) else Magnitude(data)
    ensures LongOctets(v) == Contents(neg, data)
    ensures Twos(LongOctets(v)) == v && Shortest(LongOctets(v))
  {
    hide Magnitude, Pow;
    LongOctetsValue(v);
    ContentsValue(neg, data);
    ShortestUnique(LongOctets(v), Contents(neg, data));
  }

  lemma LongOctetsValue(v: int)
    ensures Twos(LongOctets(v)) == v && Shortest(LongOctets(v))
  {
    hide Twos, PositiveOctets;
    var u := if v < 0 then 0 - v - 1 else v;
    PositiveOctetsValue(u);
    if v < 0 {
      FlipTwos(PositiveOctets(u));
    }
  }

  lemma ZeroDigits()
    ensures Digits(0, 256) == []
  {
  }

  /** long_i2c; -1 for the value that stands for an absent one. Negating LONG_MIN wraps, and subtracting 1 wraps
      back. */
  method LongI2c(v: int, sentinel: int, buf: array<Byte>) returns (n: int)
    requires 0 - LONG_LIMIT <= v < LONG_LIMIT && buf.Length >= 9
    modifies buf
    ensures n == if v == sentinel then -1 else |LongOctets(v)|
    ensures v != sentinel ==> n <= buf.Length && buf[..n] == LongOctets(v)
  {
    hide NumBits, Digits, ToLong, LongOctets, Shown;
    if v == sentinel {
      return -1;
    }
    NegatedLess(v);
    var utmp: nat := if v < 0 then ToLong(ToLong(0 - v) - 1) else v;
    ghost var u: nat := if v < 0 then 0 - v - 1 else v;
    BitsAndOctets(u);
    EightOctets(u);
    var clen := NumBits(utmp);
    var pad := if clen % 8 == 0 then 1 else 0;
    clen := (clen + 7) / 8;
    if pad == 1 {
      buf[0] := if v < 0 then 255 else 0;
    }
    ghost var front := buf[..pad];
    PutOctets(buf, pad, clen, utmp, v < 0);
    n := clen + pad;
    ghost var body := buf[pad..n];
    assert buf[..n] == front + body;
    LongParts(v, front, body);
  }

  /** Octets of a negative number are kept complemented. */
  function Shown(neg: bool, s: seq<Byte>): (t: seq<Byte>)
    ensures |t| == |s|
  {
    if neg then Flip(s) else s
  }

  lemma ShownNothing(neg: bool)
    ensures Shown(neg, []) == []
  {
  }

  lemma ShownCons(neg: bool, low: Byte, s: seq<Byte>)
    ensures Shown(neg, [if neg then 255 - low else low] + s) == [low] + Shown(neg, s)
  {
    FlipCons(255 - low, s);
  }

  lemma ShownSnoc(neg: bool, s: seq<Byte>, c: Byte)
    ensures Shown(neg, s + [c]) == Shown(neg, s) + [if neg then 255 - c else c]
  {
  }

  /** The loop of long_i2c, from the last octet. */
  method PutOctets(buf: array<Byte>, p: nat, clen: nat, u: nat, neg: bool)
    requires clen == |Digits(u, 256)| && p + clen <= buf.Length
    modifies buf
    ensures buf[..p] == old(buf[..p])
    ensures Digits(u, 256) == Shown(neg, buf[p..p + clen])
  {
    hide Digits, Shown;
    var i, utmp := clen, u;
    ShownNothing(neg);
    assert buf[p + i..p + clen] == [] && Digits(u, 256) + [] == Digits(u, 256);
    while i > 0
      invariant 0 <= i <= clen && 0 <= utmp && buf[..p] == old(buf[..p])
      invariant |Digits(utmp, 256)| == i
      invariant Digits(u, 256) == Digits(utmp, 256) + Shown(neg, buf[p + i..p + clen])
    {
      i := i - 1;
      ghost var done := buf[p + i + 1..p + clen];
      var low: Byte := utmp % 256;
      DigitsSplit(utmp);
      buf[p + i] := if neg then 255 - low else low;
      assert buf[p + i..p + clen] == [buf[p + i]] + done;
      ShownCons(neg, low, done);
      assert Digits(utmp / 256, 256) + [low] + Shown(neg, done) == Digits(utmp / 256, 256) + ([low] + Shown(neg, done));
      utmp := utmp / 256;
    }
  }

  lemma {:induction false} FlipCons(b: Byte, s: seq<Byte>)
    ensures Flip([b] + s) == [255 - b] + Flip(s)
    decreases |s|
  {
    if s == [] {
      assert [b] + [] == [] + [b];
      assert ([b] + s)[..0] == [] && Flip([]) == [];
    } else {
      var n := |s| - 1;
      assert ([b] + s)[..n + 1] == [b] + s[..n];
      FlipCons(b, s[..n]);
    }
  }

  lemma {:induction false} FlipBack(s: seq<Byte>)
    ensures Flip(Flip(s)) == s
  {
    if s != [] {
      var n := |s| - 1;
      FlipBack(s[..n]);
      assert Flip(s)[..n] == Flip(s[..n]);
      assert s == s[..n] + [s[n]];
    }
  }

  lemma LongParts(v: int, front: seq<Byte>, body: seq<Byte>)
    requires var u := if v < 0 then 0 - v - 1 else v;
             && Digits(u, 256) == Shown(v < 0, body)
             && front == (if u == 0 || Digits(u, 256)[0] > 127 then [if v < 0 then 255 else 0] else [])
    ensures LongOctets(v) == front + body
  {
    hide Digits, Flip, PositiveOctets;
    FlipBack(body);
    var u := if v < 0 then 0 - v - 1 else v;
    var ds := Digits(u, 256);
    PositiveParts(u);
    if v < 0 {
      FlipCons(0, ds);
      assert Flip(ds) == body;
    }
    assert [] + body == body;
  }

  lemma PositiveParts(u: nat)
    ensures PositiveOctets(u) ==
            (if u == 0 || Digits(u, 256)[0] > 127 then [0] + Digits(u, 256) else Digits(u, 256))
  {
  }

  lemma EightOctets(u: nat)
    requires u <= LONG_LIMIT
    ensures |Digits(u, 256)| <= 8
  {
    assert Pow(256, 8) > LONG_LIMIT by {
      PowAdd(256, 4, 4);
      PowAdd(256, 2, 2);
      assert Pow(256, 2) == 0x1_0000;
    }
    DigitsLength(u, 256, 8);
  }

  /** long_c2i: the two's complement value of at most eight octets, refused when it is the one that stands for
      an absent value. */
  method LongC2i(cont: seq<Byte>, sentinel: int) returns (r: Option<int>)
    ensures r == if |cont| > 8 || Twos(cont) == sentinel then None else Some(Twos(cont))
  {
    hide Twos, Magnitude, Shown;
    if |cont| > 8 {
      return None;
    }
    var neg := |cont| > 0 && cont[0] >= 128;
    var utmp := Accumulate(cont, neg);
    LongFits(cont);
    TwosOfShown(cont);
    var ltmp := ToLong(utmp);
    if neg {
      ltmp := ToLong(ltmp + 1);
      ltmp := ToLong(0 - ltmp);
    }
    if ltmp == sentinel {
      return None;
    }
    r := Some(ltmp);
  }

  method Accumulate(cont: seq<Byte>, neg: bool) returns (utmp: nat)
    ensures utmp == Magnitude(Shown(neg, cont))
  {
    hide Magnitude, Shown;
    utmp := 0;
    var i := 0;
    NoOctets();
    ShownNothing(neg);
    while i < |cont|
      invariant 0 <= i <= |cont| && utmp == Magnitude(Shown(neg, cont[..i]))
    {
      var b: Byte := if neg then 255 - cont[i] else cont[i];
      assert cont[..i + 1] == cont[..i] + [cont[i]];
      ShownSnoc(neg, cont[..i], cont[i]);
      MagnitudeSnoc(Shown(neg, cont[..i]), b);
      utmp := utmp * 256 + b;
      i := i + 1;
    }
    assert cont[..|cont|] == cont;
  }

  lemma TwosOfShown(cont: seq<Byte>)
    ensures var neg := |cont| > 0 && cont[0] >= 128;
            Twos(cont) == if neg then 0 - 1 - Magnitude(Shown(neg, cont)) else Magnitude(Shown(neg, cont))
  {
    hide Magnitude;
    FlipValue(cont);
  }

  lemma LongFits(cont: seq<Byte>)
    requires |cont| <= 8
    ensures 0 - LONG_LIMIT <= Twos(cont) < LONG_LIMIT
  {
    hide Magnitude, Pow;
    NoOctets();
    if cont != [] {
      TwosRange(cont);
      PowMonotone(256, |cont| - 1, 7);
      assert 128 * Pow(256, 7) == LONG_LIMIT by {
        PowAdd(256, 4, 3);
        Powers();
      }
    }
  }

  lemma Powers()
    ensures Pow(256, 3) == 0x100_0000 && Pow(256, 4) == 0x1_0000_0000
  {
  }

  // ---------------------------------------------------------------- ASN1_INTEGER_set and ASN1_INTEGER_get

  /** LONG_MIN negated wraps to itself. Shifted right by 8i bits it stays negative, where its magnitude would run
      out; the low octets are the same. */
  const MIN_SHIFTED: seq<int> := [0 - 0x8000_0000_0000_0000, 0 - 0x80_0000_0000_0000, 0 - 0x8000_0000_0000,
    0 - 0x80_0000_0000, 0 - 0x8000_0000, 0 - 0x80_0000, 0 - 0x8000, 0 - 0x80, 0 - 1]

  const MAGNITUDE_SHIFTED: seq<nat> := [0x8000_0000_0000_0000, 0x80_0000_0000_0000, 0x8000_0000_0000,
    0x80_0000_0000, 0x8000_0000, 0x80_0000, 0x8000, 0x80, 0]

  lemma ShiftedMinimum(i: nat)
    requires i < 8
    ensures MIN_SHIFTED[i] != 0 && MIN_SHIFTED[i] % 256 == MAGNITUDE_SHIFTED[i] % 256
    ensures MIN_SHIFTED[i] / 256 == MIN_SHIFTED[i + 1] && MAGNITUDE_SHIFTED[i] / 256 == MAGNITUDE_SHIFTED[i + 1]
  {
  }

  /** The octets of the magnitude, the lowest first: at most eight of them. */
  method LowOctets(v: int) returns (buf: seq<Byte>)
    requires 0 - LONG_LIMIT <= v < LONG_LIMIT
    ensures Digits(Abs(v), 256) == Reversed(buf)
  {
    hide Digits;
    var d := if v < 0 then ToLong(0 - v) else v;
    ghost var rest: nat := Abs(v);
    ghost var wraps := v == 0 - LONG_LIMIT;
    EightOctets(rest);
    buf := [];
    var i := 0;
    assert Digits(rest, 256) + Reversed(buf) == Digits(rest, 256);
    while i < 8 && d != 0
      invariant 0 <= i <= 8 && Digits(Abs(v), 256) == Digits(rest, 256) + Reversed(buf)
      invariant |Digits(rest, 256)| <= 8 - i
      invariant if wraps then d == MIN_SHIFTED[i] && rest == MAGNITUDE_SHIFTED[i] else d == rest
    {
      if wraps {
        ShiftedMinimum(i);
      }
      DigitsSplit(rest);
      assert Digits(rest / 256, 256) + [rest % 256] + Reversed(buf) == Digits(rest / 256, 256) + ([rest % 256] + Reversed(buf));
      ReversedSnoc(buf, d % 256);
      buf := buf + [d % 256];
      d := d / 256;
      rest := rest / 256;
      i := i + 1;
    }
    ZeroDigits();
    assert Digits(rest, 256) == [] && [] + Reversed(buf) == Reversed(buf);
  }

  /** ASN1_INTEGER_set. */
  method Set(a: Integer, v: int)
    requires 0 - LONG_LIMIT <= v < LONG_LIMIT
    modifies a
    ensures a.Value() == v && a.data == Digits(Abs(v), 256)
  {
    hide Digits, Magnitude;
    DigitsMagnitude(Abs(v));
    var low := LowOctets(v);
    var data: seq<Byte>, k := [], |low|;
    assert low[..k] == low && [] + Reversed(low) == Reversed(low);
    while k > 0
      invariant 0 <= k <= |low| && Reversed(low) == data + Reversed(low[..k])
    {
      assert low[..k] == low[..k - 1] + [low[k - 1]];
      ReversedSnoc(low[..k - 1], low[k - 1]);
      data := data + [low[k - 1]];
      k := k - 1;
    }
    assert low[..0] == [] && Reversed([]) == [] && data + [] == data;
    a.neg, a.data := v < 0, data;
  }

  lemma ShownPlain(s: seq<Byte>)
    ensures Shown(false, s) == s
  {
  }

  function Reversed(s: seq<Byte>): seq<Byte> {
    if s == [] then [] else Reversed(s[1..]) + [s[0]]
  }

  lemma {:induction false} ReversedSnoc(s: seq<Byte>, b: Byte)
    ensures Reversed(s + [b]) == [b] + Reversed(s)
  {
    if s == [] {
      assert ([] + [b])[1..] == [] && Reversed([]) == [];
    } else {
      assert (s + [b])[1..] == s[1..] + [b];
      ReversedSnoc(s[1..], b);
    }
  }

  lemma DigitsSplit(t: nat)
    requires |Digits(t, 256)| > 0 || t > 0
    ensures Digits(t, 256) == Digits(t / 256, 256) + [t % 256]
  {
  }

  /** ASN1_INTEGER_get: the value, as far as a long holds it; -1 for more than eight octets. */
  method Get(a: Integer) returns (r: int)
    ensures r == if |a.data| > 8 then -1 else ToLong(a.Value())
    ensures |a.data| <= 8 && 0 - LONG_LIMIT <= a.Value() < LONG_LIMIT ==> r == a.Value()
  {
    hide Magnitude;
    if |a.data| > 8 {
      return -1;
    }
    ShownPlain(a.data);
    var m := Accumulate(a.data, false);
    r := ToLong(m);
    if a.neg {
      r := ToLong(0 - r);
    }
  }
}
