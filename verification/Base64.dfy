/** Base64 blocks, section 4 of RFC 4648 (crypto/base64/base64.c). Characters are their ASCII codes. */
module Base64 {
  import opened Arith
  import opened Bytes

  const EQUALS: Byte := 61
  const NEWLINE: Byte := 10

  const EOLN: Byte := 0xF0
  const CR: Byte := 0xF1
  const EOF: Byte := 0xF2
  const WS: Byte := 0xE0
  const ERROR: Byte := 0xFF

  /** conv_bin2ascii. */
  function ToAscii(v: nat): Byte {
    var a := v % 64;
    if a < 26 then 65 + a else if a < 52 then 71 + a else if a < 62 then a - 4 else if a == 62 then 43 else 47
  }

  /** conv_ascii2bin. */
  function FromAscii(a: Byte): Byte {
    if 65 <= a <= 90 then a - 65
    else if 97 <= a <= 122 then a - 71
    else if 48 <= a <= 57 then a + 4
    else if a == 43 then 62
    else if a == 47 then 63
    else if a == 9 || a == 32 then WS
    else if a == 10 then EOLN
    else if a == 13 then CR
    else if a == 45 then EOF
    else ERROR
  }

  /** B64_NOT_BASE64: white space, line ends and '-'. An error character is not among them. */
  predicate NotBase64(v: Byte) {
    v == WS || v == EOLN || v == CR || v == EOF
  }

  predicate Plain(a: Byte) {
    FromAscii(a) < 64
  }

  lemma AsciiBack(v: nat)
    ensures FromAscii(ToAscii(v)) == v % 64 && ToAscii(v) != EQUALS && ToAscii(v) != NEWLINE
  {
  }

  // ---------------------------------------------------------------- encoding

  /** Four characters for three bytes. */
  function Quad(a: nat, b: nat, c: nat): (q: seq<Byte>)
    ensures |q| == 4
  {
    [ToAscii(a / 4), ToAscii(a % 4 * 16 + b / 16), ToAscii(b % 16 * 4 + c / 64), ToAscii(c)]
  }

  /** A group of one or two bytes, padded. */
  function Short(src: seq<Byte>): (q: seq<Byte>)
    requires |src| == 1 || |src| == 2
    ensures |q| == 4
  {
    if |src| == 1 then Quad(src[0], 0, 0)[..2] + [EQUALS, EQUALS] else Quad(src[0], src[1], 0)[..3] + [EQUALS]
  }

  function Block(src: seq<Byte>): (s: seq<Byte>)
    ensures |s| == (|src| + 2) / 3 * 4
  {
    if src == [] then []
    else if |src| < 3 then Short(src)
    else Quad(src[0], src[1], src[2]) + Block(src[3..])
  }

  lemma SameDigit(x: nat, y: nat)
    requires x % 64 == y % 64
    ensures ToAscii(x) == ToAscii(y)
  {
  }

  lemma GroupDigits(a: nat, b: nat, c: nat)
    requires a < 256 && b < 256 && c < 256
    ensures var l := a * 0x1_0000 + b * 0x100 + c;
            && l / 0x4_0000 == a / 4 && l / 0x1000 == 16 * a + b / 16
            && l / 0x40 == 1024 * a + 4 * b + c / 64
  {
  }

  lemma SixBits(a: nat, b: nat, c: nat)
    requires a < 256 && b < 256 && c < 256
    ensures (16 * a + b / 16) % 64 == a % 4 * 16 + b / 16
    ensures (1024 * a + 4 * b + c / 64) % 64 == b % 16 * 4 + c / 64
    ensures (a * 0x1_0000 + b * 0x100 + c) % 64 == c % 64
  {
    EuclidUnique(16 * a + b / 16, 64, a / 4, a % 4 * 16 + b / 16);
    EuclidUnique(1024 * a + 4 * b + c / 64, 64, 16 * a + b / 16, b % 16 * 4 + c / 64);
    EuclidUnique(a * 0x1_0000 + b * 0x100 + c, 64, 1024 * a + 4 * b + c / 64, c % 64);
  }

  /** The shifts and masks of the code on the 24-bit group. */
  lemma GroupShifts(a: Byte, b: Byte, c: Byte)
    ensures var l := a as int * 0x1_0000 + b as int * 0x100 + c as int;
            [ToAscii(l / 0x4_0000), ToAscii(l / 0x1000), ToAscii(l / 0x40), ToAscii(l)] == Quad(a, b, c)
  {
    hide ToAscii;
    var l := a as int * 0x1_0000 + b as int * 0x100 + c as int;
    GroupDigits(a, b, c);
    SixBits(a, b, c);
    SameDigit(l / 0x1000, a % 4 * 16 + b / 16);
    SameDigit(l / 0x40, b % 16 * 4 + c / 64);
    SameDigit(l, c);
  }

  /** EVP_EncodeBlock. */
  method EncodeBlock(src: seq<Byte>) returns (dst: seq<Byte>)
    ensures dst == Block(src)
  {
    hide ToAscii, Quad;
    dst := [];
    var p, remaining := 0, |src|;
    while remaining > 0
      invariant 0 <= p && (remaining > 0 ==> p + remaining == |src|) && (remaining == 0 ==> dst == Block(src))
      invariant 0 <= remaining && (remaining > 0 ==> Block(src) == dst + Block(src[p..]))
      decreases remaining
    {
      var s0: nat := src[p];
      if remaining >= 3 {
        var s1: nat, s2: nat := src[p + 1], src[p + 2];
        var l := s0 * 0x1_0000 + s1 * 0x100 + s2;
        GroupShifts(src[p], src[p + 1], src[p + 2]);
        var quad := [ToAscii(l / 0x4_0000), ToAscii(l / 0x1000), ToAscii(l / 0x40), ToAscii(l)];
        assert src[p..][3..] == src[p + 3..];
        assert Block(src) == dst + (quad + Block(src[p + 3..]));
        dst := dst + quad;
        remaining := remaining - 3;
        if remaining == 0 {
          assert src[p + 3..] == [];
        }
      } else {
        var s1: nat := if remaining == 2 then src[p + 1] else 0;
        var l := s0 * 0x1_0000 + s1 * 0x100;
        GroupShifts(src[p], s1, 0);
        var third := if remaining == 1 then EQUALS else ToAscii(l / 0x40);
        var quad := [ToAscii(l / 0x4_0000), ToAscii(l / 0x1000), third, EQUALS];
        assert quad == Short(src[p..]);
        dst := dst + quad;
        remaining := 0;
      }
      p := p + 3;
    }
    assert src[|src|..] == [];
  }

  // ---------------------------------------------------------------- decoding

  predicate BadDigit(v: Byte) {
    v >= 0x80
  }

  /** One group of four characters; padding counts only in the last. */
  function DecodeQuad(s: seq<Byte>, last: bool): Option<seq<Byte>>
    requires |s| == 4
  {
    var pad := if last && s[3] == EQUALS then (if s[2] == EQUALS then 2 else 1) else 0;
    var a, b := FromAscii(s[0]), FromAscii(s[1]);
    var c := if pad < 2 then FromAscii(s[2]) else 0;
    var d := if pad < 1 then FromAscii(s[3]) else 0;
    if BadDigit(a) || BadDigit(b) || BadDigit(c) || BadDigit(d) then None
    else Some(Triple(a, b, c, d)[..3 - pad])
  }

  /** The three bytes of four digits. */
  function Triple(a: nat, b: nat, c: nat, d: nat): (t: seq<Byte>)
    ensures |t| == 3
  {
    [(a * 4 + b / 16) % 256, b % 16 * 16 + c / 4 % 16, c % 4 * 64 + d % 64]
  }

  function Decode(s: seq<Byte>): Option<seq<Byte>>
    decreases |s|
  {
    if |s| % 4 != 0 then None
    else if s == [] then Some([])
    else
      var q := DecodeQuad(s[..4], |s| == 4);
      if q.None? then None
      else
        var rest := Decode(s[4..]);
        if rest.None? then None else Some(q.value + rest.value)
  }

  lemma QuadBack(a: Byte, b: Byte, c: Byte, last: bool)
    ensures DecodeQuad(Quad(a, b, c), last) == Some([a, b, c])
  {
    hide ToAscii, FromAscii, Quad, Triple;
    QuadDigits(a, b, c);
    assert [a, b, c][..3] == [a, b, c];
  }

  lemma ShortBack(a: Byte, b: Byte)
    ensures DecodeQuad(Short([a]), true) == Some([a])
    ensures DecodeQuad(Short([a, b]), true) == Some([a, b])
  {
    hide ToAscii, FromAscii, Quad, Triple;
    QuadDigits(a, b, 0);
    QuadDigits(a, 0, 0);
    ZeroDigits(a, b);
    assert [a, 0, 0][..1] == [a] && [a, b, 0][..2] == [a, b];
  }

  /** The characters that padding replaces stand for 0. */
  lemma ZeroDigits(a: Byte, b: Byte)
    ensures FromAscii(Quad(a, b, 0)[3]) == 0 && FromAscii(Quad(a, 0, 0)[3]) == 0 && FromAscii(Quad(a, 0, 0)[2]) == 0
  {
  }

  lemma TripleBack(a: nat, b: nat, c: nat)
    requires a < 256 && b < 256 && c < 256
    ensures Triple(a / 4 % 64, (a % 4 * 16 + b / 16) % 64, (b % 16 * 4 + c / 64) % 64, c % 64) == [a, b, c]
  {
    var x, y := a % 4 * 16 + b / 16, b % 16 * 4 + c / 64;
    EuclidUnique(a / 4, 64, 0, a / 4);
    EuclidUnique(x, 64, 0, x);
    EuclidUnique(y, 64, 0, y);
    EuclidUnique(x, 16, a % 4, b / 16);
    EuclidUnique(y, 4, b % 16, c / 64);
    EuclidUnique(a / 4 * 4 + a % 4, 256, 0, a);
  }

  lemma QuadDigits(a: Byte, b: Byte, c: Byte)
    ensures var q := Quad(a, b, c);
            && Plain(q[0]) && Plain(q[1]) && Plain(q[2]) && Plain(q[3])
            && q[0] != EQUALS && q[1] != EQUALS && q[2] != EQUALS && q[3] != EQUALS
            && Triple(FromAscii(q[0]), FromAscii(q[1]), FromAscii(q[2]), FromAscii(q[3])) == [a, b, c]
  {
    hide ToAscii, FromAscii, Triple;
    AsciiBack(a / 4);
    AsciiBack(a % 4 * 16 + b / 16);
    AsciiBack(b % 16 * 4 + c / 64);
    AsciiBack(c);
    TripleBack(a, b, c);
  }

  /** Decoding what was encoded. */
  lemma {:induction false} BlockDecodes(src: seq<Byte>)
    ensures Decode(Block(src)) == Some(src)
    decreases |src|
  {
    hide DecodeQuad, Quad, Decode;
    NoGroups([]);
    if src == [] {
    } else if |src| < 3 {
      var s := Short(src);
      ShortBack(src[0], if |src| == 2 then src[1] else 0);
      assert src == if |src| == 1 then [src[0]] else [src[0], src[1]];
      assert s[..4] == s && s[4..] == [] && Block(src) == s && src + [] == src;
      FirstGroup(s);
    } else {
      hide Block;
      var q, rest := QuadOf(src), Block(src[3..]);
      BlockUnfolds(src);
      QuadBack(src[0], src[1], src[2], rest == []);
      assert (q + rest)[..4] == q && (q + rest)[4..] == rest;
      BlockDecodes(src[3..]);
      FirstGroup(q + rest);
      assert src == [src[0], src[1], src[2]] + src[3..];
    }
  }

  function QuadOf(src: seq<Byte>): (q: seq<Byte>)
    requires |src| >= 3
    ensures |q| == 4
  {
    Quad(src[0], src[1], src[2])
  }

  /** EVP_DecodeBase64; max is the room in the output. */
  method DecodeBase64(s: seq<Byte>, max: nat) returns (r: Option<seq<Byte>>)
    ensures r == if max < |s| / 4 * 3 then None else Decode(s)
  {
    hide FromAscii, DecodeQuad, Decode;
    if |s| % 4 != 0 || max < |s| / 4 * 3 {
      NoGroups(s);
      return None;
    }
    var out: seq<Byte>, i := [], 0;
    assert s[0..] == s;
    JoinedNothing(Decode(s));
    while i < |s|
      invariant 0 <= i <= |s| && i % 4 == 0 && Decode(s) == Joined(Some(out), Decode(s[i..]))
    {
      var pad := 0;
      if i + 4 == |s| && s[i + 3] == EQUALS {
        if s[i + 2] == EQUALS {
          pad := 2;
        } else {
          pad := 1;
        }
      }
      FirstGroup(s[i..]);
      assert s[i..][..4] == s[i..i + 4] && s[i..][4..] == s[i + 4..];
      var group := DecodeGroup(s[i..i + 4], pad);
      if group.None? {
        return None;
      }
      JoinedTwice(out, group.value, Decode(s[i + 4..]));
      out := out + group.value;
      i := i + 4;
    }
    assert s[|s|..] == [] && out + [] == out;
    NoGroups([]);
    r := Some(out);
  }

  function Joined(a: Option<seq<Byte>>, b: Option<seq<Byte>>): Option<seq<Byte>> {
    if a.None? || b.None? then None else Some(a.value + b.value)
  }

  lemma JoinedNothing(c: Option<seq<Byte>>)
    ensures Joined(Some([]), c) == c
  {
    if c.Some? {
      assert [] + c.value == c.value;
    }
  }

  lemma JoinedTwice(a: seq<Byte>, b: seq<Byte>, c: Option<seq<Byte>>)
    ensures Joined(Some(a), Joined(Some(b), c)) == Joined(Some(a + b), c)
  {
    if c.Some? {
      assert a + (b + c.value) == a + b + c.value;
    }
  }

  lemma NoGroups(s: seq<Byte>)
    ensures |s| % 4 != 0 ==> Decode(s) == None
    ensures Decode([]) == Some([])
  {
  }

  lemma FirstGroup(s: seq<Byte>)
    requires |s| % 4 == 0 && s != []
    ensures |s| >= 4 && Decode(s) == Joined(DecodeQuad(s[..4], |s| == 4), Decode(s[4..]))
  {
    hide DecodeQuad;
  }

  /** The body of the loop: shift the digits together and cut out the bytes. */
  method DecodeGroup(s: seq<Byte>, pad: nat) returns (r: Option<seq<Byte>>)
    requires |s| == 4 && pad <= 2 && (pad > 0 ==> s[3] == EQUALS) && (pad == 2 <==> pad > 0 && s[2] == EQUALS)
    ensures pad > 0 ==> r == DecodeQuad(s, true)
    ensures s[3] != EQUALS ==> r == DecodeQuad(s, true)
    ensures pad == 0 ==> r == DecodeQuad(s, false)
  {
    hide FromAscii, Triple;
    var a: nat, b: nat := FromAscii(s[0]), FromAscii(s[1]);
    var c: nat := if pad < 2 then FromAscii(s[2]) else 0;
    var d: nat := if pad < 1 then FromAscii(s[3]) else 0;
    if a >= 0x80 || b >= 0x80 || c >= 0x80 || d >= 0x80 {
      return None;
    }
    DigitRange(s);
    var l := a * 0x4_0000 + b * 0x1000 + c * 0x40 + d;
    TripleBytes(a, b, c, d);
    var out: seq<Byte> := [l / 0x1_0000 % 256];
    if pad < 2 {
      out := out + [l / 0x100 % 256];
    }
    if pad < 1 {
      out := out + [l % 256];
    }
    assert out == Triple(a, b, c, d)[..3 - pad];
    r := Some(out);
  }

  lemma TripleBytes(a: nat, b: nat, c: nat, d: nat)
    requires a < 64 && b < 64 && c < 64 && d < 64
    ensures var l := a * 0x4_0000 + b * 0x1000 + c * 0x40 + d;
            Triple(a, b, c, d) == [l / 0x1_0000 % 256, l / 0x100 % 256, l % 256]
  {
    var l := a * 0x4_0000 + b * 0x1000 + c * 0x40 + d;
    HighByte(l, a, b, c * 0x40 + d);
    MiddleByte(l, a, b, c, d);
    LowByte(l, a, b, c, d);
  }

  lemma HighByte(l: nat, a: nat, b: nat, low: nat)
    requires a < 64 && b < 64 && low < 0x1000 && l == a * 0x4_0000 + b * 0x1000 + low
    ensures l / 0x1_0000 % 256 == 4 * a + b / 16
  {
  }

  lemma MiddleByte(l: nat, a: nat, b: nat, c: nat, d: nat)
    requires b < 64 && c < 64 && d < 64 && l == a * 0x4_0000 + b * 0x1000 + c * 0x40 + d
    ensures l / 0x100 % 256 == b % 16 * 16 + c / 4
  {
    EuclidUnique(l, 256, 1024 * a + 16 * b + c / 4, c % 4 * 64 + d);
    EuclidUnique(1024 * a + 16 * b + c / 4, 256, 4 * a + b / 16, b % 16 * 16 + c / 4);
  }

  lemma LowByte(l: nat, a: nat, b: nat, c: nat, d: nat)
    requires c < 64 && d < 64 && l == a * 0x4_0000 + b * 0x1000 + c * 0x40 + d
    ensures l % 256 == c % 4 * 64 + d
  {
    EuclidUnique(l, 256, 1024 * a + 16 * b + c / 4, c % 4 * 64 + d);
  }

  lemma DigitRange(s: seq<Byte>)
    ensures forall i :: 0 <= i < |s| && FromAscii(s[i]) < 0x80 ==> FromAscii(s[i]) < 64
  {
  }

  // ---------------------------------------------------------------- EVP_DecodeBlock

  function TrimFront(s: seq<Byte>): (t: seq<Byte>)
    ensures |t| <= |s|
  {
    if s != [] && FromAscii(s[0]) == WS then TrimFront(s[1..]) else s
  }

  function TrimBack(s: seq<Byte>): (t: seq<Byte>)
    ensures |t| <= |s|
  {
    if |s| > 3 && NotBase64(FromAscii(s[|s| - 1])) then TrimBack(s[..|s| - 1]) else s
  }

  /** How many bytes are missing to a multiple of three. */
  function Missing(n: nat): (m: nat)
    ensures m < 3
  {
    (3 - n % 3) % 3
  }

  /** White space and line ends cut off, and the padding filled up with zero bytes again. The length of the result
      has to be an int. */
  function DecodedBlock(s: seq<Byte>): Option<seq<Byte>> {
    var t := TrimBack(TrimFront(s));
    var r := if |t| / 4 * 3 > INT_MAX then None else Decode(t);
    if r.None? then None else Some(r.value + Zeros(Missing(|r.value|)))
  }

  method DecodeBlock(s: seq<Byte>) returns (r: Option<seq<Byte>>)
    ensures r == DecodedBlock(s)
  {
    hide FromAscii, Decode;
    var src := s;
    while |src| > 0 && FromAscii(src[0]) == WS
      invariant TrimFront(src) == TrimFront(s)
      decreases |src|
    {
      src := src[1..];
    }
    while |src| > 3 && NotBase64(FromAscii(src[|src| - 1]))
      invariant TrimBack(src) == TrimBack(TrimFront(s))
      decreases |src|
    {
      src := src[..|src| - 1];
    }
    if |src| / 4 * 3 > INT_MAX {
      return None;
    }
    var decoded := DecodeBase64(src, |src| / 4 * 3);
    if decoded.None? {
      return None;
    }
    var dst := decoded.value;
    ghost var n := |dst|;
    while |dst| % 3 != 0
      invariant n <= |dst| && dst == decoded.value + Zeros(|dst| - n)
      invariant Missing(n) >= |dst| - n && Missing(|dst|) == Missing(n) - (|dst| - n)
      decreases Missing(|dst|)
    {
      assert Zeros(|dst| - n) + [0] == Zeros(|dst| + 1 - n);
      dst := dst + [0];
    }
    r := Some(dst);
  }

  /** Plain characters, then one '=' for each missing byte. */
  predicate Shaped(s: seq<Byte>, pad: nat) {
    && pad <= 2 && |s| >= 4 && (forall i :: 0 <= i < |s| - pad ==> Plain(s[i]) && s[i] != EQUALS)
    && (forall i :: |s| - pad <= i < |s| ==> s[i] == EQUALS)
  }

  lemma {:induction false} BlockShape(src: seq<Byte>)
    requires src != []
    ensures Shaped(Block(src), Missing(|src|))
    decreases |src|
  {
    hide ToAscii, FromAscii, Quad, Triple, Block;
    if |src| < 3 {
      ShortShape(src);
    } else {
      QuadDigits(src[0], src[1], src[2]);
      BlockUnfolds(src);
      if |src| > 3 {
        BlockShape(src[3..]);
        ShapedBehind(QuadOf(src), Block(src[3..]), Missing(|src|));
      }
    }
  }

  lemma ShortShape(src: seq<Byte>)
    requires 0 < |src| < 3
    ensures Shaped(Block(src), Missing(|src|))
  {
    hide ToAscii, FromAscii, Quad, Triple, Missing, Shaped;
    MissingShort();
    var q := Quad(src[0], if |src| == 2 then src[1] else 0, 0);
    QuadDigits(src[0], if |src| == 2 then src[1] else 0, 0);
    if |src| == 1 {
      assert Block(src) == [q[0], q[1], EQUALS, EQUALS];
      ShapedFour(q[0], q[1], EQUALS, EQUALS);
    } else {
      assert Block(src) == [q[0], q[1], q[2], EQUALS];
      ShapedFour(q[0], q[1], q[2], EQUALS);
    }
  }

  lemma MissingShort()
    ensures Missing(1) == 2 && Missing(2) == 1
  {
  }

  lemma ShapedFour(a: Byte, b: Byte, c: Byte, d: Byte)
    requires Plain(a) && a != EQUALS && Plain(b) && b != EQUALS
    ensures Plain(c) && c != EQUALS && d == EQUALS ==> Shaped([a, b, c, d], 1)
    ensures c == d == EQUALS ==> Shaped([a, b, c, d], 2)
  {
    hide FromAscii;
  }

  lemma BlockUnfolds(src: seq<Byte>)
    requires |src| >= 3
    ensures Block(src) == QuadOf(src) + Block(src[3..]) && (|src| == 3 ==> Block(src) == QuadOf(src))
  {
    hide ToAscii, FromAscii, Quad;
  }

  lemma ShapedBehind(q: seq<Byte>, rest: seq<Byte>, pad: nat)
    requires |q| == 4 && (forall i :: 0 <= i < 4 ==> Plain(q[i]) && q[i] != EQUALS) && Shaped(rest, pad)
    ensures Shaped(q + rest, pad)
  {
    hide FromAscii;
  }

  /** Nothing is trimmed from an encoded block. */
  lemma EncodedBlockDecodes(src: seq<Byte>, s: seq<Byte>)
    requires src != [] && s == Block(src)
    ensures DecodedBlock(s) ==
            if (|src| + 2) / 3 * 3 > INT_MAX then None else Some(src + Zeros(Missing(|src|)))
  {
    hide Block, Decode, FromAscii, TrimFront, TrimBack, Zeros, NotBase64, Missing;
    BlockEnds(src, s);
    BlockDecodes(src);
    NothingTrimmed(s);
    FourThirds((|src| + 2) / 3);
  }

  lemma FourThirds(k: nat)
    ensures k * 4 / 4 * 3 == k * 3
  {
  }

  lemma BlockEnds(src: seq<Byte>, s: seq<Byte>)
    requires src != [] && s == Block(src)
    ensures |s| >= 4 && FromAscii(s[0]) != WS && !NotBase64(FromAscii(s[|s| - 1]))
  {
    hide Block, FromAscii;
    BlockShape(src);
    SpecialCharacters();
    var pad := Missing(|src|);
    assert Plain(s[0]);
    assert pad == 0 ==> Plain(s[|s| - 1]);
    assert pad > 0 ==> s[|s| - 1] == EQUALS;
  }

  lemma NothingTrimmed(s: seq<Byte>)
    requires |s| >= 4 && FromAscii(s[0]) != WS && !NotBase64(FromAscii(s[|s| - 1]))
    ensures TrimBack(TrimFront(s)) == s
  {
  }

  lemma SpecialCharacters()
    ensures FromAscii(EQUALS) == ERROR && FromAscii(NEWLINE) == EOLN
  {
  }

  // ---------------------------------------------------------------- characters outside the alphabet

  /** A character that stands for nothing; '=' is classed with it but has its place. */
  predicate Bad(c: Byte) {
    FromAscii(c) == ERROR && c != EQUALS
  }

  predicate HasBad(s: seq<Byte>) {
    exists i :: 0 <= i < |s| && Bad(s[i])
  }

  /** Neither white space nor a line end nor '-'. */
  predicate AllKept(s: seq<Byte>) {
    forall i :: 0 <= i < |s| ==> !NotBase64(FromAscii(s[i]))
  }

  /** A group with a bad character does not decode, wherever it is and whatever the padding. */
  lemma {:induction false} BadDecode(s: seq<Byte>)
    requires HasBad(s)
    ensures Decode(s) == None
    decreases |s|
  {
    if |s| % 4 == 0 {
      var i :| 0 <= i < |s| && Bad(s[i]);
      if i >= 4 {
        assert s[4..][i - 4] == s[i];
        BadDecode(s[4..]);
      } else {
        assert s[..4][i] == s[i];
        BadQuad(s[..4], |s| == 4, i);
      }
    }
  }

  lemma BadQuad(q: seq<Byte>, last: bool, i: nat)
    requires |q| == 4 && i < 4 && Bad(q[i])
    ensures DecodeQuad(q, last) == None
  {
    hide Triple;
  }

  /** What the stream decoder holds is not trimmed, and does not decode with a bad character in it. */
  lemma BadBlock(s: seq<Byte>)
    requires AllKept(s) && HasBad(s)
    ensures DecodedBlock(s) == None
  {
    BadDecode(s);
  }
}
