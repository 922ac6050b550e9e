/** Identifier and length octets of X.690 (sections 8.1.2 and 8.1.3) as crypto/asn1/asn1_lib.c writes and reads
    them. Classes are 0 (universal) to 3 (private); long is 64 bits, int is 32. */
module Asn1Header {
  import opened Arith
  import opened Bytes

  const LONG_MAX: nat := 0x7FFF_FFFF_FFFF_FFFF
  const MAX_UNIVERSAL: nat := 0xFF

  // ---------------------------------------------------------------- writing

  /** Base 128, all octets but the last flagged. */
  function HighSeptets(x: nat): seq<Byte> {
    if x == 0 then [] else HighSeptets(x / 128) + [x % 128 + 128]
  }

  function TagOctets(tag: nat): seq<Byte> {
    HighSeptets(tag / 128) + [tag % 128]
  }

  /** length is a C int, so four octets always hold it. */
  function LengthOctets(length: nat): (s: seq<Byte>)
    requires length <= INT_MAX
    ensures |s| >= 1
  {
    FourOctets(length);
    if length <= 127 then [length] else [128 + |Digits(length, 256)|] + Digits(length, 256)
  }

  lemma FourOctets(length: nat)
    requires length <= INT_MAX
    ensures |Digits(length, 256)| <= 4
    ensures length > 127 ==> |Digits(length, 256)| >= 1
  {
    assert Pow(256, 4) == 0x1_0000_0000 by {
      assert Pow(256, 2) == 0x1_0000 && Pow(256, 1) == 256;
    }
    DigitsLength(length, 256, 4);
  }

  function Identifier(form: nat, cls: nat, tag: nat): (s: seq<Byte>)
    requires form <= 2 && cls < 4
    ensures |s| >= 1
  {
    [64 * cls + (if form > 0 then 32 else 0) + (if tag < 31 then tag else 31)] +
    (if tag < 31 then [] else TagOctets(tag))
  }

  /** What ASN1_put_object writes; form is 0 for primitive, 1 for constructed, 2 for indefinite length. */
  function Header(form: nat, cls: nat, tag: nat, length: nat): (s: seq<Byte>)
    requires form <= 2 && cls < 4 && length <= INT_MAX
    ensures |s| >= 2
  {
    Identifier(form, cls, tag) + (if form == 2 then [128] else LengthOctets(length))
  }

  // ---------------------------------------------------------------- reading

  /** What ASN1_get_object reports. TooLong goes with a header that was read but whose content does not fit. */
  datatype Object =
    | BadHeader
    | Object(constructed: bool, indefinite: bool, tooLong: bool, tag: nat, cls: nat, length: nat, size: nat)
  {
    /** No error bit in the return value. */
    predicate Fine() {
      Object? && !tooLong
    }
  }

  /** The high-tag loop from octet i on. */
  function ReadTag(s: seq<Byte>, i: nat, l: nat): Option<(nat, nat)>
    requires i < |s|
    decreases |s| - i
  {
    if s[i] >= 128 then
      var l' := l * 128 + s[i] % 128;
      if i + 1 == |s| || l' > INT_MAX / 128 then None else ReadTag(s, i + 1, l')
    else if i + 1 == |s| then None
    else Some((l * 128 + s[i], i + 1))
  }

  /** The loop over n length octets from octet j on; max is what the caller says is left after the one being
      read. */
  function ReadLengthOctets(s: seq<Byte>, j: nat, n: nat, acc: nat, max: nat): Option<nat>
    requires j + max < |s|
    decreases n
  {
    if n == 0 then Some(acc)
    else if max == 0 then None
    else ReadLengthOctets(s, j + 1, n - 1, acc * 256 + s[j], max - 1)
  }

  datatype Length = Length(indefinite: bool, length: nat, next: nat)

  /** asn1_get_length at octet i with the int max. */
  function ReadLength(s: seq<Byte>, i: nat, max: int): Option<Length>
    requires i + max <= |s|
  {
    if max < 1 then None
    else if s[i] == 128 then Some(Length(true, 0, i + 1))
    else if s[i] < 128 then Some(Length(false, s[i], i + 1))
    else
      var n := s[i] - 128;
      if n > 8 || max == 1 then None
      else
        match ReadLengthOctets(s, i + 1, n, 0, max - 2)
        case None => None
        case Some(v) => if v > LONG_MAX then None else Some(Length(false, v, i + 1 + n))
  }

  /** ASN1_get_object on the bytes s. */
  function Get(s: seq<Byte>): Object {
    if |s| < 2 then BadHeader
    else
      var first := s[0];
      var tag := if first % 32 == 31 then ReadTag(s, 1, 0) else Some((first % 32, 1));
      if tag.None? then BadHeader
      else
        var (t, i) := tag.value;
        if first / 64 == 0 && t > MAX_UNIVERSAL then BadHeader
        else GetAt(s, t, i)
  }

  function GetAt(s: seq<Byte>, t: nat, i: nat): Object
    requires 0 < |s|
  {
    var first, constructed := s[0], s[0] / 32 % 2 == 1;
    if i > |s| then BadHeader
    else
      match ReadLength(s, i, ToInt(|s| - i))
      case None => BadHeader
      case Some(len) =>
        if len.indefinite && !constructed then BadHeader
        else Object(constructed, len.indefinite, len.length > |s| - len.next, t, first / 64, len.length, len.next)
  }

  // ---------------------------------------------------------------- round trip

  lemma {:induction false} ReadHighSeptets(s: seq<Byte>, i: nat, x: nat)
    requires x <= INT_MAX / 128 && i + |HighSeptets(x)| < |s|
    requires s[i..i + |HighSeptets(x)|] == HighSeptets(x)
    ensures ReadTag(s, i, 0) == ReadTag(s, i + |HighSeptets(x)|, x)
  {
    if x > 0 {
      var front := HighSeptets(x / 128);
      var j := i + |front|;
      assert s[i..j] == s[i..j + 1][..|front|] == front;
      ReadHighSeptets(s, i, x / 128);
      assert s[j] == s[i..j + 1][|front|] == x % 128 + 128;
      assert x / 128 * 128 + s[j] % 128 == x;
    }
  }

  lemma ReadTagOctets(s: seq<Byte>, i: nat, tag: nat)
    requires tag <= INT_MAX && i + |TagOctets(tag)| < |s|
    requires s[i..i + |TagOctets(tag)|] == TagOctets(tag)
    ensures ReadTag(s, i, 0) == Some((tag, i + |TagOctets(tag)|))
  {
    var high := HighSeptets(tag / 128);
    var j := i + |high|;
    assert s[i..j] == s[i..j + 1][..|high|] == high;
    ReadHighSeptets(s, i, tag / 128);
    assert s[j] == s[i..j + 1][|high|] == tag % 128;
  }

  lemma {:induction false} ReadOctets(s: seq<Byte>, j: nat, n: nat, acc: nat, max: nat)
    requires j + max < |s|
    ensures ReadLengthOctets(s, j, n, acc, max) ==
            if n <= max then Some(Number(acc, s[j..j + n], 256)) else None
    decreases n
  {
    if n > 0 && max > 0 {
      ReadOctets(s, j + 1, n - 1, acc * 256 + s[j], max - 1);
      if n <= max {
        assert s[j..j + n][0] == s[j] && s[j..j + n][1..] == s[j + 1..j + 1 + (n - 1)];
      }
    }
  }

  /** How much the reader wants to see from the first length octet on: in the long form one octet more than
      the header has. */
  function LengthNeeds(form: nat, length: nat): nat {
    if form == 2 || length <= 127 then 1 else |Digits(length, 256)| + 2
  }

  lemma ReadLongLength(s: seq<Byte>, i: nat, length: nat, max: int)
    requires 127 < length <= INT_MAX && i + max <= |s|
    requires i + 1 + |Digits(length, 256)| <= |s|
    requires s[i] == 128 + |Digits(length, 256)| && s[i + 1..i + 1 + |Digits(length, 256)|] == Digits(length, 256)
    ensures ReadLength(s, i, max) ==
            if max < LengthNeeds(0, length) then None
            else Some(Length(false, length, i + 1 + |Digits(length, 256)|))
  {
    hide Digits, Number, ReadLengthOctets;
    FourOctets(length);
    var n := |Digits(length, 256)|;
    if max >= 2 {
      ReadOctets(s, i + 1, n, 0, max - 2);
      DigitsNumber(length, 256);
    }
  }

  lemma ReadLengthBack(s: seq<Byte>, i: nat, form: nat, length: nat, max: int)
    requires form <= 2 && length <= INT_MAX && i + max <= |s|
    requires var o := if form == 2 then [128] else LengthOctets(length);
             i + |o| <= |s| && s[i..i + |o|] == o
    ensures ReadLength(s, i, max) ==
            if max < LengthNeeds(form, length) then None
            else if form == 2 then Some(Length(true, 0, i + 1))
            else Some(Length(false, length, i + |LengthOctets(length)|))
  {
    hide Digits, Number, ReadLengthOctets;
    var o := if form == 2 then [128] else LengthOctets(length);
    assert s[i] == s[i..i + |o|][0] == o[0];
    if form != 2 && length > 127 {
      assert s[i + 1..i + |o|] == s[i..i + |o|][1..] == Digits(length, 256);
      ReadLongLength(s, i, length, max);
    }
  }

  /** Reading back what ASN1_put_object wrote, whatever follows. It fails exactly for a universal tag above
      255, or when fewer bytes follow (as a C int) than the length reader insists on; otherwise every field
      comes back and only a content that does not fit is flagged. */
  lemma HeaderRoundTrip(form: nat, cls: nat, tag: nat, length: nat, tail: seq<Byte>)
    requires form <= 2 && cls < 4 && tag <= INT_MAX && length <= INT_MAX
    ensures var h := Header(form, cls, tag, length);
            var tagged := if tag < 31 then 1 else 1 + |TagOctets(tag)|;
            Get(h + tail) ==
            if (cls == 0 && tag > MAX_UNIVERSAL) || ToInt(|h + tail| - tagged) < LengthNeeds(form, length)
            then BadHeader
            else Object(form > 0, form == 2, form != 2 && length > |tail|, tag, cls,
                        if form == 2 then 0 else length, |h|)
  {
    hide ReadTag, TagOctets, ReadLength, ToInt, LengthOctets, LengthNeeds;
    var h := Header(form, cls, tag, length);
    var s := h + tail;
    var i := if tag < 31 then 1 else 1 + |TagOctets(tag)|;
    FirstOctet(form, cls, tag);
    if tag >= 31 {
      assert s[1..i] == TagOctets(tag);
      ReadTagOctets(s, 1, tag);
    }
    assert s[i..|h|] == if form == 2 then [128] else LengthOctets(length);
    ReadLengthBack(s, i, form, length, ToInt(|s| - i));
  }

  lemma FirstOctet(form: nat, cls: nat, tag: nat)
    requires cls < 4
    ensures var f := 64 * cls + (if form > 0 then 32 else 0) + (if tag < 31 then tag else 31);
            f / 64 == cls && (f / 32 % 2 == 1 <==> form > 0) && f % 32 == if tag < 31 then tag else 31
  {
  }

  /** When the content follows, every header of non-universal or small tag reads back. */
  lemma HeaderReads(form: nat, cls: nat, tag: nat, length: nat, tail: seq<Byte>)
    requires form <= 2 && cls < 4 && tag <= INT_MAX && length <= INT_MAX
    requires cls == 0 ==> tag <= MAX_UNIVERSAL
    requires |Header(form, cls, tag, length) + tail| <= INT_MAX
    requires form != 2 ==> length <= |tail|
    ensures Get(Header(form, cls, tag, length) + tail) ==
            Object(form > 0, form == 2, false, tag, cls, if form == 2 then 0 else length,
                   |Header(form, cls, tag, length)|)
  {
    FourOctets(length);
    HeaderRoundTrip(form, cls, tag, length, tail);
  }

  /** A long-form length that is not the shortest may be refused although it is complete: 04 81 00 at the end
      of the data. */
  lemma LongFormAtTheEnd()
    ensures Get([4, 0x81, 0]) == BadHeader && Get([4, 0x81, 0, 0]).Fine() && Get([4, 0]).Fine()
  {
    assert ReadLengthOctets([4, 0x81, 0, 0], 2, 1, 0, 1) == Some(0) by {
      assert ReadLengthOctets([4, 0x81, 0, 0], 3, 0, 0, 0) == Some(0);
    }
  }

  /** A successful read stays inside the data: header, and for a definite length also the content. */
  lemma GetBounds(s: seq<Byte>)
    requires Get(s).Object?
    ensures 2 <= Get(s).size <= |s|
    ensures Get(s).Fine() ==> Get(s).size + Get(s).length <= |s|
    ensures Get(s).indefinite ==> Get(s).length == 0 && Get(s).constructed
  {
    if s[0] % 32 == 31 {
      TagBounds(s, 1, 0);
    }
    var t := if s[0] % 32 == 31 then ReadTag(s, 1, 0).value else (s[0] % 32, 1);
    LengthBounds(s, t.1, ToInt(|s| - t.1));
  }

  lemma {:induction false} TagBounds(s: seq<Byte>, i: nat, l: nat)
    requires i < |s| && ReadTag(s, i, l).Some?
    ensures i < ReadTag(s, i, l).value.1 < |s|
    decreases |s| - i
  {
    if s[i] >= 128 {
      TagBounds(s, i + 1, l * 128 + s[i] % 128);
    }
  }

  lemma LengthBounds(s: seq<Byte>, i: nat, max: int)
    requires i + max <= |s| && ReadLength(s, i, max).Some?
    ensures i < ReadLength(s, i, max).value.next <= |s|
    ensures ReadLength(s, i, max).value.indefinite ==> ReadLength(s, i, max).value.length == 0
  {
    if max >= 2 && s[i] > 128 {
      ReadOctets(s, i + 1, s[i] - 128, 0, max - 2);
    }
  }
}
