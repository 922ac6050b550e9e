/** Reading and writing ASN.1 headers with cursors, and finding the end of an indefinite-length value
    (crypto/asn1/asn1_lib.c, crypto/asn1/tasn_dec.c; sections 8.1.2, 8.1.3, 8.1.5 of X.690). */
module Asn1 {
  import opened Arith
  import opened Bytes
  import opened Asn1Header

  // ---------------------------------------------------------------- the cursor code

  /** asn1_get_length. */
  method GetLength(s: seq<Byte>, start: nat, limit: int) returns (r: Option<Length>)
    requires start + limit <= |s|
    ensures r == ReadLength(s, start, limit)
  {
    var max := limit;
    if max < 1 {
      return None;
    }
    max := max - 1;
    var p := start;
    if s[p] == 128 {
      return Some(Length(true, 0, p + 1));
    }
    var i := s[p] % 128;
    var long := s[p] >= 128;
    p := p + 1;
    var ret := 0;
    if long {
      if i > 8 {
        return None;
      }
      if max == 0 {
        return None;
      }
      max := max - 1;
      while i > 0
        invariant 0 <= i && 0 <= max && 0 <= p && 0 <= ret && p + max < |s| && p + i == start + 1 + s[start] - 128
        invariant ReadLengthOctets(s, start + 1, s[start] - 128, 0, limit - 2) == ReadLengthOctets(s, p, i, ret, max)
        decreases i
      {
        i := i - 1;
        ret := ret * 256 + s[p];
        p := p + 1;
        if max == 0 {
          return None;
        }
        max := max - 1;
      }
    } else {
      ret := i;
    }
    if ret > LONG_MAX {
      return None;
    }
    r := Some(Length(false, ret, p));
  }

  /** The high-tag loop of ASN1_get_object. */
  method GetTag(s: seq<Byte>) returns (r: Option<(nat, nat)>)
    requires |s| >= 2
    ensures r == ReadTag(s, 1, 0)
  {
    var p, l, max := 1, 0, |s| - 1;
    while s[p] >= 128
      invariant 0 <= l && 0 < p < |s| && max == |s| - p
      invariant ReadTag(s, 1, 0) == ReadTag(s, p, l)
      decreases max
    {
      l := l * 128 + s[p] % 128;
      p := p + 1;
      max := max - 1;
      if max == 0 {
        return None;
      }
      if l > INT_MAX / 128 {
        return None;
      }
    }
    l := l * 128 + s[p];
    max := max - 1;
    if max == 0 {
      return None;
    }
    r := Some((l, p + 1));
  }

  /** ASN1_get_object. */
  method GetObject(s: seq<Byte>) returns (o: Object)
    ensures o == Get(s)
  {
    if |s| < 2 {
      return BadHeader;
    }
    var constructed, xclass, tag, p := s[0] / 32 % 2 == 1, s[0] / 64, s[0] % 32, 1;
    if tag == 31 {
      var t := GetTag(s);
      if t.None? {
        return BadHeader;
      }
      TagBounds(s, 1, 0);
      tag, p := t.value.0, t.value.1;
    }
    if xclass == 0 && tag > MAX_UNIVERSAL {
      return BadHeader;
    }
    var len := GetLength(s, p, ToInt(|s| - p));
    if len.None? {
      return BadHeader;
    }
    if len.value.indefinite && !constructed {
      return BadHeader;
    }
    o := Object(constructed, len.value.indefinite, len.value.length > |s| - len.value.next, tag, xclass,
                len.value.length, len.value.next);
  }

  /** Shifting x right by k bits until nothing is left takes one round for each digit. */
  method CountDigits(x: nat, base: nat) returns (n: nat)
    requires base >= 2
    ensures n == |Digits(x, base)|
  {
    n := 0;
    var t := x;
    while t > 0
      invariant 0 <= t && |Digits(x, base)| == n + |Digits(t, base)|
      decreases t
    {
      Recompose(t, base);
      Shrinks(t, base);
      t := t / base;
      n := n + 1;
    }
  }

  lemma {:induction false} SeptetCount(x: nat)
    ensures |HighSeptets(x)| == |Digits(x, 128)|
  {
    if x > 0 {
      SeptetCount(x / 128);
    }
  }

  /** Two pieces written one behind the other. */
  lemma SpliceTwice(s0: seq<Byte>, p: nat, x: seq<Byte>, y: seq<Byte>, s1: seq<Byte>, s2: seq<Byte>)
    requires p + |x| + |y| <= |s0| && s1 == s0[..p] + x + s0[p + |x|..]
    requires s2 == s1[..p + |x|] + y + s1[p + |x| + |y|..]
    ensures s2 == s0[..p] + (x + y) + s0[p + |x + y|..]
  {
  }

  /** ASN1_put_object: the header goes in at p, the rest of the buffer stays. */
  method PutObject(buf: array<Byte>, start: nat, form: nat, length: nat, tag: nat, xclass: nat) returns (q: nat)
    requires form <= 2 && length <= INT_MAX && xclass < 4
    requires start + |Header(form, xclass, tag, length)| <= buf.Length
    modifies buf
    ensures q == start + |Header(form, xclass, tag, length)|
    ensures buf[..] == old(buf[..])[..start] + Header(form, xclass, tag, length) + old(buf[..])[q..]
  {
    hide Identifier, LengthOctets;
    ghost var id := Identifier(form, xclass, tag);
    ghost var before := buf[..];
    var p := PutIdentifier(buf, start, form, tag, xclass);
    if form == 2 {
      ghost var between := buf[..];
      buf[p] := 128;
      q := p + 1;
      SpliceTwice(before, start, id, [128], between, buf[..]);
    } else {
      ghost var between := buf[..];
      q := PutLength(buf, p, length);
      SpliceTwice(before, start, id, LengthOctets(length), between, buf[..]);
    }
  }

  method PutIdentifier(buf: array<Byte>, start: nat, form: nat, tag: nat, xclass: nat) returns (p: nat)
    requires form <= 2 && xclass < 4 && start + |Identifier(form, xclass, tag)| <= buf.Length
    modifies buf
    ensures p == start + |Identifier(form, xclass, tag)|
    ensures buf[..] == old(buf[..])[..start] + Identifier(form, xclass, tag) + old(buf[..])[p..]
  {
    hide TagOctets;
    ghost var before := buf[..];
    var i := 64 * xclass + (if form > 0 then 32 else 0);
    if tag < 31 {
      buf[start] := i + tag;
      p := start + 1;
    } else {
      buf[start] := i + 31;
      p := PutTag(buf, start + 1, tag);
      assert buf[..] == before[..start] + ([i + 31] + TagOctets(tag)) + before[p..];
    }
  }

  /** The high-tag octets, written backwards. */
  method PutTag(buf: array<Byte>, p: nat, number: nat) returns (q: nat)
    requires number > 0 && p + |TagOctets(number)| <= buf.Length
    modifies buf
    ensures q == p + |TagOctets(number)|
    ensures buf[..] == old(buf[..])[..p] + TagOctets(number) + old(buf[..])[q..]
  {
    hide Septets, TagOctets, Digits;
    SeptetCount(number / 128);
    var count := CountDigits(number, 128);
    ghost var before := buf[..];
    var i: nat, tag: nat := count, number;
    WholeTag(number);
    while i > 0
      invariant i <= count && |Septets(tag, i == count)| == i
      invariant buf[..][..p] == before[..p] && buf[..][p + count..] == before[p + count..]
      invariant TagOctets(number) == Septets(tag, i == count) + buf[..][p + i..p + count]
    {
      ghost var last, written := i == count, buf[..][p + i..p + count];
      i := i - 1;
      buf[p + i] := tag % 128;
      if i != count - 1 {
        buf[p + i] := buf[p + i] + 128;
      }
      LastSeptet(tag, last);
      ghost var octet := buf[p + i];
      assert buf[..][p + i..p + count] == [octet] + written;
      AssociateOctets(Septets(tag / 128, false), [octet], written);
      tag := tag / 128;
    }
    q := p + count;
    NothingBefore(buf[..][p..q]);
    ThreeParts(buf[..], p, q);
  }

  lemma NothingBefore(s: seq<Byte>)
    ensures [] + s == s
  {
  }

  lemma ThreeParts(s: seq<Byte>, p: nat, q: nat)
    requires p <= q <= |s|
    ensures s == s[..p] + s[p..q] + s[q..]
  {
  }

  /** The octets for what is left of the number; only the very last one lacks the flag. */
  function Septets(tag: nat, last: bool): seq<Byte> {
    if last then TagOctets(tag) else HighSeptets(tag)
  }

  lemma WholeTag(number: nat)
    requires number > 0
    ensures Septets(number, true) == TagOctets(number) && |TagOctets(number)| == |Digits(number, 128)|
  {
    SeptetCount(number / 128);
  }

  lemma LastSeptet(tag: nat, last: bool)
    requires |Septets(tag, last)| > 0
    ensures Septets(tag, last) == Septets(tag / 128, false) + [if last then tag % 128 else tag % 128 + 128]
  {
  }

  lemma AssociateOctets(a: seq<Byte>, b: seq<Byte>, c: seq<Byte>)
    ensures a + b + c == a + (b + c)
  {
  }

  /** asn1_put_length. */
  method PutLength(buf: array<Byte>, p: nat, number: nat) returns (q: nat)
    requires number <= INT_MAX && p + |LengthOctets(number)| <= buf.Length
    modifies buf
    ensures q == p + |LengthOctets(number)|
    ensures buf[..] == old(buf[..])[..p] + LengthOctets(number) + old(buf[..])[q..]
  {
    hide LengthOctets;
    if number <= 127 {
      ShortLength(number);
      buf[p] := number;
      q := p + 1;
    } else {
      q := PutLongLength(buf, p, number);
    }
  }

  lemma ShortLength(number: nat)
    requires number <= 127
    ensures LengthOctets(number) == [number]
  {
  }

  method PutLongLength(buf: array<Byte>, p: nat, number: nat) returns (q: nat)
    requires 127 < number <= INT_MAX && p + |LengthOctets(number)| <= buf.Length
    modifies buf
    ensures q == p + |LengthOctets(number)|
    ensures buf[..] == old(buf[..])[..p] + LengthOctets(number) + old(buf[..])[q..]
  {
    hide Digits, LengthOctets;
    ghost var before := buf[..];
    LongLength(number);
    var count := CountDigits(number, 256);
    buf[p] := count + 128;
    ghost var first, between := [count + 128], buf[..];
    OneWritten(before, p, count + 128);
    PutDigits(buf, p + 1, count, number);
    q := p + 1 + count;
    SpliceTwice(before, p, first, Digits(number, 256), between, buf[..]);
  }

  lemma LongLength(number: nat)
    requires 127 < number <= INT_MAX
    ensures 1 <= |Digits(number, 256)| <= 4
    ensures LengthOctets(number) == [|Digits(number, 256)| + 128] + Digits(number, 256)
  {
    FourOctets(number);
  }

  lemma OneWritten(s: seq<Byte>, p: nat, b: Byte)
    requires p < |s|
    ensures s[p := b] == s[..p] + [b] + s[p + |[b]|..]
  {
  }

  lemma LastDigit(x: nat)
    requires |Digits(x, 256)| > 0
    ensures Digits(x, 256) == Digits(x / 256, 256) + [x % 256]
  {
  }

  /** The length octets of the long form, written backwards. */
  method PutDigits(buf: array<Byte>, p: nat, count: nat, number: nat)
    requires count == |Digits(number, 256)| && p + count <= buf.Length
    modifies buf
    ensures buf[..] == old(buf[..])[..p] + Digits(number, 256) + old(buf[..])[p + count..]
  {
    hide Digits;
    var i, length := count, number;
    assert buf[p + i..p + count] == [] && Digits(number, 256) + [] == Digits(number, 256);
    while i > 0
      invariant 0 <= i <= count && 0 <= length
      invariant buf[..p] == old(buf[..p]) && buf[p + count..] == old(buf[p + count..])
      invariant |Digits(length, 256)| == i
      invariant Digits(number, 256) == Digits(length, 256) + buf[p + i..p + count]
    {
      i := i - 1;
      ghost var written := buf[p + i + 1..p + count];
      LastDigit(length);
      buf[p + i] := length % 256;
      assert buf[p + i..p + count] == [length % 256] + written;
      AssociateOctets(Digits(length / 256, 256), [length % 256], written);
      length := length / 256;
    }
    assert buf[..] == buf[..p] + buf[p..p + count] + buf[p + count..];
  }

  /** The octets that the header, the content and, for an indefinite length, the end-of-contents take. */
  function EncodedSize(form: nat, content: nat, number: nat): nat
    requires form <= 2 && content <= INT_MAX
  {
    |Header(form, 0, number, content)| + content + (if form == 2 then 2 else 0)
  }

  lemma AnyClass(form: nat, content: nat, number: nat, cls: nat)
    requires form <= 2 && cls < 4 && content <= INT_MAX
    ensures |Header(form, cls, number, content)| == |Header(form, 0, number, content)|
  {
  }

  /** ASN1_object_size: exactly those octets of any class, as an int holds their number: right if and only if it
      does not exceed INT_MAX. */
  method ObjectSize(form: nat, content: nat, number: nat) returns (ret: int)
    requires form <= 2 && content <= INT_MAX
    ensures ret == ToInt(EncodedSize(form, content, number))
    ensures ret == EncodedSize(form, content, number) <==> EncodedSize(form, content, number) <= INT_MAX
  {
    hide ToInt, EncodedSize, Digits;
    SizeParts(form, content, number);
    ret := ToInt(content + 1);
    ghost var exact := content + 1;
    if number >= 31 {
      var tag := CountDigits(number, 128);
      ToIntAdd(exact, tag);
      ret, exact := ToInt(ret + tag), exact + tag;
    }
    if form == 2 {
      ToIntAdd(exact, 3);
      return ToInt(ret + 3);
    }
    ToIntAdd(exact, 1);
    ret, exact := ToInt(ret + 1), exact + 1;
    if content > 127 {
      var length := CountDigits(content, 256);
      ToIntAdd(exact, length);
      ret := ToInt(ret + length);
    }
  }

  lemma SizeParts(form: nat, content: nat, number: nat)
    requires form <= 2 && content <= INT_MAX
    ensures EncodedSize(form, content, number) ==
            content + 1 + (if number >= 31 then |Digits(number, 128)| else 0) +
            (if form == 2 then 3 else 1 + if content > 127 then |Digits(content, 256)| else 0)
  {
    SeptetCount(number / 128);
  }

  // ---------------------------------------------------------------- end of contents

  /** asn1_check_eoc. */
  predicate Eoc(s: seq<Byte>, p: nat) {
    p + 2 <= |s| && s[p] == 0 && s[p + 1] == 0
  }

  /** The encoding that starts at p, if one does: whether its length is indefinite, and where to go on, which is
      its contents or, for a definite length, what follows it. */
  function At(s: seq<Byte>, p: nat): (r: Option<(bool, nat)>)
    requires p <= |s|
    ensures r.Some? ==> p + 2 <= r.value.1 <= |s|
  {
    if !Get(s[p..]).Fine() then None
    else
      GetBounds(s[p..]);
      var h := Get(s[p..]);
      Some((h.indefinite, if h.indefinite then p + h.size else p + h.size + h.length))
  }

  /** A sequence of encodings as the grammar has it: definite ones, whose content is skipped, and indefinite
      ones that hold such a sequence. */
  datatype Items = Nil | Definite(rest: Items) | Indefinite(inner: Items, rest: Items)

  /** Where the items end when s is read from p, if s has them there. */
  ghost function Extent(s: seq<Byte>, p: nat, items: Items): (r: Option<nat>)
    requires p <= |s|
    ensures r.Some? ==> p <= r.value <= |s|
    decreases items
  {
    if items.Nil? then Some(p)
    else if Eoc(s, p) || At(s, p).None? then None
    else
      var (indefinite, next) := At(s, p).value;
      match items
      case Definite(rest) => if indefinite then None else Extent(s, next, rest)
      case Indefinite(inner, rest) =>
        if !indefinite then None
        else
          var mid := Extent(s, next, inner);
          if mid.None? || !Eoc(s, mid.value) then None else Extent(s, mid.value + 2, rest)
  }

  /** asn1_find_end's flat counter. */
  function Flat(s: seq<Byte>, p: nat, expected: nat): (r: Option<nat>)
    requires p <= |s|
    ensures r.Some? ==> p <= r.value <= |s|
    decreases |s| - p
  {
    if p == |s| then (if expected == 0 then Some(p) else None)
    else if Eoc(s, p) then
      if expected <= 1 then Some(p + 2) else Flat(s, p + 2, expected - 1)
    else if At(s, p).None? then None
    else
      var (indefinite, next) := At(s, p).value;
      Flat(s, next, if indefinite then expected + 1 else expected)
  }

  /** The loop, on everything from the start of the contents. */
  method FindEnd(s: seq<Byte>, length: nat, inf: bool) returns (r: Option<nat>)
    requires !inf ==> length <= |s|
    ensures r == if inf then Flat(s, 0, 1) else Some(length)
  {
    hide Get, GetAt;
    if !inf {
      return Some(length);
    }
    var expected, p, len := 1, 0, |s|;
    while len > 0
      invariant 0 <= p <= |s| && 0 < expected && len == |s| - p && Flat(s, 0, 1) == Flat(s, p, expected)
      decreases len
    {
      if Eoc(s, p) {
        expected := expected - 1;
        p := p + 2;
        if expected == 0 {
          return Some(p);
        }
        len := len - 2;
      } else {
        var h := GetObject(s[p..]);
        if !h.Fine() {
          return None;
        }
        GetBounds(s[p..]);
        var q := p;
        p := p + h.size;
        if h.indefinite {
          expected := expected + 1;
        } else {
          p := p + h.length;
        }
        len := len - (p - q);
      }
    }
    r := None;
  }

  /** Once the items and their end-of-contents are there, the counter is back where it was, one lower. */
  lemma {:induction false} FlatSkips(s: seq<Byte>, p: nat, items: Items, expected: nat)
    requires p <= |s| && expected > 0
    requires Extent(s, p, items).Some? && Eoc(s, Extent(s, p, items).value)
    ensures var e := Extent(s, p, items).value + 2;
            Flat(s, p, expected) == if expected == 1 then Some(e) else Flat(s, e, expected - 1)
    decreases items
  {
    hide At, Flat;
    FlatUnfolds(s, p, expected);
    if items.Definite? {
      FlatSkips(s, At(s, p).value.1, items.rest, expected);
    } else if items.Indefinite? {
      var inside := At(s, p).value.1;
      FlatSkips(s, inside, items.inner, expected + 1);
      FlatSkips(s, Extent(s, inside, items.inner).value + 2, items.rest, expected);
    }
  }

  lemma FlatUnfolds(s: seq<Byte>, p: nat, expected: nat)
    requires p <= |s| && expected > 0
    ensures Eoc(s, p) ==> Flat(s, p, expected) == if expected == 1 then Some(p + 2) else Flat(s, p + 2, expected - 1)
    ensures (!Eoc(s, p) && p < |s| && At(s, p).Some?) ==>
              Flat(s, p, expected) ==
              Flat(s, At(s, p).value.1, if At(s, p).value.0 then expected + 1 else expected)
    ensures (!Eoc(s, p) && p < |s| && At(s, p).None?) ==> Flat(s, p, expected) == None
  {
    hide At;
  }

  /** If the counter finds an end, the items are there. */
  lemma {:induction false} FlatFinds(s: seq<Byte>, p: nat, expected: nat) returns (items: Items)
    requires p <= |s| && expected > 0 && Flat(s, p, expected).Some?
    ensures Extent(s, p, items).Some? && Eoc(s, Extent(s, p, items).value)
    ensures var e := Extent(s, p, items).value + 2;
            Flat(s, p, expected) == if expected == 1 then Some(e) else Flat(s, e, expected - 1)
    decreases |s| - p
  {
    hide At, Flat, Extent;
    FlatSome(s, p, expected);
    FlatUnfolds(s, p, expected);
    if Eoc(s, p) {
      items := Nil;
      ExtentNil(s, p);
    } else {
      var (indefinite, next) := At(s, p).value;
      if indefinite {
        var inner := FlatFinds(s, next, expected + 1);
        var rest := FlatFinds(s, Extent(s, next, inner).value + 2, expected);
        items := Indefinite(inner, rest);
        ExtentIndefinite(s, p, inner, rest);
      } else {
        var rest := FlatFinds(s, next, expected);
        items := Definite(rest);
        ExtentDefinite(s, p, rest);
      }
    }
  }

  lemma FlatSome(s: seq<Byte>, p: nat, expected: nat)
    requires p <= |s| && expected > 0 && Flat(s, p, expected).Some?
    ensures p < |s| && (Eoc(s, p) || At(s, p).Some?)
  {
    hide At;
  }

  /** The flat counter is the recursive grammar: it succeeds with e exactly when the data starts with items
      whose end-of-contents octets end at e. */
  lemma FindEndExact(s: seq<Byte>, e: nat)
    ensures Flat(s, 0, 1) == Some(e) <==>
            exists items :: Extent(s, 0, items).Some? && Eoc(s, Extent(s, 0, items).value) &&
                            e == Extent(s, 0, items).value + 2
  {
    hide Extent, Flat;
    if Flat(s, 0, 1) == Some(e) {
      var items := FlatFinds(s, 0, 1);
      assert e == Extent(s, 0, items).value + 2;
    }
    if items :| Extent(s, 0, items).Some? && Eoc(s, Extent(s, 0, items).value) &&
                e == Extent(s, 0, items).value + 2
    {
      FlatSkips(s, 0, items, 1);
    }
  }

  // ---------------------------------------------------------------- trees written with the writer

  datatype Tree =
    | Empty
    | Primitive(cls: nat, tag: nat, constructed: bool, content: seq<Byte>, next: Tree)
    | Nested(cls: nat, tag: nat, children: Tree, next: Tree)

  /** What the writer takes and the reader can tell apart: C ints, universal tags up to 255, and no element
      that looks like the end-of-contents. */
  ghost predicate Writable(t: Tree) {
    match t
    case Empty => true
    case Primitive(cls, tag, constructed, content, next) =>
      && cls < 4 && tag <= INT_MAX && |content| <= INT_MAX && (cls == 0 ==> tag <= MAX_UNIVERSAL)
      && !(cls == 0 && tag == 0 && !constructed && content == []) && Writable(next)
    case Nested(cls, tag, children, next) =>
      cls < 4 && tag <= INT_MAX && (cls == 0 ==> tag <= MAX_UNIVERSAL) && Writable(children) && Writable(next)
  }

  ghost function Write(t: Tree): seq<Byte>
    requires Writable(t)
  {
    match t
    case Empty => []
    case Primitive(cls, tag, constructed, content, next) =>
      Header(if constructed then 1 else 0, cls, tag, |content|) + content + Write(next)
    case Nested(cls, tag, children, next) => Header(2, cls, tag, 0) + Write(children) + [0, 0] + Write(next)
  }

  ghost function Shape(t: Tree): Items {
    match t
    case Empty => Nil
    case Primitive(_, _, _, _, next) => Definite(Shape(next))
    case Nested(_, _, children, next) => Indefinite(Shape(children), Shape(next))
  }

  /** Whether the reader accepts the length of a header that has n octets from its start to the end of the data.
      The octets that remain behind the tag are counted with an int. */
  predicate Legible(n: int, form: nat, tag: nat, length: nat)
    requires length <= INT_MAX
  {
    ToInt(n - (if tag < 31 then 1 else 1 + |TagOctets(tag)|)) >= LengthNeeds(form, length)
  }

  /** The same for every header of a tree with n octets from its start to the end of the data. */
  ghost predicate Readable(t: Tree, n: int)
    requires Writable(t)
  {
    match t
    case Empty => true
    case Primitive(cls, tag, constructed, content, next) =>
      var form := if constructed then 1 else 0;
      Legible(n, form, tag, |content|) && Readable(next, n - |Header(form, cls, tag, |content|)| - |content|)
    case Nested(cls, tag, children, next) =>
      var size := |Header(2, cls, tag, 0)|;
      && Legible(n, 2, tag, 0) && Readable(children, n - size)
      && Readable(next, n - size - |Write(children)| - 2)
  }

  lemma ReadableUnfolds(t: Tree, n: int)
    requires Writable(t)
    ensures Readable(t, n) ==
            match t
            case Empty => true
            case Primitive(cls, tag, constructed, content, next) =>
              var form := if constructed then 1 else 0;
              Legible(n, form, tag, |content|) && Readable(next, n - |Header(form, cls, tag, |content|)| - |content|)
            case Nested(cls, tag, children, next) =>
              var size := |Header(2, cls, tag, 0)|;
              && Legible(n, 2, tag, 0) && Readable(children, n - size)
              && Readable(next, n - size - |Write(children)| - 2)
  {
    hide Legible, Header;
  }

  predicate AtStart(form: nat, cls: nat, tag: nat, length: nat, s: seq<Byte>, p: nat)
    requires form <= 2 && cls < 4 && length <= INT_MAX
  {
    && tag <= INT_MAX && (cls == 0 ==> tag <= MAX_UNIVERSAL)
    && !(cls == 0 && tag == 0 && form == 0 && length == 0)
    && var h := Header(form, cls, tag, length);
       p + |h| + (if form == 2 then 0 else length) <= |s| && s[p..p + |h|] == h
  }

  lemma AtHeader(form: nat, cls: nat, tag: nat, length: nat, s: seq<Byte>, p: nat)
    requires form <= 2 && cls < 4 && length <= INT_MAX && AtStart(form, cls, tag, length, s, p)
    ensures var next := p + |Header(form, cls, tag, length)| + (if form == 2 then 0 else length);
            !Eoc(s, p) && At(s, p) == if Legible(|s| - p, form, tag, length) then Some((form == 2, next)) else None
  {
    hide Get, GetAt, ToInt, LengthNeeds, TagOctets, Header;
    var h := Header(form, cls, tag, length);
    var tail := s[p + |h|..];
    assert s[p..] == h + tail;
    HeaderRoundTrip(form, cls, tag, length, tail);
    assert s[p] == s[p..p + |h|][0] && s[p + 1] == s[p..p + |h|][1];
    NotTheEnd(form, cls, tag, length);
  }

  lemma NotTheEnd(form: nat, cls: nat, tag: nat, length: nat)
    requires form <= 2 && cls < 4 && length <= INT_MAX && !(cls == 0 && tag == 0 && form == 0 && length == 0)
    ensures var h := Header(form, cls, tag, length); h[0] != 0 || h[1] != 0
  {
    hide TagOctets, Digits;
    var h := Header(form, cls, tag, length);
    if h[0] == 0 {
      assert tag == 0 && form == 0 && h[1] == LengthOctets(length)[0];
    }
  }

  lemma ExtentNil(s: seq<Byte>, p: nat)
    requires p <= |s|
    ensures Extent(s, p, Nil) == Some(p)
  {
    hide At, Eoc;
  }

  lemma ExtentDefinite(s: seq<Byte>, p: nat, rest: Items)
    requires p <= |s|
    ensures Extent(s, p, Definite(rest)) ==
            if Eoc(s, p) || At(s, p).None? || At(s, p).value.0 then None else Extent(s, At(s, p).value.1, rest)
  {
    hide At, Eoc;
  }

  lemma ExtentIndefinite(s: seq<Byte>, p: nat, inner: Items, rest: Items)
    requires p <= |s|
    ensures Extent(s, p, Indefinite(inner, rest)) ==
            if Eoc(s, p) || At(s, p).None? || !At(s, p).value.0 then None
            else BehindEnd(s, Extent(s, At(s, p).value.1, inner), rest)
  {
    hide At, Eoc;
  }

  /** The items behind an end-of-contents. */
  ghost function BehindEnd(s: seq<Byte>, mid: Option<nat>, rest: Items): Option<nat> {
    if mid.None? || mid.value > |s| || !Eoc(s, mid.value) then None else Extent(s, mid.value + 2, rest)
  }

  /** Reading a written tree: its items are there, up to its end, if and only if every header is legible. */
  lemma {:induction false} WriteReads(t: Tree, w: seq<Byte>, s: seq<Byte>, p: nat)
    requires Writable(t) && w == Write(t) && p + |w| <= |s| && s[p..p + |w|] == w
    ensures Extent(s, p, Shape(t)) == if Readable(t, |s| - p) then Some(p + |w|) else None
    decreases t
  {
    hide At, Eoc, Header, Extent, Write, Writable, Legible, AtStart, BehindEnd, Readable;
    WritableParts(t);
    WriteUnfolds(t);
    ReadableUnfolds(t, |s| - p);
    match t
    case Empty => ExtentNil(s, p);
    case Primitive(cls, tag, constructed, content, next) =>
      var form, rest := if constructed then 1 else 0, Write(next);
      ReadsDefinite(form, cls, tag, content, rest, s, p, Shape(next));
      WriteReads(next, rest, s, p + |Header(form, cls, tag, |content|)| + |content|);
    case Nested(cls, tag, children, next) =>
      var h, inner, rest := Header(2, cls, tag, 0), Write(children), Write(next);
      ReadsIndefinite(cls, tag, inner, rest, s, p, Shape(children), Shape(next));
      WriteReads(children, inner, s, p + |h|);
      WriteReads(next, rest, s, p + |h| + |inner| + 2);
      Behind(s, p + |h| + |inner|, Shape(next));
  }

  lemma Behind(s: seq<Byte>, mid: nat, rest: Items)
    requires mid <= |s| && Eoc(s, mid)
    ensures BehindEnd(s, Some(mid), rest) == Extent(s, mid + 2, rest) && BehindEnd(s, None, rest) == None
  {
    hide Extent;
  }

  lemma ReadsDefinite(form: nat, cls: nat, tag: nat, content: seq<Byte>, rest: seq<Byte>, s: seq<Byte>, p: nat,
                      items: Items)
    requires form <= 1 && cls < 4 && tag <= INT_MAX && |content| <= INT_MAX && (cls == 0 ==> tag <= MAX_UNIVERSAL)
    requires !(cls == 0 && tag == 0 && form == 0 && content == [])
    requires var w := Header(form, cls, tag, |content|) + content + rest; p + |w| <= |s| && s[p..p + |w|] == w
    ensures var next := p + |Header(form, cls, tag, |content|)| + |content|;
            && s[next..next + |rest|] == rest
            && Extent(s, p, Definite(items)) ==
               if Legible(|s| - p, form, tag, |content|) then Extent(s, next, items) else None
  {
    hide At, Header, Extent, Legible;
    Chunks(s, p, Header(form, cls, tag, |content|), content, rest);
    AtHeader(form, cls, tag, |content|, s, p);
    ExtentDefinite(s, p, items);
  }

  lemma ReadsIndefinite(cls: nat, tag: nat, inner: seq<Byte>, rest: seq<Byte>, s: seq<Byte>, p: nat, within: Items,
                        items: Items)
    requires cls < 4 && tag <= INT_MAX && (cls == 0 ==> tag <= MAX_UNIVERSAL)
    requires var w := Header(2, cls, tag, 0) + inner + [0, 0] + rest; p + |w| <= |s| && s[p..p + |w|] == w
    ensures var start := p + |Header(2, cls, tag, 0)|;
            var next := start + |inner| + 2;
            && s[start..start + |inner|] == inner && Eoc(s, start + |inner|) && s[next..next + |rest|] == rest
            && Extent(s, p, Indefinite(within, items)) ==
               if Legible(|s| - p, 2, tag, 0) then BehindEnd(s, Extent(s, start, within), items) else None
  {
    hide At, Header, Extent, Legible, BehindEnd;
    NestedCut(Header(2, cls, tag, 0), inner, rest, s, p);
    AtHeader(2, cls, tag, 0, s, p);
    ExtentIndefinite(s, p, within, items);
  }

  lemma WritableParts(t: Tree)
    requires Writable(t)
    ensures match t
            case Empty => true
            case Primitive(cls, tag, constructed, content, next) =>
              && cls < 4 && tag <= INT_MAX && |content| <= INT_MAX && (cls == 0 ==> tag <= MAX_UNIVERSAL)
              && !(cls == 0 && tag == 0 && !constructed && content == []) && Writable(next)
            case Nested(cls, tag, children, next) =>
              cls < 4 && tag <= INT_MAX && (cls == 0 ==> tag <= MAX_UNIVERSAL) && Writable(children) && Writable(next)
  {
  }

  lemma WriteUnfolds(t: Tree)
    requires Writable(t)
    ensures match t
            case Empty => Write(t) == []
            case Primitive(cls, tag, constructed, content, next) =>
              Write(t) == Header(if constructed then 1 else 0, cls, tag, |content|) + content + Write(next)
            case Nested(cls, tag, children, next) =>
              Write(t) == Header(2, cls, tag, 0) + Write(children) + [0, 0] + Write(next)
  {
  }

  /** Cutting a stretch of s that is a concatenation. */
  lemma Chunks(s: seq<Byte>, p: nat, a: seq<Byte>, b: seq<Byte>, c: seq<Byte>)
    requires p + |a| + |b| + |c| <= |s| && s[p..p + |a| + |b| + |c|] == a + b + c
    ensures s[p..p + |a|] == a && s[p + |a|..p + |a| + |b|] == b
    ensures s[p + |a| + |b|..p + |a| + |b| + |c|] == c
  {
    var n := |a| + |b| + |c|;
    assert (a + b + c)[..|a|] == a && (a + b + c)[|a|..|a| + |b|] == b && (a + b + c)[|a| + |b|..n] == c;
    SliceOfSlice(s, p, n, 0, |a|);
    SliceOfSlice(s, p, n, |a|, |a| + |b|);
    SliceOfSlice(s, p, n, |a| + |b|, n);
  }

  lemma SliceOfSlice(s: seq<Byte>, p: nat, n: nat, i: nat, j: nat)
    requires p + n <= |s| && i <= j <= n
    ensures s[p..p + n][i..j] == s[p + i..p + j]
  {
    var a, b := s[p..p + n][i..j], s[p + i..p + j];
    assert forall k :: 0 <= k < |a| ==> a[k] == b[k];
  }

  lemma NestedCut(h: seq<Byte>, inner: seq<Byte>, rest: seq<Byte>, s: seq<Byte>, p: nat)
    requires var all := h + inner + [0, 0] + rest; p + |all| <= |s| && s[p..p + |all|] == all
    ensures s[p..p + |h|] == h && s[p + |h|..p + |h| + |inner|] == inner && Eoc(s, p + |h| + |inner|)
    ensures s[p + |h| + |inner| + 2..p + |h| + |inner| + 2 + |rest|] == rest
  {
    assert h + inner + [0, 0] + rest == h + inner + ([0, 0] + rest);
    Chunks(s, p, h, inner, [0, 0] + rest);
    var mid := p + |h| + |inner|;
    assert [0, 0] + rest == [0, 0] + rest + [];
    Chunks(s, mid, [0, 0], rest, []);
    assert s[mid] == s[mid..mid + 2][0] && s[mid + 1] == s[mid..mid + 2][1];
  }

  /** On any tree written with the writer and closed by its end-of-contents, the search stops exactly after
      them, whatever follows, if and only if every header is legible; otherwise it fails. */
  lemma FindEndOfTree(t: Tree, tail: seq<Byte>)
    requires Writable(t)
    ensures var s := Write(t) + [0, 0] + tail;
            Flat(s, 0, 1) == if Readable(t, |s|) then Some(|Write(t)| + 2) else None
  {
    hide Flat, Extent, Write, Readable;
    var s := Write(t) + [0, 0] + tail;
    assert s[0..|Write(t)|] == Write(t);
    if Readable(t, |s|) {
      WriteReads(t, Write(t), s, 0);
      FlatSkips(s, 0, Shape(t), 1);
    } else {
      FlatStops(t, Write(t), s, 0, 1);
    }
  }

  /** The search does not get past a header that it cannot read. */
  lemma {:induction false} FlatStops(t: Tree, w: seq<Byte>, s: seq<Byte>, p: nat, expected: nat)
    requires Writable(t) && w == Write(t) && p + |w| <= |s| && s[p..p + |w|] == w && expected > 0
    requires !Readable(t, |s| - p)
    ensures Flat(s, p, expected) == None
    decreases t
  {
    hide At, Eoc, Header, Extent, Write, Writable, Legible, Flat, Readable;
    WritableParts(t);
    WriteUnfolds(t);
    ReadableUnfolds(t, |s| - p);
    match t
    case Primitive(cls, tag, constructed, content, next) =>
      var form, rest := if constructed then 1 else 0, Write(next);
      FlatDefinite(form, cls, tag, content, rest, s, p, expected);
      if Legible(|s| - p, form, tag, |content|) {
        FlatStops(next, rest, s, p + |Header(form, cls, tag, |content|)| + |content|, expected);
      }
    case Nested(cls, tag, children, next) =>
      var inner, rest, start := Write(children), Write(next), p + |Header(2, cls, tag, 0)|;
      FlatIndefinite(cls, tag, inner, rest, s, p, expected);
      if Legible(|s| - p, 2, tag, 0) {
        if Readable(children, |s| - start) {
          WriteReads(children, inner, s, start);
          FlatSkips(s, start, Shape(children), expected + 1);
          FlatStops(next, rest, s, start + |inner| + 2, expected);
        } else {
          FlatStops(children, inner, s, start, expected + 1);
        }
      }
  }

  lemma FlatDefinite(form: nat, cls: nat, tag: nat, content: seq<Byte>, rest: seq<Byte>, s: seq<Byte>, p: nat,
                     expected: nat)
    requires form <= 1 && cls < 4 && tag <= INT_MAX && |content| <= INT_MAX && (cls == 0 ==> tag <= MAX_UNIVERSAL)
    requires !(cls == 0 && tag == 0 && form == 0 && content == []) && expected > 0
    requires var w := Header(form, cls, tag, |content|) + content + rest; p + |w| <= |s| && s[p..p + |w|] == w
    ensures var next := p + |Header(form, cls, tag, |content|)| + |content|;
            && s[next..next + |rest|] == rest
            && Flat(s, p, expected) ==
               if Legible(|s| - p, form, tag, |content|) then Flat(s, next, expected) else None
  {
    hide At, Eoc, Header, Flat, Legible;
    Chunks(s, p, Header(form, cls, tag, |content|), content, rest);
    AtHeader(form, cls, tag, |content|, s, p);
    FlatUnfolds(s, p, expected);
  }

  lemma FlatIndefinite(cls: nat, tag: nat, inner: seq<Byte>, rest: seq<Byte>, s: seq<Byte>, p: nat, expected: nat)
    requires cls < 4 && tag <= INT_MAX && (cls == 0 ==> tag <= MAX_UNIVERSAL) && expected > 0
    requires var w := Header(2, cls, tag, 0) + inner + [0, 0] + rest; p + |w| <= |s| && s[p..p + |w|] == w
    ensures var start := p + |Header(2, cls, tag, 0)|;
            var next := start + |inner| + 2;
            && s[start..start + |inner|] == inner && Eoc(s, start + |inner|) && s[next..next + |rest|] == rest
            && Flat(s, p, expected) == if Legible(|s| - p, 2, tag, 0) then Flat(s, start, expected + 1) else None
  {
    hide At, Eoc, Header, Flat, Legible;
    NestedCut(Header(2, cls, tag, 0), inner, rest, s, p);
    AtHeader(2, cls, tag, 0, s, p);
    FlatUnfolds(s, p, expected);
  }

  /** Data that an int can count is legible throughout. */
  lemma {:induction false} SmallReadable(t: Tree, n: nat)
    requires Writable(t) && |Write(t)| <= n <= INT_MAX
    ensures Readable(t, n)
    decreases t
  {
    hide Header, Write, Writable, Legible, Readable;
    WritableParts(t);
    WriteUnfolds(t);
    ReadableUnfolds(t, n);
    match t
    case Empty =>
    case Primitive(cls, tag, constructed, content, next) =>
      var form := if constructed then 1 else 0;
      SmallLegible(n, form, cls, tag, |content|);
      SmallReadable(next, n - |Header(form, cls, tag, |content|)| - |content|);
    case Nested(cls, tag, children, next) =>
      var size := |Header(2, cls, tag, 0)|;
      SmallLegible(n, 2, cls, tag, 0);
      SmallReadable(children, n - size);
      SmallReadable(next, n - size - |Write(children)| - 2);
  }

  lemma SmallLegible(n: nat, form: nat, cls: nat, tag: nat, length: nat)
    requires form <= 2 && cls < 4 && tag <= INT_MAX && length <= INT_MAX
    requires |Header(form, cls, tag, length)| + (if form == 2 then 0 else length) <= n <= INT_MAX
    ensures Legible(n, form, tag, length)
  {
    hide ToInt, TagOctets, Digits;
    FourOctets(length);
  }

  /** The element left out is no loss of the proof: a primitive empty element of universal tag 0 is taken for
      the end. */
  lemma EmptyTagZero()
    ensures Header(0, 0, 0, 0) == [0, 0] && Flat(Header(0, 0, 0, 0) + [4, 0] + [0, 0], 0, 1) == Some(2)
  {
    var s := Header(0, 0, 0, 0) + [4, 0] + [0, 0];
    assert Eoc(s, 0);
  }
}
