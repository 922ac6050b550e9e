/** Conversion between the character string types (crypto/asn1/a_mbstr.c). */
module MbString {
  import opened Arith
  import opened Bytes
  import Utf8

  /** The forms text comes in, and the string types it can be given. */
  datatype Form = Asc | Bmp | Univ | Utf

  datatype StringType = PrintableString | Ia5String | T61String | BmpString | UniversalString | Utf8String

  /** The bits of a mask; the six that name the types above, and whether any other is set. */
  datatype Mask = Mask(printable: bool, ia5: bool, t61: bool, bmp: bool, univ: bool, utf8: bool, other: bool)

  predicate Empty(m: Mask) {
    m == Mask(false, false, false, false, false, false, false)
  }

  /** DIRSTRING_TYPE, which stands in for an empty mask. */
  const DIRSTRING: Mask := Mask(true, false, true, true, false, true, false)

  // ---------------------------------------------------------------- text in a form

  function Pair(high: nat, low: nat): nat {
    high * 0x100 + low
  }

  /** One character of a form, and how many bytes it took; None where traversing stops with an error. */
  function NextChar(form: Form, s: seq<Byte>): Option<(nat, nat)>
    requires s != []
  {
    match form
    case Asc => Some((s[0], 1))
    case Bmp => if |s| < 2 then None else Some((Pair(s[0], s[1]), 2))
    case Univ => if |s| < 4 then None else Some((Pair(s[0], s[1]) * 0x1_0000 + Pair(s[2], s[3]), 4))
    case Utf => if Utf8.Get(s).0 <= 0 then None else Some((Utf8.Get(s).1, Utf8.Get(s).0))
  }

  lemma NextCharBound(form: Form, s: seq<Byte>)
    requires s != [] && NextChar(form, s).Some?
    ensures 0 < NextChar(form, s).value.1 <= |s|
    ensures NextChar(form, s).value.0 < 0x1_0000_0000
    ensures form == Utf ==> NextChar(form, s).value.0 < Utf8.LIMIT
    ensures form == Bmp ==> NextChar(form, s).value.0 < 0x1_0000
  {
    if form == Utf {
      Utf8.PutGet(s);
    }
  }

  /** The code points of a text. */
  function Text(form: Form, s: seq<Byte>): Option<seq<nat>>
    decreases |s|
  {
    if s == [] then Some([])
    else if NextChar(form, s).None? then None
    else
      NextCharBound(form, s);
      var (c, n) := NextChar(form, s).value;
      var rest := Text(form, s[n..]);
      if rest.None? then None else Some([c] + rest.value)
  }

  /** The bytes that a copy callback writes for one character. */
  function Unit(form: Form, c: nat): seq<Byte> {
    match form
    case Asc => [c % 256]
    case Bmp => [c / 256 % 256, c % 256]
    case Univ => [c / 0x100_0000 % 256, c / 0x1_0000 % 256, c / 0x100 % 256, c % 256]
    case Utf => Utf8.Encode(c)
  }

  function Units(form: Form, cs: seq<nat>): seq<Byte> {
    if cs == [] then [] else Unit(form, cs[0]) + Units(form, cs[1..])
  }

  /** The characters a form can hold. */
  predicate Fits(form: Form, c: nat) {
    match form
    case Asc => c < 0x100
    case Bmp => c < 0x1_0000
    case Univ => c < 0x1_0000_0000
    case Utf => c < Utf8.LIMIT
  }

  lemma UnitReads(form: Form, c: nat, rest: seq<Byte>)
    requires Fits(form, c)
    ensures Unit(form, c) != [] && NextChar(form, Unit(form, c) + rest) == Some((c, |Unit(form, c)|))
  {
    hide Utf8.Get, Utf8.Encode;
    if form == Utf {
      Utf8.GetPut(c, rest);
    } else if form == Univ {
      FourOctets(c);
      var u := Unit(form, c) + rest;
      assert u[0] == c / 0x100_0000 % 256 && u[1] == c / 0x1_0000 % 256;
      assert u[2] == c / 0x100 % 256 && u[3] == c % 256;
    } else if form == Bmp {
      EuclidUnique(c / 256, 256, 0, c / 256);
      DivMod(c, 256);
      var u := Unit(form, c) + rest;
      assert u[0] == c / 256 && u[1] == c % 256;
    } else {
      EuclidUnique(c, 256, 0, c);
    }
  }

  lemma FourOctets(c: nat)
    requires c < 0x1_0000_0000
    ensures Pair(c / 0x100_0000 % 256, c / 0x1_0000 % 256) * 0x1_0000 + Pair(c / 0x100 % 256, c % 256) == c
  {
    var a, b := c / 0x1_0000, c / 0x100;
    DivMod(c, 256);
    DivMod(b, 256);
    DivMod(a, 256);
    EuclidUnique(b, 256, a, b - 256 * a);
    EuclidUnique(c / 0x100_0000, 256, 0, c / 0x100_0000);
  }

  /** Text written in a form that can hold it is read back. */
  lemma {:induction false} UnitsRead(form: Form, cs: seq<nat>)
    requires forall i :: 0 <= i < |cs| ==> Fits(form, cs[i])
    ensures Text(form, Units(form, cs)) == Some(cs)
  {
    hide NextChar, Unit, Fits;
    if cs != [] {
      var u, rest := Unit(form, cs[0]), Units(form, cs[1..]);
      UnitReads(form, cs[0], rest);
      assert (u + rest)[|u|..] == rest;
      UnitsRead(form, cs[1..]);
      assert cs == [cs[0]] + cs[1..];
    }
  }

  lemma {:induction false} TextAppend(form: Form, cs: seq<nat>, c: nat)
    ensures Units(form, cs + [c]) == Units(form, cs) + Unit(form, c)
  {
    if cs == [] {
      assert ([] + [c])[1..] == [] && Units(form, []) == [];
    } else {
      assert (cs + [c])[0] == cs[0] && (cs + [c])[1..] == cs[1..] + [c];
      TextAppend(form, cs[1..], c);
    }
  }

  // ---------------------------------------------------------------- which type

  /** is_printable; strchr finds the terminating NUL, so character 0 passes. */
  predicate IsPrintable(c: nat) {
    c < 0x80 && ('a' <= c as char <= 'z' || 'A' <= c as char <= 'Z' || '0' <= c as char <= '9' ||
                 c == 0 || c as char in " '()+,-./:=?")
  }

  predicate CanHold(t: StringType, c: nat) {
    match t
    case PrintableString => IsPrintable(c)
    case Ia5String => c <= 127
    case T61String => c <= 0xFF
    case BmpString => c <= 0xFFFF
    case UniversalString => true
    case Utf8String => true
  }

  predicate CanHoldAll(t: StringType, cs: seq<nat>) {
    forall i :: 0 <= i < |cs| ==> CanHold(t, cs[i])
  }

  /** type_str: the types that cannot hold the character leave the mask. */
  function Narrow(m: Mask, c: nat): Mask {
    Mask(m.printable && IsPrintable(c), m.ia5 && c <= 127, m.t61 && c <= 0xFF, m.bmp && c <= 0xFFFF,
         m.univ, m.utf8, m.other)
  }

  /** What is left of a mask for a whole text. */
  ghost function Remaining(m: Mask, cs: seq<nat>): Mask {
    Mask(m.printable && CanHoldAll(PrintableString, cs), m.ia5 && CanHoldAll(Ia5String, cs),
         m.t61 && CanHoldAll(T61String, cs), m.bmp && CanHoldAll(BmpString, cs), m.univ, m.utf8, m.other)
  }

  function Chosen(m: Mask): StringType {
    if m.printable then PrintableString
    else if m.ia5 then Ia5String
    else if m.t61 then T61String
    else if m.bmp then BmpString
    else if m.univ then UniversalString
    else Utf8String
  }

  function FormOf(t: StringType): Form {
    match t
    case BmpString => Bmp
    case UniversalString => Univ
    case Utf8String => Utf
    case _ => Asc
  }

  function Bit(m: Mask, t: StringType): bool {
    match t
    case PrintableString => m.printable
    case Ia5String => m.ia5
    case T61String => m.t61
    case BmpString => m.bmp
    case UniversalString => m.univ
    case Utf8String => m.utf8
  }

  function Rank(t: StringType): nat {
    match t
    case PrintableString => 0
    case Ia5String => 1
    case T61String => 2
    case BmpString => 3
    case UniversalString => 4
    case Utf8String => 5
  }

  /** The chosen type is the first one that the mask allows and that holds every character; only when a mask
      names none of those but has an unknown bit is UTF8String taken without being allowed. */
  lemma ChosenIsMinimal(m: Mask, cs: seq<nat>)
    requires !Empty(Remaining(m, cs))
    ensures var t := Chosen(Remaining(m, cs));
            && CanHoldAll(t, cs)
            && (Bit(m, t) || (t == Utf8String && m.other))
            && (forall u :: Bit(m, u) && CanHoldAll(u, cs) ==> Rank(t) <= Rank(u))
  {
  }

  lemma RemainingSnoc(m: Mask, cs: seq<nat>, c: nat)
    ensures Remaining(m, cs + [c]) == Narrow(Remaining(m, cs), c)
    ensures Remaining(m, []) == m
    ensures Empty(Remaining(m, cs)) ==> Empty(Remaining(m, cs + [c]))
  {
    forall t: StringType ensures CanHoldAll(t, cs + [c]) == (CanHoldAll(t, cs) && CanHold(t, c)) {
      var all := cs + [c];
      if CanHoldAll(t, all) {
        assert all[|cs|] == c;
        assert forall i :: 0 <= i < |cs| ==> all[i] == cs[i];
      }
    }
  }

  // ---------------------------------------------------------------- lengths

  function Width(form: Form): nat
    requires form != Utf
  {
    match form
    case Asc => 1
    case Bmp => 2
    case Univ => 4
  }

  /** In the fixed-width forms a text is well formed exactly when its length is a multiple of the width. */
  lemma {:induction false} FixedWidth(form: Form, s: seq<Byte>)
    requires form != Utf
    ensures Text(form, s).Some? <==> |s| % Width(form) == 0
    ensures Text(form, s).Some? ==> |Text(form, s).value| == |s| / Width(form)
    decreases |s|
  {
    var w := Width(form);
    if |s| >= w {
      FixedWidth(form, s[w..]);
      assert (|s| - w) % w == |s| % w && (|s| - w) / w == |s| / w - 1;
    }
  }

  lemma {:induction false} UnitsLength(form: Form, cs: seq<nat>)
    requires form != Utf
    ensures |Units(form, cs)| == Width(form) * |cs|
  {
    if cs != [] {
      UnitsLength(form, cs[1..]);
    }
  }

  lemma {:induction false} UnitsAppend(form: Form, a: seq<nat>, b: seq<nat>)
    ensures Units(form, a + b) == Units(form, a) + Units(form, b)
  {
    if a == [] {
      assert [] + b == b;
    } else {
      assert (a + b)[0] == a[0] && (a + b)[1..] == a[1..] + b;
      UnitsAppend(form, a[1..], b);
    }
  }

  lemma {:induction false} TextBound(form: Form, s: seq<Byte>)
    requires Text(form, s).Some?
    ensures forall i :: 0 <= i < |Text(form, s).value| ==> Text(form, s).value[i] < 0x1_0000_0000
    ensures form == Utf ==> forall i :: 0 <= i < |Text(form, s).value| ==> Text(form, s).value[i] < Utf8.LIMIT
    decreases |s|
  {
    hide NextChar;
    if s != [] {
      NextCharBound(form, s);
      TextBound(form, s[NextChar(form, s).value.1..]);
    }
  }

  // ---------------------------------------------------------------- traversing

  /** The characters cs have been read from the front of s, and p is where the rest begins. */
  ghost predicate Read(form: Form, s: seq<Byte>, p: nat, cs: seq<nat>) {
    && p <= |s|
    && (Text(form, s[p..]).None? ==> Text(form, s).None?)
    && (Text(form, s[p..]).Some? ==> Text(form, s) == Some(cs + Text(form, s[p..]).value))
  }

  lemma ReadStart(form: Form, s: seq<Byte>)
    ensures Read(form, s, 0, [])
  {
    assert s[0..] == s;
    if Text(form, s).Some? {
      assert [] + Text(form, s).value == Text(form, s).value;
    }
  }

  lemma ReadNext(form: Form, s: seq<Byte>, p: nat, cs: seq<nat>)
    requires Read(form, s, p, cs) && p < |s|
    ensures NextChar(form, s[p..]).None? ==> Text(form, s).None?
    ensures NextChar(form, s[p..]).Some? ==>
              var (c, n) := NextChar(form, s[p..]).value; n > 0 && Read(form, s, p + n, cs + [c])
  {
    hide NextChar;
    if NextChar(form, s[p..]).Some? {
      NextCharBound(form, s[p..]);
      var (c, n) := NextChar(form, s[p..]).value;
      assert s[p..][n..] == s[p + n..];
      if Text(form, s[p + n..]).Some? {
        var r := Text(form, s[p + n..]).value;
        assert cs + ([c] + r) == cs + [c] + r;
      }
    }
  }

  lemma ReadDone(form: Form, s: seq<Byte>, cs: seq<nat>)
    requires Read(form, s, |s|, cs)
    ensures Text(form, s) == Some(cs)
  {
    assert s[|s|..] == [] && cs + [] == cs;
  }

  /** The body of traverse_string up to the callback. */
  method ReadChar(form: Form, s: seq<Byte>) returns (r: Option<(nat, nat)>)
    requires s != []
    ensures r == NextChar(form, s)
  {
    match form
    case Asc => r := Some((s[0], 1));
    case Bmp =>
      if |s| < 2 {
        return None;
      }
      r := Some((Pair(s[0], s[1]), 2));
    case Univ =>
      if |s| < 4 {
        return None;
      }
      r := Some((Pair(s[0], s[1]) * 0x1_0000 + Pair(s[2], s[3]), 4));
    case Utf =>
      var n, c := Utf8.Getc(s);
      if n <= 0 {
        return None;
      }
      r := Some((c, n));
  }

  /** traverse_string with in_utf8. */
  method CountUtf8(s: seq<Byte>) returns (r: Option<nat>)
    ensures r.Some? <==> Text(Utf, s).Some?
    ensures r.Some? ==> r.value == |Text(Utf, s).value|
  {
    hide Text, NextChar;
    var p, count := 0, 0;
    ghost var cs: seq<nat> := [];
    ReadStart(Utf, s);
    while p < |s|
      invariant 0 <= p && Read(Utf, s, p, cs) && count == |cs|
    {
      ReadNext(Utf, s, p, cs);
      var next := ReadChar(Utf, s[p..]);
      if next.None? {
        return None;
      }
      cs := cs + [next.value.0];
      p := p + next.value.1;
      count := count + 1;
    }
    ReadDone(Utf, s, cs);
    r := Some(count);
  }

  /** traverse_string with type_str. */
  method NarrowAll(form: Form, s: seq<Byte>, m: Mask) returns (r: Option<Mask>)
    requires Text(form, s).Some? && !Empty(m)
    ensures r.None? <==> Empty(Remaining(m, Text(form, s).value))
    ensures r.Some? ==> r.value == Remaining(m, Text(form, s).value)
  {
    hide Text, NextChar, Remaining;
    var p, types := 0, m;
    ghost var cs: seq<nat> := [];
    ReadStart(form, s);
    RemainingSnoc(m, [], 0);
    while p < |s|
      invariant 0 <= p && Read(form, s, p, cs) && types == Remaining(m, cs) && !Empty(types)
    {
      ReadNext(form, s, p, cs);
      var next := ReadChar(form, s[p..]);
      RemainingSnoc(m, cs, next.value.0);
      types := Narrow(types, next.value.0);
      cs := cs + [next.value.0];
      if Empty(types) {
        EmptyStays(form, s, p + next.value.1, m, cs);
        return None;
      }
      p := p + next.value.1;
    }
    ReadDone(form, s, cs);
    r := Some(types);
  }

  lemma EmptyStays(form: Form, s: seq<Byte>, p: nat, m: Mask, cs: seq<nat>)
    requires Read(form, s, p, cs) && Text(form, s).Some? && Empty(Remaining(m, cs))
    ensures Empty(Remaining(m, Text(form, s).value))
  {
    hide Text;
    EmptyAppend(m, cs, Text(form, s[p..]).value);
  }

  lemma {:induction false} EmptyAppend(m: Mask, cs: seq<nat>, more: seq<nat>)
    requires Empty(Remaining(m, cs))
    ensures Empty(Remaining(m, cs + more))
    decreases |more|
  {
    hide Remaining;
    if more == [] {
      assert cs + more == cs;
    } else {
      RemainingSnoc(m, cs, more[0]);
      EmptyAppend(m, cs + [more[0]], more[1..]);
      assert cs + more == cs + [more[0]] + more[1..];
    }
  }

  /** traverse_string with out_utf8. */
  method Utf8Length(form: Form, s: seq<Byte>) returns (len: nat)
    requires Text(form, s).Some?
    ensures len == |Units(Utf, Text(form, s).value)|
  {
    hide Text, NextChar;
    var p := 0;
    len := 0;
    ghost var cs: seq<nat> := [];
    ReadStart(form, s);
    while p < |s|
      invariant 0 <= p && Read(form, s, p, cs) && len == |Units(Utf, cs)|
    {
      ReadNext(form, s, p, cs);
      var next := ReadChar(form, s[p..]);
      TextAppend(Utf, cs, next.value.0);
      len := len + Utf8.Size(next.value.0);
      cs := cs + [next.value.0];
      p := p + next.value.1;
    }
    ReadDone(form, s, cs);
  }

  /** The copy callbacks: one character goes in at q. */
  method PutUnit(buf: array<Byte>, q: nat, form: Form, c: nat) returns (q': nat)
    requires q + |Unit(form, c)| <= buf.Length
    modifies buf
    ensures q' == q + |Unit(form, c)| && buf[..q'] == old(buf[..q]) + Unit(form, c)
    ensures buf[q'..] == old(buf[q'..])
  {
    hide Utf8.Encode;
    match form
    case Asc =>
      buf[q] := c % 256;
      q' := q + 1;
    case Bmp =>
      buf[q] := c / 256 % 256;
      buf[q + 1] := c % 256;
      q' := q + 2;
    case Univ =>
      buf[q] := c / 0x100_0000 % 256;
      buf[q + 1] := c / 0x1_0000 % 256;
      buf[q + 2] := c / 0x100 % 256;
      buf[q + 3] := c % 256;
      q' := q + 4;
    case Utf =>
      ghost var before := buf[..];
      var n := Utf8.Putc(buf, q, 0xFF, c);
      q' := q + n;
      assert buf[..q'] == buf[..][..q'] && buf[q'..] == buf[..][q'..];
  }

  /** traverse_string with a copy callback: it fills exactly the bytes that were allowed for. */
  method CopyAll(form: Form, s: seq<Byte>, outform: Form, buf: array<Byte>, len: nat)
    requires Text(form, s).Some? && len == |Units(outform, Text(form, s).value)| < buf.Length
    modifies buf
    ensures buf[..len] == Units(outform, Text(form, s).value) && buf[len..] == old(buf[len..])
  {
    hide Text, NextChar, Units, Unit;
    var p, q := 0, 0;
    ghost var cs: seq<nat> := [];
    ReadStart(form, s);
    NoUnits(outform);
    while p < |s|
      invariant 0 <= p && Read(form, s, p, cs) && 0 <= q <= len && buf[..q] == Units(outform, cs)
      invariant buf[len..] == old(buf[len..])
    {
      ReadNext(form, s, p, cs);
      var next := ReadChar(form, s[p..]);
      var c := next.value.0;
      Room(form, s, p + next.value.1, cs, c, outform);
      TextAppend(outform, cs, c);
      ghost var mid := q + |Unit(outform, c)|;
      q := PutUnit(buf, q, outform, c);
      assert buf[len..] == buf[mid..][len - mid..];
      cs := cs + [c];
      p := p + next.value.1;
    }
    ReadDone(form, s, cs);
  }

  lemma NoUnits(form: Form)
    ensures Units(form, []) == []
  {
  }

  lemma Room(form: Form, s: seq<Byte>, p: nat, cs: seq<nat>, c: nat, outform: Form)
    requires Read(form, s, p, cs + [c]) && Text(form, s).Some?
    ensures |Units(outform, cs)| + |Unit(outform, c)| <= |Units(outform, Text(form, s).value)|
  {
    hide Text, Units, Unit;
    TextAppend(outform, cs, c);
    UnitsAppend(outform, cs + [c], Text(form, s[p..]).value);
  }

  // ---------------------------------------------------------------- ASN1_mbstring_ncopy

  /** The number of characters, or an error for a malformed text. */
  method CountChars(form: Form, s: seq<Byte>) returns (r: Option<nat>)
    ensures r.Some? <==> Text(form, s).Some?
    ensures r.Some? ==> r.value == |Text(form, s).value|
  {
    hide Text;
    match form
    case Bmp =>
      FixedWidth(form, s);
      if |s| % 2 != 0 {
        return None;
      }
      r := Some(|s| / 2);
    case Univ =>
      FixedWidth(form, s);
      if |s| % 4 != 0 {
        return None;
      }
      r := Some(|s| / 4);
    case Utf =>
      r := CountUtf8(s);
    case Asc =>
      FixedWidth(form, s);
      r := Some(|s|);
  }

  /** The bytes of the output. */
  ghost function Output(inform: Form, s: seq<Byte>, t: StringType): seq<Byte>
    requires Text(inform, s).Some?
  {
    if inform == FormOf(t) then s else Units(FormOf(t), Text(inform, s).value)
  }

  /** ASN1_mbstring_ncopy; an unknown form is None. */
  method NCopy(s: seq<Byte>, inform: Option<Form>, mask: Mask, minsize: int, maxsize: int, wantOut: bool)
    returns (r: Option<StringType>, data: seq<Byte>)
    ensures var m := if Empty(mask) then DIRSTRING else mask;
            r.None? <==>
            inform.None? || Text(inform.value, s).None? ||
            (minsize > 0 && |Text(inform.value, s).value| < minsize) ||
            (maxsize > 0 && |Text(inform.value, s).value| > maxsize) ||
            Empty(Remaining(m, Text(inform.value, s).value))
    ensures r.Some? ==> var m := if Empty(mask) then DIRSTRING else mask;
                        r.value == Chosen(Remaining(m, Text(inform.value, s).value))
    ensures r.Some? && wantOut ==> data == Output(inform.value, s, r.value)
  {
    hide Text, Remaining, Chosen, Units;
    data := [];
    var m := if Empty(mask) then DIRSTRING else mask;
    if inform.None? {
      return None, [];
    }
    var form := inform.value;
    var nchar := CountChars(form, s);
    if nchar.None? {
      return None, [];
    }
    if minsize > 0 && nchar.value < minsize {
      return None, [];
    }
    if maxsize > 0 && nchar.value > maxsize {
      return None, [];
    }
    var types := NarrowAll(form, s, m);
    if types.None? {
      return None, [];
    }
    var t := Chosen(types.value);
    r := Some(t);
    if !wantOut {
      return;
    }
    if form == FormOf(t) {
      data := s;
      return;
    }
    data := Convert(form, s, FormOf(t), nchar.value);
  }

  /** Size the output, then fill it. */
  method Convert(form: Form, s: seq<Byte>, outform: Form, nchar: nat) returns (data: seq<Byte>)
    requires Text(form, s).Some? && nchar == |Text(form, s).value|
    ensures data == Units(outform, Text(form, s).value)
  {
    hide Text, Units;
    var outlen: nat;
    match outform {
      case Asc => outlen := nchar;
      case Bmp => outlen := nchar * 2;
      case Univ => outlen := nchar * 4;
      case Utf => outlen := Utf8Length(form, s);
    }
    if outform != Utf {
      UnitsLength(outform, Text(form, s).value);
    }
    var p := new Byte[outlen + 1];
    p[outlen] := 0;
    CopyAll(form, s, outform, p, outlen);
    data := p[..outlen];
  }

  // ---------------------------------------------------------------- what is preserved

  /** On success the output, read in its own form, is the same text, except when text of another form goes to
      UTF-8 with a character of 2^31 or more in it. */
  lemma TextPreserved(inform: Form, s: seq<Byte>, m: Mask)
    requires Text(inform, s).Some? && !Empty(Remaining(m, Text(inform, s).value))
    ensures var cs := Text(inform, s).value;
            var t := Chosen(Remaining(m, cs));
            Text(FormOf(t), Output(inform, s, t)) == Some(cs) <==>
            !(FormOf(t) == Utf && inform != Utf && exists i :: 0 <= i < |cs| && cs[i] >= Utf8.LIMIT)
  {
    hide Text, Units, Remaining;
    var cs := Text(inform, s).value;
    var t := Chosen(Remaining(m, cs));
    TextBound(inform, s);
    ChosenIsMinimal(m, cs);
    if inform != FormOf(t) {
      if forall i :: 0 <= i < |cs| ==> Fits(FormOf(t), cs[i]) {
        UnitsRead(FormOf(t), cs);
      } else {
        var i :| 0 <= i < |cs| && !Fits(FormOf(t), cs[i]);
        assert CanHold(t, cs[i]);
        assert FormOf(t) == Utf && cs[i] >= Utf8.LIMIT;
        if Text(Utf, Output(inform, s, t)) == Some(cs) {
          TextBound(Utf, Output(inform, s, t));
          assert false;
        }
      }
    }
  }

  /** A NUL is taken for a PrintableString character. */
  lemma NulIsPrintable()
    ensures IsPrintable(0) && Chosen(Remaining(DIRSTRING, [0])) == PrintableString
  {
  }

  /** The universal character 2^31 + 2^26, converted to UTF-8, is another character. */
  lemma HighCharacterLost()
    ensures var s, m := [0x84, 0, 0, 0], Mask(false, false, false, false, false, true, false);
            && Text(Univ, s) == Some([0x8400_0000])
            && Chosen(Remaining(m, [0x8400_0000])) == Utf8String
            && Text(Utf, Output(Univ, s, Utf8String)) != Text(Univ, s)
  {
    var s: seq<Byte>, m := [0x84, 0, 0, 0], Mask(false, false, false, false, false, true, false);
    assert s[4..] == [] && Text(Univ, []) == Some([]);
    assert NextChar(Univ, s) == Some((0x8400_0000, 4));
    assert [0x8400_0000 as nat] + [] == [0x8400_0000];
    assert Text(Univ, s) == Some([0x8400_0000]);
    TextPreserved(Univ, s, m);
  }

  /** A mask with nothing but an unknown bit selects UTF8String, which it does not allow. */
  lemma UnknownMaskBit()
    ensures var m := Mask(false, false, false, false, false, false, true);
            Chosen(Remaining(m, [65])) == Utf8String && !Bit(m, Utf8String)
  {
  }
}
