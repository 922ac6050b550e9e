/** UTF-8 with sequences of up to six octets, section 2 of RFC 2279 (crypto/asn1/a_utf8.c). */
module Utf8 {
  import opened Arith
  import opened Bytes

  /** The first character of 31 bits that has no encoding. */
  const LIMIT: nat := 0x8000_0000

  /** How many octets a value takes; values beyond the limit are given six as well. */
  function Size(v: nat): (k: nat)
    ensures 1 <= k <= 6
  {
    if v < 0x80 then 1 else if v < 0x800 then 2 else if v < 0x10000 then 3 else
    if v < 0x20_0000 then 4 else if v < 0x400_0000 then 5 else 6
  }

  /** The marker bits of the first octet and the room it leaves for the value. */
  function Marker(k: nat): nat
    requires 1 <= k <= 6
  {
    if k == 1 then 0 else if k == 2 then 0xC0 else if k == 3 then 0xE0 else if k == 4 then 0xF0 else
    if k == 5 then 0xF8 else 0xFC
  }

  function Room(k: nat): (r: nat)
    requires 1 <= k <= 6
    ensures r > 0
  {
    if k == 1 then 128 else if k == 2 then 32 else if k == 3 then 16 else if k == 4 then 8 else
    if k == 5 then 4 else 2
  }

  /** The last n groups of six bits. */
  function Tail(v: nat, n: nat): (s: seq<Byte>)
    ensures |s| == n
  {
    if n == 0 then [] else Tail(v / 64, n - 1) + [v % 64 + 0x80]
  }

  function Encode(v: nat): (s: seq<Byte>)
    ensures |s| == Size(v)
  {
    var k := Size(v);
    PowPositive(64, k - 1);
    [Marker(k) + v / Pow(64, k - 1) % Room(k)] + Tail(v, k - 1)
  }

  /** How many octets the first one announces, 0 if it cannot be a first one. */
  function Announced(b: Byte): nat {
    if b < 0x80 then 1 else if b < 0xC0 then 0 else if b < 0xE0 then 2 else if b < 0xF0 then 3 else
    if b < 0xF8 then 4 else if b < 0xFC then 5 else if b < 0xFE then 6 else 0
  }

  /** The six value bits of a further octet. */
  function Six(b: Byte): nat {
    b % 64
  }

  predicate Continues(b: Byte) {
    0x80 <= b < 0xC0
  }

  predicate Continued(s: seq<Byte>, k: nat)
    requires k <= |s|
  {
    forall i :: 1 <= i < k ==> Continues(s[i])
  }

  function Fold(acc: nat, s: seq<Byte>): nat {
    if s == [] then acc else Fold(acc, s[..|s| - 1]) * 64 + Six(s[|s| - 1])
  }

  /** The least value that needs k octets. */
  function Least(k: nat): nat
    requires 1 <= k <= 6
  {
    if k == 1 then 0 else if k == 2 then 0x80 else if k == 3 then 0x800 else if k == 4 then 0x10000 else
    if k == 5 then 0x20_0000 else 0x400_0000
  }

  /** What reading one character yields: the number of octets and the value, or a code: 0 for no input, -1 too
      short, -2 illegal first octet, -3 illegal further octet, -4 not the shortest form. */
  function Get(s: seq<Byte>): (int, nat) {
    if s == [] then (0, 0)
    else
      var k := Announced(s[0]);
      if k == 0 then (-2, 0)
      else if |s| < k then (-1, 0)
      else if !Continued(s, k) then (-3, 0)
      else
        var v := Fold(s[0] % Room(k), s[1..k]);
        if v < Least(k) then (-4, 0) else (k, v)
  }

  // ---------------------------------------------------------------- the two directions

  lemma {:induction false} FoldTail(a: nat, v: nat, n: nat)
    ensures Pow(64, n) > 0
    ensures Fold(a, Tail(v, n)) == a * Pow(64, n) + v % Pow(64, n)
    decreases n
  {
    hide Pow, Fold, Tail;
    PowPositive(64, n);
    TailLast(v, n);
    FoldLast(a, Tail(v, n));
    if n == 0 {
      Groups();
    } else {
      FoldTail(a, v / 64, n - 1);
      SplitGroup(a, v, Pow(64, n - 1));
      PowUnfold(64, n);
    }
  }

  lemma TailLast(v: nat, n: nat)
    ensures if n == 0 then Tail(v, n) == [] else Tail(v, n)[..n - 1] == Tail(v / 64, n - 1) && Six(Tail(v, n)[n - 1]) == v % 64
    ensures n > 0 ==> Tail(v, n) == Tail(v / 64, n - 1) + [0x80 + v % 64]
  {
  }

  lemma FoldLast(a: nat, s: seq<Byte>)
    ensures if s == [] then Fold(a, s) == a
            else Fold(a, s) == Fold(a, s[..|s| - 1]) * 64 + Six(s[|s| - 1]) &&
                 Fold(a, s) / 64 == Fold(a, s[..|s| - 1]) && Fold(a, s) % 64 == Six(s[|s| - 1])
  {
  }

  lemma PowUnfold(b: nat, n: nat)
    requires n > 0
    ensures Pow(b, n) == b * Pow(b, n - 1)
  {
  }

  lemma SplitGroup(a: nat, v: nat, p: nat)
    requires p > 0
    ensures (a * p + v / 64 % p) * 64 + v % 64 == a * (64 * p) + v % (64 * p)
  {
    var q, r := v / 64 / p, v / 64 % p;
    assert v / 64 == p * q + r;
    assert v == 64 * (p * q + r) + v % 64;
    assert 64 * (p * q) == (64 * p) * q;
    EuclidUnique(v, 64 * p, q, 64 * r + v % 64);
    assert a * p * 64 == a * (64 * p);
  }

  lemma {:induction false} TailFold(a: nat, s: seq<Byte>)
    requires forall i :: 0 <= i < |s| ==> Continues(s[i])
    ensures Pow(64, |s|) > 0 && Tail(Fold(a, s), |s|) == s && Fold(a, s) / Pow(64, |s|) == a
  {
    hide Pow, Fold, Tail;
    PowPositive(64, |s|);
    FoldLast(a, s);
    TailLast(Fold(a, s), |s|);
    if s == [] {
      Groups();
    } else {
      var n := |s| - 1;
      TailFold(a, s[..n]);
      PowUnfold(64, n + 1);
      assert Continues(s[n]);
      assert s[n] == 0x80 + Six(s[n]);
      DivideTwice(Fold(a, s), 64, Pow(64, n));
      assert s == s[..n] + [s[n]];
    }
  }

  lemma Groups()
    ensures Pow(64, 0) == 1 && Pow(64, 1) == 64 && Pow(64, 2) == 0x1000 && Pow(64, 3) == 0x4_0000
    ensures Pow(64, 4) == 0x100_0000 && Pow(64, 5) == 0x4000_0000
  {
  }

  lemma {:induction false} TailContinues(v: nat, n: nat)
    ensures forall i :: 0 <= i < n ==> Continues(Tail(v, n)[i])
  {
    if n > 0 {
      TailContinues(v / 64, n - 1);
    }
  }

  /** Reading what was written, whatever follows: every value below 2^31 comes back; a larger one comes back
      without its high bits, or is refused as too long a form. */
  lemma GetPut(v: nat, rest: seq<Byte>)
    ensures v < LIMIT ==> Get(Encode(v) + rest) == (Size(v), v)
    ensures v >= LIMIT ==> Get(Encode(v) + rest) == if v % LIMIT < Least(6) then (-4, 0) else (6, v % LIMIT)
  {
    hide Pow, Fold, Tail;
    var k := Size(v);
    var s := Encode(v) + rest;
    FirstOctet(v);
    assert s[0] == Encode(v)[0] && s[1..k] == Tail(v, k - 1);
    TailContinues(v, k - 1);
    assert forall i :: 1 <= i < k ==> s[i] == Tail(v, k - 1)[i - 1];
  }

  lemma MarkerRead(k: nat, x: nat)
    requires 1 <= k <= 6 && x < Room(k)
    ensures Marker(k) + x < 256 && Announced(Marker(k) + x) == k && (Marker(k) + x) % Room(k) == x
  {
  }

  /** The values of k octets have 6(k-1) bits in the further octets and what the first one has room for. */
  lemma SizeRoom(v: nat)
    ensures v < LIMIT ==> v < Pow(64, Size(v) - 1) * Room(Size(v))
    ensures v >= LIMIT ==> Size(v) == 6 && Pow(64, 5) * Room(6) == LIMIT
  {
  }

  lemma FirstOctet(v: nat)
    ensures var k, b := Size(v), Encode(v)[0];
            Announced(b) == k && Fold(b % Room(k), Tail(v, k - 1)) == (if v < LIMIT then v else v % LIMIT)
  {
    hide Pow, Fold, Tail, Size, Room, Marker, Announced;
    var k := Size(v);
    var p := Pow(64, k - 1);
    PowPositive(64, k - 1);
    assert Room(k) > 0;
    var lead := v / p % Room(k);
    MarkerRead(k, lead);
    FoldTail(lead, v, k - 1);
    LeadBits(v, p, Room(k));
    SizeRoom(v);
    if v < LIMIT {
      EuclidUnique(v, p * Room(k), 0, v);
    }
  }

  lemma LeadBits(v: nat, p: nat, room: nat)
    requires p > 0 && room > 0
    ensures v / p % room * p + v % p == v % (p * room)
  {
    var q, r := v / p, v % p;
    var a, b := q / room, q % room;
    assert v == p * q + r && q == room * a + b;
    assert p * (room * a + b) == (p * room) * a + b * p;
    MulMonotone(b + 1, room, p);
    assert (b + 1) * p == b * p + p;
    EuclidUnique(v, p * room, a, b * p + r);
  }

  /** What was read is exactly the encoding of the value: no other octets decode to it. */
  lemma PutGet(s: seq<Byte>)
    requires Get(s).0 > 0
    ensures var (n, v) := Get(s); n <= |s| && v < LIMIT && n == Size(v) && Encode(v) == s[..n]
  {
    hide Pow, Fold, Tail, Size, Least, Room, Marker;
    var k := Announced(s[0]);
    var cs := s[1..k];
    var v := Fold(s[0] % Room(k), cs);
    forall i | 0 <= i < |cs| ensures Continues(cs[i]) {
      assert cs[i] == s[i + 1];
    }
    TailFold(s[0] % Room(k), cs);
    Bounded(v, s[0] % Room(k), Pow(64, k - 1));
    MulMonotone(s[0] % Room(k) + 1, Room(k), Pow(64, k - 1));
    SizeFrom(k, v);
    MarkerWritten(s[0]);
    EuclidUnique(s[0] % Room(k), Room(k), 0, s[0] % Room(k));
    assert s[..k] == [s[0]] + cs;
  }

  lemma SizeFrom(k: nat, v: nat)
    requires 1 <= k <= 6 && Least(k) <= v < Room(k) * Pow(64, k - 1)
    ensures Size(v) == k && v < LIMIT
  {
  }

  lemma MarkerWritten(b: Byte)
    requires Announced(b) > 0
    ensures b == Marker(Announced(b)) + b % Room(Announced(b))
  {
  }

  lemma Bounded(v: nat, a: nat, p: nat)
    requires p > 0 && v / p == a
    ensures a * p <= v < (a + 1) * p
  {
  }

  /** Reading fails on non-empty input exactly when no encoding of a value below 2^31 is there. */
  lemma GetExact(s: seq<Byte>)
    requires s != []
    ensures Get(s).0 > 0 <==> exists v: nat :: v < LIMIT && Encode(v) <= s
  {
    hide Get, Encode;
    if Get(s).0 > 0 {
      PutGet(s);
      assert Encode(Get(s).1) <= s;
    }
    if v: nat :| v < LIMIT && Encode(v) <= s {
      assert s == Encode(v) + s[|Encode(v)|..];
      GetPut(v, s[|Encode(v)|..]);
    }
  }

  // ---------------------------------------------------------------- the code

  /** UTF8_getc. */
  method Getc(s: seq<Byte>) returns (ret: int, val: nat)
    ensures (ret, val) == Get(s)
  {
    hide Fold;
    ret, val := 0, 0;
    if |s| == 0 {
      return;
    }
    var p: nat := s[0];
    if p < 0x80 {
      OneOctet(s);
      val := p;
      ret := 1;
    } else if 0xC0 <= p < 0xE0 {
      ret, val := Getc2(s);
    } else if 0xE0 <= p < 0xF0 {
      ret, val := Getc3(s);
    } else if 0xF0 <= p < 0xF8 {
      ret, val := Getc4(s);
    } else if 0xF8 <= p < 0xFC {
      ret, val := Getc5(s);
    } else if 0xFC <= p < 0xFE {
      ret, val := Getc6(s);
    } else {
      return -2, 0;
    }
  }

  lemma OneOctet(s: seq<Byte>)
    requires s != [] && s[0] < 0x80
    ensures Get(s) == (1, s[0])
  {
  }

  method Getc2(s: seq<Byte>) returns (ret: int, val: nat)
    requires s != [] && Announced(s[0]) == 2
    ensures (ret, val) == Get(s)
  {
    hide Fold, Announced, Continues;
    val := 0;
    if |s| < 2 {
      return -1, 0;
    }
    if !Continues(s[1]) {
      return -3, 0;
    }
    Fold1(s[0] % 32, s[1..2]);
    var p: nat := s[0];
    val := p % 32 * 0x40 + Six(s[1]);
    if val < 0x80 {
      return -4, 0;
    }
    ret := 2;
  }

  method Getc3(s: seq<Byte>) returns (ret: int, val: nat)
    requires s != [] && Announced(s[0]) == 3
    ensures (ret, val) == Get(s)
  {
    hide Fold, Announced, Continues;
    val := 0;
    if |s| < 3 {
      return -1, 0;
    }
    if !Continues(s[1]) || !Continues(s[2]) {
      return -3, 0;
    }
    Fold2(s[0] % 16, s[1..3]);
    var p: nat := s[0];
    val := p % 16 * 0x1000 + Six(s[1]) * 0x40 + Six(s[2]);
    if val < 0x800 {
      return -4, 0;
    }
    ret := 3;
  }

  method Getc4(s: seq<Byte>) returns (ret: int, val: nat)
    requires s != [] && Announced(s[0]) == 4
    ensures (ret, val) == Get(s)
  {
    hide Fold, Announced, Continues;
    val := 0;
    if |s| < 4 {
      return -1, 0;
    }
    if !Continues(s[1]) || !Continues(s[2]) || !Continues(s[3]) {
      return -3, 0;
    }
    Fold3(s[0] % 8, s[1..4]);
    var p: nat := s[0];
    val := p % 8 * 0x4_0000 + Six(s[1]) * 0x1000 + Six(s[2]) * 0x40 + Six(s[3]);
    if val < 0x10000 {
      return -4, 0;
    }
    ret := 4;
  }

  method Getc5(s: seq<Byte>) returns (ret: int, val: nat)
    requires s != [] && Announced(s[0]) == 5
    ensures (ret, val) == Get(s)
  {
    hide Fold, Announced, Continues;
    val := 0;
    if |s| < 5 {
      return -1, 0;
    }
    if !Continues(s[1]) || !Continues(s[2]) || !Continues(s[3]) || !Continues(s[4]) {
      return -3, 0;
    }
    Fold4(s[0] % 4, s[1..5]);
    var p: nat := s[0];
    val := p % 4 * 0x100_0000 + Six(s[1]) * 0x4_0000 + Six(s[2]) * 0x1000 +
           Six(s[3]) * 0x40 + Six(s[4]);
    if val < 0x20_0000 {
      return -4, 0;
    }
    ret := 5;
  }

  method Getc6(s: seq<Byte>) returns (ret: int, val: nat)
    requires s != [] && Announced(s[0]) == 6
    ensures (ret, val) == Get(s)
  {
    hide Fold, Announced, Continues;
    val := 0;
    if |s| < 6 {
      return -1, 0;
    }
    if !Continues(s[1]) || !Continues(s[2]) || !Continues(s[3]) || !Continues(s[4]) || !Continues(s[5]) {
      return -3, 0;
    }
    Fold5(s[0] % 2, s[1..6]);
    var p: nat := s[0];
    val := p % 2 * 0x4000_0000 + Six(s[1]) * 0x100_0000 + Six(s[2]) * 0x4_0000 + Six(s[3]) * 0x1000 +
           Six(s[4]) * 0x40 + Six(s[5]);
    if val < 0x400_0000 {
      return -4, 0;
    }
    ret := 6;
  }

  lemma Fold1(a: nat, s: seq<Byte>)
    requires |s| == 1
    ensures Fold(a, s) == a * 0x40 + Six(s[0])
  {
  }

  lemma Fold2(a: nat, s: seq<Byte>)
    requires |s| == 2
    ensures Fold(a, s) == a * 0x1000 + Six(s[0]) * 0x40 + Six(s[1])
  {
    Fold1(a, s[..1]);
  }

  lemma Fold3(a: nat, s: seq<Byte>)
    requires |s| == 3
    ensures Fold(a, s) == a * 0x4_0000 + Six(s[0]) * 0x1000 + Six(s[1]) * 0x40 + Six(s[2])
  {
    Fold2(a, s[..2]);
  }

  lemma Fold4(a: nat, s: seq<Byte>)
    requires |s| == 4
    ensures Fold(a, s) == a * 0x100_0000 + Six(s[0]) * 0x4_0000 + Six(s[1]) * 0x1000 + Six(s[2]) * 0x40 + Six(s[3])
  {
    Fold3(a, s[..3]);
  }

  lemma Fold5(a: nat, s: seq<Byte>)
    requires |s| == 5
    ensures Fold(a, s) == a * 0x4000_0000 + Six(s[0]) * 0x100_0000 + Six(s[1]) * 0x4_0000 + Six(s[2]) * 0x1000 +
                          Six(s[3]) * 0x40 + Six(s[4])
  {
    Fold4(a, s[..4]);
  }

  /** The groups of a value, written out. */
  lemma TailGroups(v: nat)
    ensures Tail(v, 1) == [v % 64 + 128]
    ensures Tail(v, 2) == [v / 0x40 % 64 + 128, v % 64 + 128]
    ensures Tail(v, 3) == [v / 0x1000 % 64 + 128, v / 0x40 % 64 + 128, v % 64 + 128]
    ensures Tail(v, 4) == [v / 0x4_0000 % 64 + 128, v / 0x1000 % 64 + 128, v / 0x40 % 64 + 128, v % 64 + 128]
    ensures Tail(v, 5) == [v / 0x100_0000 % 64 + 128, v / 0x4_0000 % 64 + 128, v / 0x1000 % 64 + 128,
                           v / 0x40 % 64 + 128, v % 64 + 128]
  {
    assert v / 64 / 64 == v / 0x1000 && v / 64 / 64 / 64 == v / 0x4_0000;
    assert v / 64 / 64 / 64 / 64 == v / 0x100_0000;
    assert Tail(v / 64 / 64 / 64 / 64, 1) == [v / 0x100_0000 % 64 + 128];
    assert Tail(v / 64 / 64 / 64, 2) == Tail(v / 64 / 64 / 64 / 64, 1) + [v / 0x4_0000 % 64 + 128];
    assert Tail(v / 64 / 64 / 64, 1) == [v / 0x4_0000 % 64 + 128];
    assert Tail(v / 64 / 64, 3) == Tail(v / 64 / 64 / 64, 2) + [v / 0x1000 % 64 + 128];
    assert Tail(v / 64 / 64, 2) == Tail(v / 64 / 64 / 64, 1) + [v / 0x1000 % 64 + 128];
    assert Tail(v / 64 / 64, 1) == [v / 0x1000 % 64 + 128];
  }

  /** The octets of an encoding, written out. */
  lemma EncodeGroups(value: nat)
    ensures Size(value) == 1 ==> Encode(value) == [value]
    ensures Size(value) == 2 ==>
              Encode(value) == [value / 0x40 % 32 + 0xC0, value % 64 + 0x80]
    ensures Size(value) == 3 ==>
              Encode(value) == [value / 0x1000 % 16 + 0xE0, value / 0x40 % 64 + 0x80, value % 64 + 0x80]
  {
    hide Tail, Pow;
    Groups();
    TailGroups(value);
    NoTail(value);
  }

  lemma EncodeMoreGroups(value: nat)
    ensures Size(value) == 4 ==>
              Encode(value) == [value / 0x4_0000 % 8 + 0xF0, value / 0x1000 % 64 + 0x80, value / 0x40 % 64 + 0x80, value % 64 + 0x80]
    ensures Size(value) == 5 ==>
              Encode(value) == [value / 0x100_0000 % 4 + 0xF8, value / 0x4_0000 % 64 + 0x80, value / 0x1000 % 64 + 0x80,
                                value / 0x40 % 64 + 0x80, value % 64 + 0x80]
    ensures Size(value) == 6 ==>
              Encode(value) == [value / 0x4000_0000 % 2 + 0xFC, value / 0x100_0000 % 64 + 0x80, value / 0x4_0000 % 64 + 0x80,
                                value / 0x1000 % 64 + 0x80, value / 0x40 % 64 + 0x80, value % 64 + 0x80]
  {
    hide Tail, Pow;
    Groups();
    TailGroups(value);
  }

  lemma NoTail(v: nat)
    ensures Tail(v, 0) == []
  {
  }

  /** UTF8_putc into a buffer with len octets left. */
  method Putc(buf: array<Byte>, p: nat, len: int, value: nat) returns (ret: int)
    requires len < Size(value) || p + Size(value) <= buf.Length
    modifies buf
    ensures len < Size(value) ==> ret == -1 && buf[..] == old(buf[..])
    ensures len >= Size(value) ==> ret == Size(value)
    ensures len >= Size(value) ==> buf[..] == old(buf[..])[..p] + Encode(value) + old(buf[..])[p + ret..]
  {
    hide Encode;
    if len <= 0 {
      return -1;
    }
    if value < 0x80 {
      EncodeGroups(value);
      buf[p] := value;
      return 1;
    }
    if value < 0x800 {
      if len < 2 {
        return -1;
      }
      Putc2(buf, p, value);
      return 2;
    }
    if value < 0x10000 {
      if len < 3 {
        return -1;
      }
      Putc3(buf, p, value);
      return 3;
    }
    if value < 0x20_0000 {
      if len < 4 {
        return -1;
      }
      Putc4(buf, p, value);
      return 4;
    }
    if value < 0x400_0000 {
      if len < 5 {
        return -1;
      }
      Putc5(buf, p, value);
      return 5;
    }
    if len < 6 {
      return -1;
    }
    Putc6(buf, p, value);
    return 6;
  }

  method Putc2(buf: array<Byte>, p: nat, value: nat)
    requires p + 2 <= buf.Length && Size(value) == 2
    modifies buf
    ensures buf[..] == old(buf[..])[..p] + Encode(value) + old(buf[..])[p + 2..]
  {
    hide Encode, Size;
    EncodeGroups(value);
    buf[p] := value / 0x40 % 32 + 0xC0;
    buf[p + 1] := value % 64 + 0x80;
  }

  method Putc3(buf: array<Byte>, p: nat, value: nat)
    requires p + 3 <= buf.Length && Size(value) == 3
    modifies buf
    ensures buf[..] == old(buf[..])[..p] + Encode(value) + old(buf[..])[p + 3..]
  {
    hide Encode, Size;
    EncodeGroups(value);
    buf[p] := value / 0x1000 % 16 + 0xE0;
    buf[p + 1] := value / 0x40 % 64 + 0x80;
    buf[p + 2] := value % 64 + 0x80;
  }

  method Putc4(buf: array<Byte>, p: nat, value: nat)
    requires p + 4 <= buf.Length && Size(value) == 4
    modifies buf
    ensures buf[..] == old(buf[..])[..p] + Encode(value) + old(buf[..])[p + 4..]
  {
    hide Encode, Size;
    EncodeMoreGroups(value);
    buf[p] := value / 0x4_0000 % 8 + 0xF0;
    buf[p + 1] := value / 0x1000 % 64 + 0x80;
    buf[p + 2] := value / 0x40 % 64 + 0x80;
    buf[p + 3] := value % 64 + 0x80;
  }

  method Putc5(buf: array<Byte>, p: nat, value: nat)
    requires p + 5 <= buf.Length && Size(value) == 5
    modifies buf
    ensures buf[..] == old(buf[..])[..p] + Encode(value) + old(buf[..])[p + 5..]
  {
    hide Encode, Size;
    EncodeMoreGroups(value);
    buf[p] := value / 0x100_0000 % 4 + 0xF8;
    buf[p + 1] := value / 0x4_0000 % 64 + 0x80;
    buf[p + 2] := value / 0x1000 % 64 + 0x80;
    buf[p + 3] := value / 0x40 % 64 + 0x80;
    buf[p + 4] := value % 64 + 0x80;
  }

  method Putc6(buf: array<Byte>, p: nat, value: nat)
    requires p + 6 <= buf.Length && Size(value) == 6
    modifies buf
    ensures buf[..] == old(buf[..])[..p] + Encode(value) + old(buf[..])[p + 6..]
  {
    hide Encode, Size;
    EncodeMoreGroups(value);
    buf[p] := value / 0x4000_0000 % 2 + 0xFC;
    buf[p + 1] := value / 0x100_0000 % 64 + 0x80;
    buf[p + 2] := value / 0x4_0000 % 64 + 0x80;
    buf[p + 3] := value / 0x1000 % 64 + 0x80;
    buf[p + 4] := value / 0x40 % 64 + 0x80;
    buf[p + 5] := value % 64 + 0x80;
  }

  /** 2^31 + 65 is written in a form that is refused as too long, and 2^31 + 2^26 reads back as 2^26. */
  lemma HighBitLost()
    ensures Get(Encode(0x8000_0041)) == (-4, 0) && Get(Encode(0x8400_0000)) == (6, 0x400_0000)
  {
    hide Get, Encode;
    GetPut(0x8000_0041, []);
    GetPut(0x8400_0000, []);
    assert Encode(0x8000_0041) + [] == Encode(0x8000_0041) && Encode(0x8400_0000) + [] == Encode(0x8400_0000);
  }
}
