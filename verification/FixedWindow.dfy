/** The portable path of BN_mod_exp_mont_consttime: fixed windows, with the table of powers scattered
    byte-wise over one buffer (crypto/bn/exponentiation.c). */
module FixedWindow {
  import opened Arith
  import opened Bytes
  import opened Limbs
  import opened LongDivision
  import opened Congruence
  import opened Gcd
  import opened Montgomery
  import opened Exponentiation

  /** BN_window_bits_for_ctime_exponent_size for 64-byte cache lines. */
  function CtimeWindowBits(b: nat): (w: nat)
    ensures 1 <= w <= 6 && (w > 1 ==> b > w) && w != 2
  {
    if b > 937 then 6 else if b > 306 then 5 else if b > 89 then 4 else if b > 22 then 3 else 1
  }

  // ---------------------------------------------------------------- the scattered table

  /** The number made of the n lowest bytes. */
  ghost function LowBytes(x: nat, n: nat): nat {
    if n == 0 then 0 else LowBytes(x, n - 1) + ByteAt(x, n - 1) * Pow(256, n - 1)
  }

  lemma {:induction false} LowBytesHead(x: nat, n: nat)
    ensures LowBytes(x, n + 1) == x % 256 + 256 * LowBytes(x / 256, n)
  {
    if n > 0 {
      LowBytesHead(x, n - 1);
      var b: int, p: int := ByteAt(x, n), Pow(256, n - 1);
      assert Pow(256, n) == 256 * p;
      assert 256 * (b * p) == b * (256 * p);
    } else {
      assert LowBytes(x, 0) == 0 && Pow(256, 0) == 1;
    }
  }

  lemma {:induction false} LowBytesAll(x: nat, n: nat)
    requires x < Pow(256, n)
    ensures LowBytes(x, n) == x
  {
    if n > 0 {
      LowBytesHead(x, n - 1);
      LowBytesAll(x / 256, n - 1);
    }
  }

  /** Byte k of table entry id lies at this position of the buffer. */
  function Pos(id: nat, k: nat, width: nat): nat {
    id + k * width
  }

  lemma PosInjective(id: nat, k: nat, id': nat, k': nat, width: nat)
    requires id < width && id' < width && Pos(id, k, width) == Pos(id', k', width)
    ensures id == id' && k == k'
  {
    EuclidUnique(Pos(id, k, width), width, k, id);
    EuclidUnique(Pos(id, k, width), width, k', id');
  }

  lemma PosBound(id: nat, k: nat, width: nat, n: nat)
    requires id < width && k < n
    ensures Pos(id, k, width) < n * width
  {
    MulMonotone(k + 1, n, width);
  }

  lemma PosStep(id: nat, k: nat, width: nat)
    ensures Pos(id, k + 1, width) == Pos(id, k, width) + width && Pos(id, 0, width) == id
  {
  }

  lemma {:induction false} ZeroBytes(k: nat)
    ensures ByteAt(0, k) == 0
  {
    if k > 0 {
      ZeroBytes(k - 1);
    }
  }

  /** Entry id of the table is x, spread over n bytes. */
  ghost predicate Entry(buf: seq<Byte>, id: nat, width: nat, n: nat, x: nat) {
    forall k :: 0 <= k < n ==> Pos(id, k, width) < |buf| && buf[Pos(id, k, width)] == ByteAt(x, k)
  }

  /** copy_to_prebuf writes only the words that b has; the rest of the entry is already zero. Other
      entries are left alone. */
  method CopyToPrebuf(x: nat, nx: nat, buf: array<Byte>, id: nat, width: nat, n: nat)
    requires id < width && nx <= n && buf.Length == n * width
    requires x < Pow(256, nx) && Entry(buf[..], id, width, n, 0)
    modifies buf
    ensures Entry(buf[..], id, width, n, x)
    ensures forall id': nat, y: nat :: id' < width && id' != id && old(Entry(buf[..], id', width, n, y))
              ==> Entry(buf[..], id', width, n, y)
  {
    hide Pos, Pow;
    var j := id;
    var i := 0;
    ghost var was := buf[..];
    PosStep(id, 0, width);
    while i < nx
      invariant 0 <= i <= nx && j == Pos(id, i, width)
      invariant forall k :: 0 <= k < i ==> Pos(id, k, width) < buf.Length && buf[Pos(id, k, width)] == ByteAt(x, k)
      invariant forall q :: 0 <= q < buf.Length && (forall k :: 0 <= k < i ==> q != Pos(id, k, width)) ==> buf[q] == was[q]
    {
      PosBound(id, i, width, n);
      PosStep(id, i, width);
      forall k | 0 <= k < i ensures Pos(id, k, width) != j {
        if Pos(id, k, width) == j {
          PosInjective(id, k, id, i, width);
        }
      }
      buf[j] := ByteAt(x, i);
      i := i + 1;
      j := j + width;
    }
    forall k | nx <= k < n ensures Pos(id, k, width) < buf.Length && buf[Pos(id, k, width)] == ByteAt(x, k) {
      OtherSlot(id, k, width, id, nx);
      HighBytesZero(x, k, nx);
      ZeroBytes(k);
    }
    forall id': nat, y: nat | id' < width && id' != id && Entry(was, id', width, n, y)
      ensures Entry(buf[..], id', width, n, y)
    {
      forall k | 0 <= k < n ensures buf[..][Pos(id', k, width)] == was[Pos(id', k, width)] {
        OtherSlot(id', k, width, id, nx);
      }
    }
  }

  /** Positions outside the first nx bytes of entry id. */
  lemma OtherSlot(id': nat, k: nat, width: nat, id: nat, nx: nat)
    requires id < width && id' < width && (id' != id || k >= nx)
    ensures forall i :: 0 <= i < nx ==> Pos(id', k, width) != Pos(id, i, width)
  {
    forall i | 0 <= i < nx ensures Pos(id', k, width) != Pos(id, i, width) {
      if Pos(id', k, width) == Pos(id, i, width) {
        PosInjective(id', k, id, i, width);
      }
    }
  }

  /** copy_from_prebuf gathers the entry back. */
  method CopyFromPrebuf(buf: array<Byte>, id: nat, width: nat, n: nat, ghost x: nat) returns (v: nat)
    requires Entry(buf[..], id, width, n, x) && x < Pow(256, n)
    ensures v == x
  {
    hide Pos, Pow;
    v := 0;
    var j := id;
    PosStep(id, 0, width);
    for i := 0 to n
      invariant j == Pos(id, i, width) && v == LowBytes(x, i)
    {
      assert buf[..][Pos(id, i, width)] == ByteAt(x, i);
      v := v + buf[j] * Pow(256, i);
      PosStep(id, i, width);
      j := j + width;
    }
    LowBytesAll(x, n);
  }

  // ---------------------------------------------------------------- the exponentiation

  /** Entries 0..|xs| of the buffer hold a^0, a^1, ... in Montgomery form; the others are still zero. */
  ghost predicate Table(c: MontCtx, buf: seq<Byte>, xs: seq<nat>, a: int, width: nat, n: nat)
    requires c.m > 0
  {
    && |xs| <= width
    && (forall id :: 0 <= id < |xs| ==> Entry(buf, id, width, n, xs[id]) && Power(c, xs[id], a, id) && xs[id] < c.m)
    && (forall id :: |xs| <= id < width ==> Entry(buf, id, width, n, 0))
  }

  /** The number of bytes in the words of x, and why they are enough. */
  method WordBytes(x: nat, ghost M: nat, n: nat) returns (nx: nat)
    requires n == 8 * |FromNat(M)| && x <= M
    ensures nx <= n && x < Pow(256, nx)
  {
    var s := FromNat(x);
    nx := 8 * |s|;
    NormalLength(s, FromNat(M));
    ValBound(s);
    BytePower(|s|);
  }

  /** Storing the next power. */
  method StorePower(c: MontCtx, x: nat, buf: array<Byte>, id: nat, width: nat, n: nat, ghost xs: seq<nat>, ghost a: int, ghost M: nat)
    requires id == |xs| && c.m == M > 0 && n == 8 * |FromNat(M)| && buf.Length == n * width
    requires Table(c, buf[..], xs, a, width, n) && |xs| < width && Power(c, x, a, |xs|) && x < c.m
    modifies buf
    ensures Table(c, buf[..], xs + [x], a, width, n)
  {
    hide Power, Entry, Pow, FromNat;
    ghost var ys, before := xs + [x], buf[..];
    var nx := WordBytes(x, M, n);
    CopyToPrebuf(x, nx, buf, id, width, n);
    forall k | 0 <= k < |ys|
      ensures Entry(buf[..], k, width, n, ys[k]) && Power(c, ys[k], a, k) && ys[k] < c.m
    {
      if k < |xs| {
        assert Entry(before, k, width, n, xs[k]);
      }
    }
    forall k | |ys| <= k < width ensures Entry(buf[..], k, width, n, 0) {
      assert Entry(before, k, width, n, 0);
    }
  }

  /** The powers a^0 .. a^(2^window - 1), each as a * a^(i-1). The flags follow the signs the BIGNUMs carry:
      only magnitudes are stored. */
  method BuildPowers(c: MontCtx, one: nat, am: nat, amNeg: bool, window: nat, width: nat, n: nat, ghost a: int, ghost M: nat)
    returns (buf: array<Byte>, tmpNeg: bool, ghost xs: seq<nat>)
    requires c.Valid() && c.m == M && n == 8 * |FromNat(M)| && 1 <= window && width == Pow(2, window)
    requires Power(c, one, a, 0) && Power(c, am, a, 1) && one < M && am < M && a >= 0
    ensures fresh(buf) && |xs| == width && Table(c, buf[..], xs, a, width, n)
    ensures window > 1 ==> tmpNeg == amNeg
    ensures !amNeg ==> !tmpNeg
  {
    hide Power, Pow, FromNat, Table, TRem;
    buf := new Byte[n * width](i => 0);
    tmpNeg := false;
    xs := [];
    TwoPowers(window);
    EmptyTable(c, buf[..], a, width, n);
    StorePower(c, one, buf, 0, width, n, xs, a, M);
    xs := xs + [one];
    StorePower(c, am, buf, 1, width, n, xs, a, M);
    xs := xs + [am];
    if window > 1 {
      var tmp := c.Mul(am, am);
      tmpNeg := amNeg != amNeg;
      MulPower(c, am, am, a, 1, 1);
      PowerRange(c, tmp, a, 2);
      StorePower(c, tmp, buf, 2, width, n, xs, a, M);
      xs := xs + [tmp];
      for i := 3 to width
        invariant |xs| == i && Table(c, buf[..], xs, a, width, n)
        invariant 0 <= tmp < M && Power(c, tmp, a, i - 1)
        invariant tmpNeg == (amNeg && i % 2 == 0)
      {
        MulPower(c, am, tmp, a, 1, i - 1);
        tmp := c.Mul(am, tmp);
        tmpNeg := amNeg != tmpNeg;
        PowerRange(c, tmp, a, i);
        StorePower(c, tmp, buf, i, width, n, xs, a, M);
        xs := xs + [tmp];
      }
    }
  }

  lemma TwoPowers(window: nat)
    requires window >= 1
    ensures Pow(2, window) >= 2 && (window == 1 ==> Pow(2, window) == 2) && (window > 1 ==> Pow(2, window) >= 4) && Pow(2, window) % 2 == 0
  {
  }

  lemma EmptyTable(c: MontCtx, buf: seq<Byte>, a: int, width: nat, n: nat)
    requires c.m > 0 && |buf| == n * width && forall q :: 0 <= q < |buf| ==> buf[q] == 0
    ensures Table(c, buf, [], a, width, n)
  {
    forall id | 0 <= id < width ensures Entry(buf, id, width, n, 0) {
      forall k | 0 <= k < n ensures Pos(id, k, width) < |buf| && buf[Pos(id, k, width)] == ByteAt(0, k) {
        PosBound(id, k, width, n);
        ZeroBytes(k);
      }
    }
  }

  /** Powers of a non-negative base have non-negative Montgomery forms below the modulus. */
  lemma PowerRange(c: MontCtx, x: int, a: int, e: nat)
    requires c.Valid() && Power(c, x, a, e) && a >= 0
    ensures 0 <= x < c.m
  {
    PowerNonNegative(a, e);
    RepSign(IPow(a, e), c.R, c.m);
    TRemBounds(IPow(a, e) * c.R, c.m);
  }

  /** The next t bits of the exponent, most significant first. */
  method ReadBits(p: nat, high: int, t: nat) returns (wvalue: nat)
    requires 0 <= t <= high + 1
    ensures wvalue < Pow(2, t) && Sh(p, high + 1 - t) == Sh(p, high + 1) * Pow(2, t) + wvalue
  {
    wvalue := 0;
    PowZero();
    for i := 0 to t
      invariant wvalue < Pow(2, i) && Sh(p, high + 1 - i) == Sh(p, high + 1) * Pow(2, i) + wvalue
    {
      ShiftDown(p, high - i);
      BitAppended(Sh(p, high + 1), i, wvalue);
      wvalue := wvalue * 2 + BitValue(p, high - i);
    }
  }

  lemma BitAppended(x: nat, i: nat, w: nat)
    ensures 2 * (x * Pow(2, i) + w) == x * Pow(2, i + 1) + w * 2 && Pow(2, i + 1) == 2 * Pow(2, i)
  {
  }

  lemma GatheredPower(c: MontCtx, buf: seq<Byte>, xs: seq<nat>, a: int, width: nat, n: nat, id: nat, M: nat)
    requires c.m == M > 0 && n == 8 * |FromNat(M)| && Table(c, buf, xs, a, width, n) && id < |xs|
    ensures Entry(buf, id, width, n, xs[id]) && Power(c, xs[id], a, id) && xs[id] < Pow(256, n)
  {
    ValBound(FromNat(M));
    BytePower(|FromNat(M)|);
  }

  /** One pass of the scan: `window` squarings, one gather, one multiplication. */
  method WindowStep(c: MontCtx, buf: array<Byte>, tmp0: nat, p: nat, bits: nat, window: nat, width: nat, n: nat,
                    ghost xs: seq<nat>, ghost a: int, ghost M: nat) returns (tmp: nat)
    requires c.Valid() && c.m == M && n == 8 * |FromNat(M)| && width == Pow(2, window) == |xs| && window <= bits + 1
    requires a >= 0 && Table(c, buf[..], xs, a, width, n) && Power(c, tmp0, a, Sh(p, bits + 1))
    ensures Power(c, tmp, a, Sh(p, bits + 1 - window)) && tmp < M
  {
    hide Power, Pow, FromNat, Table, Entry, TRem, Sh;
    ghost var e := Sh(p, bits + 1);
    var sq := Squarings(c, tmp0, window, a, e);
    var wvalue := ReadBits(p, bits, window);
    GatheredPower(c, buf[..], xs, a, width, n, wvalue, M);
    var am := CopyFromPrebuf(buf, wvalue, width, n, xs[wvalue]);
    MulPower(c, sq, am, a, e * Pow(2, window), wvalue);
    PowerRange(c, c.Mul(sq, am), a, e * Pow(2, window) + wvalue);
    tmp := c.Mul(sq, am);
  }

  /** The scan of the exponent, `window` bits at a time after a first window that makes the rest come out
      even. */
  method FixedLoop(c: MontCtx, buf: array<Byte>, p: nat, window: nat, width: nat, n: nat, amNeg: bool, tmpNeg0: bool,
                   ghost xs: seq<nat>, ghost a: int, ghost M: nat) returns (tmp: nat, tmpNeg: bool)
    requires c.Valid() && c.m == M && n == 8 * |FromNat(M)| && window >= 1 && width == Pow(2, window) == |xs|
    requires p > 0 && a >= 0 && Table(c, buf[..], xs, a, width, n)
    ensures Power(c, tmp, a, p) && tmp < M
    ensures tmpNeg == if NumBits(p) > window then amNeg else tmpNeg0
  {
    hide Power, Pow, FromNat, Table, Entry, TRem, NumBits, Sh;
    ShiftBits(p);
    NumBitsZero(p);
    var bits: int := NumBits(p) - 1;
    var first := bits % window + 1;
    WholeWindows(bits, window);
    var wvalue := ReadBits(p, bits, first);
    PowMonotone(2, first, window);
    bits := bits - first;
    ghost var k := (NumBits(p) - 1) / window;
    GatheredPower(c, buf[..], xs, a, width, n, wvalue, M);
    PowerRange(c, xs[wvalue], a, wvalue);
    tmp := CopyFromPrebuf(buf, wvalue, width, n, xs[wvalue]);
    tmpNeg := tmpNeg0;
    while bits >= 0
      invariant -1 <= bits == k * window - 1
      invariant Power(c, tmp, a, Sh(p, bits + 1)) && tmp < M
      invariant tmpNeg == if k == (NumBits(p) - 1) / window then tmpNeg0 else amNeg
      invariant 0 <= k <= (NumBits(p) - 1) / window
      decreases bits
    {
      OneWindowLess(k, window);
      tmp := WindowStep(c, buf, tmp, p, bits, window, width, n, xs, a, M);
      bits := bits - window;
      tmpNeg := false != amNeg;
      k := k - 1;
    }
    OneWindowLess(k, window);
    assert Sh(p, 0) == p by { ShiftZero(p); }
  }

  lemma OneWindowLess(k: int, window: int)
    requires window > 0 && k >= 0
    ensures (k - 1) * window == k * window - window
    ensures k * window - 1 >= 0 <==> k > 0
    ensures k > 0 ==> k * window >= window
  {
  }

  lemma WholeWindows(x: nat, window: nat)
    requires window > 0
    ensures x - (x % window + 1) == (x / window) * window - 1 && x / window >= 0
    ensures x / window > 0 <==> x >= window
    ensures 0 <= x % window < window && x % window <= x
  {
  }

  /** What the sign flags add up to for a negative base: the answer is never the least residue of a^p,
      unless that is 0. */
  lemma NegativeBase(a: int, p: nat, M: int, mag: int, neg: bool)
    requires M > 0 && M % 2 == 1 && mag == IPow(0 - a, p) % M
    requires p % 2 == 0 && mag != 0 ==> neg
    ensures (if neg then 0 - mag else mag) == IPow(a, p) % M <==> mag == 0
  {
    NegatedPower(a, p);
    var x, y := IPow(a, p), IPow(0 - a, p);
    if p % 2 == 1 {
      NegatedResidue(y, M);
    }
  }

  lemma NegatedResidue(y: int, M: int)
    requires M > 0
    ensures (0 - y) % M == if y % M == 0 then 0 else M - y % M
  {
    assert y == M * (y / M) + y % M;
    var k := 0 - y / M;
    assert M * k == 0 - M * (y / M) && M * (k - 1) == M * k - M;
    if y % M == 0 {
      EuclidUnique(0 - y, M, k, 0);
    } else {
      EuclidUnique(0 - y, M, k - 1, M - y % M);
    }
  }

  lemma {:induction false} NegatedPower(a: int, p: nat)
    ensures IPow(a, p) == if p % 2 == 0 then IPow(0 - a, p) else 0 - IPow(0 - a, p)
  {
    if p > 0 {
      NegatedPower(a, p - 1);
      var y := IPow(0 - a, p - 1);
      assert (0 - a) * y == 0 - a * y && a * (0 - y) == 0 - a * y;
    }
  }

  /** A multiple of the modulus has powers that vanish. */
  lemma VanishingPower(a: int, p: nat, M: int)
    requires M > 0 && p > 0 && a % M == 0
    ensures IPow(0 - a, p) % M == 0
  {
    NegatedResidue(a, M);
    PowerOfResidue(0 - a, 0, p, M);
  }

  /** A number prime to the modulus has powers that do not vanish. */
  lemma CoprimePower(a: int, p: nat, M: int)
    requires M > 1 && IsGcd(1, a, M)
    ensures IPow(0 - a, p) % M != 0
  {
    hide IsGcd, IPow, Cong;
    var x, y := BezoutOne(a, M);
    assert (0 - x) * (0 - a) == 1 + M * (0 - y) by {
      OppositeSigns(x, a, y, M);
    }
    CongFromQuotient((0 - x) * (0 - a), 1, M, 0 - y);
    UnitPower(0 - a, 0 - x, p, M);
  }

  lemma OppositeSigns(x: int, a: int, y: int, M: int)
    requires x * a + y * M == 1
    ensures (0 - x) * (0 - a) == 1 + M * (0 - y)
  {
  }

  lemma BezoutOne(a: int, M: nat) returns (x: int, y: int)
    requires IsGcd(1, a, M)
    ensures x * a + y * M == 1
  {
    var s := if a < 0 then -1 else 1;
    var u, v := Bezout(s * a, M);
    SameAbs(u * (s * a) + v * M, a, s, M);
    GcdUnique(1, u * (s * a) + v * M, a, M);
    x, y := u * s, v;
  }

  lemma SameAbs(g: int, a: int, s: int, M: int)
    requires IsGcd(g, s * a, M) && (s == 1 || s == -1)
    ensures IsGcd(g, a, M)
  {
    forall d: nat
      ensures Divides(d, s * a) <==> Divides(d, a)
    {
      Negated(d, a);
    }
  }

  /** x is an inverse of b, so no power of b vanishes. */
  lemma {:induction false} UnitPower(b: int, x: int, p: nat, M: int)
    requires M > 1 && Cong(x * b, 1, M)
    ensures IPow(b, p) % M != 0
  {
    if p == 0 {
      assert IPow(b, 0) == 1;
    } else {
      UnitPower(b, x, p - 1, M);
      UnitFactor(b, x, IPow(b, p - 1), M);
    }
  }

  lemma UnitFactor(b: int, x: int, y: int, M: int)
    requires M > 1 && Cong(x * b, 1, M)
    ensures Cong(b * y, 0, M) ==> Cong(y, 0, M)
  {
    hide Cong;
    if Cong(b * y, 0, M) {
      CongRefl(x, M);
      CongMul(x, x, b * y, 0, M);
      CongRefl(y, M);
      CongMul(x * b, 1, y, y, M);
      assert x * (b * y) == x * b * y && x * 0 == 0 && 1 * y == y;
      CongSym(x * b * y, y, M);
      CongTrans(y, x * b * y, 0, M);
    }
  }

  /** BN_mod_exp_mont_consttime, portable path: right for every non-negative base (a zero exponent with the
      modulus 1 excepted); for a negative base it is right only when the power vanishes modulo m. */
  method ModExpConsttime(a: int, p: nat, m: int) returns (ok: bool, rr: int)
    ensures ok <==> m % 2 == 1
    ensures ok ==> Arith.Abs(m) > 0
    ensures ok ==> (rr == IPow(a, p) % Arith.Abs(m) <==>
                    !(p == 0 && Arith.Abs(m) == 1) &&
                    !(a < 0 && p > 0 && IPow(0 - a, p) % Arith.Abs(m) != 0))
    ensures ok && a < 0 && p > 0 && a % Arith.Abs(m) == 0 ==> rr == IPow(a, p) % Arith.Abs(m)
    ensures ok && a < 0 && p > 0 && Arith.Abs(m) > 1 && IsGcd(1, a, Arith.Abs(m)) ==> rr != IPow(a, p) % Arith.Abs(m)
  {
    hide Power, IPow, TRem, NumBits, Pow, FromNat, Table, IsGcd;
    if m % 2 != 1 {
      return false, 0;
    }
    var M := Arith.Abs(m);
    OddMagnitude(m);
    NumBitsZero(p);
    if NumBits(p) == 0 {
      ZeroPower(a);
      return true, 1;
    }
    var mag, neg := ConsttimePower(Arith.Abs(a), a < 0, p, M);
    if a < 0 {
      NegativeBase(a, p, M, mag, neg);
      if a % M == 0 {
        VanishingPower(a, p, M);
      }
      if M > 1 && IsGcd(1, a, M) {
        CoprimePower(a, p, M);
      }
    }
    return true, if neg then 0 - mag else mag;
  }

  /** Lines 921-1181 on the magnitude of the base, with its sign alongside. */
  method ConsttimePower(a: nat, aNeg: bool, p: nat, M: nat) returns (mag: int, neg: bool)
    requires M % 2 == 1 && p > 0
    ensures mag == IPow(a, p) % M
    ensures !aNeg ==> !neg
    ensures aNeg && p % 2 == 0 && mag != 0 ==> neg
  {
    hide Power, IPow, TRem, NumBits, Pow, FromNat, Table;
    var window := CtimeWindowBits(NumBits(p));
    var c := NewMont(M);
    var n := 8 * |FromNat(M)|;
    var width := Pow(2, window);
    var x := a % M;
    var amNeg := aNeg && x != 0;
    CongMod(a, M);
    PowerOfResidue(a, x, p, M);
    var one := MontgomeryOne(c, M);
    FirstPower(c, one, x);
    PowerRange(c, one, x, 0);
    ToRep(c, x);
    var am := c.To(x);
    FirstPower(c, am, x);
    PowerRange(c, am, x, 1);
    var buf, tmpNeg, xs := BuildPowers(c, one, am, amNeg, window, width, n, x, M);
    var tmp;
    tmp, neg := FixedLoop(c, buf, p, window, width, n, amNeg, tmpNeg, xs, x, M);
    mag := c.From(tmp);
    FinishPower(c, tmp, x, p);
    EvenHasTwoBits(p);
  }

  lemma EvenHasTwoBits(p: nat)
    ensures p > 0 && p % 2 == 0 ==> NumBits(p) > 1
  {
  }

  /** 2^0 is 0 modulo 1 but answered 1; and -2 is 3 modulo 5 but answered -2. */
  method WrongResidues() returns (zeroPower: int, negative: int)
    ensures zeroPower != IPow(2, 0) % 1 && negative != IPow(-2, 1) % 5
  {
    var ok1, ok2;
    ok1, zeroPower := ModExpConsttime(2, 0, 1);
    ok2, negative := ModExpConsttime(-2, 1, 5);
    assert IPow(2, 1) == 2 * IPow(2, 0) && 2 % 5 != 0;
  }
}
