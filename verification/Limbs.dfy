/** Little-endian sequences of 64-bit words and the word-array primitives of the bignum library. */
module Limbs {
  import opened Arith

  /** BN_BITS2 of the 64-bit build, and 2^BN_BITS2. */
  const BITS: nat := 64
  const BASE: nat := 0x1_0000_0000_0000_0000
  const HALF: nat := 0x8000_0000_0000_0000

  type Word = x: nat | x < BASE

  /** The magnitude held by a word sequence, least significant word first. */
  function Val(s: seq<Word>): nat {
    if s == [] then 0 else s[0] + BASE * Val(s[1..])
  }

  /** A magnitude without a leading zero word, the state bn_correct_top restores. */
  predicate Normal(s: seq<Word>) {
    s != [] ==> s[|s| - 1] != 0
  }

  lemma {:induction false} ValAppend(a: seq<Word>, b: seq<Word>)
    ensures Val(a + b) == Val(a) + Pow(BASE, |a|) * Val(b)
  {
    if a == [] {
      assert a + b == b;
    } else {
      ValAppend(a[1..], b);
      assert (a + b)[1..] == a[1..] + b;
      assert BASE * (Pow(BASE, |a| - 1) * Val(b)) == Pow(BASE, |a|) * Val(b);
    }
  }

  lemma {:induction false} ValBound(s: seq<Word>)
    ensures Val(s) < Pow(BASE, |s|)
  {
    if s != [] {
      ValBound(s[1..]);
    }
  }

  lemma ValSplit(s: seq<Word>, k: nat)
    requires k <= |s|
    ensures Val(s) == Val(s[..k]) + Pow(BASE, k) * Val(s[k..])
  {
    var a, b := s[..k], s[k..];
    assert s == a + b;
    ValAppend(a, b);
  }

  lemma NoWords()
    ensures Val([]) == 0
  {
  }

  lemma ValSingle(w: Word)
    ensures Val([w]) == w
  {
  }

  lemma ValSnoc(s: seq<Word>, w: Word)
    ensures Val(s + [w]) == Val(s) + Pow(BASE, |s|) * w
  {
    ValAppend(s, [w]);
    ValSingle(w);
  }

  /** A non-zero top word puts the value above every shorter sequence. */
  lemma ValTop(s: seq<Word>)
    requires s != []
    ensures Val(s) == Val(s[..|s| - 1]) + Pow(BASE, |s| - 1) * s[|s| - 1]
    ensures s[|s| - 1] != 0 ==> Val(s) >= Pow(BASE, |s| - 1)
  {
    var n := |s| - 1;
    ValSnoc(s[..n], s[n]);
    assert s[..n] + [s[n]] == s;
    if s[n] != 0 {
      MulMonotone(1, s[n], Pow(BASE, n));
    }
  }

  lemma {:induction false} ValZeros(s: seq<Word>)
    requires forall i :: 0 <= i < |s| ==> s[i] == 0
    ensures Val(s) == 0
  {
    if s != [] {
      ValZeros(s[1..]);
    }
  }

  /** Padding with zero words does not change the value. */
  lemma ValPad(s: seq<Word>, z: seq<Word>)
    requires forall i :: 0 <= i < |z| ==> z[i] == 0
    ensures Val(s + z) == Val(s)
  {
    ValAppend(s, z);
    ValZeros(z);
  }

  /** The normal word sequence of a magnitude. */
  function FromNat(n: nat): (s: seq<Word>)
    ensures Val(s) == n && Normal(s)
  {
    if n == 0 then []
    else
      var t := FromNat(n / BASE);
      assert n >= BASE ==> t != [];
      [n % BASE] + t
  }

  lemma {:induction false} ValInjective(s: seq<Word>, t: seq<Word>)
    requires |s| == |t| && Val(s) == Val(t)
    ensures s == t
  {
    if s != [] {
      assert s[0] == Val(s) % BASE && t[0] == Val(t) % BASE;
      ValInjective(s[1..], t[1..]);
      assert s == [s[0]] + s[1..] && t == [t[0]] + t[1..];
    }
  }

  /** A normal sequence is no shorter than any sequence of smaller or equal value. */
  lemma NormalLength(s: seq<Word>, t: seq<Word>)
    requires Normal(s) && Val(s) <= Val(t)
    ensures |s| <= |t|
  {
    if |s| > |t| {
      PowMonotone(BASE, |t|, |s| - 1);
      ValBound(t);
      ValTop(s);
    }
  }

  lemma NormalUnique(s: seq<Word>, t: seq<Word>)
    requires Normal(s) && Normal(t) && Val(s) == Val(t)
    ensures s == t
  {
    NormalLength(s, t);
    NormalLength(t, s);
    ValInjective(s, t);
  }

  /** The most words bn_wexpand allocates: INT_MAX / (4 * BN_BITS2). */
  const MAX_WORDS: nat := 8_388_607

  /** Whether an array of that length has room for n words, or may be replaced by one that has. */
  predicate Room(length: nat, n: nat) {
    n <= length || n <= MAX_WORDS
  }

  /** How many words a number takes. */
  function Words(v: int): nat {
    |FromNat(Abs(v))|
  }

  lemma WordsMonotone(v: int, w: int)
    requires 0 <= v <= w
    ensures Words(v) <= Words(w)
  {
    NormalLength(FromNat(v), FromNat(w));
  }

  lemma ScaleColumn(p: int, t1: int, t2: int, c0: int, c: int, d: int)
    requires d == t1 - t2 - c0 + c * BASE
    ensures p * d == p * t1 - p * t2 - c0 * p + c * (BASE * p)
  {
  }

  /** One column of a subtraction: the borrow moves up by one word. */
  lemma SubColumn(low: seq<Word>, a: seq<Word>, b: seq<Word>, d: Word, t1: Word, t2: Word, c0: nat, c: nat)
    requires |low| == |a| == |b| && c <= 1
    requires Val(low) + Val(b) == Val(a) + c0 * Pow(BASE, |a|)
    requires d == t1 - t2 - c0 + c * BASE
    ensures Val(low + [d]) + Val(b + [t2]) == Val(a + [t1]) + c * Pow(BASE, |a| + 1)
  {
    var p := Pow(BASE, |a|);
    ValSnoc(low, d);
    ValSnoc(a, t1);
    ValSnoc(b, t2);
    ScaleColumn(p, t1, t2, c0, c, d);
  }

  /** The low i words from off on are the difference so far, with the borrow. */
  ghost predicate Lowered(r: seq<Word>, was: seq<Word>, b: seq<Word>, off: nat, i: nat, c: nat) {
    && off + i <= |r| && off + i <= |was| && i <= |b|
    && Val(r[off..off + i]) + Val(b[..i]) == Val(was[off..off + i]) + c * Pow(BASE, i)
  }

  ghost predicate Raised(r: seq<Word>, was: seq<Word>, b: seq<Word>, off: nat, i: nat, c: nat) {
    && off + i <= |r| && off + i <= |was| && i <= |b|
    && Val(r[off..off + i]) + c * Pow(BASE, i) == Val(was[off..off + i]) + Val(b[..i])
  }

  lemma NoColumns(r: seq<Word>, was: seq<Word>, b: seq<Word>, off: nat)
    requires off <= |r| && off <= |was|
    ensures Lowered(r, was, b, off, 0, 0) && Raised(r, was, b, off, 0, 0)
  {
  }

  lemma NextColumn(r: seq<Word>, r': seq<Word>, was: seq<Word>, b: seq<Word>, off: nat, i: nat, c: nat, c': nat)
    requires off + i < |r| == |r'| && off + i < |was| && i < |b| && r'[..off + i] == r[..off + i]
    ensures Lowered(r, was, b, off, i, c) && c' <= 1 && r'[off + i] == was[off + i] - b[i] - c + c' * BASE ==>
              Lowered(r', was, b, off, i + 1, c')
    ensures Raised(r, was, b, off, i, c) && r'[off + i] + c' * BASE == was[off + i] + b[i] + c ==>
              Raised(r', was, b, off, i + 1, c')
  {
    hide Val, Pow;
    var low, a, bs := r[off..off + i], was[off..off + i], b[..i];
    var d, t1, t2 := r'[off + i], was[off + i], b[i];
    assert r'[off..off + i] == r'[..off + i][off..] == low;
    assert r'[off..off + i + 1] == low + [d] && was[off..off + i + 1] == a + [t1] && b[..i + 1] == bs + [t2];
    if Lowered(r, was, b, off, i, c) && c' <= 1 && d == t1 - t2 - c + c' * BASE {
      SubColumn(low, a, bs, d, t1, t2, c, c');
    }
    if Raised(r, was, b, off, i, c) && d + c' * BASE == t1 + t2 + c {
      AddColumn(low, a, bs, d, t1, t2, c, c');
    }
  }

  /** bn_sub_words with r == a: subtracts the low n words of b from r[off..off+n] and returns the borrow. */
  method SubWords(r: array<Word>, off: nat, b: array<Word>, n: nat) returns (c: nat)
    requires off + n <= r.Length && n <= b.Length && r != b
    modifies r
    ensures c <= 1
    ensures Val(r[off..off + n]) + Val(b[..n]) == old(Val(r[off..off + n])) + c * Pow(BASE, n)
    ensures r[..off] == old(r[..off]) && r[off + n..] == old(r[off + n..])
  {
    hide Val, Pow, Lowered;
    c := 0;
    var i := 0;
    ghost var was := r[..];
    NoColumns(was, was, b[..], off);
    while i < n
      invariant i <= n && c <= 1
      invariant forall k :: 0 <= k < off || off + i <= k < r.Length ==> r[k] == was[k]
      invariant Lowered(r[..], was, b[..], off, i, c)
    {
      var t1, t2 := r[off + i], b[i];
      ghost var before, c0 := r[..], c;
      r[off + i] := (t1 - t2 - c) % BASE;
      if t1 != t2 {
        c := if t1 < t2 then 1 else 0;
      }
      assert r[..][..off + i] == before[..off + i];
      NextColumn(before, r[..], was, b[..], off, i, c0, c);
      i := i + 1;
    }
    Columns(r[..], was, b[..], off, n, c);
  }

  lemma Columns(r: seq<Word>, was: seq<Word>, b: seq<Word>, off: nat, n: nat, c: nat)
    requires off + n <= |r| && off + n <= |was| && n <= |b|
    ensures Lowered(r, was, b, off, n, c) ==>
              Val(r[off..off + n]) + Val(b[..n]) == Val(was[off..off + n]) + c * Pow(BASE, n)
    ensures Raised(r, was, b, off, n, c) ==>
              Val(r[off..off + n]) + c * Pow(BASE, n) == Val(was[off..off + n]) + Val(b[..n])
  {
  }

  lemma ScaleSum(p: int, d: int, c: int, t1: int, t2: int, c0: int)
    requires d + c * BASE == t1 + t2 + c0
    ensures p * d + c * (BASE * p) == p * t1 + p * t2 + c0 * p
  {
  }

  lemma AddColumn(low: seq<Word>, a: seq<Word>, b: seq<Word>, d: Word, t1: Word, t2: Word, c0: nat, c: nat)
    requires |low| == |a| == |b|
    requires Val(low) + c0 * Pow(BASE, |a|) == Val(a) + Val(b)
    requires d + c * BASE == t1 + t2 + c0
    ensures Val(low + [d]) + c * Pow(BASE, |a| + 1) == Val(a + [t1]) + Val(b + [t2])
  {
    ValSnoc(low, d);
    ValSnoc(a, t1);
    ValSnoc(b, t2);
    ScaleSum(Pow(BASE, |a|), d, c, t1, t2, c0);
  }

  /** bn_add_words with r == a: adds the low n words of b to r[off..off+n] and returns the carry. */
  method AddWords(r: array<Word>, off: nat, b: array<Word>, n: nat) returns (c: nat)
    requires off + n <= r.Length && n <= b.Length && r != b
    modifies r
    ensures c <= 1
    ensures Val(r[off..off + n]) + c * Pow(BASE, n) == old(Val(r[off..off + n])) + Val(b[..n])
    ensures r[..off] == old(r[..off]) && r[off + n..] == old(r[off + n..])
  {
    hide Val, Pow, Raised;
    c := 0;
    var i := 0;
    ghost var was := r[..];
    NoColumns(was, was, b[..], off);
    while i < n
      invariant i <= n && c <= 1
      invariant forall k :: 0 <= k < off || off + i <= k < r.Length ==> r[k] == was[k]
      invariant Raised(r[..], was, b[..], off, i, c)
    {
      ghost var before, c0 := r[..], c;
      var t := r[off + i] + b[i] + c;
      r[off + i] := t % BASE;
      c := t / BASE;
      assert r[..][..off + i] == before[..off + i];
      NextColumn(before, r[..], was, b[..], off, i, c0, c);
      i := i + 1;
    }
    Columns(r[..], was, b[..], off, n, c);
  }

  lemma DistributeTail(x: int, p: int, t: int, w: int)
    ensures (x + p * t) * w == x * w + p * (t * w)
  {
  }

  lemma MulColumn(low: seq<Word>, a: seq<Word>, w: Word, d: Word, t: Word, c0: nat, c: nat)
    requires |low| == |a|
    requires Val(low) + c0 * Pow(BASE, |a|) == Val(a) * w
    requires d + c * BASE == t * w + c0
    ensures Val(low + [d]) + c * Pow(BASE, |a| + 1) == Val(a + [t]) * w
  {
    hide Val;
    var p: int := Pow(BASE, |a|);
    ValSnoc(low, d);
    ValSnoc(a, t);
    ScaleSum(p, d, c, t * w, 0, c0);
    DistributeTail(Val(a), p, t, w);
  }

  lemma MulCarry(t: Word, w: Word, c: Word)
    ensures (t * w + c) / BASE < BASE
  {
    MulMonotone(t, BASE - 1, w);
    assert t * w + c < BASE * BASE;
  }

  /** bn_mul_words: r[..n] becomes the low n words of a[..n] * w; the top word is returned. */
  method MulWords(r: array<Word>, a: array<Word>, n: nat, w: Word) returns (c: Word)
    requires n <= r.Length && n <= a.Length && r != a
    modifies r
    ensures Val(r[..n]) + c * Pow(BASE, n) == Val(a[..n]) * w
    ensures r[n..] == old(r[n..])
  {
    c := 0;
    var i := 0;
    while i < n
      invariant i <= n
      invariant forall k :: i <= k < r.Length ==> r[k] == old(r[k])
      invariant Val(r[..i]) + c * Pow(BASE, i) == Val(a[..i]) * w
    {
      ghost var low, c0 := r[..i], c;
      MulCarry(a[i], w, c);
      var t := a[i] * w + c;
      r[i] := t % BASE;
      c := t / BASE;
      MulColumn(low, a[..i], w, r[i], a[i], c0, c);
      assert r[..i + 1] == low + [r[i]];
      assert a[..i + 1] == a[..i] + [a[i]];
      i := i + 1;
    }
  }

  /** The more significant word decides a comparison. */
  lemma CompareTop(a: seq<Word>, b: seq<Word>, x: Word, y: Word)
    requires |a| == |b| && x < y
    ensures Val(a + [x]) < Val(b + [y])
  {
    hide Val;
    ValSnoc(a, x);
    ValSnoc(b, y);
    ValBound(a);
    CompareArith(Pow(BASE, |a|), x, y, Val(a), Val(b));
  }

  lemma CompareArith(p: int, x: int, y: int, low: int, low': int)
    requires 0 <= low < p && 0 <= low' && x < y
    ensures low + p * x < low' + p * y
  {
    MulMonotone(x + 1, y, p);
  }

  /** BN_ucmp on two windows of equal length: the sign of the difference of their values. */
  method CompareWords(a: array<Word>, off: nat, b: array<Word>, n: nat) returns (r: int)
    requires off + n <= a.Length && n <= b.Length
    ensures r < 0 <==> Val(a[off..off + n]) < Val(b[..n])
    ensures r == 0 <==> Val(a[off..off + n]) == Val(b[..n])
  {
    var i := n;
    while i > 0
      invariant 0 <= i <= n
      invariant a[off + i..off + n] == b[i..n]
    {
      var t1, t2 := a[off + i - 1], b[i - 1];
      ghost var x, y := a[off..off + i - 1], b[..i - 1];
      ghost var high := b[i..n];
      assert a[off..off + n] == (x + [t1]) + high;
      assert b[..n] == (y + [t2]) + high;
      ValAppend(x + [t1], high);
      ValAppend(y + [t2], high);
      if t1 != t2 {
        if t1 < t2 {
          CompareTop(x, y, t1, t2);
        } else {
          CompareTop(y, x, t2, t1);
        }
        return if t1 > t2 then 1 else -1;
      }
      i := i - 1;
    }
    assert a[off..off + n] == b[..n];
    return 0;
  }

  /** Eight bytes are a word. */
  lemma BytePower(k: nat)
    ensures Pow(256, 8 * k) == Pow(BASE, k)
  {
    assert Pow(256, 2) == 0x1_0000;
    PowAdd(256, 2, 2);
    PowAdd(256, 4, 4);
    PowPower(256, 8, k);
  }

  lemma WordBits()
    ensures Pow(2, BITS) == BASE
  {
    PowAdd(2, 32, 32);
    PowAdd(2, 16, 16);
    PowAdd(2, 8, 8);
    assert Pow(2, 8) == 256;
  }
}
