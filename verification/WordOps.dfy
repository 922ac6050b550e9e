/** Adding, subtracting and dividing by one word, in place on the word sequence (crypto/bn/add.c,
    crypto/bn/div.c). */
module WordOps {
  import opened Arith
  import opened Limbs
  import opened LongDivision
  import opened BigNums

  /** Changing one word. */
  lemma ValUpdate(s: seq<Word>, i: nat, x: Word)
    requires i < |s|
    ensures Val(s[i := x]) == Val(s) + (x - s[i]) * Pow(BASE, i)
  {
    hide Val, Pow;
    var t := s[i := x];
    ValSplit(s, i);
    ValSplit(t, i);
    ValHead(s[i..]);
    ValHead(t[i..]);
    assert t[..i] == s[..i] && t[i..][1..] == s[i..][1..];
    UpdateArith(Pow(BASE, i), s[i], x, Val(s[i..][1..]));
  }

  /** A word or a carry at position i. */
  function Place(w: int, i: nat): int {
    w * Pow(BASE, i)
  }

  lemma PlaceZero(w: int)
    ensures Place(w, 0) == w
  {
  }

  lemma PlaceNothing(i: nat)
    ensures Place(0, i) == 0
  {
  }

  /** Writing a + w - c*BASE for a and carrying c is adding w at position i. */
  lemma PlaceCarry(s: seq<Word>, i: nat, w: int, c: int)
    requires i < |s| && 0 <= s[i] + w - c * BASE < BASE
    ensures Val(s[i := s[i] + w - c * BASE]) + Place(c, i + 1) == Val(s) + Place(w, i)
  {
    hide Val;
    ValUpdate(s, i, s[i] + w - c * BASE);
    CarryArith(Val(s), Pow(BASE, i), s[i], w, c);
  }

  lemma ValHead(s: seq<Word>)
    requires s != []
    ensures Val(s) == s[0] + BASE * Val(s[1..])
  {
  }

  lemma UpdateArith(p: int, a: int, x: int, tail: int)
    ensures p * (x + BASE * tail) == p * (a + BASE * tail) + (x - a) * p
  {
  }

  lemma CarryArith(v: int, p: int, d: int, w: int, c: int)
    ensures v + (d + w - c * BASE - d) * p + c * (BASE * p) == v + w * p
  {
  }

  /** The loop of BN_add_word; the carry is noticed by comparing the sum with the addend. */
  method AddLoop(a: BigNum, w0: Word)
    requires a.d != [] && Normal(a.d)
    modifies a`d
    ensures Normal(a.d) && a.d != [] && Val(a.d) == old(Val(a.d)) + w0
  {
    hide Val, Pow, Place;
    var w: Word, i := w0, 0;
    PlaceZero(w0);
    while w != 0 && i < |a.d|
      invariant 0 <= i <= |a.d| && |a.d| == |old(a.d)|
      invariant Val(a.d) + Place(w, i) == old(Val(a.d)) + w0
      invariant i == |a.d| && w == 0 ==> a.d[i - 1] != 0
      invariant i < |a.d| ==> a.d[|a.d| - 1] != 0
      decreases |a.d| - i
    {
      var l: Word := (a.d[i] + w) % BASE;
      ghost var c: nat := if w > l then 1 else 0;
      assert l == a.d[i] + w - c * BASE;
      PlaceCarry(a.d, i, w, c);
      a.d := a.d[i := l];
      w := if w > l then 1 else 0;
      i := i + 1;
    }
    if w != 0 && i == |a.d| {
      AppendWord(a.d, w);
      a.d := a.d + [w];
    } else {
      PlaceNothing(i);
    }
  }

  lemma AppendWord(s: seq<Word>, w: Word)
    ensures Val(s + [w]) == Val(s) + Place(w, |s|)
  {
    hide Val, Pow;
    ValSnoc(s, w);
    Commute(Pow(BASE, |s|), w);
  }

  lemma Commute(x: int, y: int)
    ensures x * y == y * x
  {
  }

  /** The loop of BN_sub_word and its single trim, for a magnitude not below the word. */
  method SubLoop(a: BigNum, w0: Word)
    requires a.d != [] && Normal(a.d) && w0 > 0 && (|a.d| > 1 || a.d[0] >= w0)
    modifies a`d
    ensures Normal(a.d) && Val(a.d) == old(Val(a.d)) - w0
  {
    hide Val, Pow, Place;
    var w: Word, i := w0, 0;
    PlaceZero(0 - w0);
    while a.d[i] < w
      invariant 0 <= i < |a.d| == |old(a.d)| && w > 0
      invariant Val(a.d) + Place(0 - w, i) == old(Val(a.d)) - w0
      invariant i > 0 ==> w == 1 && a.d[i - 1] != 0
      invariant a.d[|a.d| - 1] != 0 && (|a.d| > 1 || a.d[0] >= w)
      decreases |a.d| - i
    {
      PlaceCarry(a.d, i, 0 - w, 0 - 1);
      a.d := a.d[i := a.d[i] - w + BASE];
      i := i + 1;
      w := 1;
    }
    PlaceCarry(a.d, i, 0 - w, 0);
    PlaceNothing(i + 1);
    a.d := a.d[i := a.d[i] - w];
    if a.d[i] == 0 && i == |a.d| - 1 {
      AppendWord(a.d[..i], a.d[i]);
      PlaceNothing(i);
      assert a.d == a.d[..i] + [a.d[i]];
      a.d := a.d[..i];
    }
  }

  /** BN_add_word. */
  method AddWord(a: BigNum, w: Word)
    requires Normal(a.d)
    modifies a`d, a`neg
    ensures Normal(a.d) && a.Value() == old(a.Value()) + w
    ensures old(a.NegativeZero()) || !a.NegativeZero()
  {
    hide Val;
    if w == 0 {
      return;
    }
    if a.d == [] {
      ValSingle(w);
      NoWords();
      a.d, a.neg := [w], false;
      return;
    }
    if a.neg {
      a.neg := false;
      SubMagnitude(a, w);
      if a.d != [] {
        a.neg := !a.neg;
      }
      return;
    }
    AddLoop(a, w);
  }

  /** BN_sub_word of a number that is not negative and not zero. */
  method SubMagnitude(a: BigNum, w: Word)
    requires Normal(a.d) && a.d != [] && !a.neg && w > 0
    modifies a`d, a`neg
    ensures Normal(a.d) && a.Value() == old(a.Value()) - w && !a.NegativeZero()
    ensures a.d == [] ==> a.Value() == 0
  {
    hide Val;
    NoWords();
    if |a.d| == 1 && a.d[0] < w {
      ValSingle(a.d[0]);
      assert a.d == [a.d[0]];
      ValSingle(w - a.d[0]);
      a.d := [w - a.d[0]];
      a.neg := true;
      return;
    }
    SubLoop(a, w);
  }

  /** BN_sub_word. */
  method SubWord(a: BigNum, w: Word)
    requires Normal(a.d)
    modifies a`d, a`neg
    ensures Normal(a.d) && a.Value() == old(a.Value()) - w
    ensures old(a.NegativeZero()) || !a.NegativeZero()
  {
    hide Val;
    if w == 0 {
      return;
    }
    if a.d == [] {
      ValSingle(w);
      NoWords();
      a.d, a.neg := [w], true;
      return;
    }
    if a.neg {
      a.neg := false;
      AddLoop(a, w);
      a.neg := true;
      return;
    }
    SubMagnitude(a, w);
  }

  // ---------------------------------------------------------------- division by a word

  /** bn_div_words, which wants a normalised divisor and a high word below it. */
  method DivWords(h: Word, l: Word, d: Word) returns (q: Word)
    requires h < d
    ensures q == (h * BASE + l) / d
  {
    QuotientFits(h, l, d);
    q := (h * BASE + l) / d;
  }

  lemma QuotientFits(h: Word, l: Word, d: Word)
    requires h < d
    ensures 0 <= (h * BASE + l) / d < BASE
    ensures (h * BASE + l) % d == (l - (h * BASE + l) / d * d % BASE) % BASE
    ensures h > 0 ==> (h * BASE + l) / d > 0
  {
    var x := h * BASE + l;
    var q := x / d;
    GuessIsWord(h, l, d);
    DivMod(x, d);
    WrapDifference(h, l, q * d, x % d);
    if q == 0 {
      assert x % d == x;
    }
  }

  lemma WrapDifference(h: nat, l: nat, qd: nat, r: Word)
    requires h * BASE + l == qd + r
    ensures (l - qd % BASE) % BASE == r
  {
  }

  /** The loop of BN_div_word, from the top word down: the quotient digits replace the words. */
  method DivideLoop(a: BigNum, w: Word) returns (ret: Word)
    requires w > 0
    modifies a`d
    ensures |a.d| == |old(a.d)| && Val(old(a.d)) == Val(a.d) * w + ret && ret < w
    ensures old(a.d) != [] && old(a.d)[|a.d| - 1] != 0 && |a.d| > 1 && a.d[|a.d| - 1] == 0 ==> a.d[|a.d| - 2] != 0
  {
    hide Val;
    ghost var s := a.d;
    ret := 0;
    var i := |a.d|;
    assert s[i..] == [] && a.d[i..] == [];
    NoWords();
    while i > 0
      invariant 0 <= i <= |a.d| == |s| && a.d[..i] == s[..i] && ret < w
      invariant Val(s[i..]) == Val(a.d[i..]) * w + ret
      invariant i == |s| - 1 && s[i] != 0 && a.d[i] == 0 ==> ret > 0
      invariant i < |s| - 1 && s[|s| - 1] != 0 && a.d[|s| - 1] == 0 ==> a.d[|s| - 2] != 0
    {
      i := i - 1;
      var l := a.d[i];
      var d := DivWords(ret, l, w);
      QuotientFits(ret, l, w);
      ValHead(s[i..]);
      assert s[i..][1..] == s[i + 1..];
      ghost var high := a.d[i + 1..];
      DigitArith(Val(high), w, ret, l, d);
      ret := (l - d * w % BASE) % BASE;
      a.d := a.d[i := d];
      assert a.d[i..] == [d] + high;
      ValHead(a.d[i..]);
      assert a.d[i..][1..] == high;
    }
    assert s[0..] == s && a.d[0..] == a.d;
  }

  lemma DigitArith(high: nat, w: Word, ret: Word, l: Word, d: Word)
    requires w > 0 && d == (ret * BASE + l) / w
    ensures l + BASE * (high * w + ret) == (d + BASE * high) * w + (ret * BASE + l) % w
  {
  }

  /** BN_div_word: the magnitude is divided exactly and stays normal although only one word is trimmed; a zero
      divisor changes nothing and yields the all-ones word. */
  method DivWord(a: BigNum, w: Word) returns (ret: Word)
    requires Normal(a.d)
    modifies a`d
    ensures w == 0 ==> ret == BASE - 1 && a.d == old(a.d)
    ensures w > 0 ==> Normal(a.d) && Val(old(a.d)) == Val(a.d) * w + ret && ret < w
  {
    hide Val, Pow, NumBits;
    if w == 0 {
      return BASE - 1;
    }
    NoWords();
    if a.d == [] {
      return 0;
    }
    var j := BITS - NumBits(w);
    NormalisedWord(w);
    var scaled: Word := w * Pow(2, j);
    ghost var v, k := Val(a.d), Pow(2, j);
    PositiveValue(a.d);
    a.d := ShiftLeft(a.d, j);
    if a.d == [] {
      NonZeroProduct(v, k);
      assert false;
    }
    ret := DivideLoop(a, scaled);
    Unscale(v, k, Val(a.d), w, ret);
    if |a.d| > 0 && a.d[|a.d| - 1] == 0 {
      TopTrimmed(a.d);
      a.d := a.d[..|a.d| - 1];
    }
    ret := ret / Pow(2, j);
  }

  lemma TopTrimmed(s: seq<Word>)
    requires s != [] && s[|s| - 1] == 0
    ensures Val(s[..|s| - 1]) == Val(s)
  {
    ValTop(s);
  }

  lemma NonZeroProduct(v: nat, k: nat)
    requires v > 0 && k > 0
    ensures v * k > 0
  {
  }

  lemma NormalisedWord(w: Word)
    requires w > 0
    ensures NumBits(w) <= BITS && Pow(2, BITS - NumBits(w)) > 0
    ensures 0 < w * Pow(2, BITS - NumBits(w)) < BASE
  {
    hide Pow, NumBits;
    NumBitsBounds(w);
    WordBits();
    if NumBits(w) > BITS {
      PowMonotone(2, BITS, NumBits(w) - 1);
      assert false;
    }
    var j := BITS - NumBits(w);
    PowPositive(2, j);
    PowAdd(2, NumBits(w), j);
    MulMonotone(w + 1, Pow(2, NumBits(w)), Pow(2, j));
    NonZeroProduct(w, Pow(2, j));
  }

  /** Dividing multiples of k by a multiple of k. */
  lemma Unscale(v: nat, k: nat, q: nat, w: nat, r: nat)
    requires k > 0 && v * k == q * (w * k) + r && r < w * k
    ensures v == q * w + r / k && r / k < w
  {
    assert q * (w * k) == (q * w) * k;
    var x := v - q * w;
    assert x * k == r;
    EuclidUnique(r, k, x, 0);
    if x >= w {
      MulMonotone(w, x, k);
      assert false;
    }
  }
}
