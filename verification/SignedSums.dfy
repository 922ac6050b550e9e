/** Sums, differences and comparisons of BIGNUMs with their limb arrays and spare capacity, the result being
    allowed to be either operand (crypto/bn/add.c, crypto/bn/cmp.c, crypto/bn/bn.c). */
module SignedSums {
  import opened Arith
  import opened Limbs

  // ---------------------------------------------------------------- columns, the shorter operand padded

  /** The shorter operand, extended by zero words. */
  ghost function Extended(b: seq<Word>, n: nat): (p: seq<Word>)
    ensures |p| == |b| + n && p[..|b|] == b && forall i :: |b| <= i < |p| ==> p[i] == 0
    ensures Val(p) == Val(b)
  {
    var z: seq<Word> := seq(n, i => 0);
    ValPad(b, z);
    b + z
  }

  /** The low i words of r and the carry are the sum of the low i words of a and b. */
  ghost predicate Summed(r: seq<Word>, a: seq<Word>, b: seq<Word>, i: nat, c: nat) {
    i <= |r| && i <= |a| && i <= |b| && Val(r[..i]) + c * Pow(BASE, i) == Val(a[..i]) + Val(b[..i])
  }

  ghost predicate Subtracted(r: seq<Word>, a: seq<Word>, b: seq<Word>, i: nat, c: nat) {
    i <= |r| && i <= |a| && i <= |b| && Val(r[..i]) + Val(b[..i]) == Val(a[..i]) + c * Pow(BASE, i)
  }

  lemma SumNext(r: seq<Word>, r': seq<Word>, a: seq<Word>, b: seq<Word>, i: nat, c: nat, c': nat)
    requires Summed(r, a, b, i, c) && i < |r| == |r'| && i < |a| && i < |b| && r'[..i] == r[..i]
    requires r'[i] + c' * BASE == a[i] + b[i] + c
    ensures Summed(r', a, b, i + 1, c')
  {
    hide Val, Pow;
    AddColumn(r[..i], a[..i], b[..i], r'[i], a[i], b[i], c, c');
    assert r'[..i + 1] == r[..i] + [r'[i]] && a[..i + 1] == a[..i] + [a[i]] && b[..i + 1] == b[..i] + [b[i]];
  }

  lemma DifferenceNext(r: seq<Word>, r': seq<Word>, a: seq<Word>, b: seq<Word>, i: nat, c: nat, c': nat)
    requires Subtracted(r, a, b, i, c) && i < |r| == |r'| && i < |a| && i < |b| && r'[..i] == r[..i] && c' <= 1
    requires r'[i] == a[i] - b[i] - c + c' * BASE
    ensures Subtracted(r', a, b, i + 1, c')
  {
    hide Val, Pow;
    SubColumn(r[..i], a[..i], b[..i], r'[i], a[i], b[i], c, c');
    assert r'[..i + 1] == r[..i] + [r'[i]] && a[..i + 1] == a[..i] + [a[i]] && b[..i + 1] == b[..i] + [b[i]];
  }

  lemma Start(r: seq<Word>, a: seq<Word>, b: seq<Word>)
    ensures Summed(r, a, b, 0, 0) && Subtracted(r, a, b, 0, 0)
  {
    assert r[..0] == [] && a[..0] == [] && b[..0] == [];
  }

  lemma WithCarry(r: seq<Word>, a: seq<Word>, b: seq<Word>, n: nat)
    requires Summed(r, a, b, n, 1) && n < |r| && r[n] == 1 && |a| == |b| == n
    ensures Val(r[..n + 1]) == Val(a) + Val(b)
  {
    hide Val, Pow;
    ValSnoc(r[..n], r[n]);
    assert r[..n + 1] == r[..n] + [r[n]] && a[..n] == a && b[..n] == b;
  }

  lemma Whole(r: seq<Word>, a: seq<Word>, b: seq<Word>, n: nat)
    requires |a| == |b| == n
    ensures Summed(r, a, b, n, 0) ==> Val(r[..n]) == Val(a) + Val(b)
    ensures Subtracted(r, a, b, n, 0) ==> Val(r[..n]) + Val(b) == Val(a)
  {
    assert a[..n] == a && b[..n] == b;
  }

  /** A borrow out of the top word means that a is below b. */
  lemma Borrowed(r: seq<Word>, a: seq<Word>, b: seq<Word>, n: nat, c: nat)
    requires Subtracted(r, a, b, n, c) && |a| == |b| == n && c > 0
    ensures Val(a) < Val(b)
  {
    hide Val, Pow;
    assert a[..n] == a && b[..n] == b;
    ValBound(r[..n]);
    MulMonotone(1, c, Pow(BASE, n));
  }

  // ---------------------------------------------------------------- the loops

  /** bn_add_words on the words both operands have. */
  method AddCommon(r: array<Word>, x: array<Word>, y: array<Word>, min: nat, ghost xs: seq<Word>, ghost ys: seq<Word>)
    returns (carry: nat)
    requires min <= |xs| <= x.Length && min <= |ys| && min <= y.Length && min <= r.Length
    requires x[..|xs|] == xs && y[..min] == ys[..min]
    modifies r
    ensures carry <= 1 && Summed(r[..], xs, ys, min, carry)
    ensures forall k :: min <= k < |xs| ==> x[k] == xs[k]
  {
    hide Val, Pow, Summed;
    carry := 0;
    var i := 0;
    Start(r[..], xs, ys);
    while i < min
      invariant 0 <= i <= min && carry <= 1 && Summed(r[..], xs, ys, i, carry)
      invariant forall k :: i <= k < |xs| ==> x[k] == xs[k]
      invariant forall k :: i <= k < min ==> y[k] == ys[k]
    {
      ghost var before, c := r[..], carry;
      var t := x[i] + y[i] + carry;
      r[i] := t % BASE;
      carry := t / BASE;
      assert r[..][..i] == before[..i];
      SumNext(before, r[..], xs, ys, i, c, carry);
      i := i + 1;
    }
  }

  /** The loops of BN_uadd: the common words, the carry, and a copy of what is left unless it is in place. */
  method AddArrays(r: array<Word>, x: array<Word>, max: nat, y: array<Word>, min: nat) returns (top: nat)
    requires min <= max <= x.Length && min <= y.Length && max + 1 <= r.Length
    modifies r
    ensures max <= top <= max + 1
    ensures Val(r[..top]) == old(Val(x[..max])) + old(Val(y[..min]))
    ensures top > max ==> r[max] == 1
  {
    hide Val, Pow, Summed;
    ghost var y0 := y[..min];
    ghost var xs, ys := x[..max], Extended(y0, max - min);
    var carry := AddCommon(r, x, y, min, xs, ys);
    var i := min;
    while carry != 0 && i < max
      invariant min <= i <= max && carry <= 1 && Summed(r[..], xs, ys, i, carry)
      invariant forall k :: i <= k < max ==> x[k] == xs[k]
      decreases max - i
    {
      ghost var before := r[..];
      var t := (x[i] + 1) % BASE;
      r[i] := t;
      carry := if t != 0 then 0 else 1;
      assert r[..][..i] == before[..i];
      SumNext(before, r[..], xs, ys, i, 1, carry);
      i := i + 1;
    }
    top := max;
    if carry != 0 {
      ghost var before := r[..];
      r[max] := 1;
      top := max + 1;
      assert r[..][..max] == before[..max];
      SameFront(before, r[..], xs, ys, max, carry);
      WithCarry(r[..], xs, ys, max);
    } else {
      ghost var before := r[..];
      CopyRest(r, x, i, max);
      assert r[..][..i] == before[..i] && forall k :: i <= k < max ==> r[..][k] == r[i..max][k - i];
      SameFront(before, r[..], xs, ys, i, 0);
      RestAdds(r[..], xs, ys, i, max);
      Whole(r[..], xs, ys, max);
    }
    assert r[..top] == r[..][..top];
    assert Val(r[..top]) == Val(xs) + Val(ys);
  }

  lemma SameFront(r: seq<Word>, r': seq<Word>, a: seq<Word>, b: seq<Word>, i: nat, c: nat)
    requires i <= |r| == |r'| && r[..i] == r'[..i]
    ensures Summed(r, a, b, i, c) == Summed(r', a, b, i, c) && Subtracted(r, a, b, i, c) == Subtracted(r', a, b, i, c)
  {
  }

  /** Copying the remaining words, unless they are in place already. */
  method CopyRest(r: array<Word>, x: array<Word>, start: nat, max: nat)
    requires start <= max <= x.Length && max <= r.Length
    modifies r
    ensures r[..start] == old(r[..start]) && r[start..max] == old(x[start..max])
  {
    if r != x {
      forall k | start <= k < max {
        r[k] := x[k];
      }
    }
  }

  lemma {:induction false} RestAdds(r: seq<Word>, a: seq<Word>, b: seq<Word>, i: nat, n: nat)
    requires i <= n <= |r| && |a| == |b| == n && (forall k :: i <= k < n ==> r[k] == a[k] && b[k] == 0)
    ensures Summed(r, a, b, i, 0) ==> Summed(r, a, b, n, 0)
    ensures Subtracted(r, a, b, i, 0) ==> Subtracted(r, a, b, n, 0)
    decreases n - i
  {
    hide Val, Pow, Summed, Subtracted;
    if i < n {
      if Summed(r, a, b, i, 0) {
        SumNext(r, r, a, b, i, 0, 0);
      }
      if Subtracted(r, a, b, i, 0) {
        DifferenceNext(r, r, a, b, i, 0, 0);
      }
      RestAdds(r, a, b, i + 1, n);
    }
  }

  /** The first loop of BN_usub. */
  method SubtractCommon(r: array<Word>, x: array<Word>, y: array<Word>, min: nat, ghost xs: seq<Word>, ghost ys: seq<Word>)
    returns (carry: nat)
    requires min <= |xs| <= x.Length && min <= |ys| && min <= y.Length && min <= r.Length
    requires x[..|xs|] == xs && y[..min] == ys[..min]
    modifies r
    ensures carry <= 1 && Subtracted(r[..], xs, ys, min, carry)
    ensures forall k :: min <= k < |xs| ==> x[k] == xs[k]
  {
    hide Val, Pow, Subtracted;
    carry := 0;
    var i := 0;
    Start(r[..], xs, ys);
    while i < min
      invariant 0 <= i <= min && carry <= 1 && Subtracted(r[..], xs, ys, i, carry)
      invariant forall k :: i <= k < |xs| ==> x[k] == xs[k]
      invariant forall k :: i <= k < min ==> y[k] == ys[k]
    {
      ghost var before, c := r[..], carry;
      var t1: int, t2: int := x[i], y[i];
      if carry != 0 {
        carry := if t1 <= t2 then 1 else 0;
        t1 := (t1 - t2 - 1) % BASE;
      } else {
        carry := if t1 < t2 then 1 else 0;
        t1 := (t1 - t2) % BASE;
      }
      r[i] := t1;
      assert r[..][..i] == before[..i];
      DifferenceNext(before, r[..], xs, ys, i, c, carry);
      i := i + 1;
    }
  }

  /** The loops of BN_usub. A borrow that is left when the operands have the same length is an error. */
  method SubtractArrays(r: array<Word>, x: array<Word>, max: nat, y: array<Word>, min: nat) returns (ok: bool)
    requires min <= max <= x.Length && min <= y.Length && max <= r.Length
    requires max > min ==> x[max - 1] != 0
    modifies r
    ensures ok <==> old(Val(x[..max])) >= old(Val(y[..min]))
    ensures ok ==> Val(r[..max]) == old(Val(x[..max])) - old(Val(y[..min]))
  {
    hide Val, Pow, Subtracted;
    ghost var y0 := y[..min];
    ghost var xs, ys := x[..max], Extended(y0, max - min);
    var carry := SubtractCommon(r, x, y, min, xs, ys);
    var i := min;
    if carry != 0 {
      if max == min {
        Borrowed(r[..], xs, ys, max, carry);
        return false;
      }
    }
    while carry != 0 && i < max
      invariant min <= i <= max && carry <= 1 && Subtracted(r[..], xs, ys, i, carry)
      invariant forall k :: i <= k < max ==> x[k] == xs[k]
      invariant carry != 0 ==> max > min && (i > min ==> xs[i - 1] == 0)
      decreases max - i
    {
      ghost var before := r[..];
      var t1: int := x[i];
      r[i] := (t1 - 1) % BASE;
      carry := if t1 != 0 then 0 else 1;
      assert r[..][..i] == before[..i];
      DifferenceNext(before, r[..], xs, ys, i, 1, carry);
      i := i + 1;
    }
    ghost var before := r[..];
    CopyRest(r, x, i, max);
    assert r[..][..i] == before[..i] && forall k :: i <= k < max ==> r[..][k] == r[i..max][k - i];
    SameFront(before, r[..], xs, ys, i, 0);
    RestAdds(r[..], xs, ys, i, max);
    Whole(r[..], xs, ys, max);
    assert r[..max] == r[..][..max];
    assert Val(r[..max]) == Val(xs) - Val(ys);
    ok := true;
  }

  // ---------------------------------------------------------------- the objects

  function Max(a: nat, b: nat): nat {
    if a < b then b else a
  }

  /** A BIGNUM: the array with its spare capacity, the number of words in use, and the sign. */
  class Big {
    var d: array<Word>
    var top: nat
    var neg: bool

    /** The number 1 or -1. */
    constructor One(negative: bool)
      ensures fresh(d) && Valid() && d.Length == top == 1 && d[0] == 1 && neg == negative
    {
      d := new Word[1](i => 1);
      top := 1;
      neg := negative;
    }

    ghost predicate Valid()
      reads this, d
    {
      top <= d.Length && Normal(d[..top])
    }

    ghost function Magnitude(): nat
      requires top <= d.Length
      reads this, d
    {
      Val(d[..top])
    }

    ghost function Value(): int
      requires top <= d.Length
      reads this, d
    {
      if neg then 0 - Magnitude() else Magnitude()
    }

    /** bn_wexpand: room for n words, the old ones being kept; more than MAX_WORDS are not allocated. */
    method Expand(n: nat) returns (ok: bool)
      requires top <= d.Length
      modifies this`d
      ensures ok <==> Room(old(d.Length), n)
      ensures ok ==> d.Length >= n
      ensures top <= d.Length && d[..top] == old(d[..top])
      ensures d == old(d) || fresh(d)
      ensures !ok ==> d == old(d)
    {
      ok := Room(d.Length, n);
      if d.Length < n && ok {
        var bigger := new Word[n];
        forall i | 0 <= i < top {
          bigger[i] := d[i];
        }
        d := bigger;
      }
    }

    /** bn_correct_top. */
    method CorrectTop()
      requires top <= d.Length
      modifies this`top
      ensures Valid() && Magnitude() == old(Magnitude())
    {
      hide Val;
      while top > 0 && d[top - 1] == 0
        invariant top <= d.Length && Magnitude() == old(Magnitude())
      {
        ValTop(d[..top]);
        assert d[..top][..top - 1] == d[..top - 1];
        top := top - 1;
      }
    }
  }

  /** Different objects have different arrays. */
  ghost predicate Apart(a: Big, b: Big)
    reads a, b
  {
    a != b ==> a.d != b.d
  }

  /** BN_ucmp: the sign of the result is the order of the magnitudes. */
  method UCmp(a: Big, b: Big) returns (r: int)
    requires a.Valid() && b.Valid()
    ensures r < 0 <==> a.Magnitude() < b.Magnitude()
    ensures r > 0 <==> a.Magnitude() > b.Magnitude()
  {
    hide Val;
    r := a.top - b.top;
    if r != 0 {
      if a.Magnitude() <= b.Magnitude() {
        NormalLength(a.d[..a.top], b.d[..b.top]);
      }
      if b.Magnitude() <= a.Magnitude() {
        NormalLength(b.d[..b.top], a.d[..a.top]);
      }
      return r;
    }
    r := CompareWords(a.d, 0, b.d, a.top);
    assert a.d[0..0 + a.top] == a.d[..a.top];
  }

  /** BN_cmp of two non-null numbers: right unless the signs differ on two zeros, for which it answers by the sign
      flags. */
  method Cmp(a: Big, b: Big) returns (r: int)
    requires a.Valid() && b.Valid()
    ensures r == (if a.Value() < b.Value() then -1 else if a.Value() > b.Value() then 1 else 0) <==>
            !(a.neg != b.neg && a.top == 0 && b.top == 0)
    ensures a.neg != b.neg && a.top == 0 && b.top == 0 ==> r == if a.neg then -1 else 1
  {
    hide Val;
    PositiveTop(a);
    PositiveTop(b);
    if a.neg != b.neg {
      return if a.neg then -1 else 1;
    }
    var u := UCmp(a, b);
    if u == 0 {
      return 0;
    }
    r := if (u > 0) != a.neg then 1 else -1;
  }

  lemma PositiveTop(a: Big)
    requires a.Valid()
    ensures a.top > 0 <==> a.Magnitude() > 0
  {
    hide Val;
    var s := a.d[..a.top];
    if a.top > 0 {
      ValTop(s);
      PowPositive(BASE, a.top - 1);
    } else {
      NoWords();
    }
  }

  /** What the operations need of their objects. */
  ghost predicate Ready(r: Big, a: Big, b: Big)
    reads r, a, b, a.d, b.d
  {
    a.Valid() && b.Valid() && r.top <= r.d.Length && Apart(r, a) && Apart(r, b) && Apart(a, b)
  }

  /** BN_uadd; it fails exactly when the result would not have room. */
  method UAdd(r: Big, a: Big, b: Big) returns (ok: bool)
    requires Ready(r, a, b)
    modifies r, r.d
    ensures ok <==> old(Room(r.d.Length, Max(a.top, b.top) + 1))
    ensures ok ==> r.Valid() && !r.neg && r.Magnitude() == old(a.Magnitude()) + old(b.Magnitude())
    ensures !ok ==> unchanged(r) && r.d[..] == old(r.d[..])
    ensures r.d == old(r.d) || fresh(r.d)
  {
    hide Val;
    var x, y := a, b;
    if a.top < b.top {
      x, y := b, a;
    }
    ghost var xs, ys := x.d[..x.top], y.d[..y.top];
    var max, min := x.top, y.top;
    ok := r.Expand(max + 1);
    if !ok {
      return;
    }
    assert x.d[..max] == xs && y.d[..min] == ys;
    r.top := max;
    r.top := AddArrays(r.d, x.d, max, y.d, min);
    r.neg := false;
    SumNormal(xs, ys, r.d[..r.top], max);
  }

  /** The sum is normal without any correction of its top. */
  lemma SumNormal(xs: seq<Word>, ys: seq<Word>, s: seq<Word>, max: nat)
    requires Normal(xs) && |xs| == max && max <= |s| <= max + 1 && Val(s) == Val(xs) + Val(ys)
    requires |s| > max ==> s[max] == 1
    ensures Normal(s)
  {
    hide Val, Pow;
    if |s| == max && max > 0 {
      ValTop(xs);
      ValTop(s);
      ValBound(s[..max - 1]);
      if s[max - 1] == 0 {
        assert false;
      }
    }
  }

  /** A magnitude that is not smaller has no fewer words. */
  lemma LongerTop(a: Big, b: Big)
    requires a.Valid() && b.Valid()
    ensures a.Magnitude() <= b.Magnitude() ==> a.top <= b.top
  {
    hide Val;
    if a.Magnitude() <= b.Magnitude() {
      NormalLength(a.d[..a.top], b.d[..b.top]);
    }
  }

  /** BN_usub; it fails exactly when the first operand is the smaller one or the result would not have room. */
  method USub(r: Big, a: Big, b: Big) returns (ok: bool)
    requires Ready(r, a, b)
    modifies r, r.d
    ensures ok <==> old(a.Magnitude()) >= old(b.Magnitude()) && old(Room(r.d.Length, a.top))
    ensures ok ==> r.Valid() && !r.neg && r.Magnitude() == old(a.Magnitude()) - old(b.Magnitude())
    ensures !old(Room(r.d.Length, a.top)) ==> unchanged(r) && r.d[..] == old(r.d[..])
    ensures r.d == old(r.d) || fresh(r.d)
  {
    hide Val;
    ghost var xs, ys := a.d[..a.top], b.d[..b.top];
    LongerTop(b, a);
    var max, min := a.top, b.top;
    if max < min {
      return false;
    }
    ok := r.Expand(max);
    if !ok {
      return;
    }
    assert a.d[..max] == xs && b.d[..min] == ys;
    assert max > 0 ==> a.d[max - 1] == xs[max - 1];
    ok := SubtractArrays(r.d, a.d, max, b.d, min);
    if !ok {
      return;
    }
    r.top := max;
    r.neg := false;
    r.CorrectTop();
  }

  /** The words that a sum of two signed numbers may need: one more only when the magnitudes add. */
  function Needed(a: Big, b: Big, magnitudesAdd: bool): nat
    reads a, b
  {
    Max(a.top, b.top) + (if magnitudesAdd then 1 else 0)
  }

  /** BN_add: exact whichever of the three objects are the same, and refused exactly when there is no room. */
  method Add(r: Big, a: Big, b: Big) returns (ok: bool)
    requires Ready(r, a, b)
    modifies r, r.d
    ensures ok <==> old(Room(r.d.Length, Needed(a, b, a.neg == b.neg)))
    ensures ok ==> r.Valid() && r.Value() == old(a.Value()) + old(b.Value())
    ensures !ok ==> r.top == old(r.top) && r.d == old(r.d) && r.d[..] == old(r.d[..])
    ensures r.d == old(r.d) || fresh(r.d)
  {
    hide Val;
    var aNeg := a.neg;
    if aNeg != b.neg {
      var x, y := a, b;
      if aNeg {
        x, y := b, a;
      }
      ok := Difference(r, x, y);
      return;
    }
    ok := UAdd(r, a, b);
    r.neg := aNeg;
  }

  /** Both functions end with x - y when the signs do not matter any more. */
  method Difference(r: Big, x: Big, y: Big) returns (ok: bool)
    requires Ready(r, x, y)
    modifies r, r.d
    ensures ok <==> old(Room(r.d.Length, Max(x.top, y.top)))
    ensures ok ==> r.Valid() && r.Value() == old(x.Magnitude()) - old(y.Magnitude())
    ensures !ok ==> unchanged(r) && r.d[..] == old(r.d[..])
    ensures r.d == old(r.d) || fresh(r.d)
  {
    hide Val;
    LongerTop(x, y);
    LongerTop(y, x);
    var c := UCmp(x, y);
    if c < 0 {
      ok := USub(r, y, x);
      if ok {
        r.neg := true;
      }
    } else {
      ok := USub(r, x, y);
      if ok {
        r.neg := false;
      }
    }
  }

  /** BN_sub: exact whichever of the three objects are the same, and refused exactly when there is no room. */
  method Sub(r: Big, a: Big, b: Big) returns (ok: bool)
    requires Ready(r, a, b)
    modifies r, r.d
    ensures ok <==> old(Room(r.d.Length, Needed(a, b, a.neg != b.neg)))
    ensures ok ==> r.Valid() && r.Value() == old(a.Value()) - old(b.Value())
    ensures !ok ==> unchanged(r) && r.d[..] == old(r.d[..])
    ensures r.d == old(r.d) || fresh(r.d)
  {
    hide Val;
    var x, y, add, neg := a, b, false, false;
    if a.neg {
      if b.neg {
        x, y := b, a;
      } else {
        add, neg := true, true;
      }
    } else if b.neg {
      add := true;
    }
    if add {
      ok := UAdd(r, x, y);
      if ok {
        r.neg := neg;
      }
      return;
    }
    ghost var xs, ys := x.d[..x.top], y.d[..y.top];
    ok := r.Expand(Max(x.top, y.top));
    if !ok {
      return;
    }
    assert x.d[..x.top] == xs && y.d[..y.top] == ys;
    ok := Difference(r, x, y);
  }
}
