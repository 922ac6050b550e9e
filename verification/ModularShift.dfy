/** BN_mod_lshift_quick: shifting modulo m by as many bits at a time as fit (crypto/bn/div.c). */
module ModularShift {
  import opened Arith
  import opened Congruence
  import opened Limbs
  import opened BigNums

  /** Aligning the lengths leaves less than twice the modulus, so one subtraction reduces again. */
  lemma OneSubtraction(r: nat, m: nat, k: nat)
    requires r < m && k <= (if NumBits(m) > NumBits(r) then NumBits(m) - NumBits(r) else 1)
    ensures NumBits(r) <= NumBits(m) && r * Pow(2, k) < 2 * m
  {
    hide Pow, NumBits;
    NumBitsBounds(r);
    NumBitsZero(r);
    NumBitsBounds(m);
    TwoPower(NumBits(m) - 1);
    if NumBits(r) > NumBits(m) {
      PowMonotone(2, NumBits(m), NumBits(r) - 1);
      assert false;
    }
    if k + NumBits(r) <= NumBits(m) {
      PowAdd(2, NumBits(r), k);
      PowMonotone(2, NumBits(r) + k, NumBits(m));
      PowPositive(2, k);
      MulMonotone(r + 1, Pow(2, NumBits(r)), Pow(2, k));
      assert (r + 1) * Pow(2, k) == r * Pow(2, k) + Pow(2, k);
    } else {
      TwoPower(0);
    }
  }

  lemma TwoPower(k: nat)
    ensures Pow(2, k + 1) == 2 * Pow(2, k) && Pow(2, 0) == 1
  {
  }

  /** v * 2^j has been reduced to r; k more bits. */
  lemma ShiftOn(v: int, j: nat, k: nat, r: int, m: nat)
    requires m > 0 && r == v * Pow(2, j) % m && 0 <= r * Pow(2, k) < 2 * m
    ensures var x := r * Pow(2, k); (if x >= m then x - m else x) == v * Pow(2, j + k) % m
  {
    hide Pow, Cong;
    PowAdd(2, j, k);
    CongMod(v * Pow(2, j), m);
    CongRefl(Pow(2, k), m);
    CongMul(v * Pow(2, j) % m, v * Pow(2, j), Pow(2, k), Pow(2, k), m);
    Regroup(v, Pow(2, j), Pow(2, k));
    var x := r * Pow(2, k);
    SameResidue(x, v * Pow(2, j + k), m);
  }

  lemma Regroup(a: int, x: int, y: int)
    ensures a * x * y == a * (x * y)
  {
  }

  lemma SameResidue(x: int, y: int, m: nat)
    requires m > 0 && Cong(x, y, m) && 0 <= x < 2 * m
    ensures y % m == if x >= m then x - m else x
  {
  }

  /** One pass: k more bits, then at most one subtraction. */
  method ShiftAndReduce(r: BigNum, m: BigNum, k: nat, ghost v: int, ghost j: nat)
    requires r != m
    requires k <= (if NumBits(Val(m.d)) > NumBits(Val(r.d)) then NumBits(Val(m.d)) - NumBits(Val(r.d)) else 1)
    requires 0 <= v < m.Value() ==> 0 <= r.Value() < m.Value() && r.Value() == v * Pow(2, j) % m.Value()
    modifies r
    ensures 0 <= v < m.Value() ==> 0 <= r.Value() < m.Value() && r.Value() == v * Pow(2, j + k) % m.Value()
  {
    hide Val, Pow, NumBits;
    ghost var mod := m.Value();
    if 0 <= v < mod {
      OneSubtraction(r.Value(), mod, k);
      ShiftOn(v, j, k, r.Value(), mod);
    }
    r.Set(r.Value() * Pow(2, k));
    if r.Value() >= m.Value() {
      r.Set(r.Value() - m.Value());
    }
  }

  /** For a reduced operand the result is exact; an operand longer than the modulus is refused. */
  method ModLshiftQuick(r: BigNum, a: BigNum, n: nat, m: BigNum) returns (ok: bool)
    requires r != m && Normal(a.d) && Normal(m.d)
    modifies r
    ensures 0 <= old(a.Value()) < m.Value() ==> ok && r.Value() == old(a.Value()) * Pow(2, n) % m.Value()
    ensures n > 0 && NumBits(old(Val(a.d))) > NumBits(Val(m.d)) ==> !ok
  {
    hide Val, Pow, NumBits, Normal;
    ghost var v, mod := a.Value(), m.Value();
    if r != a {
      r.Copy(a);
    }
    var left := n;
    Unshifted(v, mod);
    while left > 0
      invariant 0 <= left <= n && m.Value() == mod && Normal(m.d)
      invariant 0 <= v < mod ==> 0 <= r.Value() < mod && r.Value() == v * Pow(2, n - left) % mod
      invariant left == n ==> Val(r.d) == Val(old(a.d))
      invariant NumBits(Val(old(a.d))) > NumBits(Val(m.d)) ==> left == n
      decreases left
    {
      var maxShift := NumBits(Val(m.d)) - NumBits(Val(r.d));
      if maxShift < 0 {
        if 0 <= v < mod {
          OneSubtraction(Val(r.d), mod, 0);
        }
        return false;
      }
      if maxShift > left {
        maxShift := left;
      }
      var k := if maxShift > 0 then maxShift else 1;
      ShiftAndReduce(r, m, k, v, n - left);
      left := left - k;
    }
    ok := true;
  }

  lemma Unshifted(v: int, m: int)
    ensures Pow(2, 0) == 1
    ensures 0 <= v < m ==> v * Pow(2, 0) % m == v
  {
  }
}
