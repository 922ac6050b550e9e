/** The window scans shared by the sliding-window exponentiations (crypto/bn/exponentiation.c). */
module Windows {
  import opened Arith
  import opened Congruence

  const TABLE_SIZE: nat := 32

  /** BN_window_bits_for_exponent_size. */
  function WindowBits(b: nat): (w: nat)
    ensures 1 <= w <= 6
  {
    if b > 671 then 6 else if b > 239 then 5 else if b > 79 then 4 else if b > 23 then 3 else 1
  }

  /** The table of odd powers always fits. */
  lemma TableFits(w: nat)
    requires 1 <= w <= 6
    ensures 1 <= Pow(2, w - 1) <= TABLE_SIZE
  {
    assert Pow(2, 5) == 32 by {
      assert Pow(2, 2) == 4 && Pow(2, 3) == 8 && Pow(2, 4) == 16;
    }
    PowMonotone(2, 0, w - 1);
    PowMonotone(2, w - 1, 5);
  }

  /** Appending one exponent bit to a shifted prefix. */
  lemma ExtendZeros(p: nat, top: nat, i: nat, wend: nat)
    requires wend < i <= top
    requires Sh(p, top - (i - 1)) == Sh(p, top - wend) * Pow(2, i - 1 - wend)
    ensures Sh(p, top - i) == Sh(p, top - wend) * Pow(2, i - wend) + BitValue(p, top - i)
  {
    ShiftDown(p, top - i);
    assert Pow(2, i - wend) == 2 * Pow(2, i - 1 - wend);
  }

  /** Value and length of an extended window. */
  lemma ExtendWindow(e: nat, i: nat, wend: nat, high: nat, w: nat)
    requires wend < i && e == high * Pow(2, wend + 1) + w && w < Pow(2, wend + 1)
    ensures e * Pow(2, i - wend) + 1 == high * Pow(2, i + 1) + (w * Pow(2, i - wend) + 1)
    ensures w * Pow(2, i - wend) + 1 < Pow(2, i + 1)
    ensures (w * Pow(2, i - wend) + 1) % 2 == 1
  {
    PowAdd(2, wend + 1, i - wend);
    PowPositive(2, i - wend - 1);
    ExtendArith(e, high, w, Pow(2, wend + 1), Pow(2, i - wend - 1));
  }

  lemma ExtendArith(e: int, high: int, w: int, P: int, h: int)
    requires e == high * P + w && 0 <= w < P && h > 0
    ensures e * (2 * h) + 1 == high * (P * (2 * h)) + (w * (2 * h) + 1)
    ensures w * (2 * h) + 1 < P * (2 * h)
    ensures (w * (2 * h) + 1) % 2 == 1
  {
    assert (high * P + w) * (2 * h) == high * (P * (2 * h)) + w * (2 * h);
    MulMonotone(w + 1, P, 2 * h);
    assert w * (2 * h) == 2 * (w * h);
  }

  /** Starting on a set bit, the scan finds the longest window of at most `window` bits that ends in a set
      bit; wvalue is its value and is odd. */
  method ScanWindow(p: nat, wstart: nat, window: nat) returns (wvalue: nat, wend: nat)
    requires Bit(p, wstart) && window > 0
    ensures wend < window && wend <= wstart
    ensures wvalue % 2 == 1 && wvalue < Pow(2, wend + 1)
    ensures Sh(p, wstart - wend) == Sh(p, wstart + 1) * Pow(2, wend + 1) + wvalue
    ensures forall j :: 0 <= j < wstart - wend && j > wstart - window ==> !Bit(p, j)
  {
    wvalue, wend := 1, 0;
    var i := 1;
    ShiftDown(p, wstart);
    assert Pow(2, 1) == 2 && Pow(2, 0) == 1;
    hide Pow, Sh;
    while i < window
      invariant 1 <= i <= window && wend < i && wend <= wstart && i <= wstart + 1
      invariant wvalue % 2 == 1 && wvalue < Pow(2, wend + 1)
      invariant Sh(p, wstart - wend) == Sh(p, wstart + 1) * Pow(2, wend + 1) + wvalue
      invariant Sh(p, wstart - (i - 1)) == Sh(p, wstart - wend) * Pow(2, i - 1 - wend)
      invariant forall j :: 0 <= j < wstart - wend && j > wstart - i ==> !Bit(p, j)
    {
      if wstart - i < 0 {
        break;
      }
      ExtendZeros(p, wstart, i, wend);
      if Bit(p, wstart - i) {
        ExtendWindow(Sh(p, wstart - wend), i, wend, Sh(p, wstart + 1), wvalue);
        wvalue := wvalue * Pow(2, i - wend) + 1;
        wend := i;
      }
      i := i + 1;
    }
  }

  /** An odd window value indexes the table of odd powers. */
  lemma WindowIndex(wvalue: nat, wend: nat, window: nat)
    requires wvalue % 2 == 1 && wvalue < Pow(2, wend + 1) && wend < window <= 6
    ensures wvalue / 2 < Pow(2, window - 1) <= TABLE_SIZE
    ensures wvalue == 2 * (wvalue / 2) + 1
  {
    TableFits(window);
    PowMonotone(2, wend + 1, window);
    assert Pow(2, window) == 2 * Pow(2, window - 1);
  }
}
