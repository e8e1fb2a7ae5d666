/** The number a double stands for: integers, signs, and the order of the bits. */
module DoubleLaws {
  import opened Bytes
  import opened Doubles

  // ------------------------------------------------------------------ powers

  lemma {:induction false} ShiftedMonotonic(a: nat, b: nat, k: nat)
    requires a < b
    ensures Shifted(a, k) < Shifted(b, k)
    decreases k
  {
    if k == 0 {
    } else {
      ShiftedMonotonic(a, b, k - 1);
    }
  }

  lemma {:induction false} ShiftedFurther(n: nat, j: nat, k: nat)
    requires j <= k
    ensures Shifted(n, j) <= Shifted(n, k)
    decreases k
  {
    if j == k {
    } else {
      ShiftedFurther(n, j, k - 1);
    }
  }

  lemma {:induction false} ShiftedDouble(n: nat, k: nat)
    ensures Shifted(2 * n, k) == Shifted(n, k + 1)
    decreases k
  {
    if k == 0 {
    } else {
      ShiftedDouble(n, k - 1);
    }
  }

  lemma {:induction false} ShiftedTwice(n: nat, j: nat, k: nat)
    ensures Shifted(Shifted(n, j), k) == Shifted(n, j + k)
    decreases k
  {
    if k == 0 {
    } else {
      ShiftedTwice(n, j, k - 1);
    }
  }

  lemma {:induction false} ShiftedTimes(n: nat, k: nat)
    ensures Shifted(n, k) == n * Shifted(1, k)
    decreases k
  {
    if k == 0 {
    } else {
      ShiftedTimes(n, k - 1);
    }
  }

  // ---------------------------------------------------------------- integers

  lemma Parts(e: nat, m: nat)
    requires e < 2048 && m < TWO_52
    ensures var bits := e * TWO_52 + m; bits < 0x8000_0000_0000_0000 && Exponent(bits) == e && Mantissa(bits) == m
  {
    var bits := e * TWO_52 + m;
    assert bits / TWO_52 == e && bits % TWO_52 == m;
  }

  /** The double of a positive integer, normalised so that its leading bit is bit 52: its value is that integer. */
  lemma IntegerDouble(n: nat, k: nat)
    requires k <= 52 && TWO_52 <= Shifted(n, k) < 2 * TWO_52
    ensures var bits := (1075 - k) * TWO_52 + (Shifted(n, k) - TWO_52);
            && bits < 0x8000_0000_0000_0000
            && Scaled(bits) == n * Unit()
            && Truncated(bits) == n
  {
    var e, m := 1075 - k, Shifted(n, k) - TWO_52;
    Parts(e, m);
    ScaledInteger(e * TWO_52 + m, n, k, k + e - 1);
    TruncatedInteger(e * TWO_52 + m, n, Unit());
  }

  lemma ScaledInteger(bits: uint64, n: nat, k: nat, top: nat)
    requires bits < 0x8000_0000_0000_0000 && top == 1074 && k <= 52
    requires Exponent(bits) == top + 1 - k && TWO_52 + Mantissa(bits) == Shifted(n, k)
    ensures Scaled(bits) == n * Unit()
  {
    ShiftedTwice(n, k, top - k);
    ShiftedTimes(n, top);
  }

  lemma TruncatedInteger(bits: uint64, n: nat, unit: nat)
    requires unit == Unit() && Scaled(bits) == n * unit
    ensures Truncated(bits) == n
  {
    var s := Scaled(bits);
    assert s == unit * n;
    QuotientIs(s, unit, n);
    assert Truncated(bits) == s / unit;
  }

  /** The top bit is the sign. */
  lemma SignBit(bits: uint64)
    requires bits < 0x8000_0000_0000_0000
    ensures var other := bits + 0x8000_0000_0000_0000;
            && Scaled(bits) >= 0
            && Scaled(other) == -Scaled(bits)
            && Truncated(other) == -Truncated(bits)
            && IsNaN(other) == IsNaN(bits)
  {
    var other := bits + 0x8000_0000_0000_0000;
    assert 0x8000_0000_0000_0000 == 2048 * TWO_52;
    assert other / TWO_52 == bits / TWO_52 + 2048;
    assert Exponent(other) == Exponent(bits) && Mantissa(other) == Mantissa(bits);
    TruncatedNegative(bits, other);
  }

  lemma TruncatedNegative(bits: uint64, other: uint64)
    requires Scaled(bits) >= 0 && Scaled(other) == -Scaled(bits)
    ensures Truncated(other) == -Truncated(bits)
  {
    QuotientIs(0, Unit(), 0);
  }

  // ------------------------------------------------------------------- order

  /** Positive doubles, infinity included, are ordered as their bits are. */
  lemma OrderOfBits(a: uint64, b: uint64)
    requires a < b <= 0x7FF0_0000_0000_0000
    ensures Scaled(a) < Scaled(b)
    ensures !IsNaN(a) && !IsNaN(b)
  {
    assert 0x7FF0_0000_0000_0000 == 2047 * TWO_52;
    var e, f := a / TWO_52, b / TWO_52;
    assert e <= f <= 2047 && Exponent(a) == e && Exponent(b) == f;
    if e == f {
      if e > 0 {
        ShiftedMonotonic(TWO_52 + Mantissa(a), TWO_52 + Mantissa(b), e - 1);
      }
    } else {
      SmallerExponent(e, Mantissa(a), f, Mantissa(b));
    }
  }

  lemma SmallerExponent(e: nat, m: nat, f: nat, n: nat)
    requires m < TWO_52 && e < f
    ensures (if e == 0 then m else Shifted(TWO_52 + m, e - 1)) < Shifted(TWO_52 + n, f - 1)
  {
    if n > 0 {
      ShiftedMonotonic(TWO_52, TWO_52 + n, f - 1);
    }
    if e == 0 {
      assert m < TWO_52 <= Shifted(TWO_52, f - 1);
    } else {
      ShiftedMonotonic(TWO_52 + m, 2 * TWO_52, e - 1);
      ShiftedDouble(TWO_52, e - 1);
      ShiftedFurther(TWO_52, e, f - 1);
    }
  }

  // -------------------------------------------------------------- infinities

  /** The scaled infinity lies beyond the scaled finite doubles, as the comparison needs. */
  lemma InfinityIsLargest(bits: uint64, inf: uint64)
    requires IsFinite(bits) && IsInf(inf)
    ensures if Negative(inf) then Scaled(inf) < Scaled(bits) else Scaled(bits) < Scaled(inf)
  {
    SmallerExponent(Exponent(bits), Mantissa(bits), 2047, 0);
  }
}
