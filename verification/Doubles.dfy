/** IEEE 754 binary64 values, kept as their 64 bits. */
module Doubles {
  import opened Bytes
  import opened Text
  import opened Wrappers

  const TWO_52 := 0x10_0000_0000_0000
  const NEGATIVE_ZERO: uint64 := 0x8000_0000_0000_0000
  const POSITIVE_INFINITY: uint64 := 0x7FF0_0000_0000_0000
  const NEGATIVE_INFINITY: uint64 := 0xFFF0_0000_0000_0000

  /** `math.NaN()`. */
  const CANONICAL_NAN: uint64 := 0x7FF8_0000_0000_0001

  function Negative(bits: uint64): bool
  {
    bits >= 0x8000_0000_0000_0000
  }

  function Exponent(bits: uint64): (e: nat)
    ensures e < 2048
  {
    bits / TWO_52 % 2048
  }

  function Mantissa(bits: uint64): (m: nat)
    ensures m < TWO_52
  {
    bits % TWO_52
  }

  predicate IsNaN(bits: uint64)
  {
    Exponent(bits) == 2047 && Mantissa(bits) != 0
  }

  predicate IsInf(bits: uint64)
  {
    Exponent(bits) == 2047 && Mantissa(bits) == 0
  }

  predicate IsFinite(bits: uint64)
  {
    Exponent(bits) != 2047
  }

  lemma Infinities(bits: uint64)
    ensures IsInf(bits) <==> bits == POSITIVE_INFINITY || bits == NEGATIVE_INFINITY
  {
    assert bits == bits / TWO_52 * TWO_52 + bits % TWO_52;
    assert bits / TWO_52 < 4096;
  }

  lemma CanonicalNaN()
    ensures IsNaN(CANONICAL_NAN)
  {
  }

  /** `n` times 2^k. */
  function Shifted(n: nat, k: nat): (r: nat)
    ensures r >= n
    decreases k
  {
    if k == 0 then n else 2 * Shifted(n, k - 1)
  }

  /** The value of a finite double times 2^1074: an integer, so comparisons are exact. */
  function Scaled(bits: uint64): int
  {
    if Negative(bits) then -(Magnitude(bits) as int) else Magnitude(bits)
  }

  function Magnitude(bits: uint64): nat
  {
    var e, m := Exponent(bits), Mantissa(bits);
    if e == 0 then m else Shifted(TWO_52 + m, e - 1)
  }

  /** The scale itself: 2^1074. */
  function Unit(): (p: nat)
    ensures p >= 1
  {
    Shifted(1, 1074)
  }

  /** The integer part of a finite double, as in Go's conversion to an integer type. */
  function Truncated(bits: uint64): int
  {
    var s := Scaled(bits);
    if s >= 0 then s / Unit() else -((-s) / Unit())
  }

  /**
   `strconv.FormatFloat` and `strconv.ParseFloat` as `encoding/json` calls them. Their text
   is not modelled: every codec takes them as a parameter and relies on `Exact` alone.
   */
  datatype FloatText = FloatText(format: uint64 -> bytes, parse: bytes -> Option<uint64>) {
    ghost predicate Exact() {
      && (forall d: uint64 :: IsFinite(d) ==> parse(format(d)) == Some(d))
      && (forall i: int32 ::
            parse(Decimal(i)).Some? && IsFinite(parse(Decimal(i)).value) && Truncated(parse(Decimal(i)).value) == i)
    }
  }
}
