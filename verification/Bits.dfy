/** The `$bits` queries.  A `uint64` is the set of its one bits. */
module Bits {
  import opened Bytes
  import opened Doubles
  import opened Values
  import opened Wrappers

  datatype BitsError =
    | BadValue | NotWholeNumber | NegativeNumber | NotBinaryMask | NotImplemented | ImplementationDefined

  type Word = set<nat>

  /** Bit `k` of an integer in two's complement, however wide. */
  predicate Bit(n: int, k: nat)
    decreases k
  {
    if k == 0 then n % 2 == 1 else Bit(n / 2, k - 1)
  }

  /** The conversion to `uint64`: negative integers are sign-extended. */
  function ToWord(n: int): Word
  {
    set k: nat | k < 64 && Bit(n, k)
  }

  function Complement(w: Word): Word
  {
    set k: nat | k < 64 && k !in w
  }

  // ------------------------------------------------------------------- masks

  function Position(p: nat): nat
  {
    if p < 63 then p else 63
  }

  function PositionMask(positions: seq<Value>): Result<Word, BitsError>
  {
    if positions == [] then Success({})
    else if !positions[0].Int32? || positions[0].i32 < 0 then Failure(BadValue)
    else
      var rest :- PositionMask(positions[1..]);
      Success({Position(positions[0].i32)} + rest)
  }

  /** Bit `k` of a word whose byte `i` is `b`. */
  predicate InByte(b: byte, i: nat, k: nat)
  {
    8 * i <= k < 8 * i + 8 && Bit(b as int, k - 8 * i)
  }

  /** One byte of a binary mask: the bytes after the eighth only tell that some higher bit is set. */
  function ByteMask(b: byte, i: nat): Word
  {
    if b == 0 then {}
    else if i < 8 then set k: nat | k < 64 && InByte(b, i, k)
    else {63}
  }

  function BinaryMask(data: bytes, i: nat): Word
    requires i <= |data|
    decreases |data| - i
  {
    if i == |data| then {} else ByteMask(data[i], i) + BinaryMask(data, i + 1)
  }

  function NumberMask(n: int): Result<Word, BitsError>
  {
    if n < 0 then Failure(NegativeNumber) else Success(ToWord(n))
  }

  predicate Whole(bits: uint64)
  {
    IsFinite(bits) && Truncated(bits) * Unit() == Scaled(bits)
  }

  /** `getBinaryMaskParam`. */
  function MaskOf(v: Value): Result<Word, BitsError>
  {
    match v
    case Array(positions) => PositionMask(positions)
    case Double(bits) =>
      if !Whole(bits) then Failure(NotWholeNumber)
      else if Truncated(bits) >= 0x1_0000_0000_0000_0000 then Failure(ImplementationDefined)
      else NumberMask(Truncated(bits))
    case Binary(_, data) => Success(BinaryMask(data, 0))
    case Int32(i) => NumberMask(i)
    case Int64(i) => NumberMask(i)
    case _ => Failure(NotBinaryMask)
  }

  // ----------------------------------------------------------------- queries

  /** The bits of a field, or what every `$bits` query answers without looking at the mask. */
  datatype Examined = Word(word: set<nat>) | Answer(result: Result<bool, BitsError>)

  function FieldWord(field: Value): Examined
  {
    match field
    case Double(bits) =>
      if !Whole(bits) || Truncated(bits) > 0x8000_0000_0000_0000 then Answer(Success(false))
      else if Truncated(bits) < 0 then Answer(Failure(ImplementationDefined))
      else Word(ToWord(Truncated(bits)))
    case Int32(i) => Word(ToWord(i))
    case Int64(i) => Word(ToWord(i))
    case Binary(_, _) => Answer(Failure(NotImplemented))
    case _ => Answer(Success(false))
  }

  function AllClear(field: Value, mask: Value): Result<bool, BitsError>
  {
    match FieldWord(field)
    case Answer(r) => r
    case Word(w) => var m :- MaskOf(mask); Success(Complement(w) * m == m)
  }

  function AllSet(field: Value, mask: Value): Result<bool, BitsError>
  {
    match FieldWord(field)
    case Answer(r) => r
    case Word(w) => var m :- MaskOf(mask); Success(w * m == m)
  }

  function AnyClear(field: Value, mask: Value): Result<bool, BitsError>
  {
    match FieldWord(field)
    case Answer(r) => r
    case Word(w) => var m :- MaskOf(mask); Success(Complement(w) * m != {})
  }

  function AnySet(field: Value, mask: Value): Result<bool, BitsError>
  {
    match FieldWord(field)
    case Answer(r) => r
    case Word(w) => var m :- MaskOf(mask); Success(w * m != {})
  }

  // -------------------------------------------------------------------- laws

  function Negate(r: Result<bool, BitsError>): Result<bool, BitsError>
  {
    match r
    case Success(b) => Success(!b)
    case Failure(e) => Failure(e)
  }

  lemma {:induction false} PositionMaskBounded(positions: seq<Value>)
    requires PositionMask(positions).Success?
    ensures forall k :: k in PositionMask(positions).value ==> k < 64
  {
    if positions == [] {
    } else {
      PositionMaskBounded(positions[1..]);
    }
  }

  lemma {:induction false} BinaryMaskBounded(data: bytes, i: nat)
    requires i <= |data|
    ensures forall k :: k in BinaryMask(data, i) ==> k < 64
    decreases |data| - i
  {
    if i == |data| {
    } else {
      BinaryMaskBounded(data, i + 1);
    }
  }

  lemma MaskBounded(v: Value)
    requires MaskOf(v).Success?
    ensures forall k :: k in MaskOf(v).value ==> k < 64
  {
    match v
    case Array(positions) => PositionMaskBounded(positions);
    case Binary(_, data) => BinaryMaskBounded(data, 0);
    case _ =>
  }

  /** On a field whose bits are looked at, each "all" is the negation of the other "any", errors included. */
  lemma AllNegatesAny(field: Value, mask: Value)
    requires FieldWord(field).Word?
    ensures AllSet(field, mask) == Negate(AnyClear(field, mask))
    ensures AllClear(field, mask) == Negate(AnySet(field, mask))
  {
    var w := FieldWord(field).word;
    if MaskOf(mask).Success? {
      var m := MaskOf(mask).value;
      MaskBounded(mask);
      if w * m == m {
        assert forall k :: k in m ==> k in w;
      } else {
        var k :| k in m && k !in w;
        assert k in Complement(w) * m;
      }
      if Complement(w) * m == m {
        assert forall k :: k in m ==> k !in w;
        assert w * m == {};
      } else {
        var k :| k in m && k !in Complement(w);
        assert k in w * m;
      }
    }
  }

  /** Both negations hold exactly on the fields whose bits are looked at, and on those that fail. */
  lemma NegatesExactly(field: Value, mask: Value)
    ensures AllSet(field, mask) == Negate(AnyClear(field, mask)) <==> FieldWord(field) != Answer(Success(false))
    ensures AllClear(field, mask) == Negate(AnySet(field, mask)) <==> FieldWord(field) != Answer(Success(false))
  {
    if FieldWord(field).Word? {
      AllNegatesAny(field, mask);
    }
  }

  lemma {:induction false} PositionsInMask(positions: seq<Value>, w: Word)
    requires PositionMask(positions).Success?
    ensures forall i :: 0 <= i < |positions| ==> positions[i].Int32? && positions[i].i32 >= 0
    ensures PositionMask(positions).value <= w <==>
              forall i :: 0 <= i < |positions| ==> Position(positions[i].i32) in w
  {
    if positions == [] {
    } else {
      PositionsInMask(positions[1..], w);
      assert forall i :: 1 <= i < |positions| ==> positions[i] == positions[1..][i - 1];
      var rest := PositionMask(positions[1..]).value;
      assert PositionMask(positions).value <= w <==> Position(positions[0].i32) in w && rest <= w;
    }
  }

  /** Bit min(p, 63) is set for every listed p. */
  ghost predicate PositionsSet(n: int, positions: seq<Value>)
    requires forall i :: 0 <= i < |positions| ==> positions[i].Int32? && positions[i].i32 >= 0
  {
    forall i :: 0 <= i < |positions| ==> Bit(n, if positions[i].i32 < 63 then positions[i].i32 else 63)
  }

  lemma {:induction false} PositionsInWord(n: int, positions: seq<Value>)
    requires PositionMask(positions).Success?
    ensures forall i :: 0 <= i < |positions| ==> positions[i].Int32? && positions[i].i32 >= 0
    ensures PositionMask(positions).value <= ToWord(n) <==> PositionsSet(n, positions)
  {
    PositionsInMask(positions, ToWord(n));
    forall i | 0 <= i < |positions|
      ensures Position(positions[i].i32) in ToWord(n) <==> Bit(n, Position(positions[i].i32))
    {
    }
  }

  /** With a list of positions, `$bitsAllSet` looks at bit min(p, 63) for every listed p. */
  lemma {:induction false} AllSetPositions(field: Value, n: int, positions: seq<Value>)
    requires FieldWord(field) == Word(ToWord(n)) && PositionMask(positions).Success?
    ensures forall i :: 0 <= i < |positions| ==> positions[i].Int32? && positions[i].i32 >= 0
    ensures AllSet(field, Array(positions)) == Success(PositionsSet(n, positions))
  {
    var w, m := ToWord(n), PositionMask(positions).value;
    PositionsInWord(n, positions);
    assert w * m == m <==> m <= w;
  }

  /** Every one bit of the mask is a one bit of `n`. */
  ghost predicate Covers(n: int, mask: int)
  {
    forall k: nat :: k < 64 && Bit(mask, k) ==> Bit(n, k)
  }

  lemma SubsetMeansCovers(n: int, mask: int)
    ensures ToWord(mask) <= ToWord(n) <==> Covers(n, mask)
  {
    if ToWord(mask) <= ToWord(n) {
      forall k: nat | k < 64 && Bit(mask, k)
        ensures Bit(n, k)
      {
        assert k in ToWord(mask);
      }
    }
  }

  /** With a number, it looks at the one bits of that number. */
  lemma AllSetNumber(field: Value, n: int, mask: Value, m: int)
    requires FieldWord(field) == Word(ToWord(n)) && MaskOf(mask) == Success(ToWord(m))
    ensures AllSet(field, mask) == Success(Covers(n, m))
  {
    assert ToWord(n) * ToWord(m) == ToWord(m) <==> ToWord(m) <= ToWord(n);
    SubsetMeansCovers(n, m);
  }

  /** A 32- or 64-bit integer. */
  predicate Reads(v: Value, n: int)
  {
    (v.Int32? && v.i32 == n) || (v.Int64? && v.i64 == n)
  }

  /** Integer fields are sign-extended, and integer masks are taken as they are unless negative. */
  lemma IntegerWords(v: Value, n: int)
    requires Reads(v, n)
    ensures FieldWord(v) == Word(ToWord(n)) && MaskOf(v) == NumberMask(n)
  {
  }

  /** Both for every 32- and 64-bit field, and for every accepted 32- or 64-bit mask. */
  lemma AllSetIntegers(field: Value, n: int, positions: seq<Value>, mask: Value, m: nat)
    requires Reads(field, n) && Reads(mask, m) && PositionMask(positions).Success?
    ensures forall i :: 0 <= i < |positions| ==> positions[i].Int32? && positions[i].i32 >= 0
    ensures AllSet(field, Array(positions)) == Success(PositionsSet(n, positions))
    ensures AllSet(field, mask) == Success(Covers(n, m))
  {
    IntegerWords(field, n);
    IntegerWords(mask, m);
    AllSetPositions(field, n, positions);
    AllSetNumber(field, n, mask, m);
  }

  function PowerOfTwo(k: nat): (p: nat)
    ensures p >= 1
  {
    if k == 0 then 1 else 2 * PowerOfTwo(k - 1)
  }

  /** Bit `k` counts 2^k. */
  lemma {:induction false} BitMeans(n: int, k: nat)
    ensures Bit(n, k) <==> n / PowerOfTwo(k) % 2 == 1
    decreases k
  {
    if k == 0 {
    } else {
      BitMeans(n / 2, k - 1);
      HalfTwice(n, PowerOfTwo(k - 1));
    }
  }

  lemma HalfTwice(n: int, p: nat)
    requires p >= 1
    ensures n / 2 / p == n / (2 * p)
  {
    var q := n / 2 / p;
    assert 2 * (p * q) == 2 * p * q;
    assert 2 * p * q <= n < 2 * p * q + 2 * p;
    QuotientIs(n, 2 * p, q);
  }

  /** `$bitsAnySet` asks for one bit of the mask, `$bitsAllClear` for none. */
  lemma AnySetMeans(field: Value, n: int, mask: Value, m: Word)
    requires Reads(field, n) && MaskOf(mask) == Success(m)
    ensures AnySet(field, mask) == Success(exists k: nat :: k in m && k < 64 && Bit(n, k))
    ensures AllClear(field, mask) == Success(forall k: nat :: k in m && k < 64 ==> !Bit(n, k))
  {
    IntegerWords(field, n);
    AllNegatesAny(field, mask);
    if k: nat :| k in m && k < 64 && Bit(n, k) {
      assert k in ToWord(n) * m;
    }
  }

  /** A double that is a whole number from 0 to 2^63 is looked at as that number; other kinds of fields do not match. */
  lemma OtherFields(field: Value, mask: Value)
    requires !field.Int32? && !field.Int64?
    ensures field.Double? && Whole(field.bits) && 0 <= Truncated(field.bits) <= 0x8000_0000_0000_0000 ==>
              FieldWord(field) == Word(ToWord(Truncated(field.bits)))
    ensures field.Double? && (!Whole(field.bits) || Truncated(field.bits) > 0x8000_0000_0000_0000) ==>
              && AllSet(field, mask) == AnySet(field, mask) == Success(false)
              && AllClear(field, mask) == AnyClear(field, mask) == Success(false)
    ensures !field.Double? && !field.Binary? ==>
              && AllSet(field, mask) == AnySet(field, mask) == Success(false)
              && AllClear(field, mask) == AnyClear(field, mask) == Success(false)
  {
  }

  /** Masks that are numbers: whole and not negative, or an error that says which it is not. */
  lemma NumberMasks(mask: Value, n: int)
    requires Reads(mask, n) || (mask.Double? && Whole(mask.bits) && Truncated(mask.bits) == n < 0x1_0000_0000_0000_0000)
    ensures MaskOf(mask) == if n < 0 then Failure(NegativeNumber) else Success(ToWord(n))
  {
  }

  lemma OtherMasks(mask: Value)
    ensures mask.Double? && !Whole(mask.bits) ==> MaskOf(mask) == Failure(NotWholeNumber)
    ensures !mask.Double? && !mask.Int32? && !mask.Int64? && !mask.Array? && !mask.Binary? ==>
              MaskOf(mask) == Failure(NotBinaryMask)
  {
  }

  // ------------------------------------------------------------ binary masks

  lemma {:induction false} ZeroHasNoBits(k: nat)
    ensures !Bit(0, k)
  {
    if k == 0 {
    } else {
      ZeroHasNoBits(k - 1);
    }
  }

  /** The bit of a byte string, least significant byte first. */
  predicate BitOf(data: bytes, k: nat)
  {
    k / 8 < |data| && Bit(data[k / 8] as int, k % 8)
  }

  /** Some byte from the ninth on is not zero. */
  predicate HigherByte(data: bytes, i: nat)
  {
    exists j :: 8 <= j < |data| && i <= j && data[j] != 0
  }

  lemma ByteMaskBits(b: byte, i: nat, k: nat)
    requires k < 64
    ensures k in ByteMask(b, i) <==> (i == k / 8 && Bit(b as int, k % 8)) || (k == 63 && i >= 8 && b != 0)
  {
    ZeroHasNoBits(k % 8);
    assert 8 * i <= k < 8 * i + 8 <==> i == k / 8;
  }

  lemma {:induction false} BinaryMaskFrom(data: bytes, i: nat, k: nat)
    requires i <= |data| && k < 64
    ensures k in BinaryMask(data, i) <==> (i <= k / 8 && BitOf(data, k)) || (k == 63 && HigherByte(data, i))
    decreases |data| - i
  {
    if i == |data| {
    } else {
      ByteMaskBits(data[i], i, k);
      BinaryMaskFrom(data, i + 1, k);
      assert HigherByte(data, i) <==> (i >= 8 && data[i] != 0) || HigherByte(data, i + 1);
    }
  }

  /** A binary mask holds the bits of its first eight bytes; any later byte that is not zero counts as bit 63. */
  lemma BinaryMaskExactly(data: bytes, k: nat)
    requires k < 64
    ensures k in BinaryMask(data, 0) <==> BitOf(data, k) || (k == 63 && HigherByte(data, 0))
  {
    BinaryMaskFrom(data, 0, k);
  }

  // ------------------------------------------------------------------- loops

  /** The loop over a list of positions. */
  method RunPositionMask(positions: seq<Value>) returns (r: Result<Word, BitsError>)
    ensures r == PositionMask(positions)
  {
    var mask: Word := {};
    assert positions[0..] == positions;
    assert PositionMask(positions).Success? ==> {} + PositionMask(positions).value == PositionMask(positions).value;
    for i := 0 to |positions|
      invariant PositionMask(positions) == Joined(mask, PositionMask(positions[i..]))
    {
      assert positions[i..][0] == positions[i] && positions[i..][1..] == positions[i + 1..];
      if !positions[i].Int32? || positions[i].i32 < 0 {
        return Failure(BadValue);
      }
      JoinedOne(mask, Position(positions[i].i32), PositionMask(positions[i + 1..]));
      mask := mask + {Position(positions[i].i32)};
    }
    return Success(mask);
  }

  function Joined(w: Word, r: Result<Word, BitsError>): Result<Word, BitsError>
  {
    match r
    case Success(m) => Success(w + m)
    case Failure(e) => Failure(e)
  }

  lemma JoinedOne(w: Word, k: nat, r: Result<Word, BitsError>)
    ensures Joined(w, Joined({k}, r)) == Joined(w + {k}, r)
  {
    if r.Success? {
      assert w + ({k} + r.value) == w + {k} + r.value;
    }
  }

  /** The loop over the bytes of a binary mask. */
  method RunBinaryMask(data: bytes) returns (mask: Word)
    ensures mask == BinaryMask(data, 0)
  {
    mask := {};
    for b := 0 to |data|
      invariant BinaryMask(data, 0) == mask + BinaryMask(data, b)
    {
      mask := mask + ByteMask(data[b], b);
    }
  }
}
