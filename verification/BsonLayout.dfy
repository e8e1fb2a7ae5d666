/**
 The bytes themselves: which numbers stand for the types, in which order the bytes of an integer
 are written, and where the parts of an element and of a document lie, as the BSON specification
 gives them.
 */
module BsonLayout {
  import opened Bytes
  import opened Values
  import opened Wrappers
  import opened Bson
  import BsonCanonical
  import Text

  // ---------------------------------------------------------------- integers

  /** Byte `i` counts 256^i: the least significant comes first. */
  lemma {:induction false} PutUintAt(n: nat, k: nat, i: nat)
    requires i < k
    ensures PutUint(n, k)[i] as int == n / Pow256(i) % 256
    decreases k
  {
    if i == 0 {
    } else {
      PutUintAt(n / 256, k - 1, i - 1);
      DivTwice(n, Pow256(i - 1));
    }
  }

  lemma DivTwice(n: nat, p: nat)
    requires p >= 1
    ensures n / 256 / p == n / (256 * p)
  {
    var q := n / 256 / p;
    assert 256 * (p * q) == 256 * p * q;
    assert 256 * p * q <= n < 256 * p * q + 256 * p;
    QuotientIs(n, 256 * p, q);
  }

  lemma {:induction false} PowersMultiply(i: nat, j: nat)
    ensures Pow256(i + j) == Pow256(i) * Pow256(j)
    decreases i
  {
    if i == 0 {
    } else {
      PowersMultiply(i - 1, j);
    }
  }

  /** Wrapping at a higher power of 256 leaves the lower bytes alone. */
  lemma WrapKeepsByte(n: int, p: nat, m: nat)
    requires p >= 1 && m >= 1
    ensures n % (p * (256 * m)) / p % 256 == n / p % 256
  {
    var all := p * (256 * m);
    var u, q := n % all, n / all;
    var t := u / p;
    assert n == all * q + u;
    assert all * q == p * (256 * (m * q));
    assert p * (256 * (m * q)) + p * t == p * (256 * (m * q) + t);
    QuotientIs(n, p, 256 * (m * q) + t);
  }

  /** Byte `i` of an integer of `k` bytes, two's complement. */
  lemma ByteOfInt(n: int, k: nat, i: nat)
    requires i < k
    ensures PutUint(n % Pow256(k), k)[i] as int == n / Pow256(i) % 256
  {
    var p, m := Pow256(i), Pow256(k - i - 1);
    PutUintAt(n % Pow256(k), k, i);
    PowersMultiply(i, k - i);
    assert Pow256(k - i) == 256 * m;
    WrapKeepsByte(n, p, m);
  }

  /** The least significant byte comes first. */
  lemma LittleEndian(n: int)
    ensures forall i :: 0 <= i < 4 ==> PutInt32(n)[i] as int == n / Pow256(i) % 256
    ensures forall i :: 0 <= i < 8 ==> PutInt64(n)[i] as int == n / Pow256(i) % 256
  {
    PowersOf256();
    forall i | 0 <= i < 4
      ensures PutInt32(n)[i] as int == n / Pow256(i) % 256
    {
      ByteOfInt(n, 4, i);
    }
    forall i | 0 <= i < 8
      ensures PutInt64(n)[i] as int == n / Pow256(i) % 256
    {
      ByteOfInt(n, 8, i);
    }
  }

  // ---------------------------------------------------------------- elements

  /** Every type has the number of the BSON specification, and its value follows the key in this form. */
  lemma ElementLayout(key: bytes, v: Value)
    ensures var e, head := EncodeElement(key, v), key + [0];
            match v
            case Double(bits) => e == [0x01] + head + PutInt64(bits)
            case String(s) => e == [0x02] + head + (PutInt32(|s| + 1) + s + [0])
            case Document(fs) => e == [0x03] + head + EncodeDocument(fs)
            case Array(vs) => e == [0x04] + head + EncodeDocument(Indexed(vs, 0))
            case Binary(subtype, data) => e == [0x05] + head + (PutInt32(|data|) + [subtype] + data)
            case ObjectId(oid) => e == [0x07] + head + oid
            case Bool(b) => e == [0x08] + head + [if b then 1 else 0]
            case DateTime(ms) => e == [0x09] + head + PutInt64(ms)
            case Null => e == [0x0a] + head
            case Regex(p, o) => e == [0x0b] + head + ((p + [0]) + (o + [0]))
            case Int32(i) => e == [0x10] + head + PutInt32(i)
            case Timestamp(ts) => e == [0x11] + head + PutInt64(ts)
            case Int64(i) => e == [0x12] + head + PutInt64(i)
  {
    if v.Array? {
      IndexedElements(v.elems, 0);
    }
  }

  /** An array as the document it is written as: its keys are the indices. */
  function Indexed(vs: seq<Value>, i: nat): Fields
  {
    if vs == [] then [] else [Field(Text.Digits(i), vs[0])] + Indexed(vs[1..], i + 1)
  }

  lemma {:induction false} IndexedElements(vs: seq<Value>, i: nat)
    ensures EncodeElems(vs, i) == EncodeFields(Indexed(vs, i))
  {
    if vs == [] {
    } else {
      IndexedElements(vs[1..], i + 1);
      assert Indexed(vs, i)[1..] == Indexed(vs[1..], i + 1);
    }
  }

  // --------------------------------------------------------------- documents

  lemma FrameParts(elist: bytes)
    ensures var b := Frame(elist);
            |b| == |elist| + 5 && b[..4] == PutInt32(|b|) && b[4..|b| - 1] == elist && b[|b| - 1] == 0
  {
  }

  /** A length written and read: its value is the sum of its bytes by weight. */
  lemma LengthBytes(n: nat)
    requires n < 0x8000_0000
    ensures var s := PutInt32(n);
            s[0] as int + 0x100 * s[1] as int + 0x1_0000 * s[2] as int + 0x100_0000 * s[3] as int == n
  {
    GetPut32(n);
    assert n % 0x1_0000_0000 == n;
    FourBytes(PutInt32(n));
  }

  /** A document is its own length, little-endian, the elements one after the other, and a zero byte. */
  lemma DocumentLayout(fs: Fields)
    requires |EncodeDocument(fs)| < 0x8000_0000
    ensures var b := EncodeDocument(fs);
            && b[0] as int + 0x100 * b[1] as int + 0x1_0000 * b[2] as int + 0x100_0000 * b[3] as int == |b|
            && b[4..|b| - 1] == EncodeFields(fs)
            && b[|b| - 1] == 0
  {
    var b := EncodeDocument(fs);
    FrameParts(EncodeFields(fs));
    LengthBytes(|b|);
    assert b[0] == b[..4][0] && b[1] == b[..4][1] && b[2] == b[..4][2] && b[3] == b[..4][3];
  }

  lemma FourBytes(s: bytes)
    requires |s| == 4
    ensures GetUint(s) == s[0] as int + 0x100 * s[1] as int + 0x1_0000 * s[2] as int + 0x100_0000 * s[3] as int
  {
    assert GetUint(s[3..]) == s[3] as int;
    assert s[2..][1..] == s[3..] && s[1..][1..] == s[2..];
    assert GetUint(s[2..]) == s[2] as int + 256 * s[3] as int;
  }

  /** A document is read back exactly when it is valid, has no zero byte in a C string, and has at most 16 MiB. */
  lemma SizeLimit(fs: Fields, rest: bytes)
    ensures DecodeDocument(EncodeDocument(fs) + rest) == Success((fs, rest)) <==>
              WellFormed(Document(fs)) && NulFree(Document(fs)) && |EncodeDocument(fs)| <= 16777216
  {
    BsonCanonical.RoundTripExactly(fs, rest);
  }
}
