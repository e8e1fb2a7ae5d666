/** Byte strings and the little-endian integers of BSON and the wire protocol. */
module Bytes {

  newtype byte = b: int | 0 <= b < 256

  /** A Go string or byte slice. */
  type bytes = seq<byte>

  type int32 = x: int | -0x8000_0000 <= x < 0x8000_0000
  type int64 = x: int | -0x8000_0000_0000_0000 <= x < 0x8000_0000_0000_0000
  type uint32 = x: int | 0 <= x < 0x1_0000_0000
  type uint64 = x: int | 0 <= x < 0x1_0000_0000_0000_0000

  lemma Assoc(a: bytes, b: bytes, c: bytes)
    ensures a + b + c == a + (b + c)
  {
  }

  function Pow256(k: nat): (p: nat)
    ensures p >= 1
  {
    if k == 0 then 1 else 256 * Pow256(k - 1)
  }

  /** The `k` low-order bytes of `n`, least significant first. */
  function PutUint(n: nat, k: nat): (s: bytes)
    ensures |s| == k
  {
    if k == 0 then [] else [(n % 256) as byte] + PutUint(n / 256, k - 1)
  }

  function GetUint(s: bytes): (n: nat)
  {
    if s == [] then 0 else s[0] as int + 256 * GetUint(s[1..])
  }

  lemma {:induction false} GetPutUint(n: nat, k: nat)
    requires n < Pow256(k)
    ensures GetUint(PutUint(n, k)) == n
  {
    if k == 0 {
    } else {
      assert PutUint(n, k)[1..] == PutUint(n / 256, k - 1);
      GetPutUint(n / 256, k - 1);
    }
  }

  lemma {:induction false} PutGetUint(s: bytes)
    ensures GetUint(s) < Pow256(|s|)
    ensures PutUint(GetUint(s), |s|) == s
  {
    if s == [] {
    } else {
      PutGetUint(s[1..]);
      assert GetUint(s) % 256 == s[0] as int && GetUint(s) / 256 == GetUint(s[1..]);
      assert s == [s[0]] + s[1..];
    }
  }

  lemma PowersOf256()
    ensures Pow256(4) == 0x1_0000_0000
    ensures Pow256(8) == 0x1_0000_0000_0000_0000
  {
    assert Pow256(2) == 0x1_0000;
    assert Pow256(4) == 256 * (256 * Pow256(2));
    assert Pow256(6) == 256 * (256 * Pow256(4));
    assert Pow256(8) == 256 * (256 * Pow256(6));
  }

  lemma Multiple(d: nat, x: int)
    requires d >= 1
    ensures x >= 1 ==> d * x >= d
    ensures x <= -1 ==> d * x <= 0 - d
  {
  }

  lemma QuotientIs(n: int, d: nat, q: int)
    requires d >= 1 && d * q <= n < d * q + d
    ensures n / d == q
  {
    var k := n / d;
    assert d * (k - q) == d * k - d * q;
    Multiple(d, k - q);
  }

  /** The Go conversion `int32(n)` of a wider integer: two's complement truncation. */
  function ToInt32(n: int): int32
  {
    var u := n % 0x1_0000_0000;
    if u < 0x8000_0000 then u else u - 0x1_0000_0000
  }

  function ToInt64(n: int): int64
  {
    var u := n % 0x1_0000_0000_0000_0000;
    if u < 0x8000_0000_0000_0000 then u else u - 0x1_0000_0000_0000_0000
  }

  /** Truncation keeps the value modulo 2^32 or 2^64, and is the identity in range. */
  lemma Truncation(n: int)
    ensures ToInt32(n) % 0x1_0000_0000 == n % 0x1_0000_0000
    ensures ToInt64(n) % 0x1_0000_0000_0000_0000 == n % 0x1_0000_0000_0000_0000
    ensures -0x8000_0000 <= n < 0x8000_0000 ==> ToInt32(n) == n
    ensures -0x8000_0000_0000_0000 <= n < 0x8000_0000_0000_0000 ==> ToInt64(n) == n
  {
  }

  /** `binary.Write` of `int32(n)` or `uint32(n)`. */
  function PutInt32(n: int): (s: bytes)
    ensures |s| == 4
  {
    PutUint(n % 0x1_0000_0000, 4)
  }

  /** `binary.Write` of `int64(n)` or `uint64(n)`. */
  function PutInt64(n: int): (s: bytes)
    ensures |s| == 8
  {
    PutUint(n % 0x1_0000_0000_0000_0000, 8)
  }

  function GetInt32(s: bytes): int32
    requires |s| == 4
  {
    ToInt32(GetUint(s))
  }

  function GetInt64(s: bytes): int64
    requires |s| == 8
  {
    ToInt64(GetUint(s))
  }

  function GetUint32(s: bytes): uint32
    requires |s| == 4
  {
    PutGetUint(s);
    PowersOf256();
    GetUint(s)
  }

  function GetUint64(s: bytes): uint64
    requires |s| == 8
  {
    PutGetUint(s);
    PowersOf256();
    GetUint(s)
  }

  lemma GetPut32(n: int)
    ensures GetInt32(PutInt32(n)) == ToInt32(n)
    ensures GetUint32(PutInt32(n)) == n % 0x1_0000_0000
  {
    PowersOf256();
    GetPutUint(n % 0x1_0000_0000, 4);
  }

  lemma GetPut64(n: int)
    ensures GetInt64(PutInt64(n)) == ToInt64(n)
    ensures GetUint64(PutInt64(n)) == n % 0x1_0000_0000_0000_0000
  {
    PowersOf256();
    GetPutUint(n % 0x1_0000_0000_0000_0000, 8);
  }

  lemma PutGet32(s: bytes)
    requires |s| == 4
    ensures PutInt32(GetInt32(s)) == s
    ensures PutInt32(GetUint32(s)) == s
  {
    PutGetUint(s);
    var n := GetUint32(s);
    Truncation(n);
    assert GetInt32(s) % 0x1_0000_0000 == n;
    assert n % 0x1_0000_0000 == n;
  }

  lemma PutGet64(s: bytes)
    requires |s| == 8
    ensures PutInt64(GetInt64(s)) == s
    ensures PutInt64(GetUint64(s)) == s
  {
    PutGetUint(s);
    var n := GetUint64(s);
    Truncation(n);
    assert GetInt64(s) % 0x1_0000_0000_0000_0000 == n;
    assert n % 0x1_0000_0000_0000_0000 == n;
  }
}
