/**
 Table names: PostgreSQL holds a collection in a table whose name is derived from the
 collection's, shortened to fit and made unique by a 32-bit hash.
 */
module TableNames {
  import opened Bytes
  import opened Text

  // -------------------------------------------------------------- operations

  const OFFSET_BASIS: bv32 := 2166136261

  function FnvStep(h: bv32, b: byte): bv32
  {
    (h ^ (b as bv32)) * 16777619
  }

  /** `fnv.New32a`. */
  function Fnv(h: bv32, s: bytes): bv32
    decreases |s|
  {
    if s == [] then h else Fnv(FnvStep(h, s[0]), s[1..])
  }

  function ByteOf(h: bv32): byte
  {
    ((h & 0xFF) as int % 256) as byte
  }

  /** The hash, most significant byte first. */
  function HashBytes(h: bv32): bytes
  {
    [ByteOf(h >> 24), ByteOf(h >> 16), ByteOf(h >> 8), ByteOf(h)]
  }

  /** The hash as eight hexadecimal digits. */
  function HashText(name: bytes): (s: bytes)
    ensures |s| == 8
  {
    HexEncode(HashBytes(Fnv(OFFSET_BASIS, name)))
  }

  const UNDERSCORE: byte := 95

  const MAX_TABLE_NAME_LENGTH: nat := 63

  /** What is left for the collection's own name. */
  const NAME_SYMBOLS_LEFT: nat := MAX_TABLE_NAME_LENGTH - 8 - 1

  function Shortened(name: bytes): bytes
  {
    if |name| > NAME_SYMBOLS_LEFT then name[..NAME_SYMBOLS_LEFT] else name
  }

  /** `formatCollectionName`. */
  function TableName(name: bytes): (table: bytes)
    ensures |table| <= MAX_TABLE_NAME_LENGTH
  {
    Shortened(name) + [UNDERSCORE] + HashText(name)
  }

  /** "_ferretdb_" */
  const RESERVED_PREFIX: bytes := [95, 102, 101, 114, 114, 101, 116, 100, 98, 95]

  /** "_ferretdb_settings" */
  const SETTINGS_TABLE: bytes := RESERVED_PREFIX + [115, 101, 116, 116, 105, 110, 103, 115]

  // -------------------------------------------------------------------- laws

  predicate IsHexDigit(c: byte)
  {
    48 <= c <= 57 || 97 <= c <= 102
  }

  lemma {:induction false} HexEncodeDigits(b: bytes)
    ensures forall i :: 0 <= i < |HexEncode(b)| ==> IsHexDigit(HexEncode(b)[i])
  {
    if b == [] {
    } else {
      HexEncodeDigits(b[1..]);
    }
  }

  lemma HashTextDigits(name: bytes)
    ensures forall i :: 0 <= i < 8 ==> IsHexDigit(HashText(name)[i])
  {
    HexEncodeDigits(HashBytes(Fnv(OFFSET_BASIS, name)));
  }

  lemma TableNameEnds(name: bytes)
    ensures IsHexDigit(TableName(name)[|TableName(name)| - 1])
  {
    HashTextDigits(name);
    var t := TableName(name);
    assert t[|t| - 1] == HashText(name)[7];
  }

  /** No collection is ever kept in the settings table. */
  lemma TableNameIsNotReserved(name: bytes)
    ensures TableName(name) != SETTINGS_TABLE
  {
    TableNameEnds(name);
    assert SETTINGS_TABLE[|SETTINGS_TABLE| - 1] == 115;
  }

  /** Two collections share a table exactly when both the shortened names and the hashes agree. */
  lemma SameTableExactly(a: bytes, b: bytes)
    ensures TableName(a) == TableName(b) <==> Shortened(a) == Shortened(b) && HashText(a) == HashText(b)
  {
    var x, y := TableName(a), TableName(b);
    assert x[|x| - 8..] == HashText(a) && y[|y| - 8..] == HashText(b);
    assert x[..|x| - 9] == Shortened(a) && y[..|y| - 9] == Shortened(b);
  }

  /** Names of at most 54 bytes never share a table. */
  lemma ShortNamesAreDistinct(a: bytes, b: bytes)
    requires |a| <= NAME_SYMBOLS_LEFT && |b| <= NAME_SYMBOLS_LEFT && TableName(a) == TableName(b)
    ensures a == b
  {
    SameTableExactly(a, b);
  }

  /** The published FNV-1a values of the empty text and of "a". */
  lemma FnvOfA()
    ensures Fnv(OFFSET_BASIS, []) == 0x811C9DC5
    ensures Fnv(OFFSET_BASIS, [97]) == 0xE40C292C
  {
    assert [97 as byte][1..] == [];
    assert FnvStep(OFFSET_BASIS, 97) == 0xE40C292C;
  }

  lemma BytesOfA()
    ensures HashBytes(0xE40C292C) == [0xE4, 0x0C, 0x29, 0x2C]
  {
    var h: bv32 := 0xE40C292C;
    assert (h >> 24) & 0xFF == 0xE4 && (h >> 16) & 0xFF == 0x0C && (h >> 8) & 0xFF == 0x29 && h & 0xFF == 0x2C;
  }

  lemma {:induction false} HexConcat(s: bytes, t: bytes)
    ensures HexEncode(s + t) == HexEncode(s) + HexEncode(t)
  {
    if s == [] {
      assert s + t == t;
    } else {
      HexConcat(s[1..], t);
      assert (s + t)[1..] == s[1..] + t;
    }
  }

  lemma HexOfOne(a: byte)
    ensures HexEncode([a]) == [HexDigit(a as int / 16), HexDigit(a as int % 16)]
  {
    assert [a][1..] == [];
  }

  /** The hash as the table of the collection "a" shows it. */
  lemma TableOfA()
    ensures TableName([97]) == Ascii("a_e40c292c")
  {
    FnvOfA();
    BytesOfA();
    var b: bytes := [0xE4, 0x0C, 0x29, 0x2C];
    assert b == [0xE4] + ([0x0C] + ([0x29] + [0x2C]));
    HexConcat([0xE4], [0x0C] + ([0x29] + [0x2C]));
    HexConcat([0x0C], [0x29] + [0x2C]);
    HexConcat([0x29], [0x2C]);
    HexOfOne(0xE4);
    HexOfOne(0x0C);
    HexOfOne(0x29);
    HexOfOne(0x2C);
    assert HashText([97]) == [101, 52, 48, 99, 50, 57, 50, 99];
    assert Ascii("a_e40c292c") == [97, 95, 101, 52, 48, 99, 50, 57, 50, 99];
  }

  // -------------------------------------------------------------- validation

  predicate IsLetter(c: byte)
  {
    97 <= c <= 122 || 65 <= c <= 90 || c == UNDERSCORE
  }

  /** "^[a-zA-Z_][a-zA-Z0-9_]{0,119}$" and no reserved prefix. */
  predicate ValidCollectionName(name: bytes)
  {
    && 1 <= |name| <= 120
    && IsLetter(name[0])
    && (forall i :: 0 <= i < |name| ==> IsLetter(name[i]) || IsDigit(name[i]))
    && !(RESERVED_PREFIX <= name)
  }

  /** "^[a-z_][a-z0-9_]{0,62}$" and no reserved prefix. */
  predicate ValidDatabaseName(name: bytes)
  {
    && 1 <= |name| <= 63
    && !IsDigit(name[0])
    && (forall i :: 0 <= i < |name| ==> 97 <= name[i] <= 122 || name[i] == UNDERSCORE || IsDigit(name[i]))
    && !(RESERVED_PREFIX <= name)
  }

  predicate Letter(c: char)
  {
    'a' <= c <= 'z' || 'A' <= c <= 'Z' || c == '_'
  }

  predicate Digit(c: char)
  {
    '0' <= c <= '9'
  }

  /** The names of collections: at most 120 letters, digits and underscores, no digit first, not "_ferretdb_...". */
  lemma CollectionNamesExactly(name: string)
    requires forall i :: 0 <= i < |name| ==> name[i] as int < 128
    ensures ValidCollectionName(Ascii(name)) <==>
              && name != "" && |name| <= 120 && Letter(name[0])
              && (forall i :: 0 <= i < |name| ==> Letter(name[i]) || Digit(name[i]))
              && !("_ferretdb_" <= name)
  {
    var b := Ascii(name);
    PrefixOfAscii(name);
    if ValidCollectionName(b) {
      forall i | 0 <= i < |name|
        ensures Letter(name[i]) || Digit(name[i])
      {
        assert IsLetter(b[i]) || IsDigit(b[i]);
      }
    }
  }

  /** The names of databases: at most 63 small letters, digits and underscores, no digit first, not "_ferretdb_...". */
  lemma DatabaseNamesExactly(name: string)
    requires forall i :: 0 <= i < |name| ==> name[i] as int < 128
    ensures ValidDatabaseName(Ascii(name)) <==>
              && name != "" && |name| <= 63 && !Digit(name[0])
              && (forall i :: 0 <= i < |name| ==> 'a' <= name[i] <= 'z' || name[i] == '_' || Digit(name[i]))
              && !("_ferretdb_" <= name)
  {
    var b := Ascii(name);
    PrefixOfAscii(name);
    if ValidDatabaseName(b) {
      forall i | 0 <= i < |name|
        ensures 'a' <= name[i] <= 'z' || name[i] == '_' || Digit(name[i])
      {
        assert 97 <= b[i] <= 122 || b[i] == UNDERSCORE || IsDigit(b[i]);
      }
    }
  }

  lemma PrefixOfAscii(name: string)
    requires forall i :: 0 <= i < |name| ==> name[i] as int < 128
    ensures RESERVED_PREFIX <= Ascii(name) <==> "_ferretdb_" <= name
  {
    var p, b := "_ferretdb_", Ascii(name);
    assert RESERVED_PREFIX == Ascii(p);
    if |name| >= |p| {
      forall i | 0 <= i < |p|
        ensures b[i] == Ascii(p)[i] <==> name[i] == p[i]
      {
      }
      assert RESERVED_PREFIX <= b <==> forall i :: 0 <= i < |p| ==> b[i] == Ascii(p)[i];
    }
  }

  // --------------------------------------------------------------- collision

  /** More arguments than values: two arguments share a value. */
  lemma {:induction false} Pigeonhole(f: nat -> nat, n: nat) returns (i: nat, j: nat)
    requires n > 0 && forall k: nat :: k <= n ==> f(k) < n
    ensures i < j <= n && f(i) == f(j)
  {
    if n == 1 {
      assert f(0) < 1 && f(1) < 1;
      i, j := 0, 1;
    } else if k: nat :| k < n && f(k) == f(n) {
      i, j := k, n;
    } else {
      var g := (k: nat) => if f(k) == n - 1 then f(n) else f(k);
      assert f(n) < n;
      i, j := Pigeonhole(g, n - 1);
    }
  }

  /** The `bits` low bits of `k` as letters "a" and "b". */
  function Letters(k: nat, bits: nat): (s: bytes)
    ensures |s| == bits
    ensures forall i :: 0 <= i < bits ==> 97 <= s[i] <= 98
    decreases bits
  {
    if bits == 0 then [] else [if k % 2 == 0 then 97 else 98] + Letters(k / 2, bits - 1)
  }

  function Doubled(bits: nat): nat
  {
    if bits == 0 then 1 else 2 * Doubled(bits - 1)
  }

  lemma {:induction false} LettersDistinct(a: nat, b: nat, bits: nat)
    requires a < Doubled(bits) && b < Doubled(bits) && Letters(a, bits) == Letters(b, bits)
    ensures a == b
    decreases bits
  {
    if bits == 0 {
    } else {
      var x, y := Letters(a, bits), Letters(b, bits);
      assert x[0] == y[0] && x[1..] == y[1..];
      assert x[1..] == Letters(a / 2, bits - 1) && y[1..] == Letters(b / 2, bits - 1);
      LettersDistinct(a / 2, b / 2, bits - 1);
    }
  }

  /** A family of collection names that agree in the bytes a table name keeps. */
  function LongName(head: bytes, k: nat, bits: nat): bytes
  {
    head + Letters(k, bits)
  }

  lemma LongNameIsValid(head: bytes, k: nat, bits: nat)
    requires |head| == NAME_SYMBOLS_LEFT && bits <= 66
    requires forall i :: 0 <= i < |head| ==> 97 <= head[i] <= 98
    ensures ValidCollectionName(LongName(head, k, bits))
    ensures Shortened(LongName(head, k, bits)) == head
  {
    var s := LongName(head, k, bits);
    assert s[0] == head[0];
  }

  function HashNumber(name: bytes): (n: nat)
    ensures n < 0x1_0000_0000
  {
    Fnv(OFFSET_BASIS, name) as int
  }

  lemma SameNumber(a: bytes, b: bytes)
    requires HashNumber(a) == HashNumber(b)
    ensures HashText(a) == HashText(b)
  {
    assert HashNumber(a) as bv32 == Fnv(OFFSET_BASIS, a);
    assert HashNumber(b) as bv32 == Fnv(OFFSET_BASIS, b);
  }

  lemma FamilyCollides(head: bytes, bits: nat) returns (a: bytes, b: bytes)
    requires |head| == NAME_SYMBOLS_LEFT && bits <= 66 && 0x1_0000_0000 < Doubled(bits)
    requires forall i :: 0 <= i < |head| ==> 97 <= head[i] <= 98
    ensures ValidCollectionName(a) && ValidCollectionName(b)
    ensures a != b && TableName(a) == TableName(b)
  {
    var i, j := Pigeonhole((k: nat) => HashNumber(LongName(head, k, bits)), 0x1_0000_0000);
    a, b := LongName(head, i, bits), LongName(head, j, bits);
    LongNameIsValid(head, i, bits);
    LongNameIsValid(head, j, bits);
    SameNumber(a, b);
    SameTableExactly(a, b);
    assert a[NAME_SYMBOLS_LEFT..] == Letters(i, bits) && b[NAME_SYMBOLS_LEFT..] == Letters(j, bits);
    if a == b {
      LettersDistinct(i, j, bits);
    }
  }

  /** Longer names can share a table: the hash has only 32 bits. */
  lemma LongNamesCollide() returns (a: bytes, b: bytes)
    ensures ValidCollectionName(a) && ValidCollectionName(b)
    ensures a != b && TableName(a) == TableName(b)
  {
    assert Doubled(8) == 0x100;
    assert Doubled(16) == 0x1_0000;
    assert Doubled(24) == 0x100_0000;
    assert Doubled(33) == 0x2_0000_0000;
    a, b := FamilyCollides(Letters(0, NAME_SYMBOLS_LEFT), 33);
  }
}
