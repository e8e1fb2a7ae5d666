/** Valid UTF-8 is what encoding code points gives. */
module Utf8 {
  import opened Bytes
  import opened Text

  /** A Unicode scalar value: a code point that is no surrogate. */
  predicate ScalarValue(c: nat)
  {
    c < 0xD800 || 0xE000 <= c < 0x11_0000
  }

  /** Byte `b` with the low six bits of `c`. */
  function Trailing(c: nat): byte
  {
    (0x80 + c % 64) as byte
  }

  /** `utf8.EncodeRune`, section 3 of RFC 3629. */
  function EncodeRune(c: nat): (s: bytes)
    requires ScalarValue(c)
    ensures s != []
  {
    if c < 0x80 then [c as byte]
    else if c < 0x800 then [(0xC0 + c / 64) as byte, Trailing(c)]
    else if c < 0x1_0000 then [(0xE0 + c / 4096) as byte, Trailing(c / 64), Trailing(c)]
    else [(0xF0 + c / 262144) as byte, Trailing(c / 4096), Trailing(c / 64), Trailing(c)]
  }

  predicate ScalarValues(cs: seq<nat>)
  {
    forall i :: 0 <= i < |cs| ==> ScalarValue(cs[i])
  }

  function EncodeRunes(cs: seq<nat>): bytes
    requires ScalarValues(cs)
  {
    if cs == [] then [] else EncodeRune(cs[0]) + EncodeRunes(cs[1..])
  }

  /** The low six bits. */
  function Low(b: byte): nat
  {
    b as int % 64
  }

  lemma TwoBytes(a: byte, b: byte)
    requires 0xC2 <= a <= 0xDF && Continuation(b)
    ensures var c := (a as int - 0xC0) * 64 + Low(b); 0x80 <= c < 0x800 && EncodeRune(c) == [a, b]
  {
    var c := (a as int - 0xC0) * 64 + Low(b);
    assert c / 64 == a as int - 0xC0 && c % 64 == Low(b);
  }

  lemma SixBits(high: nat, low: nat)
    requires low < 64
    ensures (high * 64 + low) / 64 == high && (high * 64 + low) % 64 == low
  {
  }

  lemma ThreeBytes(a: byte, b: byte, d: byte)
    requires 0xE0 <= a <= 0xEF && Continuation(b) && Continuation(d)
    requires (a == 0xE0 ==> b >= 0xA0) && (a == 0xED ==> b <= 0x9F)
    ensures var c := ((a as int - 0xE0) * 64 + Low(b)) * 64 + Low(d);
            0x800 <= c < 0x1_0000 && ScalarValue(c) && EncodeRune(c) == [a, b, d]
  {
    var x := a as int - 0xE0;
    SixBits(x, Low(b));
    SixBits(x * 64 + Low(b), Low(d));
    SixBitsTwice((x * 64 + Low(b)) * 64 + Low(d));
  }

  lemma SixBitsTwice(c: nat)
    ensures c / 4096 == c / 64 / 64 && c / 262144 == c / 64 / 64 / 64
  {
  }

  lemma FourBytes(a: byte, b: byte, d: byte, e: byte)
    requires 0xF0 <= a <= 0xF4 && Continuation(b) && Continuation(d) && Continuation(e)
    requires (a == 0xF0 ==> b >= 0x90) && (a == 0xF4 ==> b <= 0x8F)
    ensures var c := (((a as int - 0xF0) * 64 + Low(b)) * 64 + Low(d)) * 64 + Low(e);
            0x1_0000 <= c < 0x11_0000 && EncodeRune(c) == [a, b, d, e]
  {
    var x := a as int - 0xF0;
    var y := x * 64 + Low(b);
    var z := y * 64 + Low(d);
    var c := z * 64 + Low(e);
    SixBits(x, Low(b));
    SixBits(y, Low(d));
    SixBits(z, Low(e));
    SixBitsTwice(c);
    assert 16 <= y < 272;
  }

  /** A well-formed sequence at the start is the encoding of a code point. */
  lemma FirstRune(s: bytes) returns (c: nat)
    requires RuneLen(s) > 0
    ensures ScalarValue(c) && EncodeRune(c) == s[..RuneLen(s)]
  {
    var n := RuneLen(s);
    if n == 1 {
      c := s[0] as int;
    } else if n == 2 {
      TwoBytes(s[0], s[1]);
      c := (s[0] as int - 0xC0) * 64 + Low(s[1]);
    } else if n == 3 {
      ThreeBytes(s[0], s[1], s[2]);
      c := ((s[0] as int - 0xE0) * 64 + Low(s[1])) * 64 + Low(s[2]);
    } else {
      FourBytes(s[0], s[1], s[2], s[3]);
      c := (((s[0] as int - 0xF0) * 64 + Low(s[1])) * 64 + Low(s[2])) * 64 + Low(s[3]);
    }
  }

  /** The encoding of a code point is a well-formed sequence. */
  lemma RuneIsWellFormed(c: nat, rest: bytes)
    requires ScalarValue(c)
    ensures RuneLen(EncodeRune(c) + rest) == |EncodeRune(c)|
  {
    var s := EncodeRune(c) + rest;
    assert s[0] == EncodeRune(c)[0];
  }

  /** `utf8.ValidString` holds exactly for the encodings of sequences of code points. */
  lemma ValidExactly(s: bytes)
    ensures ValidUtf8(s) <==> exists cs :: ScalarValues(cs) && EncodeRunes(cs) == s
  {
    if ValidUtf8(s) {
      var cs := Runes(s);
    }
    forall cs | ScalarValues(cs) && EncodeRunes(cs) == s
      ensures ValidUtf8(s)
    {
      RunesAreValid(cs);
    }
  }

  lemma {:induction false} Runes(s: bytes) returns (cs: seq<nat>)
    requires ValidUtf8(s)
    ensures ScalarValues(cs) && EncodeRunes(cs) == s
  {
    if s == [] {
      cs := [];
    } else {
      var n := RuneLen(s);
      var c := FirstRune(s);
      var rest := Runes(s[n..]);
      cs := [c] + rest;
      assert cs[1..] == rest && s == s[..n] + s[n..];
    }
  }

  lemma {:induction false} RunesAreValid(cs: seq<nat>)
    requires ScalarValues(cs)
    ensures ValidUtf8(EncodeRunes(cs))
  {
    if cs == [] {
    } else {
      var rest := EncodeRunes(cs[1..]);
      RunesAreValid(cs[1..]);
      RuneIsWellFormed(cs[0], rest);
      assert EncodeRunes(cs)[|EncodeRune(cs[0])|..] == rest;
    }
  }
}
