/** The text forms the codecs rely on: decimal, hexadecimal, base64 and UTF-8. */
module Text {
  import opened Bytes
  import opened Wrappers

  // ------------------------------------------------------------------ ASCII

  /** The bytes of an ASCII text. */
  function Ascii(s: string): (b: bytes)
    ensures |b| == |s|
    ensures forall i :: 0 <= i < |s| ==> b[i] == (s[i] as int % 256) as byte
  {
    seq(|s|, i requires 0 <= i < |s| => (s[i] as int % 256) as byte)
  }

  // ---------------------------------------------------------------- decimal

  predicate IsDigit(c: byte)
  {
    48 <= c <= 57
  }

  ghost predicate AllDigits(s: bytes)
  {
    forall i :: 0 <= i < |s| ==> IsDigit(s[i])
  }

  /** `strconv.Itoa` of a non-negative number. */
  function Digits(n: nat): (s: bytes)
    ensures s != []
    ensures AllDigits(s)
  {
    if n < 10 then [(48 + n) as byte] else Digits(n / 10) + [(48 + n % 10) as byte]
  }

  /** The number spelled by `s`, if `s` is one or more decimal digits. */
  function DigitsValue(s: bytes): (r: Option<nat>)
  {
    if s == [] || !IsDigit(s[|s| - 1]) then None
    else if |s| == 1 then Some(s[0] as int - 48)
    else match DigitsValue(s[..|s| - 1])
      case None => None
      case Some(n) => Some(10 * n + s[|s| - 1] as int - 48)
  }

  lemma {:induction false} DigitsRoundTrip(n: nat)
    ensures DigitsValue(Digits(n)) == Some(n)
  {
    if n < 10 {
    } else {
      var s := Digits(n);
      assert s[..|s| - 1] == Digits(n / 10);
      DigitsRoundTrip(n / 10);
    }
  }

  /** `strconv.FormatInt(n, 10)`. */
  function Decimal(n: int): (s: bytes)
    ensures s != []
  {
    if n < 0 then [45] + Digits(-n) else Digits(n)
  }

  /** An optional minus sign and digits: the integer literals `encoding/json` accepts. */
  function DecimalValue(s: bytes): Option<int>
  {
    if s != [] && s[0] == 45 then
      match DigitsValue(s[1..])
      case None => None
      case Some(n) => var m: int := n; Some(-m)
    else
      match DigitsValue(s)
      case None => None
      case Some(n) => Some(n)
  }

  lemma DecimalRoundTrip(n: int)
    ensures DecimalValue(Decimal(n)) == Some(n)
  {
    if n < 0 {
      DigitsRoundTrip(-n);
      assert Decimal(n)[1..] == Digits(-n);
    } else {
      DigitsRoundTrip(n);
      assert IsDigit(Digits(n)[0]);
    }
  }

  /** `strconv.Atoi` on a 64-bit platform: a sign of either kind, digits, and a range check. */
  function Atoi(s: bytes): Option<int64>
  {
    var n := if s != [] && s[0] == 43
             then match DigitsValue(s[1..]) case None => None case Some(m) => Some(m)
             else DecimalValue(s);
    match n
    case None => None
    case Some(m) => if -0x8000_0000_0000_0000 <= m < 0x8000_0000_0000_0000 then Some(m) else None
  }

  /** Every 64-bit integer is read from its decimal text, with or without a plus sign; larger ones are refused. */
  lemma AtoiReads(n: int)
    ensures Atoi(Decimal(n)) == if -0x8000_0000_0000_0000 <= n < 0x8000_0000_0000_0000 then Some(n) else None
    ensures n >= 0 ==> Atoi([43] + Decimal(n)) == Atoi(Decimal(n))
    ensures Atoi([]) == None
  {
    DecimalRoundTrip(n);
    if n >= 0 {
      DigitsRoundTrip(n);
      assert IsDigit(Digits(n)[0]);
      assert ([43] + Decimal(n))[1..] == Digits(n);
    }
  }

  /** Anything but digits behind an optional sign is refused. */
  lemma AtoiRefuses(s: bytes, i: nat)
    requires i < |s| && !IsDigit(s[i]) && !(i == 0 && (s[0] == 43 || s[0] == 45))
    ensures Atoi(s) == None
  {
    DigitsRefused(s, i);
    if i > 0 {
      DigitsRefused(s[1..], i - 1);
    }
  }

  lemma {:induction false} DigitsRefused(s: bytes, i: nat)
    requires i < |s| && !IsDigit(s[i])
    ensures DigitsValue(s) == None
  {
    if i < |s| - 1 {
      DigitsRefused(s[..|s| - 1], i);
    }
  }

  // ------------------------------------------------------------ hexadecimal

  function HexDigit(d: nat): byte
    requires d < 16
  {
    if d < 10 then (48 + d) as byte else (87 + d) as byte
  }

  function HexValue(c: byte): Option<nat>
  {
    if 48 <= c <= 57 then Some(c as int - 48)
    else if 97 <= c <= 102 then Some(c as int - 87)
    else if 65 <= c <= 70 then Some(c as int - 55)
    else None
  }

  /** `hex.EncodeToString`. */
  function HexEncode(b: bytes): (s: bytes)
    ensures |s| == 2 * |b|
  {
    if b == [] then []
    else [HexDigit(b[0] as int / 16), HexDigit(b[0] as int % 16)] + HexEncode(b[1..])
  }

  /** `hex.DecodeString`. */
  function HexDecode(s: bytes): Option<bytes>
  {
    if s == [] then Some([])
    else if |s| == 1 then None
    else match (HexValue(s[0]), HexValue(s[1]), HexDecode(s[2..]))
      case (Some(h), Some(l), Some(b)) => Some([HexByte(h, l)] + b)
      case _ => None
  }

  function HexByte(h: nat, l: nat): byte
  {
    ((16 * h + l) % 256) as byte
  }

  lemma {:induction false} HexRoundTrip(b: bytes)
    ensures HexDecode(HexEncode(b)) == Some(b)
  {
    if b == [] {
    } else {
      var s := HexEncode(b);
      assert s[2..] == HexEncode(b[1..]);
      HexRoundTrip(b[1..]);
      assert HexByte(b[0] as int / 16, b[0] as int % 16) == b[0];
      assert b == [b[0]] + b[1..];
    }
  }

  // ----------------------------------------------------------------- base64

  function Base64Digit(d: nat): byte
    requires d < 64
  {
    if d < 26 then (65 + d) as byte
    else if d < 52 then (71 + d) as byte
    else if d < 62 then (d - 4) as byte
    else if d == 62 then 43
    else 47
  }

  function Base64Value(c: byte): Option<nat>
  {
    if 65 <= c <= 90 then Some(c as int - 65)
    else if 97 <= c <= 122 then Some(c as int - 71)
    else if 48 <= c <= 57 then Some(c as int + 4)
    else if c == 43 then Some(62)
    else if c == 47 then Some(63)
    else None
  }

  lemma Base64DigitRoundTrip(d: nat)
    requires d < 64
    ensures Base64Value(Base64Digit(d)) == Some(d)
    ensures Base64Digit(d) != 61
  {
  }

  /** `base64.StdEncoding`, padded with '='. */
  function Base64Encode(b: bytes): (s: bytes)
    ensures b == [] <==> s == []
  {
    if b == [] then []
    else
      var x, y, z := b[0] as int, ByteAt(b, 1), ByteAt(b, 2);
      var head := [Base64Digit(x / 4), Base64Digit(x % 4 * 16 + y / 16)];
      if |b| == 1 then head + [61, 61]
      else if |b| == 2 then head + [Base64Digit(y % 16 * 4), 61]
      else head + [Base64Digit(y % 16 * 4 + z / 64), Base64Digit(z % 64)] + Base64Encode(b[3..])
  }

  function ByteAt(b: bytes, i: nat): (n: nat)
    ensures n < 256
  {
    if i < |b| then b[i] as int else 0
  }

  function Base64Byte(hi: nat, lo: nat): byte
  {
    ((hi + lo) % 256) as byte
  }

  function Base64Decode(s: bytes): Option<bytes>
  {
    if s == [] then Some([])
    else if |s| < 4 then None
    else
      match (Base64Value(s[0]), Base64Value(s[1]))
      case (Some(a), Some(b)) =>
        var first := Base64Byte(4 * a, b / 16);
        if |s| == 4 && s[2] == 61 && s[3] == 61 then Some([first])
        else (match Base64Value(s[2])
              case None => None
              case Some(c) =>
                var second := Base64Byte(b % 16 * 16, c / 4);
                if |s| == 4 && s[3] == 61 then Some([first, second])
                else (match (Base64Value(s[3]), Base64Decode(s[4..]))
                      case (Some(d), Some(rest)) => Some([first, second, Base64Byte(c % 4 * 64, d)] + rest)
                      case _ => None))
      case _ => None
  }

  lemma Base64First(x: nat, y: nat)
    requires x < 256 && y < 256
    ensures Base64Byte(4 * (x / 4), (x % 4 * 16 + y / 16) / 16) as int == x
  {
    assert (x % 4 * 16 + y / 16) / 16 == x % 4;
  }

  lemma Base64Second(x: nat, y: nat, z: nat)
    requires x < 256 && y < 256 && z < 256
    ensures Base64Byte((x % 4 * 16 + y / 16) % 16 * 16, (y % 16 * 4 + z / 64) / 4) as int == y
  {
    assert (x % 4 * 16 + y / 16) % 16 == y / 16;
    assert (y % 16 * 4 + z / 64) / 4 == y % 16;
  }

  lemma Base64Third(y: nat, z: nat)
    requires y < 256 && z < 256
    ensures Base64Byte((y % 16 * 4 + z / 64) % 4 * 64, z % 64) as int == z
  {
    assert (y % 16 * 4 + z / 64) % 4 == z / 64;
  }

  lemma Base64Group(x: nat, y: nat, z: nat)
    requires x < 256 && y < 256 && z < 256
    ensures Base64Byte(4 * (x / 4), (x % 4 * 16 + y / 16) / 16) as int == x
    ensures Base64Byte((x % 4 * 16 + y / 16) % 16 * 16, (y % 16 * 4 + z / 64) / 4) as int == y
    ensures Base64Byte((y % 16 * 4 + z / 64) % 4 * 64, z % 64) as int == z
  {
    Base64First(x, y);
    Base64Second(x, y, z);
    Base64Third(y, z);
  }

  lemma {:induction false} Base64RoundTrip(b: bytes)
    ensures Base64Decode(Base64Encode(b)) == Some(b)
  {
    if b == [] {
    } else {
      var s := Base64Encode(b);
      var x, y, z := ByteAt(b, 0), ByteAt(b, 1), ByteAt(b, 2);
      Base64Group(x, y, z);
      Base64DigitRoundTrip(x / 4);
      Base64DigitRoundTrip(x % 4 * 16 + y / 16);
      Base64DigitRoundTrip(y % 16 * 4 + z / 64);
      Base64DigitRoundTrip(z % 64);
      if |b| < 3 {
        assert y % 16 * 4 + z / 64 == y % 16 * 4;
        assert |b| == 1 ==> b == [b[0]];
        assert |b| == 2 ==> b == [b[0], b[1]];
      } else {
        assert s[4..] == Base64Encode(b[3..]);
        Base64RoundTrip(b[3..]);
        assert b == [b[0], b[1], b[2]] + b[3..];
      }
    }
  }

  // ------------------------------------------------------------------ UTF-8

  predicate Continuation(c: byte)
  {
    0x80 <= c <= 0xBF
  }

  /** The length of the well-formed UTF-8 sequence `s` starts with, or 0 if there is none. */
  function RuneLen(s: bytes): (n: nat)
    ensures n <= |s|
  {
    if s == [] then 0
    else if s[0] < 0x80 then 1
    else if |s| >= 2 && 0xC2 <= s[0] <= 0xDF && Continuation(s[1]) then 2
    else if |s| >= 3 && 0xE0 <= s[0] <= 0xEF && Continuation(s[1]) && Continuation(s[2])
         && (s[0] == 0xE0 ==> s[1] >= 0xA0) && (s[0] == 0xED ==> s[1] <= 0x9F) then 3
    else if |s| >= 4 && 0xF0 <= s[0] <= 0xF4 && Continuation(s[1]) && Continuation(s[2]) && Continuation(s[3])
         && (s[0] == 0xF0 ==> s[1] >= 0x90) && (s[0] == 0xF4 ==> s[1] <= 0x8F) then 4
    else 0
  }

  /** `utf8.ValidString`. */
  predicate ValidUtf8(s: bytes)
  {
    s == [] || (RuneLen(s) > 0 && ValidUtf8(s[RuneLen(s)..]))
  }

  /** What `json.Marshal` makes of a Go string: each invalid byte becomes U+FFFD. */
  function Coerce(s: bytes): bytes
  {
    if s == [] then []
    else if RuneLen(s) == 0 then [0xEF, 0xBF, 0xBD] + Coerce(s[1..])
    else s[..RuneLen(s)] + Coerce(s[RuneLen(s)..])
  }

  /** A string survives `json.Marshal` exactly when it is valid UTF-8. */
  lemma {:induction false} CoerceFixesExactlyValid(s: bytes)
    ensures |Coerce(s)| >= |s|
    ensures Coerce(s) == s <==> ValidUtf8(s)
    ensures !ValidUtf8(s) ==> |Coerce(s)| > |s|
  {
    if s == [] {
    } else if RuneLen(s) == 0 {
      CoerceFixesExactlyValid(s[1..]);
    } else {
      var n := RuneLen(s);
      CoerceFixesExactlyValid(s[n..]);
      assert s == s[..n] + s[n..];
      assert Coerce(s)[n..] == Coerce(s[n..]);
    }
  }

  lemma {:induction false} CoerceIsValid(s: bytes)
    ensures ValidUtf8(Coerce(s))
  {
    if s == [] {
    } else if RuneLen(s) == 0 {
      CoerceIsValid(s[1..]);
      assert Coerce(s)[3..] == Coerce(s[1..]);
      assert RuneLen(Coerce(s)) == 3;
    } else {
      var n := RuneLen(s);
      CoerceIsValid(s[n..]);
      assert Coerce(s)[n..] == Coerce(s[n..]);
      assert RuneLen(Coerce(s)) == n;
    }
  }

  lemma {:induction false} AsciiIsValid(s: bytes)
    requires forall i :: 0 <= i < |s| ==> s[i] < 0x80
    ensures ValidUtf8(s)
  {
    if s == [] {
    } else {
      assert RuneLen(s) == 1;
      AsciiIsValid(s[1..]);
    }
  }
}
