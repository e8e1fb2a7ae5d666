/** The JSON that values are stored as, with the names of its members. */
module FjsonForms {
  import opened Bytes
  import opened Text
  import opened Values
  import opened Doubles
  import opened Wrappers
  import opened Fjson
  import FjsonRoundTrip

  /** The double that is written as this text, which no JSON number can say. */
  lemma SpecialDoubles(ft: FloatText, bits: uint64)
    ensures MarshalDouble(ft, bits) ==
      if bits == 0x8000_0000_0000_0000 then JString(Ascii("-0"))
      else if bits == 0x7FF0_0000_0000_0000 then JString(Ascii("Infinity"))
      else if bits == 0xFFF0_0000_0000_0000 then JString(Ascii("-Infinity"))
      else if !IsFinite(bits) then JString(Ascii("NaN"))
      else JNumber(ft.format(bits))
  {
    assert MINUS_ZERO == Ascii("-0") && INFINITY == Ascii("Infinity") && NAN == Ascii("NaN");
    assert MINUS_INFINITY == Ascii("-Infinity");
    Infinities(bits);
  }

  /** A scalar is a JSON value of its own, or an object with a member that names its type. */
  lemma ScalarForm(ft: FloatText, v: Value)
    ensures var j := Marshal(ft, v);
            match v
            case Document(fs) => true
            case Array(vs) => true
            case Double(bits) => j == JObject(map[Ascii("$f") := MarshalDouble(ft, bits)])
            case String(s) => j == JString(Coerce(s))
            case Binary(subtype, data) =>
              j == JObject(map[
                Ascii("$b") := JString(Base64Encode(data)), Ascii("s") := JNumber(Digits(subtype as int))])
            case ObjectId(oid) => j == JObject(map[Ascii("$o") := JString(HexEncode(oid))])
            case Bool(b) => j == JBool(b)
            case DateTime(ms) => j == JObject(map[Ascii("$d") := JNumber(Decimal(ms))])
            case Null => j == JNull
            case Regex(p, o) => j == JObject(map[Ascii("$r") := JString(Coerce(p)), Ascii("o") := JString(Coerce(o))])
            case Int32(i) => j == JNumber(Decimal(i))
            case Timestamp(ts) => j == JObject(map[Ascii("$t") := JString(Digits(ts % 0x1_0000_0000_0000_0000))])
            case Int64(i) => j == JObject(map[Ascii("$l") := JString(Decimal(i))])
  {
    Names();
  }

  lemma Names()
    ensures K == Ascii("$k") && F == Ascii("$f") && B == Ascii("$b") && S == Ascii("s") && O == Ascii("$o")
    ensures D == Ascii("$d") && R == Ascii("$r") && OPT == Ascii("o") && T == Ascii("$t") && L == Ascii("$l")
  {
  }

  /** A document is an object with a member for each field and the keys, in order, under "$k". */
  lemma DocumentForm(ft: FloatText, fs: Fields)
    requires WellFormed(Document(fs))
    ensures var j := Marshal(ft, Document(fs));
            && j.JObject?
            && (forall k :: k in j.members <==> k == Ascii("$k") || Has(fs, k))
            && j.members[Ascii("$k")] == JArray(seq(|fs|, i requires 0 <= i < |fs| => JString(fs[i].key)))
            && forall i :: 0 <= i < |fs| ==> j.members[fs[i].key] == Marshal(ft, fs[i].value)
  {
    Names();
    var j := Marshal(ft, Document(fs));
    forall k
      ensures k in j.members <==> k == K || Has(fs, k)
    {
      FjsonRoundTrip.MarshalFieldsMember(ft, fs, k);
    }
    forall i | 0 <= i < |fs|
      ensures fs[i].key != K && j.members[fs[i].key] == Marshal(ft, fs[i].value)
      ensures MarshalString(fs[i].key) == JString(fs[i].key)
    {
      FjsonRoundTrip.MarshalFieldsAt(ft, fs, i);
      CoerceFixesExactlyValid(fs[i].key);
      assert ValidKey(fs[i].key) && !ValidKey(K);
    }
    assert MarshalKeys(fs) == JArray(seq(|fs|, i requires 0 <= i < |fs| => JString(fs[i].key)));
  }

  /** Arrays keep their order. */
  lemma {:induction false} ArrayForm(ft: FloatText, vs: seq<Value>)
    ensures |MarshalElems(ft, vs)| == |vs|
    ensures forall i :: 0 <= i < |vs| ==> MarshalElems(ft, vs)[i] == Marshal(ft, vs[i])
  {
    if vs == [] {
    } else {
      ArrayForm(ft, vs[1..]);
    }
  }

  /** The names of members are never keys of documents: a key that starts with "$" is longer. */
  lemma MembersAreNotKeys(c: byte)
    ensures !ValidKey([36, c]) && !ValidKey(Ascii("$")) && !ValidKey([])
    ensures ValidKey(Ascii("$db")) && ValidKey(Ascii("s"))
  {
    AsciiIsValid(Ascii("$db"));
    AsciiIsValid(Ascii("s"));
  }

  /** An object that is no document is accepted only with the members of its type, and no others. */
  lemma AcceptedMembers(ft: FloatText, m: map<bytes, Json>)
    requires !Tagged(m, K) && Unmarshal(ft, JObject(m)).Success?
    ensures match Unmarshal(ft, JObject(m)).value
            case Double(_) => m.Keys == {Ascii("$f")}
            case Binary(_, _) => Ascii("$b") in m && m.Keys <= {Ascii("$b"), Ascii("s")}
            case ObjectId(_) => m.Keys == {Ascii("$o")}
            case DateTime(_) => m.Keys == {Ascii("$d")}
            case Regex(_, _) => Ascii("$r") in m && m.Keys <= {Ascii("$r"), Ascii("o")}
            case Timestamp(_) => m.Keys == {Ascii("$t")}
            case Int64(_) => m.Keys == {Ascii("$l")}
            case _ => false
  {
    Names();
  }

  /** A bare number is a 32-bit integer: the double it spells, truncated, if that is in range. */
  lemma BareNumbers(ft: FloatText, text: bytes, d: uint64)
    requires ft.parse(text) == Some(d) && IsFinite(d)
    ensures Unmarshal(ft, JNumber(text)) ==
              if -0x8000_0000 <= Truncated(d) < 0x8000_0000 then Success(Int32(Truncated(d)))
              else Failure(ImplementationDefined)
  {
  }

  /** The texts that stand for doubles, and the doubles they stand for; NaN becomes the one of `math.NaN`. */
  lemma SpecialTexts(ft: FloatText)
    ensures UnmarshalDouble(ft, JString(Ascii("-0"))) == Success(Double(0x8000_0000_0000_0000))
    ensures UnmarshalDouble(ft, JString(Ascii("Infinity"))) == Success(Double(0x7FF0_0000_0000_0000))
    ensures UnmarshalDouble(ft, JString(Ascii("-Infinity"))) == Success(Double(0xFFF0_0000_0000_0000))
    ensures UnmarshalDouble(ft, JString(Ascii("NaN"))) == Success(Double(0x7FF8_0000_0000_0001))
  {
    assert MINUS_ZERO == Ascii("-0") && INFINITY == Ascii("Infinity") && NAN == Ascii("NaN");
    assert MINUS_INFINITY == Ascii("-Infinity");
    assert NAN[0] != MINUS_ZERO[0] && |NAN| != |INFINITY| && |NAN| != |MINUS_INFINITY|;
  }
}
