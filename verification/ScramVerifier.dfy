/** Stored SCRAM-SHA-256 verifiers and their text form (src/scram_verifier.rs:61-118). */
module ScramVerifier {
  import opened Wrappers
  import opened Bytes
  import opened Base64

  const DOLLAR: byte := 36
  const COLON: byte := 58
  const TAG: Text := Ascii("SCRAM-SHA-256$")

  datatype Verifier = Verifier(iterations: nat, salt: Text, storedKey: Text, serverKey: Text)

  datatype Error = Malformed | ZeroIterations | EmptySalt | BadKeyLength

  predicate Valid(v: Verifier) {
    0 < v.iterations <= U32_MAX && v.salt != [] && |v.storedKey| == 32 && |v.serverKey| == 32
  }

  function New(iterations: nat, salt: Text, storedKey: Text, serverKey: Text): (r: Result<Verifier, Error>)
    requires iterations <= U32_MAX
    ensures var v := Verifier(iterations, salt, storedKey, serverKey);
      if Valid(v) then r == Ok(v) else r.Err?
    ensures r == Err(ZeroIterations) <==> iterations == 0
    ensures r == Err(EmptySalt) <==> iterations != 0 && salt == []
    ensures r == Err(BadKeyLength) <==> iterations != 0 && salt != [] && (|storedKey| != 32 || |serverKey| != 32)
  {
    if iterations == 0 then Err(ZeroIterations)
    else if salt == [] then Err(EmptySalt)
    else if |storedKey| != 32 || |serverKey| != 32 then Err(BadKeyLength)
    else Ok(Verifier(iterations, salt, storedKey, serverKey))
  }

  function Parse(text: Text): Result<Verifier, Error> {
    match StripPrefix(text, TAG)
    case None => Err(Malformed)
    case Some(rest) =>
      match SplitOnce(rest, DOLLAR)
      case None => Err(Malformed)
      case Some((params, keys)) =>
        match (SplitOnce(params, COLON), SplitOnce(keys, COLON))
        case (Some((iterations, salt)), Some((storedKey, serverKey))) =>
          (match (ParseU32(iterations), Decode(salt), Decode(storedKey), Decode(serverKey))
           case (Some(i), Some(s), Some(k), Some(v)) => New(i, s, k, v)
           case _ => Err(Malformed))
        case _ => Err(Malformed)
  }

  /** The text of a verifier whose iteration count is written as `digits`. */
  function Written(v: Verifier, digits: Text): Text {
    TAG + (digits + [COLON] + Encode(v.salt) + [DOLLAR] + (Encode(v.storedKey) + [COLON] + Encode(v.serverKey)))
  }

  function Print(v: Verifier): Text {
    Written(v, Decimal(v.iterations))
  }

  /** The printed form in its own letters. */
  lemma PrintInLetters(v: Verifier)
    ensures Print(v) == Ascii("SCRAM-SHA-256$") + Decimal(v.iterations) + Ascii(":") + Encode(v.salt) + Ascii("$")
                        + Encode(v.storedKey) + Ascii(":") + Encode(v.serverKey)
  {
    assert Ascii(":") == [COLON] && Ascii("$") == [DOLLAR];
    SevenFields(TAG, Decimal(v.iterations), [COLON], Encode(v.salt), [DOLLAR], Encode(v.storedKey), [COLON],
                Encode(v.serverKey));
  }

  lemma SevenFields(a: Text, b: Text, c: Text, d: Text, e: Text, f: Text, g: Text, h: Text)
    ensures a + (b + c + d + e + (f + g + h)) == a + b + c + d + e + f + g + h
  {
    Associate(a, b + c + d + e, f + g + h);
    Associate(a, b + c + d, e);
    Associate(a, b + c, d);
    Associate(a, b, c);
    Associate(a + b + c + d + e, f + g, h);
    Associate(a + b + c + d + e, f, g);
  }

  lemma DigitsArePlain(digits: Text)
    requires ParseU32(digits).Some?
    ensures COLON !in digits && DOLLAR !in digits
  {
    forall c | c in digits ensures c != COLON && c != DOLLAR {
      if c != digits[0] {
        assert c in digits[1..];
      }
    }
  }

  lemma FieldsOfWritten(digits: Text, salt: Text, storedKey: Text, serverKey: Text)
    requires COLON !in digits && DOLLAR !in digits && DOLLAR !in salt && COLON !in storedKey
    ensures var params, keys := digits + [COLON] + salt, storedKey + [COLON] + serverKey;
      && SplitOnce(params + [DOLLAR] + keys, DOLLAR) == Some((params, keys))
      && SplitOnce(params, COLON) == Some((digits, salt))
      && SplitOnce(keys, COLON) == Some((storedKey, serverKey))
  {
    SplitOnceAt(digits, COLON, salt);
    SplitOnceAt(storedKey, COLON, serverKey);
    SplitOnceAt(digits + [COLON] + salt, DOLLAR, storedKey + [COLON] + serverKey);
  }

  /** Any written form, of valid fields or not, is judged by its fields. */
  lemma ParseWritten(v: Verifier, digits: Text)
    requires ParseU32(digits) == Some(v.iterations)
    ensures Parse(Written(v, digits)) == New(v.iterations, v.salt, v.storedKey, v.serverKey)
  {
    EncodingIsPlain(v.salt);
    EncodingIsPlain(v.storedKey);
    DigitsArePlain(digits);
    FieldsOfWritten(digits, Encode(v.salt), Encode(v.storedKey), Encode(v.serverKey));
    StripPrefixOf(TAG, digits + [COLON] + Encode(v.salt) + [DOLLAR]
                       + (Encode(v.storedKey) + [COLON] + Encode(v.serverKey)));
    DecodeEncode(v.salt);
    DecodeEncode(v.storedKey);
    DecodeEncode(v.serverKey);
  }

  /** The iteration field of an accepted text. */
  function DigitsOf(text: Text): Text
    requires Parse(text).Ok?
  {
    SplitOnce(SplitOnce(StripPrefix(text, TAG).value, DOLLAR).value.0, COLON).value.0
  }

  lemma ReadTexts(text: Text) returns (v: Verifier, digits: Text)
    requires Parse(text) != Err(Malformed)
    ensures ParseU32(digits) == Some(v.iterations) && text == Written(v, digits)
    ensures Parse(text) == New(v.iterations, v.salt, v.storedKey, v.serverKey)
    ensures Parse(text).Ok? ==> digits == DigitsOf(text)
  {
    var rest := StripPrefix(text, TAG).value;
    assert text == TAG + rest;
    var (params, keys) := SplitOnce(rest, DOLLAR).value;
    var (iterations, salt) := SplitOnce(params, COLON).value;
    var (storedKey, serverKey) := SplitOnce(keys, COLON).value;
    digits := iterations;
    v := Verifier(ParseU32(iterations).value, Decode(salt).value, Decode(storedKey).value, Decode(serverKey).value);
    EncodeDecode(salt);
    EncodeDecode(storedKey);
    EncodeDecode(serverKey);
  }

  lemma AcceptedTexts(text: Text)
    requires Parse(text).Ok?
    ensures var v := Parse(text).value;
      Valid(v) && ParseU32(DigitsOf(text)) == Some(v.iterations) && text == Written(v, DigitsOf(text))
  {
    var v, digits := ReadTexts(text);
  }

  /** A text is malformed exactly if it is not the written form of any fields at all. */
  lemma MalformedIff(text: Text)
    ensures Parse(text) == Err(Malformed) <==>
      forall v: Verifier, digits :: ParseU32(digits) == Some(v.iterations) ==> text != Written(v, digits)
  {
    if Parse(text) != Err(Malformed) {
      var v, digits := ReadTexts(text);
    }
    forall v: Verifier, digits | ParseU32(digits) == Some(v.iterations) && text == Written(v, digits)
      ensures Parse(text) != Err(Malformed)
    {
      ParseWritten(v, digits);
      NoOtherError(v);
    }
  }

  lemma NoOtherError(v: Verifier)
    requires v.iterations <= U32_MAX
    ensures New(v.iterations, v.salt, v.storedKey, v.serverKey) != Err(Malformed)
  {
  }

  /** A text is accepted, with result `v`, exactly when it is the written form of the valid verifier
      `v`; only the way the iteration count is written is free. */
  lemma ParseIff(text: Text, v: Verifier)
    ensures Parse(text) == Ok(v) <==>
      Valid(v) && exists digits :: ParseU32(digits) == Some(v.iterations) && text == Written(v, digits)
  {
    if Parse(text) == Ok(v) {
      AcceptedTexts(text);
    }
    if digits :| Valid(v) && ParseU32(digits) == Some(v.iterations) && text == Written(v, digits) {
      ParseWritten(v, digits);
    }
  }

  lemma RoundTrip(v: Verifier)
    requires Valid(v)
    ensures Parse(Print(v)) == Ok(v)
  {
    ParseU32Decimal(v.iterations);
    ParseWritten(v, Decimal(v.iterations));
  }

  /** Printing what was parsed gives an accepted text with the same meaning; it gives back the very
      text exactly when the iteration count had no sign and no leading zero. */
  lemma PrintAfterParse(text: Text)
    requires Parse(text).Ok?
    ensures var v, d := Parse(text).value, DigitsOf(text);
      && Parse(Print(v)) == Ok(v)
      && d != []
      && (Print(v) == text <==> d[0] != 43 && (d[0] == 48 ==> |d| == 1))
  {
    AcceptedTexts(text);
    var v, d := Parse(text).value, DigitsOf(text);
    RoundTrip(v);
    SameDigits(v, Decimal(v.iterations), d);
    if d[0] == 43 {
      assert Decimal(v.iterations)[0] in Decimal(v.iterations);
    } else {
      DecimalIsCanonical(d);
    }
  }

  /** A text that is accepted but not given back: the printed form with a plus sign. */
  lemma PlusSignExample(v: Verifier)
    requires Valid(v)
    ensures var text := Written(v, [43] + Decimal(v.iterations)); Parse(text) == Ok(v) && Print(v) != text
  {
    var digits := [43] + Decimal(v.iterations);
    assert digits[1..] == Decimal(v.iterations);
    ParseU32Decimal(v.iterations);
    ParseWritten(v, digits);
    SameDigits(v, Decimal(v.iterations), digits);
  }

  lemma SameDigits(v: Verifier, d: Text, e: Text)
    ensures Written(v, d) == Written(v, e) <==> d == e
  {
    if Written(v, d) == Written(v, e) {
      assert |d| == |e|;
      forall i | 0 <= i < |d| ensures d[i] == e[i] {
        assert d[i] == Written(v, d)[|TAG| + i] && e[i] == Written(v, e)[|TAG| + i];
      }
    }
  }
}
