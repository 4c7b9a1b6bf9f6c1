/**
 What the validity test of texts means: valid texts are exactly the encodings of sequences of Unicode
 scalar values (section 3 of RFC 3629).
 */
module Utf8 {
  import opened Wrappers
  import opened Bytes

  type Scalar = u: int | 0 <= u < 0xD800 || 0xE000 <= u < 0x11_0000

  function EncodeScalar(u: Scalar): Text {
    if u < 0x80 then [u]
    else if u < 0x800 then [0xC0 + u / 0x40, 0x80 + u % 0x40]
    else if u < 0x1_0000 then [0xE0 + u / 0x1000, 0x80 + u / 0x40 % 0x40, 0x80 + u % 0x40]
    else [0xF0 + u / 0x4_0000, 0x80 + u / 0x1000 % 0x40, 0x80 + u / 0x40 % 0x40, 0x80 + u % 0x40]
  }

  function EncodeScalars(us: seq<Scalar>): Text {
    if us == [] then [] else EncodeScalar(us[0]) + EncodeScalars(us[1..])
  }

  /** The head of an encoding is as wide as it should be. */
  lemma WidthOfScalar(u: Scalar)
    ensures Width(EncodeScalar(u)) == |EncodeScalar(u)| > 0
  {
    if 0x1_0000 <= u {
      Shift(u, 0x1000);
    }
  }

  lemma Shift(u: int, m: int)
    requires u >= 0 && m == 0x1000
    ensures u / m == u / (m * 0x40) * 0x40 + u / m % 0x40
  {
  }

  lemma HeadOfThree(s: Text) returns (u: Scalar)
    requires Width(s) == 3
    ensures s[..3] == EncodeScalar(u)
  {
    var v := FourDigits(0, s[0] as int - 0xE0, s[1] as int - 0x80, s[2] as int - 0x80);
    assert v < 0x1_0000 && v / 0x1000 == v / 0x1000 % 0x40;
    u := v;
    assert s[..3] == [s[0], s[1], s[2]];
  }

  lemma HeadOfFour(s: Text) returns (u: Scalar)
    requires Width(s) == 4
    ensures s[..4] == EncodeScalar(u)
  {
    u := FourDigits(s[0] as int - 0xF0, s[1] as int - 0x80, s[2] as int - 0x80, s[3] as int - 0x80);
    assert s[..4] == [s[0], s[1], s[2], s[3]];
  }

  lemma HeadScalar(s: Text) returns (u: Scalar)
    requires Width(s) > 0
    ensures s[..Width(s)] == EncodeScalar(u)
  {
    if Width(s) == 1 {
      u := s[0];
    } else if Width(s) == 2 {
      u := (s[0] as int - 0xC0) * 0x40 + (s[1] as int - 0x80);
    } else if Width(s) == 3 {
      u := HeadOfThree(s);
    } else {
      u := HeadOfFour(s);
    }
  }

  lemma {:induction false} EncodedIsValid(us: seq<Scalar>)
    ensures ValidUtf8(EncodeScalars(us))
  {
    if us != [] {
      EncodedIsValid(us[1..]);
      var head := EncodeScalar(us[0]);
      WidthOfScalar(us[0]);
      assert head[Width(head)..] == [];
      ValidUtf8Concat(head, EncodeScalars(us[1..]));
    }
  }

  lemma {:induction false} ValidIsEncoded(s: Text) returns (us: seq<Scalar>)
    requires ValidUtf8(s)
    ensures EncodeScalars(us) == s
    decreases |s|
  {
    us := [];
    if s != [] {
      var n := Width(s);
      var u := HeadScalar(s);
      var rest := ValidIsEncoded(s[n..]);
      us := [u] + rest;
      Prepend(u, rest);
      assert s == s[..n] + s[n..];
    }
  }

  lemma Prepend(u: Scalar, us: seq<Scalar>)
    ensures EncodeScalars([u] + us) == EncodeScalar(u) + EncodeScalars(us)
  {
    assert ([u] + us)[1..] == us;
  }

  /** Valid texts are the encodings of sequences of scalar values. */
  lemma ValidIff(s: Text)
    ensures ValidUtf8(s) <==> exists us :: EncodeScalars(us) == s
  {
    if ValidUtf8(s) {
      var us := ValidIsEncoded(s);
    }
    if us :| EncodeScalars(us) == s {
      EncodedIsValid(us);
    }
  }
}
