/**
 The base64 codec of section 4 of RFC 4648 as the program uses it: padding is written and required,
 and the unused bits of the last character must be zero, so every data has exactly one encoding.
 */
module Base64 {
  import opened Wrappers
  import opened Bytes

  const PAD: byte := 61

  /** ASCII, and none of the separators of the SCRAM grammar and of verifier texts. */
  predicate Plain(c: byte) {
    c <= 0x7F && c != COMMA && c != 36 && c != 58
  }

  function Char(i: int): (c: byte)
    requires 0 <= i < 64
    ensures Index(c) == i && c != PAD && Plain(c)
  {
    if i < 26 then 65 + i else if i < 52 then 71 + i else if i < 62 then i - 4 else if i == 62 then 43 else 47
  }

  /** The value of a character, or -1 for a character outside the alphabet. */
  function Index(c: byte): (i: int)
    ensures -1 <= i < 64
  {
    if 65 <= c <= 90 then c as int - 65
    else if 97 <= c <= 122 then c as int - 71
    else if 48 <= c <= 57 then c as int + 4
    else if c == 43 then 62
    else if c == 47 then 63
    else -1
  }

  /** The alphabet of table 1 of RFC 4648. */
  lemma CharOfAlphabet(i: int)
    requires 0 <= i < 64
    ensures Char(i) as char ==
      if i < 26 then 'A' + i as char else if i < 52 then 'a' + (i - 26) as char
      else if i < 62 then '0' + (i - 52) as char else if i == 62 then '+' else '/'
  {
  }

  lemma CharIndex(c: byte)
    ensures Index(c) >= 0 ==> Char(Index(c)) == c
  {
  }

  function Encode(b: Text): (s: Text)
    ensures |s| % 4 == 0
  {
    if |b| == 0 then []
    else if |b| == 1 then LastOne(b[0])
    else if |b| == 2 then LastTwo(b[0], b[1])
    else
      var rest := Encode(b[3..]);
      FourMore(|rest|);
      Quad(b[0], b[1], b[2]) + rest
  }

  lemma FourMore(n: nat)
    ensures (4 + n) % 4 == n % 4
  {
  }

  function LastOne(x: byte): (q: Text)
    ensures |q| == 4
  {
    [Char(x / 4), Char(x % 4 * 16), PAD, PAD]
  }

  function LastTwo(x: byte, y: byte): (q: Text)
    ensures |q| == 4
  {
    [Char(x / 4), Char(x % 4 * 16 + y / 16), Char(y % 16 * 4), PAD]
  }

  function Quad(x: byte, y: byte, z: byte): (q: Text)
    ensures |q| == 4
    ensures forall c :: c in q ==> Plain(c)
  {
    [Char(x / 4), Char(x % 4 * 16 + y / 16), Char(y % 16 * 4 + z / 64), Char(z % 64)]
  }

  function Decode(s: Text): Option<Text> {
    if s == [] then Some([])
    else if |s| < 4 then None
    else
      var i, j, k, l := Index(s[0]), Index(s[1]), Index(s[2]), Index(s[3]);
      if i < 0 || j < 0 then None
      else if |s| == 4 && s[2] == PAD && s[3] == PAD then
        if j % 16 == 0 then Some([i * 4 + j / 16]) else None
      else if k < 0 then None
      else if |s| == 4 && s[3] == PAD then
        if k % 4 == 0 then Some([i * 4 + j / 16, j % 16 * 16 + k / 4]) else None
      else if l < 0 then None
      else
        match Decode(s[4..])
        case None => None
        case Some(rest) => Some(Triple(i, j, k, l) + rest)
  }

  function Triple(i: int, j: int, k: int, l: int): (t: Text)
    requires 0 <= i < 64 && 0 <= j < 64 && 0 <= k < 64 && 0 <= l < 64
    ensures |t| == 3
  {
    [i * 4 + j / 16, j % 16 * 16 + k / 4, k % 4 * 64 + l]
  }

  lemma Digits(a: int, b: int, m: int)
    requires 0 <= b < m && (m == 4 || m == 16 || m == 64)
    ensures (a * m + b) / m == a && (a * m + b) % m == b
  {
  }

  lemma TripleOfQuad(x: byte, y: byte, z: byte)
    ensures var q := Quad(x, y, z);
      Triple(Index(q[0]), Index(q[1]), Index(q[2]), Index(q[3])) == [x, y, z]
  {
    TripleOfSextets(x, y, z);
    IndicesOfQuad(x, y, z);
  }

  lemma IndicesOfQuad(x: byte, y: byte, z: byte)
    ensures var q := Quad(x, y, z);
      && Index(q[0]) == x as int / 4 && Index(q[1]) == x as int % 4 * 16 + y as int / 16
      && Index(q[2]) == y as int % 16 * 4 + z as int / 64 && Index(q[3]) == z as int % 64
  {
  }

  lemma TripleOfSextets(x: byte, y: byte, z: byte)
    ensures Triple(x as int / 4, x as int % 4 * 16 + y as int / 16, y as int % 16 * 4 + z as int / 64, z as int % 64)
         == [x, y, z]
  {
    Digits(x as int % 4, y as int / 16, 16);
    Digits(y as int % 16, z as int / 64, 4);
    Recombine(x as int, 4);
    Recombine(y as int, 16);
    Recombine(z as int, 64);
  }

  lemma Recombine(x: int, m: int)
    requires m > 0
    ensures x / m * m + x % m == x
  {
  }

  lemma Sextets(i: int, j: int, k: int, l: int)
    requires 0 <= i < 64 && 0 <= j < 64 && 0 <= k < 64 && 0 <= l < 64
    ensures var t := Triple(i, j, k, l);
      && t[0] as int / 4 == i && t[0] as int % 4 * 16 + t[1] as int / 16 == j
      && t[1] as int % 16 * 4 + t[2] as int / 64 == k && t[2] as int % 64 == l
  {
  }

  lemma QuadOfSextets(x: byte, y: byte, z: byte, i: int, j: int, k: int, l: int)
    requires x as int / 4 == i && x as int % 4 * 16 + y as int / 16 == j
    requires y as int % 16 * 4 + z as int / 64 == k && z as int % 64 == l
    ensures 0 <= i < 64 && 0 <= j < 64 && 0 <= k < 64 && 0 <= l < 64
    ensures Quad(x, y, z) == [Char(i), Char(j), Char(k), Char(l)]
  {
  }

  lemma QuadOfTriple(a: byte, b: byte, c: byte, d: byte)
    requires Index(a) >= 0 && Index(b) >= 0 && Index(c) >= 0 && Index(d) >= 0
    ensures var t := Triple(Index(a), Index(b), Index(c), Index(d));
      Quad(t[0], t[1], t[2]) == [a, b, c, d]
  {
    var t := Triple(Index(a), Index(b), Index(c), Index(d));
    Sextets(Index(a), Index(b), Index(c), Index(d));
    QuadOfSextets(t[0], t[1], t[2], Index(a), Index(b), Index(c), Index(d));
    CharIndex(a);
    CharIndex(b);
    CharIndex(c);
    CharIndex(d);
  }

  lemma DecodeTwicePadded(a: byte, b: byte)
    requires Index(a) >= 0 && Index(b) >= 0 && Index(b) % 16 == 0
    ensures Decode([a, b, PAD, PAD]) == Some([Index(a) * 4 + Index(b) / 16])
  {
  }

  lemma DecodeEncodeOne(x: byte)
    ensures Decode(Encode([x])) == Some([x])
  {
    DecodeTwicePadded(Char(x / 4), Char(x % 4 * 16));
  }

  lemma DecodePadded(a: byte, b: byte, c: byte)
    requires Index(a) >= 0 && Index(b) >= 0 && Index(c) >= 0 && Index(c) % 4 == 0
    ensures Decode([a, b, c, PAD]) == Some([Index(a) * 4 + Index(b) / 16, Index(b) % 16 * 16 + Index(c) / 4])
  {
  }

  lemma DecodeEncodeTwo(x: byte, y: byte)
    ensures Decode(Encode([x, y])) == Some([x, y])
  {
    DecodePadded(Char(x / 4), Char(x % 4 * 16 + y / 16), Char(y % 16 * 4));
  }

  /** Decoding undoes encoding. */
  lemma {:induction false} DecodeEncode(b: Text)
    ensures Decode(Encode(b)) == Some(b)
  {
    if |b| == 1 {
      DecodeEncodeOne(b[0]);
      assert b == [b[0]];
    } else if |b| == 2 {
      DecodeEncodeTwo(b[0], b[1]);
      assert b == [b[0], b[1]];
    } else if |b| >= 3 {
      DecodeEncode(b[3..]);
      var q := Quad(b[0], b[1], b[2]);
      TripleOfQuad(b[0], b[1], b[2]);
      DecodeQuad(q, Encode(b[3..]));
      assert b == [b[0], b[1], b[2]] + b[3..];
    }
  }

  lemma DecodeQuad(q: Text, rest: Text)
    requires |q| == 4 && Decode(rest).Some?
    requires Index(q[0]) >= 0 && Index(q[1]) >= 0 && Index(q[2]) >= 0 && Index(q[3]) >= 0
    ensures Decode(q + rest) == Some(Triple(Index(q[0]), Index(q[1]), Index(q[2]), Index(q[3])) + Decode(rest).value)
  {
    assert (q + rest)[4..] == rest;
  }

  lemma EncodeDecodeTail(s: Text)
    requires |s| == 4 && s[3] == PAD && Decode(s).Some?
    ensures Encode(Decode(s).value) == s
  {
    CharIndex(s[0]);
    CharIndex(s[1]);
    CharIndex(s[2]);
    Sextets(Index(s[0]), Index(s[1]), if s[2] == PAD then 0 else Index(s[2]), 0);
  }

  /** Nothing but the encoding of some data is ever decoded. */
  lemma {:induction false} EncodeDecode(s: Text)
    requires Decode(s).Some?
    ensures Encode(Decode(s).value) == s
  {
    if |s| == 4 && s[3] == PAD {
      EncodeDecodeTail(s);
    } else if s != [] {
      EncodeDecode(s[4..]);
      QuadOfTriple(s[0], s[1], s[2], s[3]);
      var t := Triple(Index(s[0]), Index(s[1]), Index(s[2]), Index(s[3]));
      var rest := Decode(s[4..]).value;
      EncodeTriple(t, rest);
      assert s == [s[0], s[1], s[2], s[3]] + s[4..];
    }
  }

  lemma EncodeTriple(t: Text, rest: Text)
    requires |t| == 3
    ensures Encode(t + rest) == Quad(t[0], t[1], t[2]) + Encode(rest)
  {
    assert (t + rest)[3..] == rest;
  }

  /** One or two bytes are written like three with zeros behind them, the digits without a bit of theirs
      replaced by padding. */
  lemma PaddedForms(x: byte, y: byte)
    ensures Encode([x]) == Encode([x, 0, 0])[..2] + [61, 61]
    ensures Encode([x, y]) == Encode([x, y, 0])[..3] + [61]
  {
    assert [x, 0, 0][3..] == [] && [x, y, 0][3..] == [] && Encode([]) == [];
    assert Encode([x, 0, 0]) == Quad(x, 0, 0) && Encode([x, y, 0]) == Quad(x, y, 0);
  }

  /** Three bytes are written as the four digits to the base of 64 of their number. */
  lemma QuadIsNumber(x: byte, y: byte, z: byte)
    ensures var n := NumberOf([x, y, z]);
      && n < 0x100_0000
      && Encode([x, y, z]) == [Char(n / 0x4_0000), Char(n / 0x1000 % 0x40), Char(n / 0x40 % 0x40), Char(n % 0x40)]
  {
    assert [x, y, z][3..] == [] && Encode([]) == [];
    assert Encode([x, y, z]) == Quad(x, y, z);
    assert [x, y, z][..2] == [x, y] && [x, y][..1] == [x] && [x][..0] == [];
    assert NumberOf([x, y]) == NumberOf([x]) * 0x100 + y as int && NumberOf([x]) == x as int;
    var n := FourDigits(x as int / 4, x as int % 4 * 16 + y as int / 16, y as int % 16 * 4 + z as int / 64,
                        z as int % 64);
    assert n == (x as int * 0x100 + y as int) * 0x100 + z as int;
  }

  lemma {:induction false} EncodingIsPlain(b: Text)
    ensures forall c :: c in Encode(b) ==> Plain(c)
    ensures ValidUtf8(Encode(b))
  {
    if |b| >= 3 {
      EncodingIsPlain(b[3..]);
    }
    AsciiIsValidUtf8(Encode(b));
  }
}
