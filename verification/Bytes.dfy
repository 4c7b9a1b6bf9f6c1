/**
 Texts as the bytes of their UTF-8 form, and the string operations the SCRAM code is built from:
 splitting at separators, exclusive or, decimal numbers.
 */
module Bytes {
  import opened Wrappers

  type byte = x: int | 0 <= x < 256

  type Text = seq<byte>

  const COMMA: byte := 44

  /** The bytes of an ASCII string. */
  function Ascii(s: string): (t: Text)
    ensures |t| == |s|
    ensures forall i | 0 <= i < |s| :: s[i] < 128 as char ==> t[i] == s[i] as int
  {
    seq(|s|, i requires 0 <= i < |s| => s[i] as int % 256)
  }

  // ---------- UTF-8 (RFC 3629, section 4) -------------------------------

  predicate Trail(s: Text, from: nat, to: nat) {
    to <= |s| && forall i | from <= i < to :: 0x80 <= s[i] <= 0xBF
  }

  /** The width of the character at the head of `s`, or 0 if there is none. */
  function Width(s: Text): (n: nat)
    ensures n <= |s|
  {
    if s == [] then 0
    else if s[0] <= 0x7F then 1
    else if 0xC2 <= s[0] <= 0xDF && Trail(s, 1, 2) then 2
    else if 0xE0 <= s[0] <= 0xEF && Trail(s, 1, 3)
            && (s[0] == 0xE0 ==> s[1] >= 0xA0) && (s[0] == 0xED ==> s[1] <= 0x9F) then 3
    else if 0xF0 <= s[0] <= 0xF4 && Trail(s, 1, 4)
            && (s[0] == 0xF0 ==> s[1] >= 0x90) && (s[0] == 0xF4 ==> s[1] <= 0x8F) then 4
    else 0
  }

  predicate ValidUtf8(s: Text)
    decreases |s|
  {
    s == [] || (Width(s) > 0 && ValidUtf8(s[Width(s)..]))
  }

  lemma WidthOfPrefix(a: Text, b: Text)
    requires Width(a) > 0
    ensures Width(a + b) == Width(a)
  {
    var n := Width(a);
    assert (a + b)[..n] == a[..n];
    assert forall i | 0 <= i < n :: (a + b)[i] == a[i];
  }

  lemma {:induction false} ValidUtf8Concat(a: Text, b: Text)
    requires ValidUtf8(a) && ValidUtf8(b)
    ensures ValidUtf8(a + b)
    decreases |a|
  {
    if a == [] {
      assert a + b == b;
    } else {
      var n := Width(a);
      WidthOfPrefix(a, b);
      assert (a + b)[n..] == a[n..] + b;
      ValidUtf8Concat(a[n..], b);
    }
  }

  lemma {:induction false} AsciiIsValidUtf8(s: Text)
    requires forall c :: c in s ==> c <= 0x7F
    ensures ValidUtf8(s)
  {
    if s != [] {
      assert s[0] in s && Width(s) == 1;
      assert forall c :: c in s[1..] ==> c in s;
      AsciiIsValidUtf8(s[1..]);
    }
  }

  lemma AsciiIsText(s: string)
    requires forall i | 0 <= i < |s| :: s[i] < 128 as char
    ensures ValidUtf8(Ascii(s))
  {
    var t := Ascii(s);
    forall c | c in t ensures c <= 0x7F {
      var i :| 0 <= i < |t| && t[i] == c;
      assert s[i] < 128 as char;
    }
    AsciiIsValidUtf8(t);
  }

  // ---------- Splitting --------------------------------------------------

  function StripPrefix(s: Text, prefix: Text): Option<Text> {
    if prefix <= s then Some(s[|prefix|..]) else None
  }

  lemma StripPrefixOf(prefix: Text, s: Text)
    ensures StripPrefix(prefix + s, prefix) == Some(s)
  {
  }

  lemma StripPrefixSound(s: Text, prefix: Text)
    requires StripPrefix(s, prefix).Some?
    ensures s == prefix + StripPrefix(s, prefix).value
    ensures forall c :: c !in s ==> c !in StripPrefix(s, prefix).value
  {
  }

  /** At the first occurrence of `c`. */
  function SplitOnce(s: Text, c: byte): (r: Option<(Text, Text)>)
    ensures r.Some? ==> s == r.value.0 + [c] + r.value.1 && c !in r.value.0
    ensures r.None? <==> c !in s
  {
    if s == [] then None
    else if s[0] == c then Some(([], s[1..]))
    else
      match SplitOnce(s[1..], c)
      case None => None
      case Some((a, b)) => Some(([s[0]] + a, b))
  }

  lemma {:induction false} SplitOnceAt(a: Text, c: byte, b: Text)
    requires c !in a
    ensures SplitOnce(a + [c] + b, c) == Some((a, b))
  {
    if a == [] {
      assert a + [c] + b == [c] + b;
    } else {
      SplitOnceAt(a[1..], c, b);
      assert (a + [c] + b)[1..] == a[1..] + [c] + b;
      assert a == [a[0]] + a[1..];
    }
  }

  /** All the fields between occurrences of `c`. */
  function Split(s: Text, c: byte): (r: seq<Text>)
    ensures |r| >= 1
    decreases |s|
  {
    match SplitOnce(s, c)
    case None => [s]
    case Some((a, b)) => [a] + Split(b, c)
  }

  lemma SplitNowhere(a: Text, c: byte)
    requires c !in a
    ensures Split(a, c) == [a]
  {
  }

  lemma SplitFirst(a: Text, c: byte, b: Text)
    requires c !in a
    ensures Split(a + [c] + b, c) == [a] + Split(b, c)
  {
    SplitOnceAt(a, c, b);
  }

  /** Nothing, or something behind the separator. */
  predicate Tail(t: Text, c: byte) {
    t == [] || t[0] == c
  }

  lemma SplitTail(a: Text, c: byte, tail: Text)
    requires c !in a && Tail(tail, c)
    ensures Split(a + tail, c)[0] == a
  {
    if tail == [] {
      assert a + tail == a;
      SplitNowhere(a, c);
    } else {
      assert tail == [c] + tail[1..];
      Associate(a, [c], tail[1..]);
      SplitFirst(a, c, tail[1..]);
    }
  }

  lemma SplitTwo(a: Text, c: byte, b: Text, tail: Text)
    requires c !in a && c !in b && Tail(tail, c)
    ensures var parts := Split(a + [c] + (b + tail), c);
      |parts| >= 2 && parts[0] == a && parts[1] == b
  {
    SplitFirst(a, c, b + tail);
    SplitTail(b, c, tail);
  }

  lemma SplitSound(s: Text, c: byte, a: Text, b: Text)
    requires SplitOnce(s, c) == Some((a, b))
    ensures s == a + ([c] + b) && c !in a
  {
    Associate(a, [c], b);
  }

  lemma SplitHead(s: Text, c: byte) returns (tail: Text)
    ensures Tail(tail, c) && s == Split(s, c)[0] + tail && c !in Split(s, c)[0]
    ensures |Split(s, c)| >= 2 ==> tail != [] && Split(tail[1..], c) == Split(s, c)[1..]
  {
    match SplitOnce(s, c)
    case None =>
      tail := [];
    case Some((a, b)) =>
      SplitSound(s, c, a, b);
      tail := [c] + b;
      assert tail[1..] == b;
  }

  lemma SplitTwoSound(s: Text, c: byte) returns (tail: Text)
    requires |Split(s, c)| >= 2
    ensures var parts := Split(s, c);
      Tail(tail, c) && s == parts[0] + [c] + (parts[1] + tail) && c !in parts[0] && c !in parts[1]
  {
    var parts := Split(s, c);
    var rest := SplitHead(s, c);
    tail := SplitHead(rest[1..], c);
    Rejoin(s, parts[0], c, rest, parts[1], tail);
  }

  lemma Rejoin(s: Text, a: Text, c: byte, rest: Text, b: Text, tail: Text)
    requires s == a + rest && rest != [] && rest[0] == c && rest[1..] == b + tail
    ensures s == a + [c] + (b + tail)
  {
    assert rest == [c] + rest[1..];
    Associate(a, [c], rest[1..]);
  }

  /** At the last occurrence of `sep`. */
  function RSplitOnce(s: Text, sep: Text): (r: Option<(Text, Text)>)
    requires sep != []
    ensures r.Some? ==> s == r.value.0 + sep + r.value.1
  {
    if s == [] then None
    else
      match RSplitOnce(s[1..], sep)
      case Some((a, b)) => Some(([s[0]] + a, b))
      case None => if sep <= s then Some(([], s[|sep|..])) else None
  }

  predicate Occurs(sep: Text, s: Text) {
    sep <= s || (s != [] && Occurs(sep, s[1..]))
  }

  lemma {:induction false} RSplitOnceNone(s: Text, sep: Text)
    requires sep != []
    ensures RSplitOnce(s, sep) == None <==> !Occurs(sep, s)
  {
    if s != [] {
      RSplitOnceNone(s[1..], sep);
    }
  }

  /** The text is split where the separator begins for the last time. */
  lemma {:induction false} RSplitOnceIff(s: Text, sep: Text, a: Text, b: Text)
    requires sep != []
    ensures RSplitOnce(s, sep) == Some((a, b)) <==> s == a + sep + b && !Occurs(sep, (sep + b)[1..])
  {
    if s == [] {
      assert a + sep + b != [];
    } else if a == [] {
      RSplitOnceNone(s[1..], sep);
      assert a + sep + b == sep + b;
      assert sep <= s ==> s == sep + s[|sep|..];
    } else {
      RSplitOnceIff(s[1..], sep, a[1..], b);
      RSplitOnceNone(s[1..], sep);
      assert (a + sep + b)[1..] == a[1..] + sep + b;
      assert s == [s[0]] + s[1..] && a == [a[0]] + a[1..];
    }
  }

  lemma {:induction false} RSplitOnceAbsent(s: Text, sep: Text)
    requires sep != [] && sep[0] !in s
    ensures RSplitOnce(s, sep) == None
  {
    if s != [] {
      RSplitOnceAbsent(s[1..], sep);
    }
  }

  lemma {:induction false} RSplitOnceAt(a: Text, sep: Text, b: Text)
    requires sep != [] && sep[0] !in sep[1..] && sep[0] !in b
    ensures RSplitOnce(a + sep + b, sep) == Some((a, b))
  {
    var s := a + sep + b;
    if a == [] {
      assert s[1..] == sep[1..] + b;
      RSplitOnceAbsent(s[1..], sep);
    } else {
      assert s[1..] == a[1..] + sep + b;
      RSplitOnceAt(a[1..], sep, b);
      assert a == [a[0]] + a[1..];
    }
  }

  // ---------- Exclusive or -----------------------------------------------

  function XorBits(a: nat, b: nat): nat
    decreases a + b
  {
    if a == 0 && b == 0 then 0 else (a + b) % 2 + 2 * XorBits(a / 2, b / 2)
  }

  lemma XorBitsStep(a: nat, b: nat)
    ensures XorBits(a, b) / 2 == XorBits(a / 2, b / 2) && XorBits(a, b) % 2 == (a + b) % 2
  {
  }

  lemma Parity(a: nat, b: nat, x: nat)
    requires x % 2 == (a + b) % 2
    ensures (x + b) % 2 == a % 2
  {
  }

  lemma {:induction false} XorBitsCancel(a: nat, b: nat)
    ensures XorBits(XorBits(a, b), b) == a
    decreases a + b
  {
    if a != 0 || b != 0 {
      XorBitsCancel(a / 2, b / 2);
      XorBitsStep(a, b);
      XorBitsStep(XorBits(a, b), b);
      Parity(a, b, XorBits(a, b));
    }
  }

  function Pow2(n: nat): (p: nat)
    ensures p > 0
  {
    if n == 0 then 1 else 2 * Pow2(n - 1)
  }

  lemma {:induction false} XorBitsBound(a: nat, b: nat, n: nat)
    requires a < Pow2(n) && b < Pow2(n)
    ensures XorBits(a, b) < Pow2(n)
  {
    if n > 0 {
      XorBitsBound(a / 2, b / 2, n - 1);
    }
  }

  function Xor(a: byte, b: byte): byte {
    assert Pow2(8) == 256 by { assert Pow2(4) == 16; }
    XorBitsBound(a, b, 8);
    XorBits(a, b)
  }

  /** Byte by byte, as far as the shorter of the two reaches. */
  function XorAll(a: Text, b: Text): (r: Text)
    ensures |r| == if |a| <= |b| then |a| else |b|
  {
    seq(if |a| <= |b| then |a| else |b|, i requires 0 <= i < |a| && i < |b| => Xor(a[i], b[i]))
  }

  lemma XorAllCancel(a: Text, b: Text)
    requires |a| <= |b|
    ensures XorAll(XorAll(a, b), b) == a
  {
    forall i | 0 <= i < |a| ensures XorAll(XorAll(a, b), b)[i] == a[i] {
      XorBitsCancel(a[i], b[i]);
    }
  }

  function Bit(x: nat, k: nat): nat {
    if k == 0 then x % 2 else Bit(x / 2, k - 1)
  }

  /** Each bit is the sum of the two bits without a carry. */
  lemma {:induction false} XorBitsBit(a: nat, b: nat, k: nat)
    ensures Bit(XorBits(a, b), k) == (Bit(a, k) + Bit(b, k)) % 2
  {
    XorBitsStep(a, b);
    if k > 0 {
      XorBitsBit(a / 2, b / 2, k - 1);
    }
  }

  lemma XorAllBits(a: Text, b: Text, i: nat, k: nat)
    requires i < |a| && i < |b|
    ensures Bit(XorAll(a, b)[i], k) == (Bit(a[i], k) + Bit(b[i], k)) % 2
  {
    XorBitsBit(a[i], b[i], k);
  }

  /** Bits are the digits to the base of two. */
  lemma {:induction false} BitIsDigit(x: nat, k: nat)
    ensures Bit(x, k) == x / Pow2(k) % 2
  {
    if k > 0 {
      BitIsDigit(x / 2, k - 1);
      Halved(x, Pow2(k - 1));
    }
  }

  lemma Halved(a: nat, m: nat)
    requires m > 0
    ensures a / 2 / m == a / (2 * m)
  {
    var q, r := a / (2 * m), a % (2 * m);
    assert a == q * (2 * m) + r;
    assert a / 2 == q * m + r / 2;
    QuotientOf(q, r / 2, m);
  }

  lemma QuotientOf(q: nat, r: nat, m: nat)
    requires r < m
    ensures (q * m + r) / m == q
  {
    var d := (q * m + r) / m;
    Ordered(d + 1, q, m);
    Ordered(q + 1, d, m);
  }

  lemma Ordered(a: nat, b: nat, m: nat)
    ensures a <= b ==> a * m <= b * m
  {
  }

  // ---------- Numbers ----------------------------------------------------

  /** The number that a text stands for, most significant byte first. */
  function NumberOf(b: Text): nat {
    if b == [] then 0 else NumberOf(b[..|b| - 1]) * 0x100 + b[|b| - 1]
  }

  /** The number with the given digits to the base of 64. */
  lemma FourDigits(a: int, b: int, c: int, d: int) returns (u: int)
    requires 0 <= a && 0 <= b < 0x40 && 0 <= c < 0x40 && 0 <= d < 0x40
    ensures u == a * 0x4_0000 + b * 0x1000 + c * 0x40 + d
    ensures u / 0x4_0000 == a && u / 0x1000 % 0x40 == b && u / 0x40 % 0x40 == c && u % 0x40 == d
  {
    var two := a * 0x40 + b;
    var three := two * 0x40 + c;
    u := three * 0x40 + d;
    LastDigit(three, d);
    LastDigit(two, c);
    LastDigit(a, b);
    Quotients(u);
  }

  lemma LastDigit(q: int, r: int)
    requires 0 <= q && 0 <= r < 0x40
    ensures (q * 0x40 + r) / 0x40 == q && (q * 0x40 + r) % 0x40 == r
  {
  }

  lemma Quotients(u: int)
    requires u >= 0
    ensures u / 0x1000 == u / 0x40 / 0x40 && u / 0x4_0000 == u / 0x40 / 0x40 / 0x40
  {
  }

  // ---------- Decimal numbers --------------------------------------------

  const U32_MAX := 0xFFFF_FFFF

  predicate IsDigit(c: byte) {
    48 <= c <= 57
  }

  predicate AllDigits(s: Text) {
    forall c :: c in s ==> IsDigit(c)
  }

  function ValueOf(s: Text): nat
    requires AllDigits(s)
  {
    if s == [] then 0 else
      assert s[|s| - 1] in s;
      10 * ValueOf(s[..|s| - 1]) + (s[|s| - 1] as int - 48)
  }

  function Decimal(n: nat): (s: Text)
    ensures s != [] && AllDigits(s) && ValueOf(s) == n
    ensures s[0] == 48 ==> |s| == 1
  {
    if n < 10 then
      var s: Text := [48 + n];
      assert s[..0] == [];
      s
    else
      var p := Decimal(n / 10);
      var s := p + [48 + n % 10];
      assert s[..|s| - 1] == p;
      assert p[0] != 48 by {
        assert |p| == 1 ==> p[..0] == [];
      }
      s
  }

  /** Rust's `str::parse::<u32>`: an optional plus sign and at least one digit, leading zeros
      allowed, out of range refused. */
  function ParseU32(s: Text): Option<nat> {
    var digits := if s != [] && s[0] == 43 then s[1..] else s;
    if digits != [] && AllDigits(digits) && ValueOf(digits) <= U32_MAX then Some(ValueOf(digits)) else None
  }

  lemma ParseU32Decimal(n: nat)
    requires n <= U32_MAX
    ensures ParseU32(Decimal(n)) == Some(n)
  {
    assert Decimal(n)[0] in Decimal(n);
  }

  /** Without a sign and without leading zeros there is one way to write a number. */
  lemma {:induction false} DecimalIsCanonical(s: Text)
    requires s != [] && AllDigits(s)
    ensures Decimal(ValueOf(s)) == s <==> (s[0] == 48 ==> |s| == 1)
  {
    if s[0] != 48 || |s| == 1 {
      WrittenOnce(s);
    }
  }

  lemma {:induction false} WrittenOnce(s: Text)
    requires s != [] && AllDigits(s) && (s[0] == 48 ==> |s| == 1)
    ensures Decimal(ValueOf(s)) == s
    ensures s[0] != 48 ==> ValueOf(s) > 0
  {
    var p, d := s[..|s| - 1], s[|s| - 1];
    assert s == p + [d] && d in s;
    if p != [] {
      WrittenOnce(p);
      assert ValueOf(s) / 10 == ValueOf(p) && ValueOf(s) % 10 == d as int - 48;
    }
  }
}
