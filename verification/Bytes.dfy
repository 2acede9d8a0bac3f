/** Byte strings, their lexicographic order, and UTF-8 validity. */
module Bytes {

  type Byte = b: int | 0 <= b < 256

  /** A Rust `Vec<u8>` or `&[u8]`. */
  type Bytestring = seq<Byte>

  /** Strict lexicographic order, as the store sorts its keys. */
  predicate Less(a: Bytestring, b: Bytestring)
  {
    if b == [] then false
    else if a == [] then true
    else a[0] < b[0] || (a[0] == b[0] && Less(a[1..], b[1..]))
  }

  /** `a` and `b` agree before position `i`, where `a` ends or has the smaller byte. */
  predicate SmallerAt(a: Bytestring, b: Bytestring, i: nat)
  {
    i <= |a| && i < |b| && a[..i] == b[..i] && (i == |a| || a[i] < b[i])
  }

  lemma AgreeAtStart(a: Bytestring, b: Bytestring, i: nat)
    requires SmallerAt(a, b, i) && i > 0
    ensures a[0] == b[0]
  {
    assert a[..i][0] == b[..i][0];
  }

  /** The order is decided at the first place where the two differ, or where the shorter ends. */
  lemma {:induction false} LessIff(a: Bytestring, b: Bytestring)
    ensures Less(a, b) <==> exists i: nat :: SmallerAt(a, b, i)
  {
    if a == [] || b == [] || a[0] != b[0] {
      if Less(a, b) { assert SmallerAt(a, b, 0); }
      if i: nat :| SmallerAt(a, b, i) && i > 0 { AgreeAtStart(a, b, i); }
    } else {
      LessIff(a[1..], b[1..]);
      if i: nat :| SmallerAt(a[1..], b[1..], i) {
        assert a[..i + 1] == [a[0]] + a[1..][..i] && b[..i + 1] == [b[0]] + b[1..][..i];
        assert SmallerAt(a, b, i + 1);
      }
      if i: nat :| SmallerAt(a, b, i) {
        assert i > 0 && a[1..][..i - 1] == a[..i][1..] && b[1..][..i - 1] == b[..i][1..];
        assert SmallerAt(a[1..], b[1..], i - 1);
      }
    }
  }

  lemma {:induction false} LessIrreflexive(a: Bytestring)
    ensures !Less(a, a)
  {
    if a == [] {
    } else {
      LessIrreflexive(a[1..]);
    }
  }

  lemma {:induction false} LessTransitive(a: Bytestring, b: Bytestring, c: Bytestring)
    requires Less(a, b) && Less(b, c)
    ensures Less(a, c)
  {
    if a != [] && a[0] == b[0] == c[0] { LessTransitive(a[1..], b[1..], c[1..]); }
  }

  lemma {:induction false} LessTotal(a: Bytestring, b: Bytestring)
    ensures Less(a, b) || a == b || Less(b, a)
  {
    if a != [] && b != [] && a[0] == b[0] {
      LessTotal(a[1..], b[1..]);
      assert a == [a[0]] + a[1..] && b == [b[0]] + b[1..];
    }
  }

  lemma LessAsymmetric(a: Bytestring, b: Bytestring)
    requires Less(a, b)
    ensures a != b && !Less(b, a)
  {}

  /** Fields of equal width compare first; the rest only breaks a tie. */
  lemma {:induction false} LessFixedWidth(a: Bytestring, b: Bytestring, x: Bytestring, y: Bytestring)
    requires |a| == |b|
    ensures Less(a + x, b + y) <==> Less(a, b) || (a == b && Less(x, y))
  {
    if a == [] {
      assert a + x == x && b + y == y;
    } else {
      assert (a + x)[1..] == a[1..] + x && (b + y)[1..] == b[1..] + y;
      LessFixedWidth(a[1..], b[1..], x, y);
      assert a == [a[0]] + a[1..] && b == [b[0]] + b[1..];
    }
  }

  /** Length of the longest prefix without byte `b`: the position of its first occurrence, or the length. */
  function Find(s: Bytestring, b: Byte): (i: nat)
    ensures i <= |s|
    ensures b !in s[..i]
    ensures i < |s| ==> s[i] == b
  {
    if s == [] || s[0] == b then 0
    else
      var i := 1 + Find(s[1..], b);
      assert s[..i] == [s[0]] + s[1..][..i - 1];
      i
  }

  lemma {:induction false} FindUnique(p: Bytestring, b: Byte, rest: Bytestring)
    requires b !in p
    ensures Find(p + [b] + rest, b) == |p|
  {
    if p == [] {
    } else {
      assert p[0] in p && p + [b] + rest == [p[0]] + (p[1..] + [b] + rest);
      FindUnique(p[1..], b, rest);
    }
  }

  predicate Continuation(b: Byte) { 0x80 <= b <= 0xBF }

  /** The byte sequences `std::str::from_utf8` accepts (the table of RFC 3629, section 4). */
  predicate ValidUtf8(s: Bytestring)
    decreases |s|
  {
    if s == [] then true
    else if s[0] < 0x80 then ValidUtf8(s[1..])
    else if |s| >= 2 && 0xC2 <= s[0] <= 0xDF then
      Continuation(s[1]) && ValidUtf8(s[2..])
    else if |s| >= 3 && 0xE0 <= s[0] <= 0xEF then
      && Continuation(s[1]) && Continuation(s[2])
      && (s[0] == 0xE0 ==> 0xA0 <= s[1])
      && (s[0] == 0xED ==> s[1] <= 0x9F)
      && ValidUtf8(s[3..])
    else if |s| >= 4 && 0xF0 <= s[0] <= 0xF4 then
      && Continuation(s[1]) && Continuation(s[2]) && Continuation(s[3])
      && (s[0] == 0xF0 ==> 0x90 <= s[1])
      && (s[0] == 0xF4 ==> s[1] <= 0x8F)
      && ValidUtf8(s[4..])
    else false
  }

  /** A Rust `String`, as its bytes. */
  type Utf8 = s: Bytestring | ValidUtf8(s)

  lemma {:induction false} AsciiIsUtf8(s: Bytestring)
    requires forall i :: 0 <= i < |s| ==> s[i] < 0x80
    ensures ValidUtf8(s)
  {
    if s == [] {
    } else {
      AsciiIsUtf8(s[1..]);
    }
  }

  // ----- UTF-8 as an encoding

  /** A Unicode scalar value: a code point that is not a surrogate. */
  type Scalar = c: nat | c < 0xD800 || 0xE000 <= c < 0x11_0000

  /** One character in one to four bytes, six bits in each continuation (section 3 of RFC 3629). */
  function EncodeScalar(c: Scalar): (s: Bytestring)
  {
    if c < 0x80 then [c]
    else if c < 0x800 then [0xC0 + c / 64, 0x80 + c % 64]
    else if c < 0x1_0000 then [0xE0 + c / 64 / 64, 0x80 + c / 64 % 64, 0x80 + c % 64]
    else [0xF0 + c / 64 / 64 / 64, 0x80 + c / 64 / 64 % 64, 0x80 + c / 64 % 64, 0x80 + c % 64]
  }

  function EncodeText(text: seq<Scalar>): Bytestring
  {
    if text == [] then [] else EncodeScalar(text[0]) + EncodeText(text[1..])
  }

  lemma ScalarThenRest(c: Scalar, rest: Bytestring)
    requires ValidUtf8(rest)
    ensures ValidUtf8(EncodeScalar(c) + rest)
  {
    var s := EncodeScalar(c) + rest;
    assert s[|EncodeScalar(c)|..] == rest;
  }

  /** Six more bits. */
  function Six(high: nat, low: nat): (c: nat)
    requires low < 64
    ensures c / 64 == high && c % 64 == low
  {
    64 * high + low
  }

  lemma TwoBytes(a: Byte, x: Byte) returns (c: Scalar)
    requires 0xC2 <= a <= 0xDF && Continuation(x)
    ensures EncodeScalar(c) == [a, x]
  {
    c := Six(a - 0xC0, x - 0x80);
  }

  lemma ThreeBytes(a: Byte, x: Byte, y: Byte) returns (c: Scalar)
    requires 0xE0 <= a <= 0xEF && Continuation(x) && Continuation(y)
    requires (a == 0xE0 ==> 0xA0 <= x) && (a == 0xED ==> x <= 0x9F)
    ensures EncodeScalar(c) == [a, x, y]
  {
    c := Six(Six(a - 0xE0, x - 0x80), y - 0x80);
  }

  lemma FourBytes(a: Byte, x: Byte, y: Byte, z: Byte) returns (c: Scalar)
    requires 0xF0 <= a <= 0xF4 && Continuation(x) && Continuation(y) && Continuation(z)
    requires (a == 0xF0 ==> 0x90 <= x) && (a == 0xF4 ==> x <= 0x8F)
    ensures EncodeScalar(c) == [a, x, y, z]
  {
    c := Six(Six(Six(a - 0xF0, x - 0x80), y - 0x80), z - 0x80);
  }

  /** The character that a valid text starts with. */
  lemma FirstScalar(s: Bytestring) returns (c: Scalar, w: nat)
    requires ValidUtf8(s) && s != []
    ensures 0 < w <= |s| && s[..w] == EncodeScalar(c) && ValidUtf8(s[w..])
  {
    if s[0] < 0x80 {
      c, w := s[0], 1;
    } else if s[0] <= 0xDF {
      c := TwoBytes(s[0], s[1]);
      w := 2;
    } else if s[0] <= 0xEF {
      c := ThreeBytes(s[0], s[1], s[2]);
      w := 3;
    } else {
      c := FourBytes(s[0], s[1], s[2], s[3]);
      w := 4;
    }
  }

  lemma {:induction false} TextIsUtf8(text: seq<Scalar>)
    ensures ValidUtf8(EncodeText(text))
  {
    if text == [] {
    } else {
      TextIsUtf8(text[1..]);
      ScalarThenRest(text[0], EncodeText(text[1..]));
    }
  }

  lemma {:induction false} Utf8Text(s: Bytestring) returns (text: seq<Scalar>)
    requires ValidUtf8(s)
    ensures EncodeText(text) == s
    decreases |s|
  {
    if s == [] {
      text := [];
    } else {
      var c, w := FirstScalar(s);
      var rest := Utf8Text(s[w..]);
      assert s == s[..w] + s[w..];
      text := [c] + rest;
      assert text[1..] == rest;
    }
  }

  /** The byte table accepts exactly the encodings of sequences of scalar values. */
  lemma Utf8IsEncoding(s: Bytestring)
    ensures ValidUtf8(s) <==> exists text :: EncodeText(text) == s
  {
    if ValidUtf8(s) {
      var text := Utf8Text(s);
      assert EncodeText(text) == s;
    }
    if text :| EncodeText(text) == s { TextIsUtf8(text); }
  }
}
