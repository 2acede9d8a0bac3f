/** The composite hot-store key `{micros:016x}:{seq:08x}:{name}` of src/storage/fjall_engine.rs. */
module KeyCodec {
  import opened Bytes
  import opened Wrappers

  const U32: nat := 0x1_0000_0000
  const U64: nat := 0x1_0000_0000_0000_0000

  type u32 = n: nat | n < U32
  type u64 = n: nat | n < U64

  const COLON: Byte := 0x3A
  const PLUS: Byte := 0x2B

  // ----- hexadecimal fields

  function Pow16(w: nat): (p: nat)
    ensures p >= 1
  {
    if w == 0 then 1 else 16 * Pow16(w - 1)
  }

  /** Digit `d` as `{:x}` prints it. */
  function HexDigit(d: nat): (b: Byte)
    requires d < 16
  {
    if d < 10 then 0x30 + d else 0x61 + (d - 10)
  }

  /** `{n:0wx}` for a number that fits the width. */
  function Hex(n: nat, w: nat): (s: Bytestring)
    requires n < Pow16(w)
    ensures |s| == w
  {
    if w == 0 then [] else Hex(n / 16, w - 1) + [HexDigit(n % 16)]
  }

  /** A hexadecimal digit of either case, as `char::to_digit(16)` reads it. */
  function DigitValue(b: Byte): (v: Option<nat>)
    ensures v.Some? ==> v.value < 16
  {
    if 0x30 <= b <= 0x39 then Some(b - 0x30)
    else if 0x61 <= b <= 0x66 then Some(b - 0x61 + 10)
    else if 0x41 <= b <= 0x46 then Some(b - 0x41 + 10)
    else None
  }

  predicate AllHex(s: Bytestring) { forall i :: 0 <= i < |s| ==> DigitValue(s[i]).Some? }

  function HexValue(s: Bytestring): nat
    requires AllHex(s)
  {
    if s == [] then 0 else 16 * HexValue(s[..|s| - 1]) + DigitValue(s[|s| - 1]).value
  }

  /** `u64::from_str_radix(s, 16)`: an optional `+`, then at least one digit, refused on overflow. */
  function ParseHexU64(s: Bytestring): (r: Option<u64>)
  {
    var digits := if s != [] && s[0] == PLUS then s[1..] else s;
    if digits != [] && AllHex(digits) && HexValue(digits) < U64 then Some(HexValue(digits)) else None
  }

  // ----- the codec

  /** `encode_key`. */
  function EncodeKey(ts: u64, seqNo: u32, name: Bytestring): Bytestring
  {
    Widths();
    Hex(ts, 16) + [COLON] + (Hex(seqNo, 8) + [COLON] + name)
  }

  /** `cutoff_prefix`. */
  function CutoffPrefix(cutoff: u64): Bytestring
  {
    Widths();
    Hex(cutoff, 16)
  }

  /** `decode_key`: split at the first two separators; the middle field is not examined. */
  function DecodeKey(key: Bytestring): (r: Option<(u64, Utf8)>)
  {
    var i := Find(key, COLON);
    if i == |key| then None
    else
      var rest := key[i + 1..];
      var j := Find(rest, COLON);
      if j == |rest| then None
      else
        var name := rest[j + 1..];
        var ts := ParseHexU64(key[..i]);
        if ValidUtf8(key[..i]) && ts.Some? && ValidUtf8(name) then Some((ts.value, name)) else None
  }

  predicate Decodable(key: Bytestring) { DecodeKey(key).Some? }

  // ----- hexadecimal lemmas

  lemma Widths()
    ensures Pow16(16) == U64 && Pow16(8) == U32
  {}

  /** Every printed byte is an ASCII digit, so neither a separator nor a sign. */
  lemma {:induction false} HexIsAscii(n: nat, w: nat)
    requires n < Pow16(w)
    ensures forall i :: 0 <= i < w ==> Hex(n, w)[i] != COLON && Hex(n, w)[i] != PLUS && Hex(n, w)[i] < 0x80
  {
    if w == 0 {
    } else {
      HexIsAscii(n / 16, w - 1);
    }
  }

  lemma DigitReadsBack(d: nat)
    requires d < 16
    ensures DigitValue(HexDigit(d)) == Some(d)
  {}

  /** Printing then reading gives the number back. */
  lemma {:induction false} HexReadsBack(n: nat, w: nat)
    requires n < Pow16(w)
    ensures var s := Hex(n, w); AllHex(s) && HexValue(s) == n
  {
    if w == 0 {
    } else {
      HexReadsBack(n / 16, w - 1);
      DigitReadsBack(n % 16);
      var front, s := Hex(n / 16, w - 1), Hex(n, w);
      assert s[..w - 1] == front && s[w - 1] == HexDigit(n % 16);
      forall i | 0 <= i < w ensures DigitValue(s[i]).Some? { assert i < w - 1 ==> s[i] == front[i]; }
    }
  }

  lemma HexInjective(a: nat, b: nat, w: nat)
    requires a < Pow16(w) && b < Pow16(w)
    ensures Hex(a, w) == Hex(b, w) <==> a == b
  {
    HexReadsBack(a, w);
    HexReadsBack(b, w);
  }

  /** Zero padding makes byte order numeric order. */
  lemma {:induction false} HexOrder(a: nat, b: nat, w: nat)
    requires a < Pow16(w) && b < Pow16(w)
    ensures Less(Hex(a, w), Hex(b, w)) <==> a < b
  {
    if w == 0 {
    } else {
      HexOrder(a / 16, b / 16, w - 1);
      HexInjective(a / 16, b / 16, w - 1);
      var x: Bytestring, y: Bytestring := [HexDigit(a % 16)], [HexDigit(b % 16)];
      LessFixedWidth(Hex(a / 16, w - 1), Hex(b / 16, w - 1), x, y);
      assert Less(x, y) <==> a % 16 < b % 16 by { assert x[1..] == [] && y[1..] == []; }
    }
  }

  /** The digits as they are spelled: printed in lower case, read in either. */
  lemma DigitsSpelled(d: nat, b: Byte)
    requires d < 16
    ensures HexDigit(d) as char == "0123456789abcdef"[d]
    ensures DigitValue(b) == Some(d) <==> b as char == "0123456789abcdef"[d] || b as char == "0123456789ABCDEF"[d]
    ensures DigitValue(b) == None <==> !('0' <= b as char <= '9' || 'a' <= b as char <= 'f' || 'A' <= b as char <= 'F')
  {}

  /** Digits are read positionally: the leading one counts once for each number of the digits behind it. */
  lemma {:induction false} LeadingDigit(s: Bytestring)
    requires s != [] && AllHex(s)
    ensures AllHex(s[1..]) && HexValue(s) == DigitValue(s[0]).value * Pow16(|s| - 1) + HexValue(s[1..])
  {
    if |s| == 1 {
      assert s[1..] == [] && s[..0] == [];
    } else {
      var n := |s| - 1;
      LeadingDigit(s[..n]);
      assert s[..n][1..] == s[1..][..n - 1] && s[1..][n - 1] == s[n];
      Shift(DigitValue(s[0]).value, Pow16(n - 1), HexValue(s[1..][..n - 1]));
    }
  }

  lemma Shift(d: nat, p: nat, v: nat)
    ensures 16 * (d * p + v) == d * (16 * p) + 16 * v
  {}

  /** The text is digits after an optional `+`, and their number fits 64 bits. */
  predicate Spells(s: Bytestring, digits: Bytestring, v: nat)
  {
    && (s == digits || s == ['+' as int] + digits) && digits != [] && AllHex(digits)
    && HexValue(digits) == v && v <= 0xFFFF_FFFF_FFFF_FFFF
  }

  /** `from_str_radix` accepts exactly such texts, and yields their number. */
  lemma ParsedIffSpelled(s: Bytestring, v: u64)
    ensures ParseHexU64(s) == Some(v) <==> exists digits :: Spells(s, digits, v)
  {
    var digits := if s != [] && s[0] == PLUS then s[1..] else s;
    if ParseHexU64(s) == Some(v) {
      assert s[0] == PLUS ==> s == ['+' as int] + digits;
      assert Spells(s, digits, v);
    }
    if other :| Spells(s, other, v) {
      DigitsSpelled(0, PLUS);
      if s == other { assert DigitValue(s[0]).Some?; } else { assert s[1..] == other; }
    }
  }

  // ----- what the codec promises

  /** A key byte by byte: 16 digits of the timestamp, a colon, 8 digits of the sequence number, a colon, the name. */
  lemma KeyLayout(ts: u64, seqNo: u32, name: Bytestring)
    ensures var key := EncodeKey(ts, seqNo, name);
      && |key| == 26 + |name| && key[16] as char == ':' && key[25] as char == ':' && key[26..] == name
      && AllHex(key[..16]) && HexValue(key[..16]) == ts
      && AllHex(key[17..25]) && HexValue(key[17..25]) == seqNo
  {
    Widths();
    HexReadsBack(ts, 16);
    HexReadsBack(seqNo, 8);
    var key := EncodeKey(ts, seqNo, name);
    assert key[..16] == Hex(ts, 16) && key[17..25] == Hex(seqNo, 8);
  }

  /** Byte order of keys is the order of `(timestamp, sequence, name)`. */
  lemma OrderEmbedding(t1: u64, q1: u32, n1: Bytestring, t2: u64, q2: u32, n2: Bytestring)
    ensures Less(EncodeKey(t1, q1, n1), EncodeKey(t2, q2, n2)) <==>
            t1 < t2 || (t1 == t2 && (q1 < q2 || (q1 == q2 && Less(n1, n2))))
  {
    Widths();
    HexOrder(t1, t2, 16);
    HexOrder(q1, q2, 8);
    HexInjective(t1, t2, 16);
    HexInjective(q1, q2, 8);
    var c: Bytestring := [COLON];
    var b1, b2 := Hex(q1, 8) + c + n1, Hex(q2, 8) + c + n2;
    LessFixedWidth(Hex(t1, 16) + c, Hex(t2, 16) + c, b1, b2);
    LessFixedWidth(Hex(t1, 16), Hex(t2, 16), c, c);
    LessFixedWidth(Hex(q1, 8) + c, Hex(q2, 8) + c, n1, n2);
    LessFixedWidth(Hex(q1, 8), Hex(q2, 8), c, c);
    LessIrreflexive(c);
    assert Hex(t1, 16) == (Hex(t1, 16) + c)[..16] && Hex(t2, 16) == (Hex(t2, 16) + c)[..16];
    assert Hex(q1, 8) == (Hex(q1, 8) + c)[..8] && Hex(q2, 8) == (Hex(q2, 8) + c)[..8];
  }

  lemma EncodeInjective(t1: u64, q1: u32, n1: Bytestring, t2: u64, q2: u32, n2: Bytestring)
    requires EncodeKey(t1, q1, n1) == EncodeKey(t2, q2, n2)
    ensures t1 == t2 && q1 == q2 && n1 == n2
  {
    LessIrreflexive(EncodeKey(t1, q1, n1));
    OrderEmbedding(t1, q1, n1, t2, q2, n2);
    OrderEmbedding(t2, q2, n2, t1, q1, n1);
    LessTotal(n1, n2);
  }

  /** A key lies below the cutoff prefix exactly when its timestamp is below the cutoff. */
  lemma CutoffExact(ts: u64, seqNo: u32, name: Bytestring, cutoff: u64)
    ensures Less(EncodeKey(ts, seqNo, name), CutoffPrefix(cutoff)) <==> ts < cutoff
  {
    Widths();
    HexOrder(ts, cutoff, 16);
    var rest := [COLON] + (Hex(seqNo, 8) + [COLON] + name);
    LessFixedWidth(Hex(ts, 16), Hex(cutoff, 16), rest, []);
    assert EncodeKey(ts, seqNo, name) == Hex(ts, 16) + rest;
    assert CutoffPrefix(cutoff) == Hex(cutoff, 16) + [];
  }

  /**
   * The separator sorts above the decimal digits and below the letters: width, not the separator, makes the cutoff
   * exact.
   */
  lemma SeparatorSortsBetweenDigits(d: nat)
    requires d < 16
    ensures HexDigit(d) < COLON <==> d < 10
    ensures HexDigit(d) != COLON
  {}

  /** `key` is a hexadecimal timestamp, a middle field and a name, joined by separators the first two fields lack. */
  predicate HasShape(key: Bytestring, t: Bytestring, q: Bytestring, ts: u64, name: Utf8)
  {
    && key == t + [COLON] + (q + [COLON] + name)
    && COLON !in t && COLON !in q && ParseHexU64(t) == Some(ts)
  }

  lemma SplitAtColon(s: Bytestring) returns (field: Bytestring, rest: Bytestring)
    requires COLON in s
    ensures s == field + [COLON] + rest && COLON !in field
  {
    var i := Find(s, COLON);
    assert i < |s| by { assert s[..|s|] == s; }
    field, rest := s[..i], s[i + 1..];
  }

  lemma DecodedHasShape(key: Bytestring) returns (t: Bytestring, q: Bytestring)
    requires Decodable(key)
    ensures HasShape(key, t, q, DecodeKey(key).value.0, DecodeKey(key).value.1)
  {
    var rest;
    t, rest := SplitAtColon(key);
    var name;
    q, name := SplitAtColon(rest);
    DecodeSplit(t, q, name);
  }

  /** The decoder, total over byte strings, accepts exactly the keys of that shape. */
  lemma DecodeShape(key: Bytestring, ts: u64, name: Utf8)
    ensures DecodeKey(key) == Some((ts, name)) <==> exists t, q :: HasShape(key, t, q, ts, name)
  {
    if DecodeKey(key) == Some((ts, name)) {
      var t, q := DecodedHasShape(key);
      assert HasShape(key, t, q, ts, name);
    }
    if t, q :| HasShape(key, t, q, ts, name) {
      DecodeSplit(t, q, name);
      HexTextIsUtf8(t);
    }
  }

  lemma DecodeSplit(t: Bytestring, q: Bytestring, name: Bytestring)
    requires COLON !in t && COLON !in q
    ensures var key := t + [COLON] + (q + [COLON] + name);
            DecodeKey(key) ==
            if ValidUtf8(t) && ParseHexU64(t).Some? && ValidUtf8(name)
            then Some((ParseHexU64(t).value, name)) else None
  {
    var rest := q + [COLON] + name;
    var key := t + [COLON] + rest;
    FindUnique(t, COLON, rest);
    FindUnique(q, COLON, name);
    assert key[..|t|] == t && key[|t| + 1..] == rest && rest[|q| + 1..] == name;
  }

  lemma HexTextIsUtf8(t: Bytestring)
    requires ParseHexU64(t).Some?
    ensures ValidUtf8(t)
  {
    forall i | 0 <= i < |t| ensures t[i] < 0x80 {
      if t[0] == PLUS && i > 0 { assert t[1..][i - 1] == t[i]; }
    }
    AsciiIsUtf8(t);
  }

  /** Decoding an encoded key gives its timestamp and name, whatever separators the name contains. */
  lemma KeyRoundTrip(ts: u64, seqNo: u32, name: Utf8)
    ensures DecodeKey(EncodeKey(ts, seqNo, name)) == Some((ts, name))
  {
    Widths();
    HexReadsBack(ts, 16);
    HexIsAscii(ts, 16);
    HexIsAscii(seqNo, 8);
    var t, q := Hex(ts, 16), Hex(seqNo, 8);
    DecodeSplit(t, q, name);
    assert t[0] != PLUS;
    HexTextIsUtf8(t);
  }

  /** The decoder is not injective: lower case, upper case, a sign and a short field all read alike. */
  lemma DecoderAcceptsOtherSpellings()
    ensures exists a: Bytestring, b: Bytestring :: a != b && Decodable(a) && DecodeKey(a) == DecodeKey(b)
  {
    var a: Bytestring, b: Bytestring := [0x61], [0x41];
    assert HexValue(a) == 10 by { assert a[..0] == []; }
    assert HexValue(b) == 10 by { assert b[..0] == []; }
    HexTextIsUtf8(a);
    HexTextIsUtf8(b);
    DecodeSplit(a, [], []);
    DecodeSplit(b, [], []);
    var ka := a + [COLON] + ([] + [COLON] + []);
    var kb := b + [COLON] + ([] + [COLON] + []);
    assert ka[0] != kb[0];
    assert Decodable(ka) && DecodeKey(ka) == DecodeKey(kb);
  }
}
