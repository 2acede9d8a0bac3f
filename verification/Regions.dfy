/** Region codes: `parse_region` and `normalize_region` of src/visitors.rs. */
module Regions {
  import opened Wrappers

  const UNKNOWN := "unknown"
  const OTHER := "other"

  /** Unicode `White_Space`, as `char::is_whitespace` and `str::trim` use it. */
  predicate IsSpace(c: char)
  {
    var n := c as int;
    || 0x09 <= n <= 0x0D || n == 0x20 || n == 0x85 || n == 0xA0 || n == 0x1680
    || 0x2000 <= n <= 0x200A || n == 0x2028 || n == 0x2029 || n == 0x202F || n == 0x205F || n == 0x3000
  }

  function TrimStart(s: string): string
  {
    if s != "" && IsSpace(s[0]) then TrimStart(s[1..]) else s
  }

  function TrimEnd(s: string): string
  {
    if s != "" && IsSpace(s[|s| - 1]) then TrimEnd(s[..|s| - 1]) else s
  }

  function Upper(c: char): char { if 'a' <= c <= 'z' then (c as int - 32) as char else c }

  /** `trim().to_ascii_uppercase()`. */
  function Canonical(s: string): string
  {
    var t := TrimEnd(TrimStart(s));
    seq(|t|, i requires 0 <= i < |t| => Upper(t[i]))
  }

  /** Exactly two ASCII letters; upper case after `Canonical`. */
  predicate IsCode(s: string)
  {
    |s| == 2 && forall i :: 0 <= i < |s| ==> 'A' <= s[i] <= 'Z' || 'a' <= s[i] <= 'z'
  }

  /** `normalize_region`. */
  function Normalize(region: string): string
  {
    var code := Canonical(region);
    if IsCode(code) then code else if code == "OTHER" then OTHER else UNKNOWN
  }

  /** What a tracker may use as a key. */
  predicate IsRegion(s: string)
  {
    s == UNKNOWN || s == OTHER || (|s| == 2 && 'A' <= s[0] <= 'Z' && 'A' <= s[1] <= 'Z')
  }

  /** The code in the first header that holds one. */
  function FirstCode(headers: seq<Option<string>>): string
  {
    if headers == [] then UNKNOWN
    else if headers[0].Some? && IsCode(Canonical(headers[0].value)) then Canonical(headers[0].value)
    else FirstCode(headers[1..])
  }

  method ParseRegion(cf: Option<string>, vercel: Option<string>, cloudfront: Option<string>) returns (r: string)
    ensures r == FirstCode([cf, vercel, cloudfront])
  {
    var headers := [cf, vercel, cloudfront];
    for i := 0 to |headers|
      invariant FirstCode(headers) == FirstCode(headers[i..])
    {
      if headers[i].Some? {
        var code := Canonical(headers[i].value);
        if IsCode(code) { return code; }
      }
    }
    r := UNKNOWN;
  }

  /** The characters that count as white space, by code point. */
  lemma SpacesListed(c: char)
    ensures IsSpace(c) <==>
      c as int in {0x09, 0x0A, 0x0B, 0x0C, 0x0D, 0x20, 0x85, 0xA0, 0x1680,
                   0x2000, 0x2001, 0x2002, 0x2003, 0x2004, 0x2005, 0x2006, 0x2007, 0x2008, 0x2009, 0x200A,
                   0x2028, 0x2029, 0x202F, 0x205F, 0x3000}
  {}

  /** Upper case letter by letter; everything else stays. */
  lemma UpperSpelled(i: nat, c: char)
    requires i < 26
    ensures Upper("abcdefghijklmnopqrstuvwxyz"[i]) == "ABCDEFGHIJKLMNOPQRSTUVWXYZ"[i]
    ensures !('a' <= c <= 'z') ==> Upper(c) == c
  {}

  /**
   * The header that decides: the first that holds two letters between white space. Without one, the region is
   * unknown.
   */
  lemma {:induction false} FirstCodeDecides(headers: seq<Option<string>>, i: nat, a: string, t: string, b: string)
    requires i <= |headers|
    requires forall j :: 0 <= j < i ==> headers[j].None? || !IsCode(Canonical(headers[j].value))
    requires AllSpaces(a) && AllSpaces(b) && Bare(t) && IsCode(t)
    ensures i == |headers| ==> FirstCode(headers) == "unknown"
    ensures i < |headers| && headers[i] == Some(a + t + b) ==> FirstCode(headers) == [Upper(t[0]), Upper(t[1])]
  {
    if i == 0 {
      if headers != [] && headers[0] == Some(a + t + b) {
        CanonicalPadded(a, t, b);
        SameCode(t, Canonical(a + t + b));
      }
    } else {
      FirstCodeDecides(headers[1..], i - 1, a, t, b);
    }
  }

  lemma NormalizeIsRegion(s: string)
    ensures IsRegion(Normalize(s))
  {}

  /** Regions are the fixed points of normalisation. */
  lemma RegionIsFixed(s: string)
    ensures IsRegion(s) <==> Normalize(s) == s
  {}

  lemma NormalizeIdempotent(s: string)
    ensures Normalize(Normalize(s)) == Normalize(s)
  {
    NormalizeIsRegion(s);
    RegionIsFixed(Normalize(s));
  }

  predicate AllSpaces(s: string) { forall i :: 0 <= i < |s| ==> IsSpace(s[i]) }

  /** No white space at either end. */
  predicate Bare(s: string) { s != "" ==> !IsSpace(s[0]) && !IsSpace(s[|s| - 1]) }

  lemma {:induction false} TrimStartDrops(a: string, s: string)
    requires AllSpaces(a) && (s != "" ==> !IsSpace(s[0]))
    ensures TrimStart(a + s) == s
  {
    if a == "" {
      assert a + s == s;
    } else {
      assert (a + s)[1..] == a[1..] + s;
      TrimStartDrops(a[1..], s);
    }
  }

  lemma {:induction false} TrimEndDrops(s: string, b: string)
    requires AllSpaces(b) && (s != "" ==> !IsSpace(s[|s| - 1]))
    ensures TrimEnd(s + b) == s
  {
    if b == "" {
      assert s + b == s;
    } else {
      assert (s + b)[..|s + b| - 1] == s + b[..|b| - 1];
      TrimEndDrops(s, b[..|b| - 1]);
    }
  }

  /** Trimming takes off all outer white space and nothing else. */
  lemma PaddingIgnored(a: string, t: string, b: string)
    requires AllSpaces(a) && AllSpaces(b) && Bare(t)
    ensures TrimEnd(TrimStart(a + t + b)) == t
  {
    if t == "" {
      assert a + t + b == (a + b) + t;
      TrimStartDrops(a + b, t);
    } else {
      assert a + t + b == a + (t + b);
      TrimStartDrops(a, t + b);
      TrimEndDrops(t, b);
    }
  }

  predicate SameIgnoringCase(s: string, upper: string)
  {
    |s| == |upper| && forall i :: 0 <= i < |s| ==> Upper(s[i]) == upper[i]
  }

  lemma CanonicalPadded(a: string, t: string, b: string)
    requires AllSpaces(a) && AllSpaces(b) && Bare(t)
    ensures SameIgnoringCase(t, Canonical(a + t + b))
  {
    PaddingIgnored(a, t, b);
  }

  lemma SameCode(t: string, code: string)
    requires SameIgnoringCase(t, code)
    ensures IsCode(code) <==> IsCode(t)
    ensures IsCode(t) ==> code == [Upper(t[0]), Upper(t[1])]
    ensures code == "OTHER" <==> SameIgnoringCase(t, "OTHER")
  {}

  /** Whatever the padding: two letters become their code, `other` in any case stays, all else is unknown. */
  lemma NormalizePadded(a: string, t: string, b: string)
    requires AllSpaces(a) && AllSpaces(b) && Bare(t)
    ensures Normalize(a + t + b) ==
            if IsCode(t) then [Upper(t[0]), Upper(t[1])]
            else if SameIgnoringCase(t, "OTHER") then "other" else "unknown"
  {
    CanonicalPadded(a, t, b);
    SameCode(t, Canonical(a + t + b));
  }

  /** A parsed header is a region the tracker keeps as it is. */
  lemma {:induction false} ParsedIsRegion(headers: seq<Option<string>>)
    ensures IsRegion(FirstCode(headers)) && Normalize(FirstCode(headers)) == FirstCode(headers)
  {
    if headers == [] {
      RegionIsFixed(UNKNOWN);
    } else if headers[0].Some? && IsCode(Canonical(headers[0].value)) {
      NormalizeIsRegion(headers[0].value);
      RegionIsFixed(Normalize(headers[0].value));
    } else {
      ParsedIsRegion(headers[1..]);
    }
  }
}
