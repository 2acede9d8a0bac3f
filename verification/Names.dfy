/** Metric names: `sanitize_metric_name` of src/types.rs. */
module Names {
  import opened Bytes

  const UNNAMED := "_unnamed"

  predicate IsLetter(c: char) { 'a' <= c <= 'z' || 'A' <= c <= 'Z' }

  /** `[a-zA-Z_:]`, the characters a name may start with. */
  predicate StartsName(c: char) { IsLetter(c) || c == '_' || c == ':' }

  /** `[a-zA-Z0-9_:]`, the characters a name may continue with. */
  predicate ContinuesName(c: char) { StartsName(c) || '0' <= c <= '9' }

  /** The exposition grammar `[a-zA-Z_:][a-zA-Z0-9_:]*`. */
  predicate IsName(s: string)
  {
    s != "" && StartsName(s[0]) && forall i :: 0 < i < |s| ==> ContinuesName(s[i])
  }

  /** Character `i` of a sanitised name: kept where the grammar allows it, an underscore otherwise. */
  function SanitizedChar(s: string, i: nat): char
    requires i < |s|
  {
    if (if i == 0 then StartsName(s[i]) else ContinuesName(s[i])) then s[i] else '_'
  }

  function Sanitized(s: string): string
  {
    if s == "" then UNNAMED else seq(|s|, i requires 0 <= i < |s| => SanitizedChar(s, i))
  }

  method SanitizeMetricName(name: string) returns (out: string)
    ensures out == Sanitized(name)
  {
    out := "";
    for i := 0 to |name|
      invariant out == seq(i, k requires 0 <= k < i => SanitizedChar(name, k))
    {
      var ok := if i == 0 then StartsName(name[i]) else ContinuesName(name[i]);
      out := out + [if ok then name[i] else '_'];
    }
    if out == "" {
      out := UNNAMED;
    }
  }

  /** Sanitising lands in the grammar, and changes nothing that already is in it. */
  lemma SanitizedIsName(s: string)
    ensures IsName(Sanitized(s))
    ensures Sanitized(s) == s <==> IsName(s)
    ensures Sanitized(Sanitized(s)) == Sanitized(s)
  {}

  /**
   * Every character that the grammar allows at its place is kept, any other becomes an underscore; the empty text
   * is `_unnamed`.
   */
  lemma SanitizedByCharacter(s: string)
    ensures Sanitized("") == "_unnamed"
    ensures s != "" ==> |Sanitized(s)| == |s|
    ensures forall i :: 0 <= i < |s| ==>
              var c := s[i];
              var letter := 'a' <= c <= 'z' || 'A' <= c <= 'Z' || c == '_' || c == ':';
              Sanitized(s)[i] == if letter || (i > 0 && '0' <= c <= '9') then c else '_'
  {}

  /**
   * The bytes of an ASCII string. (Another character, which no text of the pipeline has, would become a question
   * mark.)
   */
  function Ascii(s: string): (b: Bytestring)
    ensures |b| == |s| && forall i :: 0 <= i < |s| ==> b[i] == if s[i] < 128 as char then s[i] as int else 0x3F
  {
    seq(|s|, i requires 0 <= i < |s| => if s[i] < 128 as char then s[i] as int else 0x3F)
  }

  /** A sanitised name is valid UTF-8, so it survives the key codec even with `:` in it. */
  lemma NameIsUtf8(s: string)
    requires IsName(s)
    ensures forall i :: 0 <= i < |s| ==> s[i] < 128 as char
    ensures ValidUtf8(Ascii(s))
  {
    forall i | 0 <= i < |s| ensures s[i] < 128 as char { assert ContinuesName(s[i]); }
    AsciiIsUtf8(Ascii(s));
  }
}
