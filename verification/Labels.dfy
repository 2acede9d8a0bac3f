/** Label sanitising and entry construction: `sanitize_labels` and `MetricEntry::new` of src/types.rs. */
module Labels {
  import opened Bytes
  import opened Wrappers
  import opened KeyCodec
  import opened Names
  import opened Samples
  import Regions

  const MAX_PAIRS: nat := 16
  const MAX_KEY: nat := 128
  const MAX_VAL: nat := 256

  /** A key as characters, since it is cleaned one by one; a value as its bytes, since it is cut by bytes. */
  type Label = (string, Utf8)

  function Trim(s: string): string { Regions.TrimEnd(Regions.TrimStart(s)) }

  /** Keys lose the white space around them, and nothing else. */
  lemma TrimTakesPadding(a: string, t: string, b: string)
    requires Regions.AllSpaces(a) && Regions.AllSpaces(b) && Regions.Bare(t)
    ensures Trim(a + t + b) == t
  {
    Regions.PaddingIgnored(a, t, b);
  }

  /** `String::truncate` panics at a byte that continues a character. */
  predicate Splits(v: Utf8, at: nat) { at < |v| && Continuation(v[at]) }

  datatype Outcome<T> = Dropped | Panics | Kept(item: T)

  /** The closure of `filter_map`. */
  function SanitizeLabel(l: Label): Outcome<Label>
  {
    var key := Sanitized(Trim(l.0));
    if key == "" || (key == UNNAMED && Trim(l.0) == "") then Dropped
    else if |l.1| > MAX_VAL && Splits(l.1, MAX_VAL) then Panics
    else
      Kept((if |key| > MAX_KEY then key[..MAX_KEY] else key, Truncated(l.1)))
  }

  function Truncated(v: Utf8): (t: Utf8)
    requires |v| > MAX_VAL ==> !Splits(v, MAX_VAL)
    ensures t == v[..if |v| > 256 then 256 else |v|]
  {
    if |v| > MAX_VAL then
      CutAtBoundary(v, MAX_VAL);
      v[..MAX_VAL]
    else v
  }

  /** A text cut where a character starts is a text. */
  lemma {:induction false} CutAtBoundary(s: Bytestring, n: nat)
    requires ValidUtf8(s) && n < |s| && !Continuation(s[n])
    ensures ValidUtf8(s[..n])
    decreases |s|
  {
    var w := if s[0] < 0x80 then 1 else if s[0] <= 0xDF then 2 else if s[0] <= 0xEF then 3 else 4;
    if n >= w {
      if n < |s| {
        CutAtBoundary(s[w..], n - w);
      }
      assert s[w..][..n - w] == s[..n][w..];
    }
  }

  /** `filter_map` with `f`, then `take(room)`, collected; `None` when `f` panics on an item it is asked for. */
  function FilterTake<T, U>(items: seq<T>, room: nat, f: T -> Outcome<U>): Option<seq<U>>
  {
    if items == [] || room == 0 then Some([])
    else
      match f(items[0])
      case Dropped => FilterTake(items[1..], room, f)
      case Panics => None
      case Kept(x) =>
        match FilterTake(items[1..], room - 1, f)
        case None => None
        case Some(rest) => Some([x] + rest)
  }

  /** `sanitize_labels`; `None` when it panics. */
  function SanitizeLabels(labels: seq<Label>): Option<seq<Label>>
  {
    FilterTake(labels, MAX_PAIRS, SanitizeLabel)
  }

  lemma {:induction false} Taken<T, U>(items: seq<T>, room: nat, f: T -> Outcome<U>, good: U -> bool)
    requires forall x :: x in items && f(x).Kept? ==> good(f(x).item)
    ensures var r := FilterTake(items, room, f);
      r.Some? ==> |r.value| <= room && forall i :: 0 <= i < |r.value| ==> good(r.value[i])
  {
    if items != [] && room > 0 {
      assert items[0] in items && forall x :: x in items[1..] ==> x in items;
      Taken(items[1..], if f(items[0]).Kept? then room - 1 else room, f, good);
    }
  }

  lemma {:induction false} AllTaken<T>(items: seq<T>, room: nat, f: T -> Outcome<T>)
    requires |items| <= room && forall x :: x in items ==> f(x) == Kept(x)
    ensures FilterTake(items, room, f) == Some(items)
  {
    if items == [] {
    } else {
      AllTaken(items[1..], room - 1, f);
      assert items == [items[0]] + items[1..];
    }
  }

  function NotDropped<T, U>(items: seq<T>, f: T -> Outcome<U>): nat
  {
    if items == [] then 0 else (if f(items[0]).Dropped? then 0 else 1) + NotDropped(items[1..], f)
  }

  /** Item `i` is asked for, and `f` panics on it. */
  ghost predicate PanicsAt<T, U>(items: seq<T>, room: nat, f: T -> Outcome<U>, i: nat)
  {
    i < |items| && f(items[i]).Panics? && NotDropped(items[..i], f) < room
  }

  lemma PanicsAtTail<T, U>(items: seq<T>, room: nat, f: T -> Outcome<U>, i: nat)
    requires 0 < i && items != [] && room > 0
    ensures PanicsAt(items, room, f, i) <==>
            PanicsAt(items[1..], if f(items[0]).Dropped? then room else room - 1, f, i - 1)
  {
    if i < |items| { assert items[..i][1..] == items[1..][..i - 1] && items[1..][i - 1] == items[i]; }
  }

  lemma {:induction false} PanicsSomewhere<T, U>(items: seq<T>, room: nat, f: T -> Outcome<U>)
    ensures FilterTake(items, room, f).None? <==> exists i: nat :: PanicsAt(items, room, f, i)
  {
    if items != [] && room > 0 {
      var next := if f(items[0]).Dropped? then room else room - 1;
      PanicsSomewhere(items[1..], next, f);
      forall i: nat | 0 < i ensures PanicsAt(items, room, f, i) <==> PanicsAt(items[1..], next, f, i - 1) {
        PanicsAtTail(items, room, f, i);
      }
      if f(items[0]).Panics? {
        assert PanicsAt(items, room, f, 0);
      } else if i: nat :| PanicsAt(items[1..], next, f, i) {
        assert PanicsAt(items, room, f, i + 1);
      }
    }
  }

  /** As many items come out as are not dropped, up to the room there is. */
  lemma {:induction false} TakenCount<T, U>(items: seq<T>, room: nat, f: T -> Outcome<U>)
    requires FilterTake(items, room, f).Some?
    ensures var n := NotDropped(items, f); |FilterTake(items, room, f).value| == if n < room then n else room
  {
    if items == [] || room == 0 {
    } else {
      TakenCount(items[1..], if f(items[0]).Kept? then room - 1 else room, f);
    }
  }

  /** An item that is kept, with less than the room taken before it, stands at the place given by those before it. */
  lemma {:induction false} TakenAt<T, U>(items: seq<T>, room: nat, f: T -> Outcome<U>, j: nat)
    requires FilterTake(items, room, f).Some?
    requires j < |items| && f(items[j]).Kept? && NotDropped(items[..j], f) < room
    ensures var r := FilterTake(items, room, f).value; var p := NotDropped(items[..j], f);
      p < |r| && r[p] == f(items[j]).item
  {
    if j == 0 {
    } else {
      assert items[..j][0] == items[0] && items[..j][1..] == items[1..][..j - 1] && items[1..][j - 1] == items[j];
      TakenAt(items[1..], if f(items[0]).Kept? then room - 1 else room, f, j - 1);
    }
  }

  /** Conversely, each item that comes out is a kept one, at its place. */
  lemma {:induction false} TakenFrom<T, U>(items: seq<T>, room: nat, f: T -> Outcome<U>, p: nat) returns (j: nat)
    requires FilterTake(items, room, f).Some? && p < |FilterTake(items, room, f).value|
    ensures j < |items| && f(items[j]) == Kept(FilterTake(items, room, f).value[p])
    ensures NotDropped(items[..j], f) == p
  {
    if f(items[0]).Kept? && p == 0 {
      j := 0;
    } else {
      var kept := f(items[0]).Kept?;
      var k := TakenFrom(items[1..], if kept then room - 1 else room, f, if kept then p - 1 else p);
      j := k + 1;
      assert items[..j][0] == items[0] && items[..j][1..] == items[1..][..k] && items[1..][k] == items[j];
    }
  }

  /** What leaves the sanitiser. */
  predicate Clean(l: Label) { IsName(l.0) && |l.0| <= MAX_KEY && |l.1| <= MAX_VAL }

  predicate AllClean(labels: seq<Label>) { forall i :: 0 <= i < |labels| ==> Clean(labels[i]) }

  lemma TrimOfName(s: string)
    requires IsName(s)
    ensures Trim(s) == s
  {}

  lemma KeptIsClean(l: Label)
    requires SanitizeLabel(l).Kept?
    ensures Clean(SanitizeLabel(l).item)
  {}

  lemma CleanIsKept(l: Label)
    requires Clean(l)
    ensures SanitizeLabel(l) == Kept(l)
  {
    TrimOfName(l.0);
    SanitizedIsName(l.0);
  }

  /** At most 16 pairs, every key a bounded name, every value a bounded text. */
  lemma SanitizedAreClean(labels: seq<Label>)
    ensures var r := SanitizeLabels(labels);
      r.Some? ==> |r.value| <= 16 && forall i :: 0 <= i < |r.value| ==>
        IsName(r.value[i].0) && |r.value[i].0| <= 128 && |r.value[i].1| <= 256
  {
    forall l | l in labels && SanitizeLabel(l).Kept? ensures Clean(SanitizeLabel(l).item) { KeptIsClean(l); }
    Taken(labels, MAX_PAIRS, SanitizeLabel, Clean);
  }

  /** Clean labels pass through unchanged. */
  lemma CleanLabelsFixed(labels: seq<Label>)
    requires |labels| <= 16
    requires forall l :: l in labels ==> IsName(l.0) && |l.0| <= 128 && |l.1| <= 256
    ensures SanitizeLabels(labels) == Some(labels)
  {
    forall l | l in labels ensures SanitizeLabel(l) == Kept(l) { CleanIsKept(l); }
    AllTaken(labels, MAX_PAIRS, SanitizeLabel);
  }

  lemma SanitizeLabelsIdempotent(labels: seq<Label>)
    requires SanitizeLabels(labels).Some?
    ensures SanitizeLabels(SanitizeLabels(labels).value) == SanitizeLabels(labels)
  {
    SanitizedAreClean(labels);
    CleanLabelsFixed(SanitizeLabels(labels).value);
  }

  /**
   * A label is dropped exactly when its key is blank, and panics exactly when it has a key and byte 256 of its
   * value continues a character. A kept one has the first 128 characters of its sanitised key and the first 256
   * bytes of its value.
   */
  lemma WhatHappensToALabel(l: Label)
    ensures SanitizeLabel(l).Dropped? <==> Trim(l.0) == ""
    ensures SanitizeLabel(l).Panics? <==> Trim(l.0) != "" && 256 < |l.1| && Continuation(l.1[256])
    ensures SanitizeLabel(l).Kept? ==>
              var key, kept := Sanitized(Trim(l.0)), SanitizeLabel(l).item;
              && kept.0 == key[..if |key| > 128 then 128 else |key|]
              && kept.1 == l.1[..if |l.1| > 256 then 256 else |l.1|]
  {
    var key := Sanitized(Trim(l.0));
    assert key[..|key|] == key;
  }

  /** Labels with a key that is not blank. */
  function WithKey(labels: seq<Label>): nat
  {
    if labels == [] then 0 else (if Trim(labels[0].0) == "" then 0 else 1) + WithKey(labels[1..])
  }

  lemma {:induction false} WithKeyNotDropped(labels: seq<Label>)
    ensures NotDropped(labels, SanitizeLabel) == WithKey(labels)
  {
    if labels == [] {
    } else {
      WhatHappensToALabel(labels[0]);
      WithKeyNotDropped(labels[1..]);
    }
  }

  /** The first 16 labels with a key come out, and only those: label `j` at the place given by the keys before it. */
  lemma SanitizedInOrder(labels: seq<Label>, j: nat)
    requires SanitizeLabels(labels).Some?
    ensures |SanitizeLabels(labels).value| == if WithKey(labels) < 16 then WithKey(labels) else 16
    ensures j < |labels| && Trim(labels[j].0) != "" && WithKey(labels[..j]) < 16 ==>
              && WithKey(labels[..j]) < |SanitizeLabels(labels).value|
              && SanitizeLabel(labels[j]) == Kept(SanitizeLabels(labels).value[WithKey(labels[..j])])
  {
    WithKeyNotDropped(labels);
    TakenCount(labels, MAX_PAIRS, SanitizeLabel);
    if j < |labels| && Trim(labels[j].0) != "" && WithKey(labels[..j]) < 16 {
      WithKeyNotDropped(labels[..j]);
      WhatHappensToALabel(labels[j]);
      PanicsSomewhere(labels, MAX_PAIRS, SanitizeLabel);
      assert !PanicsAt(labels, MAX_PAIRS, SanitizeLabel, j);
      TakenAt(labels, MAX_PAIRS, SanitizeLabel, j);
    }
  }

  /** Every label that comes out is one of these. */
  lemma SanitizedComesFrom(labels: seq<Label>, p: nat) returns (j: nat)
    requires SanitizeLabels(labels).Some? && p < |SanitizeLabels(labels).value|
    ensures j < |labels| && Trim(labels[j].0) != "" && WithKey(labels[..j]) == p
    ensures SanitizeLabel(labels[j]) == Kept(SanitizeLabels(labels).value[p])
  {
    j := TakenFrom(labels, MAX_PAIRS, SanitizeLabel, p);
    WithKeyNotDropped(labels[..j]);
    WhatHappensToALabel(labels[j]);
  }

  /** So the whole list panics exactly when such a label comes with fewer than 16 keys before it. */
  lemma PanicsIff(labels: seq<Label>)
    ensures SanitizeLabels(labels).None? <==> exists i: nat :: PanicsOn(labels, i)
  {
    PanicsSomewhere(labels, MAX_PAIRS, SanitizeLabel);
    forall i: nat ensures PanicsOn(labels, i) <==> PanicsAt(labels, MAX_PAIRS, SanitizeLabel, i) {
      if i < |labels| {
        WhatHappensToALabel(labels[i]);
        WithKeyNotDropped(labels[..i]);
      }
    }
  }

  /** Label `i` is reached, has a key, and byte 256 of its value continues a character. */
  predicate PanicsOn(labels: seq<Label>, i: nat)
  {
    && i < |labels| && Trim(labels[i].0) != "" && WithKey(labels[..i]) < 16
    && 256 < |labels[i].1| && Continuation(labels[i].1[256])
  }

  lemma {:induction false} AsciiThen(n: nat, tail: Bytestring)
    requires ValidUtf8(tail)
    ensures ValidUtf8(seq(n, i => 0x61) + tail)
  {
    var text := seq(n, i => 0x61) + tail;
    if n == 0 {
      assert text == tail;
    } else {
      assert text[1..] == seq(n - 1, i => 0x61) + tail;
      AsciiThen(n - 1, tail);
    }
  }

  /** A value that panics: 255 letters and one two-byte character, so byte 256 is its second. */
  lemma PanickingLabel(key: string) returns (value: Utf8)
    requires Trim(key) != ""
    ensures |value| == 257 && SanitizeLabels([(key, value)]) == None
  {
    var accent: Bytestring := [0xC3, 0xA9];
    assert accent[2..] == [];
    AsciiThen(255, accent);
    var bytes: Bytestring := seq(255, i => 0x61) + accent;
    value := bytes;
    assert value[MAX_VAL] == 0xA9;
    WhatHappensToALabel((key, value));
  }

  // ----- a new entry

  function Utf8Name(s: string): Utf8
    requires IsName(s)
  {
    NameIsUtf8(s);
    Ascii(s)
  }

  function Pairs(labels: seq<Label>): seq<(Utf8, Utf8)>
    requires AllClean(labels)
  {
    seq(|labels|, i requires 0 <= i < |labels| && Clean(labels[i]) => (Utf8Name(labels[i].0), labels[i].1))
  }

  /** `MetricEntry::new`, for a given time. */
  function NewEntry(
    timestamp: int, name: string, value: Float, metricType: MetricType, labels: seq<Label>): (e: Option<MetricEntry>)
    ensures e.Some? <==> SanitizeLabels(labels).Some?
    ensures e.Some? ==>
              && e.value.timestamp == timestamp && e.value.value == value && e.value.metricType == metricType
              && IsName(Sanitized(name)) && e.value.name == Utf8Name(Sanitized(name)) && |e.value.labels| <= 16
  {
    SanitizedIsName(name);
    SanitizedAreClean(labels);
    match SanitizeLabels(labels)
    case None => None
    case Some(clean) => Some(MetricEntry(timestamp, Utf8Name(Sanitized(name)), value, metricType, Pairs(clean)))
  }

  /** The labels of an entry are the sanitised ones, in order. */
  lemma EntryKeepsLabels(
    timestamp: int, name: string, value: Float, metricType: MetricType, labels: seq<Label>, e: MetricEntry)
    requires NewEntry(timestamp, name, value, metricType, labels) == Some(e)
    ensures var r := SanitizeLabels(labels).value;
      |e.labels| == |r| && forall i :: 0 <= i < |r| ==> e.labels[i].0 == Ascii(r[i].0) && e.labels[i].1 == r[i].1
  {
    SanitizedAreClean(labels);
  }

  /** Whatever it is called, an observation that was built comes out of the store under its sanitised name. */
  lemma EntryKeepsItsName(
    timestamp: int, name: string, value: Float, metricType: MetricType, labels: seq<Label>, seqNo: u32)
    requires NewEntry(timestamp, name, value, metricType, labels).Some?
    ensures IsName(Sanitized(name))
    ensures var e := NewEntry(timestamp, name, value, metricType, labels).value;
      DecodeKey(EncodeKey(EntryMicros(e), seqNo, e.name)) == Some((EntryMicros(e), Utf8Name(Sanitized(name))))
  {
    var e := NewEntry(timestamp, name, value, metricType, labels).value;
    KeyRoundTrip(EntryMicros(e), seqNo, e.name);
  }
}
