/** Which export a reader is served: `latest_cold_file` of src/storage/parquet_exporter.rs. */
module ColdFiles {
  import opened Bytes
  import opened Wrappers
  import opened Names
  import opened Samples
  import opened Compaction

  /** A UTC time to the second, as `%Y%m%dT%H%M%S` prints it. */
  datatype Time = Time(year: nat, month: nat, day: nat, hour: nat, minute: nat, second: nat)
  {
    predicate Valid() { year < 10000 && month < 100 && day < 100 && hour < 100 && minute < 100 && second < 100 }

    predicate Before(t: Time)
    {
      if year != t.year then year < t.year
      else if month != t.month then month < t.month
      else if day != t.day then day < t.day
      else if hour != t.hour then hour < t.hour
      else if minute != t.minute then minute < t.minute
      else second < t.second
    }
  }

  function Pow10(w: nat): (p: nat)
    ensures p >= 1
  {
    if w == 0 then 1 else 10 * Pow10(w - 1)
  }

  /** A number that fits the width, with leading zeros. */
  function Dec(n: nat, w: nat): (s: Bytestring)
    requires n < Pow10(w)
    ensures |s| == w
  {
    if w == 0 then [] else Dec(n / 10, w - 1) + [0x30 + n % 10]
  }

  function DayStamp(t: Time): (s: Bytestring)
    requires t.Valid()
    ensures |s| == 9
  {
    assert Pow10(2) == 100 && Pow10(4) == 10000;
    Dec(t.year, 4) + (Dec(t.month, 2) + (Dec(t.day, 2) + [0x54]))
  }

  function ClockStamp(t: Time): (s: Bytestring)
    requires t.Valid()
    ensures |s| == 6
  {
    assert Pow10(2) == 100;
    Dec(t.hour, 2) + (Dec(t.minute, 2) + Dec(t.second, 2))
  }

  function Stamp(t: Time): (s: Bytestring)
    requires t.Valid()
    ensures |s| == 15
  {
    DayStamp(t) + ClockStamp(t)
  }

  const PREFIX := Ascii("metrics_cold_")
  const SUFFIX := Ascii(".parquet")

  /** Named like a finished export: the prefix, and the extension `parquet`. */
  predicate Eligible(f: FileName)
  {
    && |f| >= |PREFIX| && f[..|PREFIX|] == PREFIX
    && |f| >= |SUFFIX| && f[|f| - |SUFFIX|..] == SUFFIX
  }

  /** `latest_cold_file` over a directory listing, in whatever order it comes. */
  function LatestColdFile(listing: seq<FileName>): Option<FileName>
  {
    if listing == [] then None
    else
      var best := LatestColdFile(listing[..|listing| - 1]);
      var f := listing[|listing| - 1];
      if Eligible(f) && (best.None? || !Less(f, best.value)) then Some(f) else best
  }

  ghost predicate Greatest(f: FileName, listing: seq<FileName>)
  {
    f in listing && Eligible(f) && forall g :: g in listing && Eligible(g) && g != f ==> Less(g, f)
  }

  /** The answer is the greatest eligible name, and there is one exactly when some name is eligible. */
  lemma {:induction false} LatestIsGreatest(listing: seq<FileName>)
    ensures LatestColdFile(listing).Some? ==> Greatest(LatestColdFile(listing).value, listing)
    ensures LatestColdFile(listing).None? ==> forall g :: g in listing ==> !Eligible(g)
  {
    if listing == [] {
    } else {
      var rest, f := listing[..|listing| - 1], listing[|listing| - 1];
      assert listing == rest + [f];
      LatestIsGreatest(rest);
      var best := LatestColdFile(rest);
      if Eligible(f) && best.Some? {
        LessTotal(f, best.value);
        forall g | g in rest && Eligible(g) && g != f && Less(best.value, f) ensures Less(g, f) {
          if g != best.value { LessTransitive(g, best.value, f); }
        }
      }
    }
  }

  lemma GreatestUnique(f: FileName, g: FileName, listing: seq<FileName>)
    requires Greatest(f, listing) && Greatest(g, listing)
    ensures f == g
  {
    if f != g { LessAsymmetric(f, g); }
  }

  /** Unfinished exports are never served: their names start with a dot. */
  lemma TempIsHidden(stamp: Bytestring)
    ensures !Eligible(TempName(stamp))
  {
    assert TempName(stamp)[0] == 0x2E && PREFIX[0] == 0x6D;
  }

  lemma FinalIsEligible(stamp: Bytestring)
    ensures Eligible(FinalName(stamp))
  {}

  /** Eligible names: the prefix, anything, and the extension. */
  lemma EligibleIff(f: FileName)
    ensures Eligible(f) <==> exists stamp :: f == Ascii("metrics_cold_") + stamp + Ascii(".parquet")
  {
    if Eligible(f) {
      NoOverlap(f);
      var stamp := f[13..|f| - 8];
      assert f == f[..13] + stamp + f[|f| - 8..];
    }
    if stamp :| f == Ascii("metrics_cold_") + stamp + Ascii(".parquet") { FinalIsEligible(stamp); }
  }

  /** The prefix has no dot, so the extension lies behind it. */
  lemma NoOverlap(f: FileName)
    requires Eligible(f)
    ensures |f| >= 21
  {
    assert SUFFIX[0] == 0x2E && f[|f| - 8] == f[|f| - 8..][0];
    assert forall k :: 0 <= k < 13 ==> f[k] == f[..13][k] == PREFIX[k] != 0x2E;
  }

  /** How the names are spelled. */
  lemma NamesSpelled(stamp: Bytestring)
    ensures FinalName(stamp) == Ascii("metrics_cold_") + stamp + Ascii(".parquet")
    ensures TempName(stamp) == Ascii(".metrics_cold_") + stamp + Ascii(".parquet.tmp")
  {}

  // ----- names sort by time

  /** A field is spelled in decimal digits, leading zeros included. */
  lemma DecSpelled(n: nat, w: nat)
    requires n < Pow10(w) && w > 0
    ensures Dec(n, w)[w - 1] as char == "0123456789"[n % 10] && Dec(n, w)[..w - 1] == Dec(n / 10, w - 1)
  {}

  /** A stamp: year, month and day, the letter `T`, then hour, minute and second. */
  lemma StampSpelled(t: Time)
    requires t.Valid()
    ensures Pow10(2) == 100 && Pow10(4) == 10000
    ensures Stamp(t)[..4] == Dec(t.year, 4) && Stamp(t)[4..6] == Dec(t.month, 2) && Stamp(t)[6..8] == Dec(t.day, 2)
    ensures Stamp(t)[8] as char == 'T'
    ensures Stamp(t)[9..11] == Dec(t.hour, 2) && Stamp(t)[11..13] == Dec(t.minute, 2)
    ensures Stamp(t)[13..15] == Dec(t.second, 2)
  {}

  lemma {:induction false} DecOrder(m: nat, n: nat, w: nat)
    requires m < Pow10(w) && n < Pow10(w)
    ensures Less(Dec(m, w), Dec(n, w)) <==> m < n
    ensures Dec(m, w) == Dec(n, w) <==> m == n
  {
    if w == 0 {
    } else {
      DecOrder(m / 10, n / 10, w - 1);
      var x, y: Bytestring := [0x30 + m % 10], [0x30 + n % 10];
      LessFixedWidth(Dec(m / 10, w - 1), Dec(n / 10, w - 1), x, y);
      assert Less(x, y) <==> m % 10 < n % 10;
      var a, b := Dec(m / 10, w - 1), Dec(n / 10, w - 1);
      assert (a + x)[..w - 1] == a && (b + y)[..w - 1] == b;
      assert (a + x)[w - 1] == x[0] && (b + y)[w - 1] == y[0];
    }
  }

  lemma FieldOrder(m: nat, n: nat, w: nat, x: Bytestring, y: Bytestring)
    requires m < Pow10(w) && n < Pow10(w)
    ensures Less(Dec(m, w) + x, Dec(n, w) + y) <==> m < n || (m == n && Less(x, y))
    ensures Dec(m, w) + x == Dec(n, w) + y <==> m == n && x == y
  {
    DecOrder(m, n, w);
    LessFixedWidth(Dec(m, w), Dec(n, w), x, y);
    if Dec(m, w) + x == Dec(n, w) + y {
      assert (Dec(m, w) + x)[..w] == Dec(m, w) && (Dec(n, w) + y)[..w] == Dec(n, w);
      assert (Dec(m, w) + x)[w..] == x && (Dec(n, w) + y)[w..] == y;
    }
  }

  predicate DayBefore(a: Time, b: Time)
  {
    if a.year != b.year then a.year < b.year else if a.month != b.month then a.month < b.month else a.day < b.day
  }

  lemma DayOrder(a: Time, b: Time)
    requires a.Valid() && b.Valid()
    ensures Less(DayStamp(a), DayStamp(b)) <==> DayBefore(a, b)
    ensures DayStamp(a) == DayStamp(b) <==> a.year == b.year && a.month == b.month && a.day == b.day
  {
    assert Pow10(2) == 100 && Pow10(4) == 10000;
    FieldOrder(a.day, b.day, 2, [0x54], [0x54]);
    FieldOrder(a.month, b.month, 2, Dec(a.day, 2) + [0x54], Dec(b.day, 2) + [0x54]);
    var x, y := Dec(a.month, 2) + (Dec(a.day, 2) + [0x54]), Dec(b.month, 2) + (Dec(b.day, 2) + [0x54]);
    FieldOrder(a.year, b.year, 4, x, y);
    LessIrreflexive([0x54]);
  }

  lemma ClockOrder(a: Time, b: Time)
    requires a.Valid() && b.Valid()
    ensures Less(ClockStamp(a), ClockStamp(b)) <==>
      if a.hour != b.hour then a.hour < b.hour
      else if a.minute != b.minute then a.minute < b.minute
      else a.second < b.second
    ensures ClockStamp(a) == ClockStamp(b) <==> a.hour == b.hour && a.minute == b.minute && a.second == b.second
  {
    assert Pow10(2) == 100;
    DecOrder(a.second, b.second, 2);
    FieldOrder(a.minute, b.minute, 2, Dec(a.second, 2), Dec(b.second, 2));
    FieldOrder(a.hour, b.hour, 2, Dec(a.minute, 2) + Dec(a.second, 2), Dec(b.minute, 2) + Dec(b.second, 2));
  }

  /** Export names sort like the seconds in which they were stamped, and coincide only within one second. */
  lemma NamesSortByTime(a: Time, b: Time)
    requires a.Valid() && b.Valid()
    ensures Less(FinalName(Stamp(a)), FinalName(Stamp(b))) <==> a.Before(b)
    ensures FinalName(Stamp(a)) == FinalName(Stamp(b)) <==> a == b
  {
    DayOrder(a, b);
    ClockOrder(a, b);
    LessFixedWidth(DayStamp(a), DayStamp(b), ClockStamp(a), ClockStamp(b));
    NamesSortByStamp(Stamp(a), Stamp(b));
    if Stamp(a) == Stamp(b) {
      assert Stamp(a)[..9] == DayStamp(a) && Stamp(b)[..9] == DayStamp(b);
      assert Stamp(a)[9..] == ClockStamp(a) && Stamp(b)[9..] == ClockStamp(b);
    }
  }

  lemma NamesSortByStamp(a: Bytestring, b: Bytestring)
    requires |a| == |b|
    ensures Less(FinalName(a), FinalName(b)) <==> Less(a, b)
    ensures FinalName(a) == FinalName(b) <==> a == b
  {
    LessFixedWidth(PREFIX + a, PREFIX + b, SUFFIX, SUFFIX);
    LessFixedWidth(PREFIX, PREFIX, a, b);
    LessIrreflexive(PREFIX);
    LessIrreflexive(SUFFIX);
    if FinalName(a) == FinalName(b) {
      assert FinalName(a)[|PREFIX|..|PREFIX| + |a|] == a && FinalName(b)[|PREFIX|..|PREFIX| + |b|] == b;
    }
    assert PREFIX + a == PREFIX + b ==> (PREFIX + a)[|PREFIX|..] == a && (PREFIX + b)[|PREFIX|..] == b;
  }

  // ----- what a reader sees after a pass

  /** Files of a cold directory whose finished exports all bear a stamp earlier than `now`. */
  ghost predicate OnlyOlder(files: map<FileName, seq<Row>>, now: Time)
  {
    forall f :: f in files && Eligible(f) ==> exists t: Time :: t.Valid() && t.Before(now) && f == FinalName(Stamp(t))
  }

  lemma OlderSortsBefore(files: map<FileName, seq<Row>>, now: Time, f: FileName)
    requires now.Valid() && OnlyOlder(files, now) && f in files && Eligible(f)
    ensures Less(f, FinalName(Stamp(now)))
  {
    var t: Time :| t.Valid() && t.Before(now) && f == FinalName(Stamp(t));
    NamesSortByTime(t, now);
  }

  lemma SameAnswer(was: seq<FileName>, listing: seq<FileName>)
    requires forall f :: Eligible(f) ==> (f in was <==> f in listing)
    ensures LatestColdFile(listing) == LatestColdFile(was)
  {
    LatestIsGreatest(was);
    LatestIsGreatest(listing);
    if LatestColdFile(was).Some? && LatestColdFile(listing).Some? {
      GreatestUnique(LatestColdFile(was).value, LatestColdFile(listing).value, was);
    }
  }

  lemma GreatestIsServed(f: FileName, listing: seq<FileName>)
    requires Greatest(f, listing)
    ensures LatestColdFile(listing) == Some(f)
  {
    LatestIsGreatest(listing);
    GreatestUnique(f, LatestColdFile(listing).value, listing);
  }

  /** After a pass that exported rows, in a directory of earlier exports, a reader is served exactly those rows;
      after any other pass it is served what it was served before. */
  lemma ReaderSeesLatestPass(
    ok: bool, before: map<FileName, seq<Row>>, after: map<FileName, seq<Row>>, started: Time, closed: Time,
    rows: seq<Row>,
    was: seq<FileName>, listing: seq<FileName>)
    requires started.Valid() && closed.Valid() && OnlyOlder(before, closed)
    requires DirAfter(ok, before, after, TempName(Stamp(started)), FinalName(Stamp(closed)), rows)
    requires (forall f :: f in was <==> f in before) && (forall f :: f in listing <==> f in after)
    ensures ok && rows != [] ==>
              LatestColdFile(listing) == Some(FinalName(Stamp(closed))) && after[FinalName(Stamp(closed))] == rows
    ensures !(ok && rows != []) ==> LatestColdFile(listing) == LatestColdFile(was)
  {
    var tmp, final := TempName(Stamp(started)), FinalName(Stamp(closed));
    TempIsHidden(Stamp(started));
    FinalIsEligible(Stamp(closed));
    if ok && rows != [] {
      forall f | f in listing && Eligible(f) && f != final ensures Less(f, final) {
        OlderSortsBefore(before, closed, f);
      }
      GreatestIsServed(final, listing);
    } else {
      forall f | Eligible(f) ensures f in was <==> f in listing {
        assert f in before - {tmp} <==> f in after - {tmp};
      }
      SameAnswer(was, listing);
    }
  }
}
