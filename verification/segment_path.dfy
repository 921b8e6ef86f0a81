/**
 * Hour-segment paths: `getFilePathForTime` in `rawstore/types.go`
 * (`t.Format("2006/01/02/15") + ".pport"`) and the `fmt.Sscanf` pattern
 * `"%d/%d/%d/%d.pport"` with which the cleanup job reads such a path back.
 */
module SegmentPath {
  import opened Wrappers
  import opened Decimal
  import opened CivilTime
  import opened Paths

  /** A Go `time.Time`: an instant plus the UTC offset (in seconds) of its location at that instant. */
  datatype Timestamp = Timestamp(instant: int, offset: int)

  /** `XmlMessageWithTime`: a payload and the time it is filed under. */
  datatype Message = Message(time: Timestamp, payload: string)

  const Extension: string := ".pport"

  /** The wall-clock reading of `t` in its own location. */
  function WallClock(t: Timestamp): int {
    t.instant + t.offset * NanosPerSecond
  }

  /** A timestamp in the UTC location, as `time.Time.UTC()` produces. */
  function Utc(instant: int): (t: Timestamp)
    ensures t.instant == instant && t.offset == 0
    ensures WallClock(t) == instant
  {
    Timestamp(instant, 0)
  }

  /** The four fields of the layout `2006/01/02/15`, each as Go's `appendInt` writes it. */
  function PathFields(h: Hour): seq<string> {
    [FormatInt(h.year, 4), FormatInt(h.month, 2), FormatInt(h.day, 2), FormatInt(h.hour, 2)]
  }

  /** `YYYY/MM/DD/HH.pport` for a civil hour. */
  function FormatPath(h: Hour): string
    requires ValidHour(h)
  {
    JoinSlash(PathFields(h)) + Extension
  }

  /** Four joined fields, a suffix and what follows, as one right-nested concatenation. */
  lemma JoinFour(a: string, b: string, c: string, d: string, suffix: string, rest: string)
    ensures JoinSlash([a, b, c, d]) + suffix + rest
         == a + ("/" + (b + ("/" + (c + ("/" + (d + (suffix + rest)))))))
  {
    var t3 := d + (suffix + rest);
    var t2 := c + ("/" + t3);
    var t1 := b + ("/" + t2);
    assert [a, b, c, d][1..] == [b, c, d];
    assert [b, c, d][1..] == [c, d];
    assert [c, d][1..] == [d];
    var j2 := JoinSlash([c, d]);
    var j3 := JoinSlash([b, c, d]);
    var j4 := JoinSlash([a, b, c, d]);
    assert JoinSlash([d]) == d;
    assert j2 + (suffix + rest) == t2 by {
      assert j2 == c + "/" + d;
    }
    assert j3 + (suffix + rest) == t1 by {
      assert j3 == b + "/" + j2;
    }
    assert j4 + (suffix + rest) == a + ("/" + t1) by {
      assert j4 == a + "/" + j3;
    }
  }

  /** `FormatPath` spelled out field by field. */
  lemma FormatPathSpelled(h: Hour, rest: string)
    requires ValidHour(h)
    ensures FormatPath(h) + rest
         == FormatInt(h.year, 4) + ("/" + (FormatInt(h.month, 2) + ("/" + (FormatInt(h.day, 2)
              + ("/" + (FormatInt(h.hour, 2) + (Extension + rest)))))))
  {
    JoinFour(FormatInt(h.year, 4), FormatInt(h.month, 2), FormatInt(h.day, 2), FormatInt(h.hour, 2), Extension, rest);
  }

  /** `getFilePathForTime`: the segment path of the hour containing `t`, read in `t`'s location. */
  function PathForTime(t: Timestamp): string {
    FormatPath(CivilHour(WallClock(t)))
  }

  /** `XmlMessageWithTime.GetFilePath`. */
  function FilePath(m: Message): string {
    PathForTime(m.time)
  }

  /**
   * `fmt.Sscanf(p, "%d/%d/%d/%d.pport", &year, &month, &day, &hour)` with
   * `err == nil && n == 4`. Input left over after `.pport` is not an error
   * for `Sscanf`, so it is ignored here too.
   */
  function ParsePath(p: string): Option<(int, int, int, int)> {
    var year :- ScanInt(p);
    var r1 :- Literal(year.1, "/");
    var month :- ScanInt(r1);
    var r2 :- Literal(month.1, "/");
    var day :- ScanInt(r2);
    var r3 :- Literal(day.1, "/");
    var hour :- ScanInt(r3);
    var _ :- Literal(hour.1, Extension);
    Some((year.0, month.0, day.0, hour.0))
  }

  function Fields(h: Hour): (int, int, int, int) {
    (h.year, h.month, h.day, h.hour)
  }

  /**
   * The cleanup pattern reads back exactly the hour that was formatted,
   * whatever follows the path.
   */
  lemma ParseFormatPath(h: Hour, rest: string)
    requires ValidHour(h)
    requires MinInt64 <= h.year <= MaxInt64
    ensures ParsePath(FormatPath(h) + rest) == Some(Fields(h))
  {
    var tail4 := Extension + rest;
    var tail3 := "/" + (FormatInt(h.hour, 2) + tail4);
    var tail2 := "/" + (FormatInt(h.day, 2) + tail3);
    var tail1 := "/" + (FormatInt(h.month, 2) + tail2);
    FormatPathSpelled(h, rest);
    ScanFormatInt(h.year, 4, tail1);
    assert Literal(tail1, "/") == Some(FormatInt(h.month, 2) + tail2);
    ScanFormatInt(h.month, 2, tail2);
    assert Literal(tail2, "/") == Some(FormatInt(h.day, 2) + tail3);
    ScanFormatInt(h.day, 2, tail3);
    assert Literal(tail3, "/") == Some(FormatInt(h.hour, 2) + tail4);
    ScanFormatInt(h.hour, 2, tail4);
  }

  /** Distinct hours are filed under distinct paths. */
  lemma FormatPathInjective(a: Hour, b: Hour)
    requires ValidHour(a) && ValidHour(b)
    requires MinInt64 <= a.year <= MaxInt64 && MinInt64 <= b.year <= MaxInt64
    ensures FormatPath(a) == FormatPath(b) <==> a == b
  {
    ParseFormatPath(a, "");
    ParseFormatPath(b, "");
    assert FormatPath(a) + "" == FormatPath(a);
    assert FormatPath(b) + "" == FormatPath(b);
  }

  /** The positions of the separators in four fields of widths 4, 2, 2 and 2 followed by `.pport`. */
  lemma SeparatorPositions(y: string, m: string, d: string, hh: string)
    requires |y| == 4 && |m| == 2 && |d| == 2 && |hh| == 2
    ensures var p := y + ("/" + (m + ("/" + (d + ("/" + (hh + Extension))))));
      && |p| == 19 && p[4] == '/' && p[7] == '/' && p[10] == '/' && p[13..] == Extension
  {
    var p := y + ("/" + (m + ("/" + (d + ("/" + (hh + Extension))))));
    assert p[5..] == m + ("/" + (d + ("/" + (hh + Extension))));
    assert p[8..] == d + ("/" + (hh + Extension));
    assert p[11..] == hh + Extension;
  }

  /** A four-digit year gives a path of exactly 19 characters, separators in fixed places. */
  lemma FormatPathShape(h: Hour)
    requires ValidHour(h) && 1000 <= h.year <= 9999
    ensures |FormatPath(h)| == 19
    ensures FormatPath(h)[4] == '/' && FormatPath(h)[7] == '/' && FormatPath(h)[10] == '/'
    ensures FormatPath(h)[13..] == Extension
  {
    FormatPathSpelled(h, "");
    assert Extension + "" == Extension;
    assert FormatPath(h) + "" == FormatPath(h);
    FourDigits(h.year);
    TwoDigitPad(h.month);
    TwoDigitPad(h.day);
    TwoDigitPad(h.hour);
    SeparatorPositions(FormatInt(h.year, 4), FormatInt(h.month, 2), FormatInt(h.day, 2), FormatInt(h.hour, 2));
  }

  /** The instant at which the hour named by a parsed path starts, as the cleanup job builds it. */
  function ParsedHourStart(f: (int, int, int, int)): int {
    DateNanos(f.0, f.1, f.2, f.3)
  }

  /**
   * Round trip through the cleanup parser: the path of any instant whose wall
   * clock fits in `int64` nanoseconds parses back to the start of that instant's hour.
   */
  lemma PathForTimeRoundTrip(t: Timestamp)
    requires MinInt64 <= WallClock(t) <= MaxInt64
    ensures ParsePath(PathForTime(t)).Some?
    ensures ParsePath(PathForTime(t)).value == Fields(CivilHour(WallClock(t)))
    ensures ParsedHourStart(ParsePath(PathForTime(t)).value)
         == WallClock(t) / NanosPerHour * NanosPerHour
  {
    var h := CivilHour(WallClock(t));
    CivilHourYearRange(WallClock(t));
    ParseFormatPath(h, "");
    assert FormatPath(h) + "" == FormatPath(h);
    HourIndexOfWall(WallClock(t), DayNumber(h) * 24 + h.hour);
  }

  /**
   * Two timestamps share a segment exactly when their wall clocks fall in
   * the same whole hour: minutes, seconds and nanoseconds are ignored.
   */
  lemma PathForTimeSameHour(a: Timestamp, b: Timestamp)
    requires MinInt64 <= WallClock(a) <= MaxInt64
    requires MinInt64 <= WallClock(b) <= MaxInt64
    ensures PathForTime(a) == PathForTime(b)
        <==> WallClock(a) / NanosPerHour == WallClock(b) / NanosPerHour
  {
    CivilHourYearRange(WallClock(a));
    CivilHourYearRange(WallClock(b));
    FormatPathInjective(CivilHour(WallClock(a)), CivilHour(WallClock(b)));
    CivilHourSameHour(WallClock(a), WallClock(b));
  }

  /** Only the time of a message decides its segment, never its payload. */
  lemma FilePathIgnoresPayload(t: Timestamp, x: string, y: string)
    ensures FilePath(Message(t, x)) == FilePath(Message(t, y))
    ensures FilePath(Message(t, x)) == PathForTime(t)
  {
  }
}
