/** time.Parse for the three layouts the placement report uses:
    "2006-01-02" (request dates), "01/02/2006" (last login) and
    "01/02/2006 03:04 PM" (start and end timestamps). The layout elements
    "2006", "01", "02", "03" and "04" each take a fixed number of digits;
    the month must be 1..12, the day must exist in that month of that year,
    the hour 00..12 and the minute 00..59; a space in the layout matches a
    run of one or more spaces; nothing may follow the last element. */
module Times {
  import opened Text
  import opened Errors

  /** A time.Time in UTC at minute precision. */
  datatype DateTime = DateTime(year: nat, month: nat, day: nat, hour: nat, minute: nat)

  /** time.Time{}, which time.Parse returns on every error: 0001-01-01 00:00 UTC. */
  const ZeroTime: DateTime := DateTime(1, 1, 1, 0, 0)

  predicate IsLeap(year: nat) { year % 4 == 0 && (year % 100 != 0 || year % 400 == 0) }

  function DaysIn(month: nat, year: nat): (d: nat)
    requires 1 <= month <= 12
    ensures 28 <= d <= 31
  {
    if month == 2 then (if IsLeap(year) then 29 else 28)
    else if month in {4, 6, 9, 11} then 30
    else 31
  }

  /** A calendar date a four-digit year can write. */
  predicate ValidDate(t: DateTime)
  {
    t.year < 10000 && 1 <= t.month <= 12 && 1 <= t.day <= DaysIn(t.month, t.year)
  }

  predicate ValidClock(t: DateTime) { t.hour < 24 && t.minute < 60 }

  predicate DigitsAt(s: string, i: nat, n: nat) { i + n <= |s| && AllDigits(s[i..i + n]) }

  function NumberAt(s: string, i: nat, n: nat): nat
    requires DigitsAt(s, i, n)
  {
    DigitsValue(s[i..i + n])
  }

  /** time.Parse("2006-01-02", s). */
  function ParseIsoDate(s: string): (r: Option<DateTime>)
    ensures r.Some? ==> ValidDate(r.value) && r.value.hour == 0 && r.value.minute == 0
  {
    if |s| == 10 && DigitsAt(s, 0, 4) && s[4] == '-' && DigitsAt(s, 5, 2) && s[7] == '-' && DigitsAt(s, 8, 2) then
      var t := DateTime(NumberAt(s, 0, 4), NumberAt(s, 5, 2), NumberAt(s, 8, 2), 0, 0);
      if ValidDate(t) then Some(t) else None
    else None
  }

  /** time.Parse("01/02/2006", s). */
  function ParseUsDate(s: string): (r: Option<DateTime>)
    ensures r.Some? ==> ValidDate(r.value) && r.value.hour == 0 && r.value.minute == 0
  {
    if |s| == 10 && DigitsAt(s, 0, 2) && s[2] == '/' && DigitsAt(s, 3, 2) && s[5] == '/' && DigitsAt(s, 6, 4) then
      var t := DateTime(NumberAt(s, 6, 4), NumberAt(s, 0, 2), NumberAt(s, 3, 2), 0, 0);
      if ValidDate(t) then Some(t) else None
    else None
  }

  /** The layout element "PM" and the hour "03": 12 AM is midnight, PM adds
      twelve to the hours 00..11, 12 PM is noon. */
  function Hour24(hour12: nat, pm: bool): (h: nat)
    requires hour12 <= 12
    ensures h < 24
    ensures pm <==> h >= 12
  {
    if pm && hour12 < 12 then hour12 + 12
    else if !pm && hour12 == 12 then 0
    else hour12
  }

  /** The part of "01/02/2006 03:04 PM" after the space run that follows the
      year: the hour, ":", the minute, a space run and the AM/PM marker;
      yields the hour on the 24-hour clock and the minute. */
  function ParseClock(s: string): (r: Option<(nat, nat)>)
    ensures r.Some? ==> r.value.0 < 24 && r.value.1 < 60
  {
    if !(DigitsAt(s, 0, 2) && |s| >= 5 && s[2] == ':' && DigitsAt(s, 3, 2)) then None
    else
      var hour, minute, tail := NumberAt(s, 0, 2), NumberAt(s, 3, 2), s[5..];
      if hour > 12 || minute > 59 || tail == [] || tail[0] != ' ' then None
      else
        var marker := SkipSpaces(tail);
        if marker == "PM" then Some((Hour24(hour, true), minute))
        else if marker == "AM" then Some((Hour24(hour, false), minute))
        else None
  }

  /** time.Parse("01/02/2006 03:04 PM", s). */
  function ParseTimestamp(s: string): (r: Option<DateTime>)
    ensures r.Some? ==> ValidDate(r.value) && ValidClock(r.value)
  {
    if |s| < 10 then None
    else
      match ParseUsDate(s[..10])
      case None => None
      case Some(date) =>
        var rest := s[10..];
        if rest == [] || rest[0] != ' ' then None
        else
          match ParseClock(SkipSpaces(rest))
          case None => None
          case Some(clock) => Some(date.(hour := clock.0, minute := clock.1))
  }

  /** Time.Format("03:04 PM") for a clock time. */
  function FormatClock(hour: nat, minute: nat): string
    requires hour < 24 && minute < 60
  {
    var hour12 := if hour % 12 == 0 then 12 else hour % 12;
    Pad2(hour12) + ":" + Pad2(minute) + " " + (if hour >= 12 then "PM" else "AM")
  }

  function FormatIsoDate(t: DateTime): string
    requires ValidDate(t)
  {
    Pad4(t.year) + "-" + Pad2(t.month) + "-" + Pad2(t.day)
  }

  function FormatUsDate(t: DateTime): string
    requires ValidDate(t)
  {
    Pad2(t.month) + "/" + Pad2(t.day) + "/" + Pad4(t.year)
  }

  /** Time.Format("01/02/2006 03:04 PM"). */
  function FormatTimestamp(t: DateTime): string
    requires ValidDate(t) && ValidClock(t)
  {
    FormatUsDate(t) + " " + FormatClock(t.hour, t.minute)
  }

  lemma ParseFormatIsoDate(t: DateTime)
    requires ValidDate(t) && t.hour == 0 && t.minute == 0
    ensures ParseIsoDate(FormatIsoDate(t)) == Some(t)
  {
    var s := FormatIsoDate(t);
    assert s[0..4] == Pad4(t.year) && s[5..7] == Pad2(t.month) && s[8..10] == Pad2(t.day);
    Pad4Value(t.year);
    Pad2Value(t.month);
    Pad2Value(t.day);
  }

  lemma FormatParseIsoDate(s: string)
    requires ParseIsoDate(s).Some?
    ensures FormatIsoDate(ParseIsoDate(s).value) == s
  {
    Pad4OfValue(s[0..4]);
    Pad2OfValue(s[5..7]);
    Pad2OfValue(s[8..10]);
    assert s == s[0..4] + "-" + s[5..7] + "-" + s[8..10];
  }

  lemma ParseFormatUsDate(t: DateTime)
    requires ValidDate(t) && t.hour == 0 && t.minute == 0
    ensures ParseUsDate(FormatUsDate(t)) == Some(t)
  {
    var s := FormatUsDate(t);
    assert s[0..2] == Pad2(t.month) && s[3..5] == Pad2(t.day) && s[6..10] == Pad4(t.year);
    Pad4Value(t.year);
    Pad2Value(t.month);
    Pad2Value(t.day);
  }

  lemma FormatParseUsDate(s: string)
    requires ParseUsDate(s).Some?
    ensures FormatUsDate(ParseUsDate(s).value) == s
  {
    Pad2OfValue(s[0..2]);
    Pad2OfValue(s[3..5]);
    Pad4OfValue(s[6..10]);
    assert s == s[0..2] + "/" + s[3..5] + "/" + s[6..10];
  }

  /** A request date passes time.Parse exactly when it is the YYYY-MM-DD
      rendering of a calendar date. */
  lemma IsoDateExact(s: string)
    ensures ParseIsoDate(s).Some? <==> exists t :: ValidDate(t) && t.hour == 0 && t.minute == 0 && FormatIsoDate(t) == s
  {
    if ParseIsoDate(s).Some? {
      FormatParseIsoDate(s);
    }
    if exists t :: ValidDate(t) && t.hour == 0 && t.minute == 0 && FormatIsoDate(t) == s {
      var t :| ValidDate(t) && t.hour == 0 && t.minute == 0 && FormatIsoDate(t) == s;
      ParseFormatIsoDate(t);
    }
  }

  lemma SkipOneSpace(t: string)
    requires t == [] || t[0] != ' '
    ensures SkipSpaces(" " + t) == t
  {
    assert (" " + t)[1..] == t;
  }

  /** The 12-hour rendering of an hour and its marker convert back to the hour. */
  lemma Hour12Inverse(hour: nat)
    requires hour < 24
    ensures var hour12 := if hour % 12 == 0 then 12 else hour % 12;
      1 <= hour12 <= 12 && Hour24(hour12, hour >= 12) == hour
  {
    if 0 < hour < 12 {
      assert hour % 12 == hour;
    } else if hour > 12 {
      assert hour % 12 == hour - 12;
    }
  }

  /** A rendered 12-hour clock with its marker parses to the 24-hour time. */
  lemma ParseClockOf(hour12: nat, minute: nat, marker: string)
    requires 1 <= hour12 <= 12 && minute < 60
    requires marker == "PM" || marker == "AM"
    ensures ParseClock(Pad2(hour12) + ":" + Pad2(minute) + " " + marker) == Some((Hour24(hour12, marker == "PM"), minute))
  {
    ClockText(Pad2(hour12), Pad2(minute), marker);
    Pad2Value(hour12);
    Pad2Value(minute);
    SkipOneSpace(marker);
  }

  /** Where the parts of an hh:mm clock text sit. */
  lemma ClockText(hh: string, mm: string, marker: string)
    requires |hh| == 2 && |mm| == 2
    ensures var s := hh + ":" + mm + " " + marker;
      |s| >= 5 && s[0..2] == hh && s[2] == ':' && s[3..5] == mm && s[5..] == " " + marker
  {
  }

  lemma ParseFormatClock(hour: nat, minute: nat)
    requires hour < 24 && minute < 60
    ensures ParseClock(FormatClock(hour, minute)) == Some((hour, minute))
  {
    Hour12Inverse(hour);
    var hour12 := if hour % 12 == 0 then 12 else hour % 12;
    ParseClockOf(hour12, minute, if hour >= 12 then "PM" else "AM");
  }

  /** Formatting a timestamp with the report's layout and parsing it back
      recovers it, AM/PM conversion included. */
  lemma ParseFormatTimestamp(t: DateTime)
    requires ValidDate(t) && ValidClock(t)
    ensures ParseTimestamp(FormatTimestamp(t)) == Some(t)
  {
    var s := FormatTimestamp(t);
    var date := t.(hour := 0, minute := 0);
    var clock := FormatClock(t.hour, t.minute);
    assert FormatUsDate(t) == FormatUsDate(date);
    assert s[..10] == FormatUsDate(date);
    ParseFormatUsDate(date);
    assert s[10..] == " " + clock;
    assert clock[0] != ' ';
    SkipOneSpace(clock);
    ParseFormatClock(t.hour, t.minute);
  }

  /** A start date and time as the report lays them out: "03/06/2016" and
      "01:42 PM", joined by a space, is 13:42 on 6 March 2016. */
  lemma ExampleTimestamp(date: string, time: string)
    requires date == "03/06/2016" && time == "01:42 PM"
    ensures ParseTimestamp(date + " " + time) == Some(DateTime(2016, 3, 6, 13, 42))
  {
    var t := DateTime(2016, 3, 6, 13, 42);
    assert FormatUsDate(t) == date by {
      assert Pad2(3) == "03" && Pad2(6) == "06";
      assert Pad4(2016) == "2016" by {
        assert Pad2(20) == "20" && Pad2(16) == "16";
      }
    }
    assert FormatClock(13, 42) == time by {
      assert Pad2(1) == "01" && Pad2(42) == "42";
    }
    ParseFormatTimestamp(t);
  }
}
