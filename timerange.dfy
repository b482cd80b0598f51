/**
 * The time-range parser of the booking service: text of the shape
 * `H:MM-H:MM` or `HH:MM-HH:MM` becomes two instants on the given day.
 *
 * The regular expression `^(\d{1,2}:\d{2})-(\d{1,2}:\d{2})$` fixes the
 * shape; strptime's `%H:%M` then accepts an hour token only up to 23 and a
 * minute token only up to 59 (its patterns are `2[0-3]|[0-1]\d|\d` and
 * `[0-5]\d|\d`, and anything left unconsumed is an error). Both failures
 * are reported as a format error; an end not after the start is a range
 * error. The day comes from the clock in the source and is a parameter here.
 */
module TimeRange {

  import opened Wrappers
  import opened Domain

  /** The hour and minute written in one token, not yet range-checked. */
  datatype Clock = Clock(hour: nat, minute: nat)

  datatype ParseResult = Parsed(start: Instant, end: Instant) | BadFormat | BadRange

  predicate IsDigit(c: char)
  {
    '0' <= c <= '9'
  }

  function DigitValue(c: char): nat
    requires IsDigit(c)
  {
    (c as int) - ('0' as int)
  }

  function DigitChar(d: nat): (c: char)
    requires d < 10
    ensures IsDigit(c) && DigitValue(c) == d
  {
    (('0' as int) + d) as char
  }

  /** Without the MULTILINE flag `$` also matches just before one final newline. */
  function DropFinalNewline(s: string): string
  {
    if |s| > 0 && s[|s| - 1] == '\n' then s[..|s| - 1] else s
  }

  /** One token `\d{1,2}:\d{2}`. */
  function ScanClock(s: string): Option<Clock>
  {
    if |s| == 4 && IsDigit(s[0]) && s[1] == ':' && IsDigit(s[2]) && IsDigit(s[3]) then
      Some(Clock(DigitValue(s[0]), 10 * DigitValue(s[2]) + DigitValue(s[3])))
    else if |s| == 5 && IsDigit(s[0]) && IsDigit(s[1]) && s[2] == ':' && IsDigit(s[3]) && IsDigit(s[4]) then
      Some(Clock(10 * DigitValue(s[0]) + DigitValue(s[1]), 10 * DigitValue(s[3]) + DigitValue(s[4])))
    else None
  }

  function IndexOf(s: string, c: char): (k: nat)
    ensures k <= |s|
    ensures forall j :: 0 <= j < k ==> s[j] != c
    ensures k < |s| ==> s[k] == c
  {
    if s == [] then 0
    else if s[0] == c then 0
    else 1 + IndexOf(s[1..], c)
  }

  /**
   * The whole regular expression. A token holds no hyphen, so the first
   * hyphen is the only place the text can be split.
   */
  function MatchRange(text: string): Option<(Clock, Clock)>
  {
    var body := DropFinalNewline(text);
    var k := IndexOf(body, '-');
    if k == |body| then None
    else
      match (ScanClock(body[..k]), ScanClock(body[k + 1..]))
      case (Some(a), Some(b)) => Some((a, b))
      case _ => None
  }

  /** What strptime's `%H:%M` accepts. */
  predicate ValidClock(c: Clock)
  {
    c.hour <= 23 && c.minute <= 59
  }

  function At(today: int, c: Clock): Instant
  {
    today * 86400 + c.hour * 3600 + c.minute * 60
  }

  function DayOf(t: Instant): int
  {
    t / 86400
  }

  function HourOf(t: Instant): int
  {
    (t % 86400) / 3600
  }

  function MinuteOf(t: Instant): int
  {
    (t % 3600) / 60
  }

  lemma DayDivision(q: int, r: int)
    requires 0 <= r < 86400
    ensures (q * 86400 + r) / 86400 == q && (q * 86400 + r) % 86400 == r
  {
  }

  lemma HourDivision(q: int, r: int)
    requires 0 <= r < 3600
    ensures (q * 3600 + r) / 3600 == q && (q * 3600 + r) % 3600 == r
  {
  }

  lemma MinuteDivision(q: int, r: int)
    requires 0 <= r < 60
    ensures (q * 60 + r) / 60 == q
  {
  }

  /** A valid clock read on `today` falls on that day, at that hour and minute. */
  lemma AtReadsBack(today: int, c: Clock)
    requires ValidClock(c)
    ensures DayOf(At(today, c)) == today
    ensures HourOf(At(today, c)) == c.hour && MinuteOf(At(today, c)) == c.minute
  {
    var x := c.hour * 3600 + c.minute * 60;
    DayDivision(today, x);
    HourDivision(c.hour, c.minute * 60);
    HourDivision(today * 24 + c.hour, c.minute * 60);
    assert At(today, c) == (today * 24 + c.hour) * 3600 + c.minute * 60;
    MinuteDivision(c.minute, 0);
  }

  function ParseTimeRange(text: string, today: int): (r: ParseResult)
    ensures r.Parsed? ==> r.start < r.end && DayOf(r.start) == today && DayOf(r.end) == today
  {
    match MatchRange(text)
    case None => BadFormat
    case Some((a, b)) =>
      if !ValidClock(a) || !ValidClock(b) then BadFormat
      else
        AtReadsBack(today, a);
        AtReadsBack(today, b);
        var start, end := At(today, a), At(today, b);
        if start >= end then BadRange else Parsed(start, end)
  }

  /** Writes a clock as `H:MM`, or as `HH:MM` when padded or when the hour has two digits. */
  function FormatClock(c: Clock, padded: bool): string
    requires c.hour < 100 && c.minute < 100
  {
    var mm := [DigitChar(c.minute / 10), DigitChar(c.minute % 10)];
    if padded || c.hour >= 10 then [DigitChar(c.hour / 10), DigitChar(c.hour % 10), ':'] + mm
    else [DigitChar(c.hour), ':'] + mm
  }

  function FormatRange(a: Clock, b: Clock, padA: bool, padB: bool): string
    requires a.hour < 100 && a.minute < 100 && b.hour < 100 && b.minute < 100
  {
    FormatClock(a, padA) + "-" + FormatClock(b, padB)
  }

  lemma ScanFormatted(c: Clock, padded: bool)
    requires c.hour < 100 && c.minute < 100
    ensures ScanClock(FormatClock(c, padded)) == Some(c)
  {
  }

  lemma ScanIsFormatted(s: string)
    requires ScanClock(s).Some?
    ensures ScanClock(s).value.hour < 100 && ScanClock(s).value.minute < 100
    ensures s == FormatClock(ScanClock(s).value, |s| == 5)
  {
    var c := ScanClock(s).value;
    if |s| == 4 {
      assert s[0] == DigitChar(c.hour);
    } else {
      assert s[0] == DigitChar(c.hour / 10) && s[1] == DigitChar(c.hour % 10);
    }
    assert s[|s| - 2] == DigitChar(c.minute / 10) && s[|s| - 1] == DigitChar(c.minute % 10);
  }

  /**
   * Round trip: written out as `H:MM-H:MM` or `HH:MM-HH:MM`, with or without
   * one final newline, two clocks (hours and minutes below 100) parse back
   * to exactly their instants on `today`, or to the error their values call for.
   */
  lemma {:induction false} ParseFormatted(a: Clock, b: Clock, padA: bool, padB: bool, newline: bool, today: int)
    requires a.hour < 100 && a.minute < 100 && b.hour < 100 && b.minute < 100
    ensures ParseTimeRange(FormatRange(a, b, padA, padB) + (if newline then "\n" else ""), today) ==
      if !ValidClock(a) || !ValidClock(b) then BadFormat
      else if At(today, a) >= At(today, b) then BadRange
      else Parsed(At(today, a), At(today, b))
  {
    var left, right := FormatClock(a, padA), FormatClock(b, padB);
    var body := left + "-" + right;
    var text := body + (if newline then "\n" else "");
    assert DropFinalNewline(text) == body;
    assert IndexOf(body, '-') == |left| by {
      var k := IndexOf(body, '-');
      assert body[|left|] == '-';
      assert forall j :: 0 <= j < |left| ==> body[j] == left[j] && left[j] != '-';
    }
    assert body[..|left|] == left && body[|left| + 1..] == right;
    ScanFormatted(a, padA);
    ScanFormatted(b, padB);
    assert MatchRange(text) == Some((a, b));
  }

  /**
   * Conversely every text that is not a format error is such a rendering of
   * two valid clocks, and its result is the one their instants call for.
   */
  lemma AcceptedIsFormatted(text: string, today: int)
    requires !ParseTimeRange(text, today).BadFormat?
    ensures exists a: Clock, b: Clock, padA: bool, padB: bool ::
      && ValidClock(a) && ValidClock(b)
      && DropFinalNewline(text) == FormatRange(a, b, padA, padB)
      && ParseTimeRange(text, today) ==
           (if At(today, a) >= At(today, b) then BadRange else Parsed(At(today, a), At(today, b)))
  {
    var body := DropFinalNewline(text);
    var k := IndexOf(body, '-');
    var a, b := ScanClock(body[..k]).value, ScanClock(body[k + 1..]).value;
    ScanIsFormatted(body[..k]);
    ScanIsFormatted(body[k + 1..]);
    assert body == body[..k] + "-" + body[k + 1..];
    assert DropFinalNewline(text) == FormatRange(a, b, k == 5, |body| - k - 1 == 5);
  }

  /**
   * A text that is not two valid clocks written `H:MM` or `HH:MM` around a
   * hyphen, with at most one final newline, is a format error.
   */
  lemma UnrenderedIsBadFormat(text: string, today: int)
    requires forall a: Clock, b: Clock, padA: bool, padB: bool ::
               ValidClock(a) && ValidClock(b) ==> DropFinalNewline(text) != FormatRange(a, b, padA, padB)
    ensures ParseTimeRange(text, today) == BadFormat
  {
    if !ParseTimeRange(text, today).BadFormat? {
      AcceptedIsFormatted(text, today);
    }
  }

  /** Texts with two-digit hours parse to those hours and minutes. */
  lemma ParseTwoDigitHours(today: int)
    ensures ParseTimeRange("15:00-16:00", today) == Parsed(At(today, Clock(15, 0)), At(today, Clock(16, 0)))
  {
    ParseFormatted(Clock(15, 0), Clock(16, 0), false, false, false, today);
    assert FormatRange(Clock(15, 0), Clock(16, 0), false, false) + "" == "15:00-16:00";
  }

  /** A zero-padded hour is read as its value. */
  lemma ParsePaddedHour(today: int)
    ensures ParseTimeRange("09:30-10:45", today) == Parsed(At(today, Clock(9, 30)), At(today, Clock(10, 45)))
  {
    ParseFormatted(Clock(9, 30), Clock(10, 45), true, false, false, today);
    assert FormatRange(Clock(9, 30), Clock(10, 45), true, false) + "" == "09:30-10:45";
  }

  /** A one-digit hour is accepted. */
  lemma ParseOneDigitHour(today: int)
    ensures ParseTimeRange("9:00-10:00", today) == Parsed(At(today, Clock(9, 0)), At(today, Clock(10, 0)))
  {
    ParseFormatted(Clock(9, 0), Clock(10, 0), false, false, false, today);
    assert FormatRange(Clock(9, 0), Clock(10, 0), false, false) + "" == "9:00-10:00";
  }

  /** An hour past 23 is a format error, not a range error. */
  lemma ParseHourOutOfRange(today: int)
    ensures ParseTimeRange("25:00-26:00", today) == BadFormat
  {
    ParseFormatted(Clock(25, 0), Clock(26, 0), false, false, false, today);
    assert FormatRange(Clock(25, 0), Clock(26, 0), false, false) + "" == "25:00-26:00";
  }

  /** An end before the start is a range error. */
  lemma ParseInvertedRange(today: int)
    ensures ParseTimeRange("16:00-15:00", today) == BadRange
  {
    ParseFormatted(Clock(16, 0), Clock(15, 0), false, false, false, today);
    assert FormatRange(Clock(16, 0), Clock(15, 0), false, false) + "" == "16:00-15:00";
  }

  /** An end equal to the start is a range error too. */
  lemma ParseEmptyRange(today: int)
    ensures ParseTimeRange("15:00-15:00", today) == BadRange
  {
    ParseFormatted(Clock(15, 0), Clock(15, 0), false, false, false, today);
    assert FormatRange(Clock(15, 0), Clock(15, 0), false, false) + "" == "15:00-15:00";
  }

  /** Texts without a hyphen never match. */
  lemma NoHyphenIsBadFormat(text: string, today: int)
    requires forall i :: 0 <= i < |text| ==> text[i] != '-'
    ensures ParseTimeRange(text, today) == BadFormat
  {
    var body := DropFinalNewline(text);
    assert forall i :: 0 <= i < |body| ==> body[i] == text[i];
  }
}
