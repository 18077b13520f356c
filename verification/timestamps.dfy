/**
 * The text forms of appointment dates and times and the parsers that read them back.
 *
 * Stored appointment rows keep a date string and a time string. The Node server writes
 * `MM/DD/YYYY` and `h:mm AM` (csvHandler.js `formatDateForExcel` / `formatTimeForExcel`); the
 * Python backend writes `YYYY-MM-DD` and `hh:mm AM` (`strftime`). Three parsers combine the
 * two strings into an instant: the Node server's `combineDateAndTime`, the admin page's
 * `combineDateAndTime` (which uses `Date.UTC`), and Python's pair of `strptime` calls.
 * Local time is UTC throughout, so the Node server's `new Date(y, m, d, h, min)` and the admin
 * page's `Date.UTC(y, m, d, h, min)` compute the same instant.
 */
module Timestamps {
  import opened Wrappers
  import opened Text
  import opened Calendar

  /** Arguments for `Date.UTC` / `new Date(...)`: the year, a zero-based month and a day. */
  datatype DateFields = DateFields(year: int, month0: int, day: int)

  /** A time of day as parsed: hour (24-hour form) and minute. */
  datatype Clock = Clock(hour: int, minute: int)

  // ---------------------------------------------------------------------------------------
  // The JavaScript time-of-day reader (shared by the Node server and the admin page)
  // ---------------------------------------------------------------------------------------

  /** The 24-hour conversion: "pm" below 12 adds 12, then "am" turns 12 into 0. */
  function To24(hour: int, isPM: bool, isAM: bool): int {
    var h := if isPM && hour < 12 then hour + 12 else hour;
    if isAM && h == 12 then 0 else h
  }

  /**
   * The time half of `combineDateAndTime`: lower-case, note "pm" / "am", remove them, trim,
   * split at ':'; an hour that is not a number makes the whole result invalid, a minute
   * that is not a number (or missing) counts as 0.
   */
  function ParseClock(timeStr: string): Option<Clock> {
    var lower := Lower(timeStr);
    var isPM := Contains(lower, "pm");
    var isAM := Contains(lower, "am");
    var parts := Split(Trim(RemoveAmPm(lower)), ':');
    match ParseInt(parts[0])
    case None => None
    case Some(hour) =>
      var minute := ParsePiece(Piece(parts, 1)).GetOr(0);
      Some(Clock(To24(hour, isPM, isAM), minute))
  }

  /** A clock body such as "9" or "14:05": digits and colons, a digit at each end. */
  predicate ClockBody(u: string) {
    u != [] && IsDigit(u[0]) && IsDigit(u[|u| - 1])
    && forall i :: 0 <= i < |u| ==> IsDigit(u[i]) || u[i] == ':'
  }

  /** The endings a written time may carry after its clock body. */
  predicate IsMarker(mark: string) {
    mark == "" || mark == " am" || mark == " pm" || mark == " AM" || mark == " PM"
  }

  /** Which marker a written time carries, as the lower-cased text shows it. */
  function LowerMarker(mark: string): (lm: string)
    requires IsMarker(mark)
    ensures lm == Lower(mark)
  {
    if mark == "" then ""
    else if mark == " am" || mark == " AM" then
      assert Lower(mark)[1] == 'a';
      " am"
    else
      assert Lower(mark)[1] == 'p';
      " pm"
  }

  lemma ReadUnmarked(u: string)
    requires ClockBody(u)
    ensures Trim(RemoveAmPm(u)) == u && !Contains(u, "pm") && !Contains(u, "am")
  {
    assert u + [] == u;
    RemoveAmPmKeepsPrefix(u, []);
    TrimOfTrimmed(u);
    NotContainsFreeChar(u, "pm");
    NotContainsFreeChar(u, "am");
  }

  lemma ReadMarked(u: string, lm: string)
    requires ClockBody(u) && (lm == " am" || lm == " pm")
    ensures var w := u + lm;
      Trim(RemoveAmPm(w)) == u && Contains(w, lm[1..])
      && !Contains(w, if lm == " pm" then "am" else "pm")
  {
    MarkerRemoved(u, lm);
    TrimTrailingBlank(u);
    MarkerFound(u, lm);
    MarkerAbsent(u, lm);
  }

  lemma MarkerRemoved(u: string, lm: string)
    requires ClockBody(u) && (lm == " am" || lm == " pm")
    ensures RemoveAmPm(u + lm) == u + " "
  {
    var v := u + " ";
    assert u + lm == v + lm[1..];
    assert forall i :: 0 <= i < |v| ==> v[i] != 'a' && v[i] != 'p';
    RemoveAmPmKeepsPrefix(v, lm[1..]);
    assert RemoveAmPm(lm[1..]) == [];
    assert v + [] == v;
  }

  lemma MarkerFound(u: string, lm: string)
    requires |lm| == 3
    ensures Contains(u + lm, lm[1..])
  {
    var w := u + lm;
    assert w[|u| + 1..|u| + 3] == lm[1..];
    assert OccursAt(w, lm[1..], |u| + 1);
    ContainsAt(w, lm[1..]);
  }

  lemma MarkerAbsent(u: string, lm: string)
    requires ClockBody(u) && (lm == " am" || lm == " pm")
    ensures !Contains(u + lm, if lm == " pm" then "am" else "pm")
  {
    var w := u + lm;
    var other := if lm == " pm" then "am" else "pm";
    assert forall i :: 0 <= i < |w| ==> w[i] != other[0] by {
      forall i | 0 <= i < |w|
        ensures w[i] != other[0]
      {
        if i >= |u| {
          assert w[i] == lm[i - |u|];
        }
      }
    }
    NotContainsFreeChar(w, other);
  }

  /**
   * For a clock body followed by nothing or by " am" / " pm" in either case, the reader
   * sees exactly the marker that was written and, after removing it, exactly the body.
   */
  lemma MarkerRead(u: string, mark: string)
    requires ClockBody(u) && IsMarker(mark)
    ensures var w := Lower(u + mark);
      Trim(RemoveAmPm(w)) == u
      && (Contains(w, "pm") <==> LowerMarker(mark) == " pm")
      && (Contains(w, "am") <==> LowerMarker(mark) == " am")
  {
    LowerConcat(u, mark);
    LowerOfNoUpper(u);
    var lm := LowerMarker(mark);
    if lm == "" {
      assert u + lm == u;
      ReadUnmarked(u);
    } else {
      ReadMarked(u, lm);
    }
  }

  /** What the reader makes of a clock body and marker, given how the body splits at ':'. */
  lemma ReadClockText(u: string, mark: string, parts: seq<string>)
    requires ClockBody(u) && IsMarker(mark) && parts == Split(u, ':')
    ensures ParseClock(u + mark)
         == match ParseInt(parts[0])
            case None => None
            case Some(hour) =>
              Some(Clock(To24(hour, LowerMarker(mark) == " pm", LowerMarker(mark) == " am"),
                         ParsePiece(Piece(parts, 1)).GetOr(0)))
  {
    MarkerRead(u, mark);
  }

  /**
   * The hour-only forms "H", "H am", "H pm" (either case): the minute reads as 0, "pm" below
   * 12 adds 12 and "12 am" is hour 0.
   */
  lemma HourOnlyForm(hs: string, mark: string)
    requires hs != [] && AllDigits(hs) && IsMarker(mark)
    ensures ParseClock(hs + mark)
         == Some(Clock(To24(DigitsValue(hs), LowerMarker(mark) == " pm", LowerMarker(mark) == " am"), 0))
  {
    assert ':' !in hs;
    SplitNoSeparator(hs, ':');
    ParseIntOfDigits(hs);
    ReadClockText(hs, mark, [hs]);
  }

  /** The forms "H:MM", "H:MM am", "H:MM pm" (either case). */
  lemma HourMinuteForm(hs: string, ms: string, mark: string)
    requires hs != [] && AllDigits(hs) && ms != [] && AllDigits(ms) && IsMarker(mark)
    ensures ParseClock(hs + ":" + ms + mark)
         == Some(Clock(To24(DigitsValue(hs), LowerMarker(mark) == " pm", LowerMarker(mark) == " am"),
                       DigitsValue(ms)))
  {
    var u := hs + ":" + ms;
    HourMinuteBody(hs, ms);
    ParseIntOfDigits(hs);
    ParseIntOfDigits(ms);
    ReadClockText(u, mark, [hs, ms]);
  }

  lemma HourMinuteBody(hs: string, ms: string)
    requires hs != [] && AllDigits(hs) && ms != [] && AllDigits(ms)
    ensures ClockBody(hs + ":" + ms) && Split(hs + ":" + ms, ':') == [hs, ms]
  {
    var u := hs + ":" + ms;
    assert forall i :: 0 <= i < |u| ==> IsDigit(u[i]) || u[i] == ':' by {
      forall i | 0 <= i < |u|
        ensures IsDigit(u[i]) || u[i] == ':'
      {
        if i < |hs| {
          assert u[i] == hs[i];
        } else if i > |hs| {
          assert u[i] == ms[i - |hs| - 1];
        }
      }
    }
    assert u[|u| - 1] == ms[|ms| - 1];
    assert ':' !in hs && ':' !in ms by {
      assert forall i :: 0 <= i < |hs| ==> hs[i] != ':';
      assert forall i :: 0 <= i < |ms| ==> ms[i] != ':';
    }
    SplitConcat(hs, ':', ms);
    SplitNoSeparator(ms, ':');
  }

  // ---------------------------------------------------------------------------------------
  // Node server: combineDateAndTime, formatDateForExcel, formatTimeForExcel
  // ---------------------------------------------------------------------------------------

  /** An `M/D/Y` date: pieces read with `parseInt`; a year below 100 has 2000 added. */
  function SlashDate(dateStr: string): Option<DateFields> {
    var parts := Split(dateStr, '/');
    var month := ParseInt(parts[0]);
    var day := ParsePiece(Piece(parts, 1));
    var year := ParsePiece(Piece(parts, 2));
    if month.None? || day.None? || year.None? then None
    else
      Some(DateFields(if year.value < 100 then year.value + 2000 else year.value,
                      month.value - 1, day.value))
  }

  /** A `YYYY-MM-DD` date as `new Date(dateStr)` reads it (ISO date-only form, a real date). */
  function IsoDateOnly(dateStr: string): (r: Option<DateFields>)
    ensures r.Some? ==> ValidCivil(Civil(r.value.year, r.value.month0 + 1, r.value.day))
  {
    var parts := Split(dateStr, '-');
    if |parts| == 3 && |parts[0]| == 4 && |parts[1]| == 2 && |parts[2]| == 2
       && AllDigits(parts[0]) && AllDigits(parts[1]) && AllDigits(parts[2])
    then
      var c := Civil(DigitsValue(parts[0]), DigitsValue(parts[1]), DigitsValue(parts[2]));
      if ValidCivil(c) then Some(DateFields(c.year, c.month - 1, c.day)) else None
    else None
  }

  /**
   * The Node server's `combineDateAndTime`: a date containing '/' is `M/D/Y`, otherwise one
   * containing '-' is an ISO date, anything else is rejected; the instant is
   * `new Date(year, month, day, hour, minute)`.
   */
  function NodeCombine(dateStr: string, timeStr: string): (r: Option<Instant>)
    ensures '/' !in dateStr && '-' !in dateStr ==> r.None?
    ensures r.Some? ==> ParseClock(timeStr).Some?
  {
    var date := if '/' in dateStr then SlashDate(dateStr)
                else if '-' in dateStr then IsoDateOnly(dateStr)
                else None;
    var clock := ParseClock(timeStr);
    if date.None? || clock.None? then None
    else Some(UtcInstant(date.value.year, date.value.month0, date.value.day,
                         clock.value.hour, clock.value.minute))
  }

  /** The calendar date of an instant. */
  function DateOf(t: Instant): (c: Civil)
    ensures ValidCivil(c) && DaysFromCivil(c) == DayOf(t)
  {
    CivilFromDays(DayOf(t))
  }

  /** `formatDateForExcel` of a date: zero-padded month and day, then `${year}`. */
  function NodeDateText(c: Civil): string
    requires ValidCivil(c)
  {
    Pad2(c.month) + "/" + Pad2(c.day) + "/" + IntToString(c.year)
  }

  function NodeFormatDate(t: Instant): string {
    NodeDateText(DateOf(t))
  }

  /** `formatTimeForExcel` of a time: hour 0 shows as 12, hours above 12 lose 12; PM from 12 on. */
  function NodeTimeText(hour: int, minute: int): string
    requires 0 <= hour < 24 && 0 <= minute < 60
  {
    var shown := if hour == 0 then 12 else if hour > 12 then hour - 12 else hour;
    NatToString(shown) + ":" + Pad2(minute) + " " + (if hour >= 12 then "PM" else "AM")
  }

  function NodeFormatTime(t: Instant): string {
    NodeTimeText(HourOf(t), MinuteOf(t))
  }

  /** Whatever the hour, the time text reads back as that hour and minute. */
  lemma NodeTimeTextReads(hour: int, minute: int)
    requires 0 <= hour < 24 && 0 <= minute < 60
    ensures ParseClock(NodeTimeText(hour, minute)) == Some(Clock(hour, minute))
  {
    var shown := if hour == 0 then 12 else if hour > 12 then hour - 12 else hour;
    var mark := if hour >= 12 then " PM" else " AM";
    assert NodeTimeText(hour, minute) == NatToString(shown) + ":" + Pad2(minute) + mark;
    HourMinuteForm(NatToString(shown), Pad2(minute), mark);
    DigitsOfNatToString(shown);
    DigitsOfPad2(minute);
  }

  lemma NodeDateTextPieces(c: Civil)
    requires ValidCivil(c) && c.year >= 0
    ensures Split(NodeDateText(c), '/') == [Pad2(c.month), Pad2(c.day), NatToString(c.year)]
  {
    var m := Pad2(c.month);
    var d := Pad2(c.day);
    var y := NatToString(c.year);
    assert NodeDateText(c) == m + ['/'] + d + ['/'] + y;
    DigitsExclude(m, '/');
    DigitsExclude(d, '/');
    DigitsExclude(y, '/');
    SplitThree(m, d, y, '/');
  }

  /** The Node date text is a slash date: it has '/' and no '-'. */
  lemma NodeDateTextSeparators(c: Civil)
    requires ValidCivil(c) && c.year >= 0
    ensures '/' in NodeDateText(c) && '-' !in NodeDateText(c)
  {
    var m := Pad2(c.month);
    var d := Pad2(c.day);
    var y := NatToString(c.year);
    var text := NodeDateText(c);
    assert text == m + ['/'] + d + ['/'] + y;
    assert text[|m|] == '/';
    DigitsExclude(m, '-');
    DigitsExclude(d, '-');
    DigitsExclude(y, '-');
  }

  /** The date text splits back into its three numbers when the year is 100 or later. */
  lemma NodeDateTextReads(c: Civil)
    requires ValidCivil(c) && c.year >= 100
    ensures SlashDate(NodeDateText(c)) == Some(DateFields(c.year, c.month - 1, c.day))
  {
    NodeDateTextPieces(c);
    ParseIntOfPad2(c.month);
    ParseIntOfPad2(c.day);
    ParseIntOfNatToString(c.year);
    SlashDateOfPieces(NodeDateText(c), Pad2(c.month), Pad2(c.day), NatToString(c.year), c.month, c.day, c.year);
  }

  /** `M/D/Y` text whose three pieces read as numbers gives those numbers back. */
  lemma SlashDateOfPieces(s: string, m: string, d: string, y: string, month: int, day: int, year: int)
    requires Split(s, '/') == [m, d, y]
    requires ParseInt(m) == Some(month) && ParseInt(d) == Some(day) && ParseInt(y) == Some(year)
    requires year >= 100
    ensures SlashDate(s) == Some(DateFields(year, month - 1, day))
  {
    var parts := Split(s, '/');
    assert Piece(parts, 1) == Some(d);
    assert Piece(parts, 2) == Some(y);
  }

  /**
   * The Node server reads back what it wrote: for a whole-minute instant in year 100 or
   * later, `combineDateAndTime(formatDateForExcel(t), formatTimeForExcel(t))` is `t`.
   */
  lemma NodeRoundTrip(t: Instant)
    requires MinuteAligned(t) && DateOf(t).year >= 100
    ensures NodeCombine(NodeFormatDate(t), NodeFormatTime(t)) == Some(t)
  {
    NodeTextRoundTrip(DateOf(t), HourOf(t), MinuteOf(t));
    SlotOfDate(t);
  }

  /** The Node server's date and time texts combine into `Date.UTC` of their fields. */
  lemma NodeTextRoundTrip(c: Civil, hour: int, minute: int)
    requires ValidCivil(c) && c.year >= 100 && 0 <= hour < 24 && 0 <= minute < 60
    ensures NodeCombine(NodeDateText(c), NodeTimeText(hour, minute))
         == Some(UtcInstant(c.year, c.month - 1, c.day, hour, minute))
  {
    NodeDateTextSeparators(c);
    NodeDateTextReads(c);
    NodeTimeTextReads(hour, minute);
    NodeCombineOfSlashDate(NodeDateText(c), NodeTimeText(hour, minute),
                           DateFields(c.year, c.month - 1, c.day), Clock(hour, minute));
  }

  /** A slash date and a clock time that both read combine into the instant of their fields. */
  lemma NodeCombineOfSlashDate(dateStr: string, timeStr: string, f: DateFields, k: Clock)
    requires '/' in dateStr && SlashDate(dateStr) == Some(f) && ParseClock(timeStr) == Some(k)
    ensures NodeCombine(dateStr, timeStr) == Some(UtcInstant(f.year, f.month0, f.day, k.hour, k.minute))
  {
  }

  /** A whole-minute instant is `Date.UTC` of its own date, hour and minute (year not 0..99). */
  lemma SlotOfDate(t: Instant)
    requires MinuteAligned(t) && !(0 <= DateOf(t).year <= 99)
    ensures UtcInstant(DateOf(t).year, DateOf(t).month - 1, DateOf(t).day, HourOf(t), MinuteOf(t)) == t
  {
    UtcInstantOfCivil(DateOf(t), DayOf(t), HourOf(t), MinuteOf(t));
    Decompose(t);
  }

  // ---------------------------------------------------------------------------------------
  // Python backend: strptime and strftime
  // ---------------------------------------------------------------------------------------

  /**
   * `datetime.strptime(s, '%Y-%m-%d')`: a four-digit year, a month in one or two digits, a
   * `%d` day field, and a date that exists (year 1 at the earliest).
   */
  function PyParseDate(s: string): (r: Option<Civil>)
    ensures r.Some? ==> ValidCivil(r.value) && 1 <= r.value.year <= 9999
  {
    var parts := Split(s, '-');
    if |parts| != 3 then None
    else if !(|parts[0]| == 4 && AllDigits(parts[0]) && 1 <= |parts[1]| <= 2 && AllDigits(parts[1])) then None
    else
      match PyDayField(parts[2])
      case None => None
      case Some(day) =>
        var c := Civil(DigitsValue(parts[0]), DigitsValue(parts[1]), day);
        assert DigitsValue(parts[0]) <= 9999 by { DigitsBound(parts[0]); }
        if 1 <= c.year && ValidCivil(c) then Some(c) else None
  }

  /**
   * The text `%d` matches in the pattern `strptime` builds: one or two digits, or a blank
   * followed by one digit (`' 5'`).  Whether the number is a day of the month is checked
   * with the whole date.
   */
  function PyDayField(s: string): Option<nat> {
    if 1 <= |s| <= 2 && AllDigits(s) then Some(DigitsValue(s))
    else if |s| == 2 && s[0] == ' ' && IsDigit(s[1]) then Some(DigitValue(s[1]))
    else None
  }

  /** Four digits denote at most 9999. */
  lemma DigitsBound(s: string)
    requires |s| == 4 && AllDigits(s)
    ensures DigitsValue(s) <= 9999
  {
    DigitsBelow(s);
    assert Pow10(4) == 10000;
  }

  /**
   * The white space of Python's `str.isspace`, which `\s` matches in a text pattern: the
   * ASCII controls 9 to 13 and 28 to 31, the blank, and the Unicode spaces and separators.
   */
  predicate PyIsSpace(c: char) {
    '\t' <= c <= '\r' || '\U{001C}' <= c <= ' ' || c == '\U{0085}' || c == '\U{00A0}'
    || c == '\U{1680}' || '\U{2000}' <= c <= '\U{200A}' || c == '\U{2028}' || c == '\U{2029}'
    || c == '\U{202F}' || c == '\U{205F}' || c == '\U{3000}'
  }

  predicate PyAllSpace(s: string) {
    forall i :: 0 <= i < |s| ==> PyIsSpace(s[i])
  }

  /**
   * `datetime.strptime(s, '%I:%M %p')`.  `strptime` turns the format's blank into `\s+`, so
   * the text is an hour 1..12 in one or two digits, ':', the minute field of `PyMinuteMark`
   * with a minute 0..59, and AM or PM in any case; AM turns 12 into 0 and PM adds 12 below 12.
   */
  function PyParseTime(s: string): (r: Option<Clock>)
    ensures r.Some? ==> 0 <= r.value.hour < 24 && 0 <= r.value.minute < 60
  {
    var parts := Split(s, ':');
    if |parts| != 2 || !(1 <= |parts[0]| <= 2 && AllDigits(parts[0])) then None
    else
      var h := DigitsValue(parts[0]);
      match PyMinuteMark(parts[1])
      case None => None
      case Some((m, mark)) =>
        if !(1 <= h <= 12 && m <= 59) then None
        else
          match Meridiem(mark, h)
          case None => None
          case Some(hour) => Some(Clock(hour, m))
  }

  /**
   * What follows the ':' in a `'%I:%M %p'` text: one or two digits (the first run of digits),
   * one or more white-space characters, and a two-letter mark; the minute's value and the mark
   * in lower case.
   */
  function PyMinuteMark(rest: string): Option<(nat, string)> {
    var n := |rest|;
    var k := if n > 1 && IsDigit(rest[1]) then 2 else 1;
    if n < k + 3 || !AllDigits(rest[..k]) || !PyAllSpace(rest[k..n - 2]) then None
    else Some((DigitsValue(rest[..k]), Lower(rest[n - 2..])))
  }

  /** The minute field read from its three parts. */
  lemma PyMinuteMarkOf(ms: string, gap: string, mark: string)
    requires 1 <= |ms| <= 2 && AllDigits(ms) && gap != [] && PyAllSpace(gap) && |mark| == 2
    ensures PyMinuteMark(ms + gap + mark) == Some((DigitsValue(ms), Lower(mark)))
  {
    var rest := ms + gap + mark;
    if |ms| == 1 {
      assert rest[1] == gap[0];
    } else {
      assert rest[1] == ms[1];
    }
    assert rest[..|ms|] == ms;
    assert rest[|ms|..|rest| - 2] == gap;
    assert rest[|rest| - 2..] == mark;
  }

  /** An hour of digits, ':', and a text without ':' split into those two pieces. */
  lemma PyTimeSplitOf(hs: string, rest: string)
    requires AllDigits(hs) && ':' !in rest
    ensures Split(hs + ":" + rest, ':') == [hs, rest]
  {
    assert hs + ":" + rest == hs + [':'] + rest;
    DigitsExclude(hs, ':');
    SplitConcat(hs, ':', rest);
    SplitNoSeparator(rest, ':');
  }

  /**
   * Any non-empty run of white space between the minute and the AM/PM mark reads like the
   * single blank `strftime` writes: `'9:30  PM'` and `'9:30\tPM'` are read as `'9:30 PM'`.
   */
  lemma PyTimeAnyGap(hs: string, ms: string, gap: string, mark: string)
    requires 1 <= |hs| <= 2 && AllDigits(hs) && 1 <= |ms| <= 2 && AllDigits(ms)
    requires gap != [] && PyAllSpace(gap) && |mark| == 2 && ':' !in mark
    ensures PyParseTime(hs + ":" + ms + gap + mark) == PyParseTime(hs + ":" + ms + " " + mark)
  {
    DigitsExclude(ms, ':');
    assert ':' !in gap by {
      assert forall i :: 0 <= i < |gap| ==> PyIsSpace(gap[i]);
    }
    assert hs + ":" + ms + gap + mark == hs + ":" + (ms + gap + mark);
    assert hs + ":" + ms + " " + mark == hs + ":" + (ms + " " + mark);
    PyTimeSplitOf(hs, ms + gap + mark);
    PyTimeSplitOf(hs, ms + " " + mark);
    PyMinuteMarkOf(ms, gap, mark);
    PyMinuteMarkOf(ms, " ", mark);
  }

  /** A blank-padded day (`'2025-11- 5'`) reads as the zero-padded one (`'2025-11-05'`). */
  lemma PyBlankPaddedDay(ys: string, ms: string, d: char)
    requires |ys| == 4 && AllDigits(ys) && 1 <= |ms| <= 2 && AllDigits(ms) && IsDigit(d)
    ensures PyParseDate(ys + "-" + ms + "-" + [' ', d]) == PyParseDate(ys + "-" + ms + "-" + ['0', d])
  {
    DigitsExclude(ys, '-');
    DigitsExclude(ms, '-');
    SplitThree(ys, ms, [' ', d], '-');
    SplitThree(ys, ms, ['0', d], '-');
    assert ys + "-" + ms + "-" + [' ', d] == ys + ['-'] + ms + ['-'] + [' ', d];
    assert ys + "-" + ms + "-" + ['0', d] == ys + ['-'] + ms + ['-'] + ['0', d];
    assert ['0', d][..1] == ['0'] && ['0'][..0] == [];
    assert DigitsValue(['0']) == 0;
    assert PyDayField([' ', d]) == PyDayField(['0', d]) == Some(DigitValue(d));
  }

  /** `%p` after `%I`: AM turns 12 into 0, PM adds 12 below 12; anything else is rejected. */
  function Meridiem(mark: string, h: int): (r: Option<int>)
    ensures r.Some? && 1 <= h <= 12 ==> 0 <= r.value < 24
  {
    if mark == "am" then Some(if h == 12 then 0 else h)
    else if mark == "pm" then Some(if h == 12 then 12 else h + 12)
    else None
  }

  lemma MeridiemPm(h: int)
    ensures Meridiem("pm", h) == Some(if h == 12 then 12 else h + 12)
  {
    assert "pm"[0] != "am"[0];
  }

  /** The two `strptime` results put together: the date at midnight plus hour and minute. */
  function PyCombine(dateStr: string, timeStr: string): (r: Option<Instant>)
    ensures r.Some? <==> PyParseDate(dateStr).Some? && PyParseTime(timeStr).Some?
  {
    match (PyParseDate(dateStr), PyParseTime(timeStr))
    case (Some(c), Some(clock)) =>
      Some(DaysFromCivil(c) * MsPerDay + clock.hour * MsPerHour + clock.minute * MsPerMinute)
    case _ => None
  }

  /** What `strptime` accepts is a whole minute in years 1..9999. */
  lemma PyCombineRange(dateStr: string, timeStr: string)
    requires PyCombine(dateStr, timeStr).Some?
    ensures MinuteAligned(PyCombine(dateStr, timeStr).value)
    ensures 1 <= DateOf(PyCombine(dateStr, timeStr).value).year <= 9999
  {
    var c := PyParseDate(dateStr).value;
    var clock := PyParseTime(timeStr).value;
    var z := DaysFromCivil(c);
    var t := z * MsPerDay + clock.hour * MsPerHour + clock.minute * MsPerMinute;
    PyCombineOfParts(dateStr, timeStr, c, clock, z, t);
    SlotRange(c, z, clock.hour, clock.minute, PyCombine(dateStr, timeStr).value);
  }

  lemma SlotRange(c: Civil, z: int, hour: int, minute: int, t: Instant)
    requires ValidCivil(c) && 1 <= c.year <= 9999 && z == DaysFromCivil(c)
    requires 0 <= hour < 24 && 0 <= minute < 60
    requires t == z * MsPerDay + hour * MsPerHour + minute * MsPerMinute
    ensures MinuteAligned(t) && 1 <= DateOf(t).year <= 9999
  {
    DateOfSlot(c, z, hour, minute);
  }

  /** `strftime('%Y-%m-%d')` of a date (glibc prints the year without padding). */
  function PyDateText(c: Civil): string
    requires ValidCivil(c) && c.year >= 0
  {
    NatToString(c.year) + "-" + Pad2(c.month) + "-" + Pad2(c.day)
  }

  /** `format_date_for_excel`; `fromisoformat` only knows years 1..9999 (None: it raises). */
  function PyFormatDate(t: Instant): Option<string> {
    var c := DateOf(t);
    if 1 <= c.year <= 9999 then Some(PyDateText(c)) else None
  }

  /** `strftime('%I:%M %p')`: the hour on the 12-hour dial (01..12), zero-padded minute, AM/PM. */
  function PyTimeText(hour: int, minute: int): string
    requires 0 <= hour < 24 && 0 <= minute < 60
  {
    var dial := if hour % 12 == 0 then 12 else hour % 12;
    Pad2(dial) + ":" + Pad2(minute) + " " + (if hour < 12 then "AM" else "PM")
  }

  function PyFormatTime(t: Instant): string {
    PyTimeText(HourOf(t), MinuteOf(t))
  }

  lemma PyTimeTextReads(hour: int, minute: int)
    requires 0 <= hour < 24 && 0 <= minute < 60
    ensures PyParseTime(PyTimeText(hour, minute)) == Some(Clock(hour, minute))
  {
    if hour < 12 {
      PyMorningReads(hour, minute);
    } else {
      PyAfternoonReads(hour, minute);
    }
  }

  lemma PyMorningReads(hour: int, minute: int)
    requires 0 <= hour < 12 && 0 <= minute < 60
    ensures PyParseTime(PyTimeText(hour, minute)) == Some(Clock(hour, minute))
  {
    var dial := if hour == 0 then 12 else hour;
    PyTimePieces(hour, minute, dial, "AM");
    PyTimeOfFields(PyTimeText(hour, minute), Pad2(dial), Pad2(minute) + " " + "AM", dial, minute, "am");
  }

  lemma PyAfternoonReads(hour: int, minute: int)
    requires 12 <= hour < 24 && 0 <= minute < 60
    ensures PyParseTime(PyTimeText(hour, minute)) == Some(Clock(hour, minute))
  {
    var dial := if hour == 12 then 12 else hour - 12;
    PyTimePieces(hour, minute, dial, "PM");
    PyTimeOfFields(PyTimeText(hour, minute), Pad2(dial), Pad2(minute) + " " + "PM", dial, minute, "pm");
    MeridiemPm(dial);
  }

  /** The pieces `strptime` sees in `strftime('%I:%M %p')` text. */
  lemma PyTimePieces(hour: int, minute: int, dial: nat, ap: string)
    requires 0 <= hour < 24 && 0 <= minute < 60
    requires dial == (if hour % 12 == 0 then 12 else hour % 12)
    requires ap == (if hour < 12 then "AM" else "PM")
    ensures Split(PyTimeText(hour, minute), ':') == [Pad2(dial), Pad2(minute) + " " + ap]
    ensures |Pad2(dial)| == 2 && AllDigits(Pad2(dial)) && DigitsValue(Pad2(dial)) == dial
    ensures PyMinuteMark(Pad2(minute) + " " + ap) == Some((minute, if hour < 12 then "am" else "pm"))
  {
    var ms := Pad2(minute);
    var rest := ms + " " + ap;
    DigitsOfPad2(dial);
    DigitsOfPad2(minute);
    assert PyTimeText(hour, minute) == Pad2(dial) + ":" + rest;
    DigitsExclude(ms, ':');
    assert ':' !in rest;
    PyTimeSplitOf(Pad2(dial), rest);
    assert PyAllSpace(" ");
    PyMinuteMarkOf(ms, " ", ap);
    assert Lower(ap) == (if hour < 12 then "am" else "pm");
  }

  /** A time whose fields were read: the mark decides the hour. */
  lemma PyTimeOfFields(s: string, hs: string, rest: string, h: nat, m: nat, mark: string)
    requires Split(s, ':') == [hs, rest] && 1 <= |hs| <= 2 && AllDigits(hs) && DigitsValue(hs) == h
    requires PyMinuteMark(rest) == Some((m, mark)) && 1 <= h <= 12 && m <= 59
    ensures PyParseTime(s) == match Meridiem(mark, h) case None => None case Some(hour) => Some(Clock(hour, m))
  {
  }

  lemma PyDateTextReads(c: Civil)
    requires ValidCivil(c) && 1000 <= c.year <= 9999
    ensures PyParseDate(PyDateText(c)) == Some(c)
  {
    var y := NatToString(c.year);
    var m := Pad2(c.month);
    var d := Pad2(c.day);
    FourDigits(c.year);
    assert PyDateText(c) == y + ['-'] + m + ['-'] + d;
    DigitsExclude(y, '-');
    DigitsExclude(m, '-');
    DigitsExclude(d, '-');
    SplitThree(y, m, d, '-');
    DigitsOfNatToString(c.year);
    DigitsOfPad2(c.month);
    DigitsOfPad2(c.day);
  }

  /**
   * The Python backend reads back what it wrote: for a whole-minute instant in years
   * 1000..9999, parsing `format_date_for_excel` and `format_time_for_excel` gives `t`.
   */
  lemma PyRoundTrip(t: Instant)
    requires MinuteAligned(t) && 1000 <= DateOf(t).year <= 9999
    ensures PyFormatDate(t).Some? && PyCombine(PyFormatDate(t).value, PyFormatTime(t)) == Some(t)
  {
    Decompose(t);
    PyTextRoundTrip(DateOf(t), DayOf(t), HourOf(t), MinuteOf(t), t);
  }

  /** The Python date and time texts combine into the instant of their fields. */
  /** The Python date and time texts of day `z`'s date combine into that day's instant. */
  lemma PyTextRoundTrip(c: Civil, z: int, hour: int, minute: int, t: Instant)
    requires ValidCivil(c) && 1000 <= c.year <= 9999 && 0 <= hour < 24 && 0 <= minute < 60
    requires z == DaysFromCivil(c) && t == z * MsPerDay + hour * MsPerHour + minute * MsPerMinute
    ensures PyCombine(PyDateText(c), PyTimeText(hour, minute)) == Some(t)
  {
    PyDateTextReads(c);
    PyTimeTextReads(hour, minute);
    PyCombineOfParts(PyDateText(c), PyTimeText(hour, minute), c, Clock(hour, minute), z, t);
  }

  lemma PyCombineOfParts(dateStr: string, timeStr: string, c: Civil, k: Clock, z: int, t: Instant)
    requires PyParseDate(dateStr) == Some(c) && PyParseTime(timeStr) == Some(k)
    requires z == DaysFromCivil(c) && t == z * MsPerDay + k.hour * MsPerHour + k.minute * MsPerMinute
    ensures PyCombine(dateStr, timeStr) == Some(t)
  {
  }

  // ---------------------------------------------------------------------------------------
  // Admin page: combineDateAndTime with Date.UTC; both pages' clock display
  // ---------------------------------------------------------------------------------------

  /** A date containing '-' on the admin page: `parseInt` of the first three pieces, Y-M-D. */
  function DashDate(dateStr: string): Option<DateFields> {
    var parts := Split(dateStr, '-');
    var year := ParseInt(parts[0]);
    var month := ParsePiece(Piece(parts, 1));
    var day := ParsePiece(Piece(parts, 2));
    if year.None? || month.None? || day.None? then None
    else Some(DateFields(year.value, month.value - 1, day.value))
  }

  /**
   * The admin page's `combineDateAndTime`: '-' is checked first (Y-M-D), then '/' (M/D/Y with
   * the two-digit-year rule); anything else is rejected; the instant is `Date.UTC(...)`.
   */
  function ClientCombine(dateStr: string, timeStr: string): (r: Option<Instant>)
    ensures '/' !in dateStr && '-' !in dateStr ==> r.None?
    ensures r.Some? ==> ParseClock(timeStr).Some?
  {
    var date := if '-' in dateStr then DashDate(dateStr)
                else if '/' in dateStr then SlashDate(dateStr)
                else None;
    var clock := ParseClock(timeStr);
    if date.None? || clock.None? then None
    else Some(UtcInstant(date.value.year, date.value.month0, date.value.day,
                         clock.value.hour, clock.value.minute))
  }

  /** On a slash date the admin page and the Node server compute the same instant. */
  lemma ClientAgreesOnSlashDates(dateStr: string, timeStr: string)
    requires '/' in dateStr && '-' !in dateStr
    ensures ClientCombine(dateStr, timeStr) == NodeCombine(dateStr, timeStr)
  {
  }

  /** The admin page reads the Node server's stored text back as the stored slot. */
  lemma ClientReadsNodeRows(t: Instant)
    requires MinuteAligned(t) && DateOf(t).year >= 100
    ensures ClientCombine(NodeFormatDate(t), NodeFormatTime(t)) == Some(t)
  {
    var c := DateOf(t);
    NodeDateTextSeparators(c);
    ClientAgreesOnSlashDates(NodeDateText(c), NodeTimeText(HourOf(t), MinuteOf(t)));
    NodeRoundTrip(t);
  }

  /** The admin page reads a Python date text as the same three numbers. */
  lemma ClientReadsPythonDate(c: Civil)
    requires ValidCivil(c) && 1000 <= c.year <= 9999
    ensures '-' in PyDateText(c)
    ensures DashDate(PyDateText(c)) == Some(DateFields(c.year, c.month - 1, c.day))
  {
    PyDateTextPieces(c);
    ParseIntOfNatToString(c.year);
    ParseIntOfPad2(c.month);
    ParseIntOfPad2(c.day);
    DashDateOfPieces(PyDateText(c), NatToString(c.year), Pad2(c.month), Pad2(c.day), c.year, c.month, c.day);
  }

  lemma PyDateTextPieces(c: Civil)
    requires ValidCivil(c) && c.year >= 0
    ensures '-' in PyDateText(c)
    ensures Split(PyDateText(c), '-') == [NatToString(c.year), Pad2(c.month), Pad2(c.day)]
  {
    var y := NatToString(c.year);
    var m := Pad2(c.month);
    var d := Pad2(c.day);
    assert PyDateText(c) == y + ['-'] + m + ['-'] + d;
    assert PyDateText(c)[|y|] == '-';
    DigitsExclude(y, '-');
    DigitsExclude(m, '-');
    DigitsExclude(d, '-');
    SplitThree(y, m, d, '-');
  }

  /** `Y-M-D` text whose three pieces read as numbers gives those numbers back. */
  lemma DashDateOfPieces(s: string, y: string, m: string, d: string, year: int, month: int, day: int)
    requires Split(s, '-') == [y, m, d]
    requires ParseInt(y) == Some(year) && ParseInt(m) == Some(month) && ParseInt(d) == Some(day)
    ensures DashDate(s) == Some(DateFields(year, month - 1, day))
  {
    var parts := Split(s, '-');
    assert Piece(parts, 1) == Some(m);
    assert Piece(parts, 2) == Some(d);
  }

  /** The JavaScript time reader understands Python's `%I:%M %p` text. */
  lemma ClientReadsPythonTime(hour: int, minute: int)
    requires 0 <= hour < 24 && 0 <= minute < 60
    ensures ParseClock(PyTimeText(hour, minute)) == Some(Clock(hour, minute))
  {
    var dial := if hour % 12 == 0 then 12 else hour % 12;
    var mark := if hour < 12 then " AM" else " PM";
    PyTimeTextShape(hour, minute, dial, mark);
    DigitsOfPad2(dial);
    DigitsOfPad2(minute);
    HourMinuteForm(Pad2(dial), Pad2(minute), mark);
  }

  lemma PyTimeTextShape(hour: int, minute: int, dial: int, mark: string)
    requires 0 <= hour < 24 && 0 <= minute < 60
    requires dial == (if hour % 12 == 0 then 12 else hour % 12)
    requires mark == (if hour < 12 then " AM" else " PM")
    ensures 1 <= dial <= 12
    ensures PyTimeText(hour, minute) == Pad2(dial) + ":" + Pad2(minute) + mark
    ensures To24(dial, LowerMarker(mark) == " pm", LowerMarker(mark) == " am") == hour
  {
  }

  /** The admin page reads the Python backend's stored text back as the stored slot. */
  lemma ClientReadsPythonRows(t: Instant)
    requires MinuteAligned(t) && 1000 <= DateOf(t).year <= 9999
    ensures PyFormatDate(t).Some? && ClientCombine(PyFormatDate(t).value, PyFormatTime(t)) == Some(t)
  {
    Decompose(t);
    ClientPyTextRoundTrip(DateOf(t), DayOf(t), HourOf(t), MinuteOf(t), t);
  }

  lemma ClientPyTextRoundTrip(c: Civil, z: int, hour: int, minute: int, t: Instant)
    requires ValidCivil(c) && 1000 <= c.year <= 9999 && 0 <= hour < 24 && 0 <= minute < 60
    requires z == DaysFromCivil(c) && t == z * MsPerDay + hour * MsPerHour + minute * MsPerMinute
    ensures ClientCombine(PyDateText(c), PyTimeText(hour, minute)) == Some(t)
  {
    ClientReadsPythonDate(c);
    ClientReadsPythonTime(hour, minute);
    UtcInstantOfCivil(c, z, hour, minute);
    ClientCombineOfDashDate(PyDateText(c), PyTimeText(hour, minute),
                            DateFields(c.year, c.month - 1, c.day), Clock(hour, minute), t);
  }

  lemma ClientCombineOfDashDate(dateStr: string, timeStr: string, f: DateFields, k: Clock, t: Instant)
    requires '-' in dateStr && DashDate(dateStr) == Some(f) && ParseClock(timeStr) == Some(k)
    requires t == UtcInstant(f.year, f.month0, f.day, k.hour, k.minute)
    ensures ClientCombine(dateStr, timeStr) == Some(t)
  {
  }

  /** `formatTime` (booking page) and `formatTimeFromISO` (admin page): `(h % 12 || 12):MM AM|PM`. */
  function ClientTimeText(hour: int, minute: int): string
    requires 0 <= hour < 24 && 0 <= minute < 60
  {
    var shown := if hour % 12 == 0 then 12 else hour % 12;
    NatToString(shown) + ":" + Pad2(minute) + " " + (if hour >= 12 then "PM" else "AM")
  }

  function ClientFormatTime(t: Instant): string {
    ClientTimeText(HourOf(t), MinuteOf(t))
  }

  /**
   * The pages' clock text is the server's time text: 0 shows as "12 AM", 12 as "12 PM",
   * 13..23 as h-12 "PM"; and it reads back as the same hour and minute.
   */
  lemma ClientTimeTextIsServerText(hour: int, minute: int)
    requires 0 <= hour < 24 && 0 <= minute < 60
    ensures ClientTimeText(hour, minute) == NodeTimeText(hour, minute)
    ensures ParseClock(ClientTimeText(hour, minute)) == Some(Clock(hour, minute))
  {
    DialHour(hour);
    NodeTimeTextReads(hour, minute);
  }

  /** `h % 12 || 12` is the Node server's hour 0 as 12, hours above 12 less 12. */
  lemma DialHour(hour: int)
    requires 0 <= hour < 24
    ensures (if hour % 12 == 0 then 12 else hour % 12)
         == (if hour == 0 then 12 else if hour > 12 then hour - 12 else hour)
  {
  }

  // ---------------------------------------------------------------------------------------
  // ISO date keys
  // ---------------------------------------------------------------------------------------

  /** The year as `toISOString` prints it: four digits in 0..9999, else a sign and six digits. */
  function IsoYear(y: int): string {
    if 0 <= y <= 9999 then PadLeft(y, 4)
    else (if y < 0 then "-" else "+") + PadLeft(if y < 0 then -y else y, 6)
  }

  /** `new Date(t).toISOString().split('T')[0]`: the UTC date of `t` as `YYYY-MM-DD`. */
  function IsoDatePart(t: Instant): string {
    IsoDateText(DateOf(t))
  }

  function IsoDateText(c: Civil): string
    requires ValidCivil(c)
  {
    IsoYear(c.year) + "-" + Pad2(c.month) + "-" + Pad2(c.day)
  }

  /** The key the admin calendar looks a day up under: `${year}-MM-DD`. */
  function CalendarKey(c: Civil): string
    requires ValidCivil(c)
  {
    IntToString(c.year) + "-" + Pad2(c.month) + "-" + Pad2(c.day)
  }

  /**
   * For years 1000..9999 the calendar cell of a date and the ISO date of any instant on that
   * date agree, so an appointment filed under its ISO date is found in its day's cell.
   */
  lemma CalendarKeyIsIsoDate(c: Civil, z: int, hour: int, minute: int)
    requires ValidCivil(c) && 1000 <= c.year <= 9999 && z == DaysFromCivil(c)
    requires 0 <= hour < 24 && 0 <= minute < 60
    ensures IsoDatePart(z * MsPerDay + hour * MsPerHour + minute * MsPerMinute) == CalendarKey(c)
  {
    DateOfSlot(c, z, hour, minute);
    IsoYearOfFourDigits(c.year);
  }

  /** The date of an instant on day `z == DaysFromCivil(c)` is `c`. */
  lemma DateOfSlot(c: Civil, z: int, hour: int, minute: int)
    requires ValidCivil(c) && z == DaysFromCivil(c) && 0 <= hour < 24 && 0 <= minute < 60
    ensures DateOf(z * MsPerDay + hour * MsPerHour + minute * MsPerMinute) == c
    ensures MinuteAligned(z * MsPerDay + hour * MsPerHour + minute * MsPerMinute)
  {
    DateOfDaySlot(z, hour, minute);
    CivilRoundTrip(c);
  }

  /** The date of an instant on day `z` is the date of day `z`. */
  lemma DateOfDaySlot(z: int, hour: int, minute: int)
    requires 0 <= hour < 24 && 0 <= minute < 60
    ensures DateOf(z * MsPerDay + hour * MsPerHour + minute * MsPerMinute) == CivilFromDays(z)
    ensures MinuteAligned(z * MsPerDay + hour * MsPerHour + minute * MsPerMinute)
  {
    FieldsOfSlot(z, hour, minute);
  }

  lemma IsoYearOfFourDigits(y: int)
    requires 1000 <= y <= 9999
    ensures IsoYear(y) == IntToString(y)
  {
    FourDigits(y);
  }
}
