/** Calendar dates and date-times as the handlers read them from form text
    (`strptime` with '%Y-%m-%d' and '%Y-%m-%dT%H:%M') and write them into the
    export ('%Y-%m-%d' and '%Y-%m-%d %H:%M:%S').

    The parsers follow the field patterns of CPython's `strptime`:
      %Y  four digits
      %m  1[0-2] | 0[1-9] | [1-9]
      %d  3[01] | [12]d | 0[1-9] | [1-9] | ' '[1-9]
      %H  2[0-3] | [01]d | d
      %M  [0-5]d | d
    Literal characters of the format match themselves, ignoring case, and the
    whole input must be consumed. No field pattern contains a separator and
    each is one or two characters long, so a field closed by a separator ends
    at the first separator after its first character (FieldEnd). The fields
    found are then checked as the `datetime` constructor checks them: year
    1..9999, month 1..12, the day within its month. */
module DateTimes {
  import opened Results
  import opened Digits

  datatype Date = Date(year: int, month: int, day: int)

  /** A `datetime`; microseconds are always zero here and are not kept. */
  datatype DateTime = DateTime(date: Date, hour: int, minute: int, second: int)

  const MinYear: int := 1
  const MaxYear: int := 9999

  /** Digits written for the year and for every other field. */
  const YearWidth: nat := 4
  const FieldWidth: nat := 2

  /** The Gregorian rule. */
  predicate IsLeapYear(y: int) {
    y % 4 == 0 && (y % 100 != 0 || y % 400 == 0)
  }

  function DaysInMonth(y: int, m: int): (n: int)
    requires 1 <= m <= 12
    ensures 28 <= n <= 31
    ensures m == 2 ==> (n == 29 <==> IsLeapYear(y))
  {
    if m == 2 then (if IsLeapYear(y) then 29 else 28)
    else if m == 4 || m == 6 || m == 9 || m == 11 then 30
    else 31
  }

  predicate IsValidDate(d: Date) {
    && MinYear <= d.year <= MaxYear
    && 1 <= d.month <= 12
    && 1 <= d.day <= DaysInMonth(d.year, d.month)
  }

  predicate IsValidDateTime(t: DateTime) {
    && IsValidDate(t.date)
    && 0 <= t.hour < 24
    && 0 <= t.minute < 60
    && 0 <= t.second < 60
  }

  /** The values a `date` object can hold. */
  type CalendarDate = d: Date | IsValidDate(d) witness Date(1, 1, 1)

  /** The values a `datetime` object can hold. */
  type ClockTime = t: DateTime | IsValidDateTime(t) witness DateTime(Date(1, 1, 1), 0, 0, 0)

  // ---------------------------------------------------------------------------
  // The field patterns

  predicate IsYearField(t: string) {
    |t| == 4 && AllDigits(t)
  }

  predicate IsMonthField(t: string) {
    || (|t| == 2 && t[0] == '1' && '0' <= t[1] <= '2')
    || (|t| == 2 && t[0] == '0' && '1' <= t[1] <= '9')
    || (|t| == 1 && '1' <= t[0] <= '9')
  }

  predicate IsDayField(t: string) {
    || (|t| == 2 && t[0] == '3' && '0' <= t[1] <= '1')
    || (|t| == 2 && '1' <= t[0] <= '2' && IsDigit(t[1]))
    || (|t| == 2 && t[0] == '0' && '1' <= t[1] <= '9')
    || (|t| == 1 && '1' <= t[0] <= '9')
    || (|t| == 2 && t[0] == ' ' && '1' <= t[1] <= '9')
  }

  predicate IsHourField(t: string) {
    || (|t| == 2 && t[0] == '2' && '0' <= t[1] <= '3')
    || (|t| == 2 && '0' <= t[0] <= '1' && IsDigit(t[1]))
    || (|t| == 1 && IsDigit(t[0]))
  }

  predicate IsMinuteField(t: string) {
    || (|t| == 2 && '0' <= t[0] <= '5' && IsDigit(t[1]))
    || (|t| == 1 && IsDigit(t[0]))
  }

  /** The number a day field denotes; `int` skips the leading blank of ' [1-9]'. */
  function DayValue(t: string): (n: nat)
    requires IsDayField(t)
    ensures 1 <= n <= 31
  {
    if t[0] == ' ' then DigitValue(t[1])
    else if |t| == 2 then Value2(t); Value(t)
    else Value(t)
  }

  /** Where a field of one or two characters that starts at `start` ends, if it
      is closed by one of `seps`. */
  function FieldEnd(s: string, start: nat, seps: set<char>): (e: nat)
    ensures start + 1 <= e <= start + 2
  {
    if start + 1 < |s| && s[start + 1] in seps then start + 1 else start + 2
  }

  /** The prefix '%Y-%m-' shared by both input formats: the year, the month and
      the index where the day field starts. */
  function ScanYearMonth(s: string): (r: Option<(int, int, nat)>)
    ensures r.Some? ==> 7 <= r.value.2 <= 8 && r.value.2 <= |s| && s[r.value.2 - 1] == '-'
    ensures r.Some? ==> IsYearField(s[..4]) && s[4] == '-' && r.value.0 == Value(s[..4])
  {
    if |s| < 5 || !IsYearField(s[..4]) || s[4] != '-' then None
    else
      var m := FieldEnd(s, 5, {'-'});
      if m >= |s| || s[m] != '-' || !IsMonthField(s[5..m]) then None
      else Some((Value(s[..4]), Value(s[5..m]), m + 1))
  }

  function MakeDate(year: int, month: int, day: int): (r: Option<CalendarDate>)
    ensures r.Some? <==> IsValidDate(Date(year, month, day))
    ensures r.Some? ==> r.value == Date(year, month, day)
  {
    var d := Date(year, month, day);
    if IsValidDate(d) then Some(d) else None
  }

  function MakeDateTime(year: int, month: int, day: int, hour: int, minute: int): (r: Option<ClockTime>)
    ensures r.Some? <==> IsValidDateTime(DateTime(Date(year, month, day), hour, minute, 0))
    ensures r.Some? ==> r.value == DateTime(Date(year, month, day), hour, minute, 0)
  {
    var t := DateTime(Date(year, month, day), hour, minute, 0);
    if IsValidDateTime(t) then Some(t) else None
  }

  /** `datetime.strptime(s, '%Y-%m-%d').date()`; None where it raises
      ValueError. Accepted text is 8 to 10 characters long and starts with
      the four-digit year and a '-'. */
  function ParseDate(s: string): (r: Option<CalendarDate>)
    ensures r.Some? ==> 8 <= |s| <= 10 && IsYearField(s[..4]) && s[4] == '-' && r.value.year == Value(s[..4])
  {
    match ScanYearMonth(s)
    case None => None
    case Some((year, month, d)) =>
      if IsDayField(s[d..]) then MakeDate(year, month, DayValue(s[d..])) else None
  }

  /** `datetime.strptime(s, '%Y-%m-%dT%H:%M')`; None where it raises
      ValueError. Accepted text is 12 to 16 characters long and starts with
      the four-digit year and a '-'; the format has no seconds, so they are 0. */
  function ParseDateTime(s: string): (r: Option<ClockTime>)
    ensures r.Some? ==> 12 <= |s| <= 16 && IsYearField(s[..4]) && s[4] == '-' && r.value.date.year == Value(s[..4])
    ensures r.Some? ==> r.value.second == 0
  {
    match ScanYearMonth(s)
    case None => None
    case Some((year, month, d)) =>
      var t := FieldEnd(s, d, {'T', 't'});
      if t >= |s| || s[t] !in {'T', 't'} || !IsDayField(s[d..t]) then None
      else
        var h := FieldEnd(s, t + 1, {':'});
        if h >= |s| || s[h] != ':' || !IsHourField(s[t + 1..h]) || !IsMinuteField(s[h + 1..]) then None
        else MakeDateTime(year, month, DayValue(s[d..t]), Value(s[t + 1..h]), Value(s[h + 1..]))
  }

  // ---------------------------------------------------------------------------
  // Output

  /** `d.strftime('%Y-%m-%d')`: ten characters (FormatDateIsCanonical says
      what they are). */
  function FormatDate(d: CalendarDate): (r: string)
    ensures |r| == 10
  {
    assert Pow10(4) == 10000 && Pow10(2) == 100;
    Pad(d.year, YearWidth) + "-" + Pad(d.month, FieldWidth) + "-" + Pad(d.day, FieldWidth)
  }

  /** `t.strftime('%Y-%m-%d %H:%M:%S')`: nineteen characters
      (FormatDateTimeFields says what they are). */
  function FormatDateTime(t: ClockTime): (r: string)
    ensures |r| == 19
  {
    assert Pow10(2) == 100;
    FormatDate(t.date) + " " + Pad(t.hour, FieldWidth) + ":" + Pad(t.minute, FieldWidth) + ":" + Pad(t.second, FieldWidth)
  }

  /** Zero-padded 'YYYY-MM-DD' text. */
  predicate IsCanonicalDate(s: string) {
    && |s| == 10
    && s[4] == '-' && s[7] == '-'
    && AllDigits(s[..4]) && AllDigits(s[5..7]) && AllDigits(s[8..])
  }

  /** Zero-padded 'YYYY-MM-DDTHH:MM' text, as an HTML date-time field submits it. */
  predicate IsCanonicalDateTime(s: string) {
    && |s| == 16
    && s[4] == '-' && s[7] == '-' && s[10] == 'T' && s[13] == ':'
    && AllDigits(s[..4]) && AllDigits(s[5..7]) && AllDigits(s[8..10])
    && AllDigits(s[11..13]) && AllDigits(s[14..])
  }

  /** The canonical input text for a date-time with zero seconds. */
  function DateTimeInput(t: ClockTime): (r: string)
    ensures IsCanonicalDateTime(r) && r[..10] == FormatDate(t.date)
  {
    assert Pow10(2) == 100;
    var s := FormatDate(t.date) + "T" + Pad(t.hour, FieldWidth) + ":" + Pad(t.minute, FieldWidth);
    FormatDateIsCanonical(t.date);
    assert s[..10] == FormatDate(t.date) && s[..10][..4] == s[..4];
    assert s[11..13] == Pad(t.hour, FieldWidth) && s[14..] == Pad(t.minute, FieldWidth);
    s
  }

  // ---------------------------------------------------------------------------
  // Round trips

  /** Every formatted date is zero-padded text whose three digit runs read
      back as the year, the month and the day. */
  lemma FormatDateIsCanonical(d: CalendarDate)
    ensures IsCanonicalDate(FormatDate(d))
    ensures Value(FormatDate(d)[..4]) == d.year
    ensures Value(FormatDate(d)[5..7]) == d.month
    ensures Value(FormatDate(d)[8..]) == d.day
  {
    var s := FormatDate(d);
    assert Pow10(4) == 10000 && Pow10(2) == 100;
    assert s[..4] == Pad(d.year, 4) && s[5..7] == Pad(d.month, 2) && s[8..] == Pad(d.day, 2);
  }

  /** A formatted date-time is the formatted date, a blank, and three
      two-digit runs separated by ':' that read back as the hour, the minute
      and the second. */
  lemma FormatDateTimeFields(t: ClockTime)
    ensures FormatDateTime(t)[..10] == FormatDate(t.date)
    ensures FormatDateTime(t)[10] == ' ' && FormatDateTime(t)[13] == ':' && FormatDateTime(t)[16] == ':'
    ensures AllDigits(FormatDateTime(t)[11..13]) && Value(FormatDateTime(t)[11..13]) == t.hour
    ensures AllDigits(FormatDateTime(t)[14..16]) && Value(FormatDateTime(t)[14..16]) == t.minute
    ensures AllDigits(FormatDateTime(t)[17..]) && Value(FormatDateTime(t)[17..]) == t.second
  {
    var s := FormatDateTime(t);
    assert Pow10(2) == 100;
    assert s[11..13] == Pad(t.hour, 2) && s[14..16] == Pad(t.minute, 2) && s[17..] == Pad(t.second, 2);
  }

  /** The two-digit rendering of a month, day, hour or minute is accepted by
      the field pattern for it. */
  lemma TwoDigitFields(n: nat)
    requires n < 100
    ensures Pow10(2) == 100
    ensures 1 <= n <= 12 ==> IsMonthField(Pad(n, 2))
    ensures 1 <= n <= 31 ==> IsDayField(Pad(n, 2)) && DayValue(Pad(n, 2)) == n
    ensures n <= 23 ==> IsHourField(Pad(n, 2))
    ensures n <= 59 ==> IsMinuteField(Pad(n, 2))
  {
    Pad2(n);
  }

  /** Where the year and month of text that starts with a canonical date are
      found. */
  lemma ScanCanonical(s: string)
    requires |s| >= 10 && s[4] == '-' && s[7] == '-'
    requires AllDigits(s[..4]) && AllDigits(s[5..7])
    ensures ScanYearMonth(s).Some? ==> ScanYearMonth(s).value == (Value(s[..4]), Value(s[5..7]), 8)
  {
    assert s[5..7][1] == s[6];
  }

  /** Parsing a formatted date gives the date back. */
  lemma ParseFormatDate(d: CalendarDate)
    ensures ParseDate(FormatDate(d)) == Some(d)
  {
    var s := FormatDate(d);
    assert Pow10(4) == 10000 && Pow10(2) == 100;
    TwoDigitFields(d.month);
    TwoDigitFields(d.day);
    assert s[..4] == Pad(d.year, 4) && s[5..7] == Pad(d.month, 2) && s[8..] == Pad(d.day, 2);
    assert FieldEnd(s, 5, {'-'}) == 7;
    assert ScanYearMonth(s) == Some((d.year, d.month, 8));
  }

  /** On the text it accepts, '%Y-%m-%d' formatting gives back exactly the
      canonical (zero-padded) inputs and no other. */
  lemma FormatParseDate(s: string)
    requires ParseDate(s).Some?
    ensures FormatDate(ParseDate(s).value) == s <==> IsCanonicalDate(s)
  {
    var d := ParseDate(s).value;
    if IsCanonicalDate(s) {
      ScanCanonical(s);
      PadValue(s[..4]);
      PadValue(s[5..7]);
      PadValue(s[8..]);
      assert s == s[..4] + "-" + s[5..7] + "-" + s[8..];
    } else {
      FormatDateIsCanonical(d);
    }
  }

  /** A date-time read with '%Y-%m-%dT%H:%M' has no seconds, so its export
      text always ends in ':00'. */
  lemma ParsedDateTimeExportsZeroSeconds(s: string)
    requires ParseDateTime(s).Some?
    ensures ParseDateTime(s).value.second == 0
    ensures |FormatDateTime(ParseDateTime(s).value)| == 19
    ensures FormatDateTime(ParseDateTime(s).value)[16..] == ":00"
  {
    var t := ParseDateTime(s).value;
    assert Pow10(2) == 100;
    TwoDigitFields(0);
  }

  /** The fields of canonical date-time text sit at fixed places. */
  lemma ParseCanonicalDateTime(s: string)
    requires IsCanonicalDateTime(s)
    ensures ParseDateTime(s)
      == MakeDateTime(Value(s[..4]), Value(s[5..7]), Value(s[8..10]), Value(s[11..13]), Value(s[14..]))
  {
    ScanCanonical(s);
    assert s[8..10][1] == s[9] && s[11..13][1] == s[12];
    assert FieldEnd(s, 8, {'T', 't'}) == 10;
    assert FieldEnd(s, 11, {':'}) == 13;
  }

  /** A date-time with zero seconds is formatted with exactly the digit runs
      its fields are read from, whenever those runs have the widths the
      format writes. */
  lemma FormatFields(t: ClockTime, year: string, month: string, day: string, hour: string, minute: string)
    requires |year| == 4 && |month| == 2 && |day| == 2 && |hour| == 2 && |minute| == 2
    requires AllDigits(year) && AllDigits(month) && AllDigits(day) && AllDigits(hour) && AllDigits(minute)
    requires t.date == Date(Value(year), Value(month), Value(day))
    requires t.hour == Value(hour) && t.minute == Value(minute) && t.second == 0
    ensures FormatDateTime(t) == year + "-" + month + "-" + day + " " + hour + ":" + minute + ":00"
  {
    PadValue(year);
    PadValue(month);
    PadValue(day);
    PadValue(hour);
    PadValue(minute);
    Pad2(0);
  }

  /** The date-time built from the fields of canonical input text is
      formatted as that text with a blank for the 'T' and ':00' appended. */
  lemma FormatCanonicalFields(s: string, t: ClockTime)
    requires IsCanonicalDateTime(s)
    requires Some(t) == MakeDateTime(Value(s[..4]), Value(s[5..7]), Value(s[8..10]), Value(s[11..13]), Value(s[14..]))
    ensures FormatDateTime(t) == s[..10] + " " + s[11..] + ":00"
  {
    FormatFields(t, s[..4], s[5..7], s[8..10], s[11..13], s[14..]);
    CanonicalPieces(s);
  }

  /** Canonical input text with a blank for the 'T' and ':00' appended,
      spelled out field by field. */
  lemma CanonicalPieces(s: string)
    requires IsCanonicalDateTime(s)
    ensures s[..10] + " " + s[11..] + ":00"
      == s[..4] + "-" + s[5..7] + "-" + s[8..10] + " " + s[11..13] + ":" + s[14..] + ":00"
  {
    assert s[..10] == s[..4] + "-" + s[5..7] + "-" + s[8..10];
    assert s[11..] == s[11..13] + ":" + s[14..];
  }

  /** Canonical input text is exported as the same date and time with a blank
      for the 'T' and ':00' seconds appended. */
  lemma FormatParseDateTime(s: string)
    requires ParseDateTime(s).Some? && IsCanonicalDateTime(s)
    ensures FormatDateTime(ParseDateTime(s).value) == s[..10] + " " + s[11..] + ":00"
  {
    ParseCanonicalDateTime(s);
    FormatCanonicalFields(s, ParseDateTime(s).value);
  }

  /** Parsing the canonical input text of a date-time with zero seconds gives
      the date-time back. */
  lemma ParseDateTimeInput(t: ClockTime)
    requires t.second == 0
    ensures ParseDateTime(DateTimeInput(t)) == Some(t)
  {
    var s := DateTimeInput(t);
    var date := FormatDate(t.date);
    assert Pow10(4) == 10000 && Pow10(2) == 100;
    TwoDigitFields(t.date.month);
    TwoDigitFields(t.date.day);
    TwoDigitFields(t.hour);
    TwoDigitFields(t.minute);
    assert s[..4] == Pad(t.date.year, 4) && s[5..7] == Pad(t.date.month, 2) && s[8..10] == Pad(t.date.day, 2);
    assert s[11..13] == Pad(t.hour, 2) && s[14..] == Pad(t.minute, 2);
    assert FieldEnd(s, 5, {'-'}) == 7;
    assert ScanYearMonth(s) == Some((t.date.year, t.date.month, 8));
    assert FieldEnd(s, 8, {'T', 't'}) == 10;
    assert FieldEnd(s, 11, {':'}) == 13;
  }

  /** 29 February parses exactly in the leap years of the Gregorian rule. */
  lemma LeapDayParses(y: int)
    requires MinYear <= y <= MaxYear
    ensures Pow10(4) == 10000
    ensures ParseDate(Pad(y, 4) + "-02-29") == if IsLeapYear(y) then Some(Date(y, 2, 29)) else None
  {
    assert Pow10(4) == 10000;
    Pad2(2);
    Pad2(29);
    var s := Pad(y, 4) + "-" + Pad(2, 2) + "-" + Pad(29, 2);
    assert s == Pad(y, 4) + "-02-29";
    assert s[..4] == Pad(y, 4) && s[5..7] == Pad(2, 2) && s[8..] == Pad(29, 2);
    ScanCanonical(s);
    TwoDigitFields(2);
    TwoDigitFields(29);
  }
}
