/**
 * The part of java.time the task tracker relies on: LocalDate and LocalDateTime values, their
 * chronological order, the `d/M/yyyy HHmm` and `d/M/yyyy` formatters (both directions, with the
 * SMART resolver's end-of-month adjustment), and the display patterns `EEEE, MMM dd yyyy`,
 * `EEEE, MMM dd yyyy, h:mma` and `h:mma` in an English locale.
 */
module Time {
  import opened Results
  import opened JavaText

  // ---------------------------------------------------------------- values

  datatype Date = Date(year: int, month: int, day: int)

  datatype DateTime = DateTime(year: int, month: int, day: int, hour: int, minute: int)

  /** The proleptic Gregorian leap-year rule. */
  predicate IsLeapYear(y: int) { y % 4 == 0 && (y % 100 != 0 || y % 400 == 0) }

  function DaysInMonth(y: int, m: int): (n: int)
    requires 1 <= m <= 12
    ensures 28 <= n <= 31
    ensures n == 31 <==> m in {1, 3, 5, 7, 8, 10, 12}
  {
    if m == 2 then (if IsLeapYear(y) then 29 else 28)
    else if m == 4 || m == 6 || m == 9 || m == 11 then 30
    else 31
  }

  /**
   * A calendar date the formatters can produce and read: four-digit years of the current era
   * (year-of-era 0 does not exist), months 1..12 and days within the month.
   */
  predicate ValidDate(d: Date)
  {
    1 <= d.year <= 9999 && 1 <= d.month <= 12 && 1 <= d.day <= DaysInMonth(d.year, d.month)
  }

  type LocalDate = d: Date | ValidDate(d) witness Date(2000, 1, 1)

  function ToDate(t: DateTime): Date
  {
    Date(t.year, t.month, t.day)
  }

  predicate ValidDateTime(t: DateTime)
  {
    ValidDate(ToDate(t)) && 0 <= t.hour < 24 && 0 <= t.minute < 60
  }

  type LocalDateTime = t: DateTime | ValidDateTime(t) witness DateTime(2000, 1, 1, 0, 0)

  // ---------------------------------------------------------------- order

  /** `a.isBefore(b)` on dates: year, then month, then day. */
  predicate DateIsBefore(a: Date, b: Date)
  {
    a.year < b.year || (a.year == b.year && (a.month < b.month || (a.month == b.month && a.day < b.day)))
  }

  /** `a.isBefore(b)` on date-times: the calendar date first, then hour, then minute. */
  predicate IsBefore(a: DateTime, b: DateTime)
  {
    DateIsBefore(ToDate(a), ToDate(b))
    || (ToDate(a) == ToDate(b) && (a.hour < b.hour || (a.hour == b.hour && a.minute < b.minute)))
  }

  /** `isBefore` is a strict total order on date-times. */
  lemma IsBeforeStrictTotal(a: DateTime, b: DateTime, c: DateTime)
    ensures !IsBefore(a, a)
    ensures IsBefore(a, b) ==> !IsBefore(b, a)
    ensures IsBefore(a, b) && IsBefore(b, c) ==> IsBefore(a, c)
    ensures a == b || IsBefore(a, b) || IsBefore(b, a)
  {
  }

  /** A date as one number, `yyyyMMdd`, whose numeric order is the calendar order. */
  function DateKey(d: Date): int
  {
    d.year * 10000 + d.month * 100 + d.day
  }

  /** A date-time as one number, `yyyyMMddHHmm`, whose numeric order is the chronological order. */
  function Key(t: DateTime): int
  {
    DateKey(ToDate(t)) * 10000 + t.hour * 100 + t.minute
  }

  /** `isBefore` on dates is the numeric order of their keys. */
  lemma DateIsBeforeKey(a: LocalDate, b: LocalDate)
    ensures DateIsBefore(a, b) <==> DateKey(a) < DateKey(b)
  {
    if a.year < b.year {
      assert DateKey(a) < a.year * 10000 + 10000 <= DateKey(b);
    } else if b.year < a.year {
      assert DateKey(b) < b.year * 10000 + 10000 <= DateKey(a);
    }
  }

  /** `isBefore` on date-times is the numeric order of their keys. */
  lemma IsBeforeKey(a: LocalDateTime, b: LocalDateTime)
    ensures IsBefore(a, b) <==> Key(a) < Key(b)
  {
    DateIsBeforeKey(ToDate(a), ToDate(b));
    DateIsBeforeKey(ToDate(b), ToDate(a));
    if DateKey(ToDate(a)) < DateKey(ToDate(b)) {
      assert Key(a) < DateKey(ToDate(a)) * 10000 + 10000 <= Key(b);
    } else if DateKey(ToDate(b)) < DateKey(ToDate(a)) {
      assert Key(b) < DateKey(ToDate(b)) * 10000 + 10000 <= Key(a);
    } else {
      assert ToDate(a) == ToDate(b) by {
        assert a.year == b.year && a.month == b.month;
      }
    }
  }

  /** An earlier date-time never falls on a later calendar date. */
  lemma IsBeforeDates(a: DateTime, b: DateTime)
    requires IsBefore(a, b)
    ensures !DateIsBefore(ToDate(b), ToDate(a))
  {
  }

  // ---------------------------------------------------------------- machine format

  /** The date part of the `d/M/yyyy` pattern: day and month unpadded, the year in four digits. */
  function FormatDateMachine(d: LocalDate): string
  {
    NatToString(d.day) + "/" + NatToString(d.month) + "/" + ZeroPad(d.year, 4)
  }

  /** `t.format(ofPattern("d/M/yyyy HHmm"))`. */
  function FormatMachine(t: LocalDateTime): string
  {
    FormatDateMachine(ToDate(t)) + " " + ZeroPad(t.hour, 2) + ZeroPad(t.minute, 2)
  }

  /** The characters the machine format writes: digits, slashes and the space. */
  predicate MachineChars(s: string)
  {
    forall k :: 0 <= k < |s| ==> IsDigit(s[k]) || s[k] == '/' || s[k] == ' '
  }

  lemma MachineCharsConcat(a: string, b: string)
    requires MachineChars(a) && MachineChars(b)
    ensures MachineChars(a + b)
  {
    forall k | 0 <= k < |a + b|
      ensures IsDigit((a + b)[k]) || (a + b)[k] == '/' || (a + b)[k] == ' '
    {
      if k < |a| { assert (a + b)[k] == a[k]; } else { assert (a + b)[k] == b[k - |a|]; }
    }
  }

  /** A formatted date-time starts and ends with a digit and holds only digits, slashes and one space. */
  lemma FormatMachineShape(t: LocalDateTime)
    ensures |FormatMachine(t)| > 0
    ensures IsDigit(FormatMachine(t)[0]) && IsDigit(FormatMachine(t)[|FormatMachine(t)| - 1])
    ensures MachineChars(FormatMachine(t))
  {
    var d, m, y := NatToString(t.day), NatToString(t.month), ZeroPad(t.year, 4);
    var h, mi := ZeroPad(t.hour, 2), ZeroPad(t.minute, 2);
    MachineCharsConcat(d, "/");
    MachineCharsConcat(d + "/", m);
    MachineCharsConcat(d + "/" + m, "/");
    MachineCharsConcat(d + "/" + m + "/", y);
    MachineCharsConcat(d + "/" + m + "/" + y, " ");
    MachineCharsConcat(d + "/" + m + "/" + y + " ", h);
    MachineCharsConcat(d + "/" + m + "/" + y + " " + h, mi);
    var s := FormatMachine(t);
    assert s == d + "/" + m + "/" + y + " " + h + mi;
    assert s[0] == d[0];
    assert |mi| == 2 && s[|s| - 1] == mi[1];
  }

  /** The length of the run of decimal digits at the front of `s`. */
  function DigitRun(s: string): (n: nat)
    ensures n <= |s| && AllDigits(s[..n])
    ensures n < |s| ==> !IsDigit(s[n])
    decreases |s|
  {
    if s != [] && IsDigit(s[0]) then
      var n := 1 + DigitRun(s[1..]);
      assert s[..n] == [s[0]] + s[1..][..n - 1];
      n
    else 0
  }

  lemma {:induction false} DigitRunOf(a: string, b: string)
    requires AllDigits(a)
    requires b == [] || !IsDigit(b[0])
    ensures DigitRun(a + b) == |a|
    decreases |a|
  {
    if a == [] {
      assert a + b == b;
    } else {
      assert (a + b)[0] == a[0];
      assert (a + b)[1..] == a[1..] + b;
      DigitRunOf(a[1..], b);
    }
  }

  /** The three numbers of a `d/M/yyyy` prefix and the text after it. */
  datatype DateFields = DateFields(day: nat, month: nat, year: nat, rest: string)

  /** A number read from the front of a text, and the text after it. */
  datatype Read = Read(value: nat, rest: string)

  /**
   * The most digits a single-letter field (`d`, `M`) reads under strict parsing; a longer run
   * leaves a digit where the formatter expects the next literal.
   */
  const MaxFieldWidth := 19

  /** One to nineteen digits and a slash: their value and the text after the slash. */
  function ReadSlashed(s: string): (r: Option<Read>)
    ensures r.Some? ==> |r.value.rest| < |s|
  {
    var i := DigitRun(s);
    if i == 0 || i > MaxFieldWidth || i == |s| || s[i] != '/' then None
    else Some(Read(DigitsValue(s[..i]), s[i + 1..]))
  }

  /** Exactly four digits (`yyyy` without a sign): their value and the text after them. */
  function ReadYear(s: string): (r: Option<Read>)
    ensures r.Some? ==> r.value.value < 10000 && |r.value.rest| < |s|
    ensures r.Some? ==> r.value.rest == [] || !IsDigit(r.value.rest[0])
  {
    if DigitRun(s) != 4 then None
    else
      assert DigitsValue(s[..4]) < 10000 by { DigitsBound(s[..4]); }
      Some(Read(DigitsValue(s[..4]), s[4..]))
  }

  /**
   * Reads `d/M/yyyy` from the front of `s`: one to nineteen digits, a slash, one to nineteen
   * digits, a slash, and exactly four digits.
   */
  function ReadDateFields(s: string): (r: Option<DateFields>)
    ensures r.Some? ==> r.value.year < 10000
    ensures r.Some? ==> r.value.rest == [] || !IsDigit(r.value.rest[0])
  {
    match ReadSlashed(s)
    case None => None
    case Some(d) =>
      match ReadSlashed(d.rest)
      case None => None
      case Some(m) =>
        match ReadYear(m.rest)
        case None => None
        case Some(y) => Some(DateFields(d.value, m.value, y.value, y.rest))
  }

  lemma {:induction false} DigitsBound(s: string)
    requires AllDigits(s)
    ensures DigitsValue(s) < Pow10(|s|)
    decreases |s|
  {
    if s != [] {
      DigitsBound(s[..|s| - 1]);
    }
  }

  function Pow10(n: nat): (p: nat)
    ensures p >= 1
  {
    if n == 0 then 1 else 10 * Pow10(n - 1)
  }

  /**
   * The SMART resolver of `LocalDate`: the year of era must be at least 1, the month 1..12 and
   * the day 1..31, and a day 29..31 past the end of its month becomes the month's last day.
   */
  function ResolveDate(year: int, month: int, day: int): (r: Option<LocalDate>)
    ensures r.Some? <==> 1 <= year <= 9999 && 1 <= month <= 12 && 1 <= day <= 31
    ensures r.Some? ==> r.value.year == year && r.value.month == month
    ensures r.Some? ==> r.value.day == if day <= DaysInMonth(year, month) then day else DaysInMonth(year, month)
  {
    if 1 <= year <= 9999 && 1 <= month <= 12 && 1 <= day <= 31 then
      var last := DaysInMonth(year, month);
      Some(Date(year, month, if day <= last then day else last))
    else None
  }

  /**
   * `LocalDate.parse(s, ofPattern("d/M/yyyy"))` on a subset of what Java accepts; `None` where
   * the model does not read a date.
   */
  function ParseDate(s: string): Option<LocalDate>
  {
    match ReadDateFields(s)
    case None => None
    case Some(f) => if f.rest != [] then None else ResolveDate(f.year, f.month, f.day)
  }

  /**
   * The ` HHmm` tail: a space and exactly four digits, read as hour and minute, in range. The
   * SMART resolver also admits `2400`, the end of the day.
   */
  function ReadClock(s: string): (r: Option<(int, int)>)
    ensures r.Some? ==> (0 <= r.value.0 < 24 && 0 <= r.value.1 < 60) || r.value == (24, 0)
  {
    if |s| != 5 || s[0] != ' ' || !AllDigits(s[1..]) then None
    else
      var hour, minute := DigitsValue(s[1..3]), DigitsValue(s[3..]);
      if (hour < 24 && minute < 60) || (hour == 24 && minute == 0) then Some((hour, minute)) else None
  }

  /** `d.plusDays(1)`, for the dates the model holds: `None` only after 31/12/9999. */
  function NextDay(d: LocalDate): (r: Option<LocalDate>)
    ensures r.None? <==> d == Date(9999, 12, 31)
    ensures r.Some? ==> DateIsBefore(d, r.value)
  {
    if d.day < DaysInMonth(d.year, d.month) then Some(Date(d.year, d.month, d.day + 1))
    else if d.month < 12 then Some(Date(d.year, d.month + 1, 1))
    else if d.year < 9999 then Some(Date(d.year + 1, 1, 1))
    else None
  }

  /**
   * `LocalDateTime.parse(s, ofPattern("d/M/yyyy HHmm"))` on a subset of what Java accepts: the
   * date, one space, two digits of hour and two of minute, with hour 0..23 and minute 0..59, or
   * `2400`, which the SMART resolver reads as midnight at the start of the next day.
   */
  function ParseDateTime(s: string): Option<LocalDateTime>
  {
    match ReadDateFields(s)
    case None => None
    case Some(f) =>
      match ReadClock(f.rest)
      case None => None
      case Some(c) =>
        match ResolveDate(f.year, f.month, f.day)
        case None => None
        case Some(d) =>
          if c.0 < 24 then Some(DateTime(d.year, d.month, d.day, c.0, c.1))
          else
            match NextDay(d)
            case None => None
            case Some(n) => Some(DateTime(n.year, n.month, n.day, 0, 0))
  }

  /** A run of digits followed by a slash is read up to the slash. */
  lemma ReadSlashedOf(a: string, t: string)
    requires a != [] && |a| <= MaxFieldWidth && AllDigits(a)
    ensures ReadSlashed(a + "/" + t) == Some(Read(DigitsValue(a), t))
  {
    var s := a + "/" + t;
    assert s == a + ("/" + t);
    DigitRunOf(a, "/" + t);
    assert s[..|a|] == a && s[|a| + 1..] == t;
  }

  /** A run of more than nineteen digits before a slash is not read. */
  lemma ReadSlashedTooLong(a: string, t: string)
    requires |a| > MaxFieldWidth && AllDigits(a)
    ensures ReadSlashed(a + "/" + t) == None
  {
    assert a + "/" + t == a + ("/" + t);
    DigitRunOf(a, "/" + t);
  }

  lemma ReadYearOf(c: string, rest: string)
    requires |c| == 4 && AllDigits(c)
    requires rest == [] || !IsDigit(rest[0])
    ensures ReadYear(c + rest) == Some(Read(DigitsValue(c), rest))
  {
    DigitRunOf(c, rest);
    assert (c + rest)[..4] == c && (c + rest)[4..] == rest;
  }

  lemma ReadDateFieldsOf(a: string, b: string, c: string, rest: string)
    requires a != [] && AllDigits(a) && b != [] && AllDigits(b) && |c| == 4 && AllDigits(c)
    requires |a| <= MaxFieldWidth && |b| <= MaxFieldWidth
    requires rest == [] || !IsDigit(rest[0])
    ensures ReadDateFields(a + "/" + b + "/" + c + rest)
         == Some(DateFields(DigitsValue(a), DigitsValue(b), DigitsValue(c), rest))
  {
    var t2 := c + rest;
    var t1 := b + "/" + t2;
    assert a + "/" + b + "/" + c + rest == a + "/" + t1;
    ReadSlashedOf(a, t1);
    ReadSlashedOf(b, t2);
    ReadYearOf(c, rest);
  }

  /** A day or a month of more than nineteen digits makes the whole date unreadable. */
  lemma ReadDateFieldsTooLong(a: string, b: string, c: string, rest: string)
    requires a != [] && AllDigits(a) && AllDigits(b)
    requires |a| > MaxFieldWidth || (|a| <= MaxFieldWidth && |b| > MaxFieldWidth)
    ensures ReadDateFields(a + "/" + b + "/" + c + rest) == None
  {
    var t1 := b + "/" + (c + rest);
    assert a + "/" + b + "/" + c + rest == a + "/" + t1;
    if |a| > MaxFieldWidth {
      ReadSlashedTooLong(a, t1);
    } else {
      ReadSlashedOf(a, t1);
      ReadSlashedTooLong(b, c + rest);
    }
  }

  lemma ReadFormattedDate(d: LocalDate, rest: string)
    requires rest == [] || !IsDigit(rest[0])
    ensures ReadDateFields(FormatDateMachine(d) + rest) == Some(DateFields(d.day, d.month, d.year, rest))
  {
    ReadDateFieldsOf(NatToString(d.day), NatToString(d.month), ZeroPad(d.year, 4), rest);
    NatToStringValue(d.day);
    NatToStringValue(d.month);
    ZeroPadValue(d.year, 4);
  }

  /** Reading back a formatted date gives the same date. */
  lemma ParseFormattedDate(d: LocalDate)
    ensures ParseDate(FormatDateMachine(d)) == Some(d)
  {
    ParseDateOfNumbers(d.day, d.month, d.year);
    assert ResolveDate(d.year, d.month, d.day) == Some(d);
  }

  /** A space and four digits are read as an hour and a minute, if those are in range. */
  lemma ReadClockOfDigits(h: string, m: string)
    requires |h| == 2 && |m| == 2 && AllDigits(h) && AllDigits(m)
    requires DigitsValue(h) < 24 && DigitsValue(m) < 60
    ensures ReadClock(" " + h + m) == Some((DigitsValue(h) as int, DigitsValue(m) as int))
  {
    var s := " " + h + m;
    assert s[1..3] == h && s[3..] == m && s[1..] == h + m;
  }

  /** A date followed by a space and a clock time parses as the resolved date at that time. */
  lemma ParseDateTimeOf(a: string, b: string, c: string, h: string, m: string)
    requires a != [] && AllDigits(a) && b != [] && AllDigits(b) && |c| == 4 && AllDigits(c)
    requires |a| <= MaxFieldWidth && |b| <= MaxFieldWidth
    requires |h| == 2 && |m| == 2 && AllDigits(h) && AllDigits(m)
    requires DigitsValue(h) < 24 && DigitsValue(m) < 60
    requires ResolveDate(DigitsValue(c), DigitsValue(b), DigitsValue(a)).Some?
    ensures ParseDateTime(a + "/" + b + "/" + c + " " + h + m)
         == (var d := ResolveDate(DigitsValue(c), DigitsValue(b), DigitsValue(a)).value;
             Some(DateTime(d.year, d.month, d.day, DigitsValue(h), DigitsValue(m))))
  {
    var rest := " " + h + m;
    assert a + "/" + b + "/" + c + " " + h + m == a + "/" + b + "/" + c + rest;
    ReadDateFieldsOf(a, b, c, rest);
    ReadClockOfDigits(h, m);
  }

  /**
   * A date followed by ` 2400` parses as midnight at the start of the day after the resolved
   * date; only after 31/12/9999 is there no such day among the model's dates.
   */
  lemma ParseDateTimeEndOfDay(a: string, b: string, c: string)
    requires a != [] && AllDigits(a) && b != [] && AllDigits(b) && |c| == 4 && AllDigits(c)
    requires |a| <= MaxFieldWidth && |b| <= MaxFieldWidth
    requires ResolveDate(DigitsValue(c), DigitsValue(b), DigitsValue(a)).Some?
    ensures ParseDateTime(a + "/" + b + "/" + c + " 2400")
         == (match NextDay(ResolveDate(DigitsValue(c), DigitsValue(b), DigitsValue(a)).value)
             case None => None
             case Some(n) => Some(DateTime(n.year, n.month, n.day, 0, 0)))
  {
    ReadDateFieldsOf(a, b, c, " 2400");
    ReadClockEndOfDay();
  }

  /** ` 2400` is read as hour 24, minute 0. */
  lemma ReadClockEndOfDay()
    ensures ReadClock(" 2400") == Some((24, 0))
  {
    var rest := " 2400";
    assert rest[1..3] == "24" && rest[3..] == "00" && rest[1..] == "2400";
    assert "24"[..1] == "2" && "00"[..1] == "0" && "2"[..0] == [] && "0"[..0] == [];
  }

  /** `deadline x /by 31/12/2025 2400` is due at midnight on 1/1/2026. */
  lemma EndOfYearMidnight()
    ensures ParseDateTime("31/12/2025 2400") == Some(DateTime(2026, 1, 1, 0, 0))
  {
    EndOfYearText();
    assert ResolveDate(2025, 12, 31) == Some(Date(2025, 12, 31));
    ParseDateTimeEndOfDay("31", "12", "2025");
  }

  /** The fields of `31/12/2025 2400` and their values. */
  lemma EndOfYearText()
    ensures "31/12/2025 2400" == "31" + "/" + "12" + "/" + "2025" + " 2400"
    ensures AllDigits("31") && AllDigits("12") && AllDigits("2025")
    ensures DigitsValue("31") == 31 && DigitsValue("12") == 12 && DigitsValue("2025") == 2025
  {
    assert "31"[..1] == "3" && "3"[..0] == [];
    assert "12"[..1] == "1" && "1"[..0] == [];
    assert "2025"[..3] == "202" && "202"[..2] == "20" && "20"[..1] == "2" && "2"[..0] == [];
  }

  /** Reading back a formatted date-time gives the same date-time. */
  lemma ParseFormattedDateTime(t: LocalDateTime)
    ensures ParseDateTime(FormatMachine(t)) == Some(t)
  {
    NatToStringValue(t.day);
    NatToStringValue(t.month);
    ZeroPadValue(t.year, 4);
    ZeroPadValue(t.hour, 2);
    ZeroPadValue(t.minute, 2);
    ParseDateTimeOf(NatToString(t.day), NatToString(t.month), ZeroPad(t.year, 4),
                    ZeroPad(t.hour, 2), ZeroPad(t.minute, 2));
  }

  /**
   * A `d/M/yyyy` text written from any three numbers parses exactly as the resolver decides:
   * day 0, a day past 31 or a month past 12 is rejected, and a day 29..31 past the end of its
   * month (31/2/2025) is read as the month's last day.
   */
  lemma ParseDateOfNumbers(day: nat, month: nat, year: nat)
    requires year < 10000
    ensures ParseDate(NatToString(day) + "/" + NatToString(month) + "/" + ZeroPad(year, 4))
         == ResolveDate(year, month, day)
  {
    var a, b, c := NatToString(day), NatToString(month), ZeroPad(year, 4);
    var s := a + "/" + b + "/" + c;
    assert s + [] == s;
    if |a| <= MaxFieldWidth && |b| <= MaxFieldWidth {
      ReadDateFieldsOf(a, b, c, []);
      NatToStringValue(day);
      NatToStringValue(month);
      ZeroPadValue(year, 4);
    } else {
      ReadDateFieldsTooLong(a, b, c, []);
      assert day >= 100 || month >= 100;
    }
  }

  /**
   * A day written with twenty digits, even one that is zero-padded to a valid day, is refused:
   * `00000000000000000001/1/2020` is not a date.
   */
  lemma LongDayRefused()
    ensures ParseDate(ZeroPad(1, 20) + "/" + NatToString(1) + "/" + ZeroPad(2020, 4)) == None
  {
    ReadDateFieldsTooLong(ZeroPad(1, 20), NatToString(1), ZeroPad(2020, 4), []);
    assert ZeroPad(1, 20) + "/" + NatToString(1) + "/" + ZeroPad(2020, 4) + []
        == ZeroPad(1, 20) + "/" + NatToString(1) + "/" + ZeroPad(2020, 4);
  }

  // ---------------------------------------------------------------- display formats

  /** The `h` field: the clock hour 1..12 of a 12-hour clock. */
  function ClockHour(hour: int): (h: int)
    requires 0 <= hour < 24
    ensures 1 <= h <= 12
    ensures h % 12 == hour % 12
  {
    if hour % 12 == 0 then 12 else hour % 12
  }

  /** The `a` field in English. */
  function AmPm(hour: int): string
  {
    if hour < 12 then "AM" else "PM"
  }

  /** `t.format(ofPattern("h:mma"))`. */
  function FormatClock(t: LocalDateTime): string
  {
    NatToString(ClockHour(t.hour)) + ":" + ZeroPad(t.minute, 2) + AmPm(t.hour)
  }

  /** The 12-hour clock loses nothing: the clock hour and the half of the day give the hour back. */
  lemma ClockHourDetermines(h1: int, h2: int)
    requires 0 <= h1 < 24 && 0 <= h2 < 24
    requires ClockHour(h1) == ClockHour(h2) && AmPm(h1) == AmPm(h2)
    ensures h1 == h2
  {
  }

  const WeekdayNames: seq<string> := ["Monday", "Tuesday", "Wednesday", "Thursday", "Friday", "Saturday", "Sunday"]

  const MonthAbbreviations: seq<string> := ["Jan", "Feb", "Mar", "Apr", "May", "Jun", "Jul", "Aug", "Sep", "Oct", "Nov", "Dec"]

  /** The year's share of Zeller's congruence, from the year of the century and the century. */
  function YearTerm(y: int): int
  {
    var k, j := y % 100, y / 100;
    k + k / 4 + j / 4 + 5 * j
  }

  /** The month's share of Zeller's congruence; January and February count as months 13 and 14. */
  function MonthTerm(month: int): int
  {
    var m := if month < 3 then month + 12 else month;
    (13 * (m + 1)) / 5
  }

  /** The year Zeller's congruence counts a month in: January and February belong to the one before. */
  function ZellerYear(d: Date): int
  {
    if d.month < 3 then d.year - 1 else d.year
  }

  /** The day count of Zeller's congruence, whose remainder modulo 7 names the weekday. */
  function ZellerSum(d: Date): int
  {
    d.day + MonthTerm(d.month) + YearTerm(ZellerYear(d))
  }

  /** The day of the week, 0 for Monday to 6 for Sunday, by Zeller's congruence. */
  function DayOfWeek(d: LocalDate): (w: nat)
    ensures w < 7
  {
    (ZellerSum(d) % 7 + 5) % 7
  }

  /** 1 January 2024 was a Monday. */
  lemma DayOfWeekAnchor()
    ensures DayOfWeek(Date(2024, 1, 1)) == 0
  {
    assert MonthTerm(1) == 36 && YearTerm(2023) == 133;
    assert ZellerSum(Date(2024, 1, 1)) == 170;
  }

  /** A new year moves the year's share on by one day, and by two after a leap day. */
  lemma YearTermStep(y: int)
    ensures (YearTerm(y) - YearTerm(y - 1)) % 7 == (if IsLeapYear(y) then 2 else 1)
  {
    if y % 100 != 0 {
      YearTermInCentury(y);
    } else {
      YearTermNewCentury(y);
      assert IsLeapYear(y) == (y % 400 == 0);
      assert (-118) % 7 == 1 && (-117) % 7 == 2;
    }
  }

  /** Within a century one year follows another, with one more day after a leap day. */
  lemma YearTermInCentury(y: int)
    requires y % 100 != 0
    ensures YearTerm(y) - YearTerm(y - 1) == if y % 4 == 0 then 2 else 1
  {
    var k, j := y % 100, y / 100;
    Quotient(y - 1, 100, j, k - 1);
    var q, r := k / 4, k % 4;
    Quotient(y, 4, 25 * j + q, r);
    if r == 0 {
      Quotient(k - 1, 4, q - 1, 3);
    } else {
      Quotient(k - 1, 4, q, r - 1);
    }
  }

  /** Into a new century the year of the century falls from 99 to 0, worth 119 days less. */
  lemma YearTermNewCentury(y: int)
    requires y % 100 == 0
    ensures YearTerm(y) - YearTerm(y - 1) == (if y % 400 == 0 then 1 else 0) - 118
    ensures y % 4 == 0
  {
    var j := y / 100;
    Quotient(y - 1, 100, j - 1, 99);
    Quotient(y, 4, 25 * j, 0);
    var q, r := j / 4, j % 4;
    Quotient(y, 400, q, 100 * r);
    if r == 0 {
      Quotient(j - 1, 4, q - 1, 3);
    } else {
      Quotient(j - 1, 4, q, r - 1);
    }
  }

  /** The quotient and remainder of `x` by a fixed divisor, once `x` is written in their terms. */
  lemma Quotient(x: int, d: int, q: int, r: int)
    requires d in {4, 7, 100, 400} && 0 <= r < d && x == d * q + r
    ensures x / d == q && x % d == r
  {
    if d == 7 {
      assert x == 7 * q + r;
    } else if d == 4 {
      assert x == 4 * q + r;
    } else if d == 100 {
      assert x == 100 * q + r;
    } else {
      assert x == 400 * q + r;
    }
  }

  /**
   * Leaving the last day of a month other than February for the first of the next moves the
   * month's share on by exactly the days the month had less one, give or take whole weeks.
   */
  lemma MonthTermStep(month: int, year: int)
    requires 1 <= month <= 12 && month != 2
    ensures (MonthTerm(if month == 12 then 1 else month + 1) + 1 - MonthTerm(month) - DaysInMonth(year, month)) % 7 == 1
  {
    if month == 1 {
    } else if month == 3 {
    } else if month == 4 {
    } else if month == 5 {
    } else if month == 6 {
    } else if month == 7 {
    } else if month == 8 {
    } else if month == 9 {
    } else if month == 10 {
    } else if month == 11 {
    } else {
    }
  }

  /** Within a month, the next day is one further on in Zeller's count. */
  lemma ZellerSumSameMonth(d: Date, n: Date)
    requires n == Date(d.year, d.month, d.day + 1)
    ensures ZellerSum(n) == ZellerSum(d) + 1
  {
  }

  /** From the end of February to 1 March, Zeller's count crosses into the next year. */
  lemma ZellerSumMarch(d: Date, n: Date)
    requires d.month == 2 && d.day == DaysInMonth(d.year, 2) && n == Date(d.year, 3, 1)
    ensures (ZellerSum(n) - ZellerSum(d)) % 7 == 1
  {
    assert ZellerYear(d) == d.year - 1 && ZellerYear(n) == d.year;
    assert MonthTerm(2) == 39 && MonthTerm(3) == 10;
    var leap := if IsLeapYear(d.year) then 1 else 0;
    var t := YearTerm(d.year) - YearTerm(d.year - 1);
    YearTermStep(d.year);
    assert t == 7 * (t / 7) + 1 + leap;
    assert ZellerSum(n) - ZellerSum(d) == 7 * (t / 7 - 8) + 1;
    WeeksAndADay(t / 7 - 8);
  }

  /** From the end of any other month to the first of the next, Zeller's year stays the same. */
  lemma ZellerSumNextMonth(d: Date, n: Date)
    requires 1 <= d.month <= 12 && d.month != 2 && d.day == DaysInMonth(d.year, d.month)
    requires n == Date(if d.month == 12 then d.year + 1 else d.year, if d.month == 12 then 1 else d.month + 1, 1)
    ensures (ZellerSum(n) - ZellerSum(d)) % 7 == 1
  {
    assert ZellerYear(n) == ZellerYear(d);
    MonthTermStep(d.month, d.year);
  }

  /** The day after a date falls on the next day of the week. */
  lemma DayOfWeekNext(d: LocalDate)
    requires NextDay(d).Some?
    ensures DayOfWeek(NextDay(d).value) == (DayOfWeek(d) + 1) % 7
  {
    var n := NextDay(d).value;
    if d.day < DaysInMonth(d.year, d.month) {
      ZellerSumSameMonth(d, n);
    } else if d.month == 2 {
      ZellerSumMarch(d, n);
    } else {
      ZellerSumNextMonth(d, n);
    }
    WeekdayStep(ZellerSum(d), ZellerSum(n));
  }

  lemma WeeksAndADay(q: int)
    ensures (7 * q + 1) % 7 == 1
  {
  }

  /** Two day counts one apart modulo 7 name consecutive weekdays. */
  lemma WeekdayStep(a: int, b: int)
    requires (b - a) % 7 == 1
    ensures ((b % 7) + 5) % 7 == ((((a % 7) + 5) % 7) + 1) % 7
  {
    var t, qa, ra := (b - a) / 7, a / 7, a % 7;
    Quotient(b - a, 7, t, 1);
    Quotient(a, 7, qa, ra);
    if ra < 6 {
      Quotient(b, 7, qa + t, ra + 1);
    } else {
      Quotient(b, 7, qa + t + 1, 0);
    }
  }

  /** `d.format(ofPattern("EEEE, MMM dd yyyy"))`. */
  function FormatDateLong(d: LocalDate): string
  {
    WeekdayNames[DayOfWeek(d)] + ", " + MonthAbbreviations[d.month - 1] + " " + ZeroPad(d.day, 2) + " "
    + ZeroPad(d.year, 4)
  }

  /** `t.format(ofPattern("EEEE, MMM dd yyyy, h:mma"))`. */
  function FormatLong(t: LocalDateTime): string
  {
    FormatDateLong(ToDate(t)) + ", " + FormatClock(t)
  }
}
