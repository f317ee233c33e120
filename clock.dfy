/**
 * The date/time logic of the clock application (`main.py`): the weekday
 * computation, the year built from the GPS two-digit year field, the check
 * that decides whether a GPS reading sets the real-time clock, the choice
 * between full and partial refresh, and the display capability check.
 *
 * Python's `//` and `%` round towards negative infinity; every divisor here
 * is a positive constant, for which Dafny's Euclidean `/` and `%` agree with
 * them, so the arithmetic is written as in the program.
 */
module Clock {

  import opened Wrappers
  import opened EpdBus
  import opened EpdProtocol
  import opened Epd

  // ---------------------------------------------------------------------
  // Weekday by Zeller's congruence

  /** Zeller's sum for a month already shifted so that March is 3 and
      January and February are 13 and 14 of the previous year. */
  function ZellerSum(year: int, month: int, day: int): int
  {
    day + (13 * (month + 1)) / 5 + YearTerms(year)
  }

  /** `_calculate_weekday`. */
  function Weekday(year: int, month: int, day: int): (w: int)
    ensures 0 <= w < 7
  {
    var m := if month < 3 then month + 12 else month;
    var y := if month < 3 then year - 1 else year;
    var dayOfWeek := ZellerSum(y, m, day) % 7;
    Renumber(dayOfWeek)
  }

  /** From Zeller's numbering, 0 for Saturday, to the one the program uses,
      0 for Sunday. */
  function Renumber(dayOfWeek: int): (w: int)
    ensures 0 <= w < 7
  {
    (dayOfWeek + 6) % 7
  }

  /** January and February count as months 13 and 14 of the previous year. */
  lemma WeekdayEarlyMonths(year: int, month: int, day: int)
    requires -9 <= month < 3
    ensures Weekday(year, month, day) == Weekday(year - 1, month + 12, day)
  {
  }

  lemma ShiftedWeekday(a: int, b: int)
    requires (a - b) % 7 == 1
    ensures Renumber(a % 7) == (Renumber(b % 7) + 1) % 7
  {
  }

  /** Within a month, the next day is the next weekday. */
  lemma WeekdayNextDay(year: int, month: int, day: int)
    ensures Weekday(year, month, day + 1) == (Weekday(year, month, day) + 1) % 7
  {
    var m := if month < 3 then month + 12 else month;
    var y := if month < 3 then year - 1 else year;
    ShiftedWeekday(ZellerSum(y, m, day + 1), ZellerSum(y, m, day));
  }

  // ---------------------------------------------------------------------
  // The Gregorian calendar, as an independent reference

  predicate LeapYear(y: int)
  {
    y % 4 == 0 && (y % 100 != 0 || y % 400 == 0)
  }

  function DaysInMonth(y: int, m: int): (n: int)
    requires 1 <= m <= 12
    ensures 28 <= n <= 31
  {
    if m == 2 then (if LeapYear(y) then 29 else 28)
    else if m == 4 || m == 6 || m == 9 || m == 11 then 30
    else 31
  }

  datatype Date = Date(year: int, month: int, day: int)

  ghost predicate ValidDate(d: Date)
  {
    1 <= d.month <= 12 && 1 <= d.day <= DaysInMonth(d.year, d.month)
  }

  function NextDay(d: Date): (n: Date)
    requires ValidDate(d)
    ensures ValidDate(n)
  {
    if d.day < DaysInMonth(d.year, d.month) then Date(d.year, d.month, d.day + 1)
    else if d.month < 12 then Date(d.year, d.month + 1, 1)
    else Date(d.year + 1, 1, 1)
  }

  function AddDays(d: Date, n: nat): (r: Date)
    requires ValidDate(d)
    ensures ValidDate(r)
  {
    if n == 0 then d else NextDay(AddDays(d, n - 1))
  }

  function DateWeekday(d: Date): int
  {
    Weekday(d.year, d.month, d.day)
  }

  /** The year terms of Zeller's sum. */
  function YearTerms(year: int): int
  {
    var k := year % 100;
    var j := year / 100;
    k + k / 4 + j / 4 + 5 * j
  }

  lemma LeapCentury(y: int)
    requires y % 100 == 0
    ensures LeapYear(y) <==> (y / 100) % 4 == 0
  {
    var j := y / 100;
    var q, r := j / 4, j % 4;
    assert y == 100 * j;
    assert j == 4 * q + r && 0 <= r < 4;
    assert y == 4 * (100 * q + 25 * r);
    assert y % 4 == 0;
    assert y == 400 * q + 100 * r && 0 <= 100 * r < 400;
    assert y % 400 == 100 * r;
  }

  lemma LeapInCentury(y: int)
    requires y % 100 != 0
    ensures LeapYear(y) <==> (y % 100) % 4 == 0
  {
    var j, k := y / 100, y % 100;
    var q, r := k / 4, k % 4;
    assert y == 100 * j + k && k == 4 * q + r && 0 <= r < 4;
    assert y == 4 * (25 * j + q) + r;
    assert y % 4 == r;
  }

  /** From one year to the next the year terms grow by one, and by one more
      into a leap year, except at a century, where they fall by 118 (which
      is one more than a multiple of 7). */
  lemma YearTermsStep(y: int)
    ensures YearTerms(y) - YearTerms(y - 1)
         == (if y % 100 == 0 then -118 else 1) + (if LeapYear(y) then 1 else 0)
  {
    var k, j := y % 100, y / 100;
    if k == 0 {
      LeapCentury(y);
      assert (y - 1) % 100 == 99 && (y - 1) / 100 == j - 1;
      assert YearTerms(y) - YearTerms(y - 1) == -118 + (j / 4 - (j - 1) / 4);
    } else {
      LeapInCentury(y);
      assert (y - 1) % 100 == k - 1 && (y - 1) / 100 == j;
      assert YearTerms(y) - YearTerms(y - 1) == 1 + (k / 4 - (k - 1) / 4);
    }
  }

  /** Into March: the shifted year changes, and February had 28 or 29 days. */
  lemma WeekdayIntoMarch(year: int, day: int)
    requires day == DaysInMonth(year, 2)
    ensures Weekday(year, 3, 1) == (Weekday(year, 2, day) + 1) % 7
  {
    var a, b := ZellerSum(year, 3, 1), ZellerSum(year - 1, 14, day);
    YearTermsStep(year);
    assert a - b == YearTerms(year) - YearTerms(year - 1) - 28 - day;
    assert a - b == -55 || a - b == -174;
    ShiftedWeekday(a, b);
  }

  /** Into any other month of the same year. */
  lemma WeekdayIntoMonth(year: int, month: int, day: int)
    requires 1 <= month < 12 && month != 2 && day == DaysInMonth(year, month)
    ensures Weekday(year, month + 1, 1) == (Weekday(year, month, day) + 1) % 7
  {
    var m := if month < 3 then month + 12 else month;
    var y := if month < 3 then year - 1 else year;
    var a, b := ZellerSum(y, m + 1, 1), ZellerSum(y, m, day);
    assert a - b == 1 - day + (13 * (m + 2)) / 5 - (13 * (m + 1)) / 5;
    assert a - b == -27;
    ShiftedWeekday(a, b);
  }

  /** Into January of the next year: the shifted year stays the same. */
  lemma WeekdayIntoJanuary(year: int)
    ensures Weekday(year + 1, 1, 1) == (Weekday(year, 12, 31) + 1) % 7
  {
    ShiftedWeekday(ZellerSum(year, 13, 1), ZellerSum(year, 12, 31));
  }

  /** The weekday computation agrees with the calendar: the day after any
      date falls on the next weekday, across month and year ends and leap
      days alike. */
  lemma WeekdaySuccessor(d: Date)
    requires ValidDate(d)
    ensures DateWeekday(NextDay(d)) == (DateWeekday(d) + 1) % 7
  {
    var last := DaysInMonth(d.year, d.month);
    if d.day < last {
      assert NextDay(d) == Date(d.year, d.month, d.day + 1);
      WeekdayNextDay(d.year, d.month, d.day);
    } else if d.month == 2 {
      assert NextDay(d) == Date(d.year, 3, 1);
      WeekdayIntoMarch(d.year, d.day);
    } else if d.month < 12 {
      assert NextDay(d) == Date(d.year, d.month + 1, 1);
      WeekdayIntoMonth(d.year, d.month, d.day);
    } else {
      assert NextDay(d) == Date(d.year + 1, 1, 1) && d.day == 31;
      WeekdayIntoJanuary(d.year);
    }
  }

  /** 22 May 2024 was a Wednesday; the program numbers it 3, so its weekday
      numbering runs from 0 for Sunday to 6 for Saturday. */
  const KNOWN_WEDNESDAY := Date(2024, 5, 22)

  lemma KnownWednesday()
    ensures ValidDate(KNOWN_WEDNESDAY)
    ensures DateWeekday(KNOWN_WEDNESDAY) == 3
  {
    assert ZellerSum(2024, 5, 22) == 172;
  }

  lemma CountStep(start: int, before: int, after: int, n: int)
    requires before == (start + (n - 1)) % 7 && after == (before + 1) % 7
    ensures after == (start + n) % 7
  {
  }

  /** Counting n days on from any date moves the weekday on by n. */
  lemma {:induction false} WeekdayAddDays(d: Date, n: nat)
    requires ValidDate(d)
    ensures DateWeekday(AddDays(d, n)) == (DateWeekday(d) + n) % 7
  {
    if n > 0 {
      var before := AddDays(d, n - 1);
      WeekdayAddDays(d, n - 1);
      WeekdaySuccessor(before);
      CountStep(DateWeekday(d), DateWeekday(before), DateWeekday(AddDays(d, n)), n);
    } else {
      CountStep(DateWeekday(d), (DateWeekday(d) + 6) % 7, DateWeekday(d), 0);
    }
  }

  /** Every date from the reference Wednesday on gets the weekday obtained by
      counting days from it. */
  lemma WeekdayCountsDays(n: nat)
    ensures ValidDate(KNOWN_WEDNESDAY)
    ensures DateWeekday(AddDays(KNOWN_WEDNESDAY, n)) == (3 + n) % 7
  {
    KnownWednesday();
    WeekdayAddDays(KNOWN_WEDNESDAY, n);
  }

  // ---------------------------------------------------------------------
  // The year: `int(f"20{yy}")`

  predicate IsDigit(c: char)
  {
    '0' <= c <= '9'
  }

  predicate AllDigits(s: string)
  {
    forall i :: 0 <= i < |s| ==> IsDigit(s[i])
  }

  function DigitChar(d: int): (c: char)
    requires 0 <= d < 10
    ensures IsDigit(c) && c as int - '0' as int == d
  {
    ('0' as int + d) as char
  }

  /** Python's `str` of a non-negative integer: its decimal digits. */
  function NatString(n: nat): (s: string)
    ensures |s| >= 1 && AllDigits(s)
    decreases n
  {
    if n < 10 then [DigitChar(n)] else NatString(n / 10) + [DigitChar(n % 10)]
  }

  /** Python's `str` of an integer. */
  function IntString(i: int): (s: string)
    ensures |s| >= 1
    ensures s[0] == '-' <==> i < 0
  {
    if i < 0 then "-" + NatString(-i) else NatString(i)
  }

  /** The value of a string of decimal digits. */
  function DigitsValue(s: string): nat
    requires AllDigits(s)
    decreases |s|
  {
    if s == [] then 0
    else DigitsValue(s[..|s| - 1]) * 10 + (s[|s| - 1] as int - '0' as int)
  }

  /** Python's `int` on a string of digits with an optional sign; any other
      string raises `ValueError`, which is `None` here. */
  function ParseInt(s: string): (r: Option<int>)
    ensures r.Some? <==>
      ((|s| >= 1 && AllDigits(s)) || (|s| >= 2 && (s[0] == '-' || s[0] == '+') && AllDigits(s[1..])))
  {
    if |s| >= 1 && AllDigits(s) then Some(DigitsValue(s) as int)
    else if |s| >= 2 && s[0] == '-' && AllDigits(s[1..]) then Some(0 - DigitsValue(s[1..]) as int)
    else if |s| >= 2 && s[0] == '+' && AllDigits(s[1..]) then Some(DigitsValue(s[1..]))
    else None
  }

  function Pow10(n: nat): (p: nat)
    ensures p >= 1
  {
    if n == 0 then 1 else 10 * Pow10(n - 1)
  }

  /** Reading the decimal digits of a number back gives the number. */
  lemma {:induction false} NatStringValue(n: nat)
    ensures DigitsValue(NatString(n)) == n
    decreases n
  {
    var s := NatString(n);
    if n >= 10 {
      NatStringValue(n / 10);
      assert s[..|s| - 1] == NatString(n / 10);
    }
  }

  /** The value of a concatenation of digit strings. */
  lemma {:induction false} DigitsValueAppend(a: string, b: string)
    requires AllDigits(a) && AllDigits(b)
    ensures AllDigits(a + b)
    ensures DigitsValue(a + b) == DigitsValue(a) * Pow10(|b|) + DigitsValue(b)
    decreases |b|
  {
    var ab := a + b;
    if b == [] {
      assert ab == a;
    } else {
      var b' := b[..|b| - 1];
      assert ab[..|ab| - 1] == a + b';
      DigitsValueAppend(a, b');
      var last := b[|b| - 1] as int - '0' as int;
      assert DigitsValue(ab) == DigitsValue(a + b') * 10 + last;
      assert DigitsValue(b) == DigitsValue(b') * 10 + last;
      assert Pow10(|b|) == Pow10(|b'|) * 10;
      ShiftDigit(DigitsValue(a), Pow10(|b'|), DigitsValue(b'), last);
    }
  }

  lemma ShiftDigit(x: int, p: int, y: int, d: int)
    ensures (x * p + y) * 10 + d == x * (p * 10) + (y * 10 + d)
  {
  }

  lemma NatStringLength(n: nat)
    ensures n < 10 ==> |NatString(n)| == 1
    ensures 10 <= n < 100 ==> |NatString(n)| == 2
  {
  }

  /** The year `int(f"20{yy}")` for the year field `yy` of a GPS date: a
      negative field makes `int` raise `ValueError`; otherwise the year is
      "20" followed by the field's digits. */
  function YearFromField(yy: int): (year: Option<int>)
    ensures year.None? <==> yy < 0
    ensures yy >= 0 ==> year == Some(20 * Pow10(|NatString(yy)|) + yy)
  {
    YearText(yy);
    ParseInt("20" + IntString(yy))
  }

  lemma YearText(yy: int)
    ensures ParseInt("20" + IntString(yy)).None? <==> yy < 0
    ensures yy >= 0 ==> ParseInt("20" + IntString(yy)) == Some(20 * Pow10(|NatString(yy)|) + yy)
  {
    var s := "20" + IntString(yy);
    if yy < 0 {
      assert s[2] == '-' && !IsDigit(s[2]);
      assert s[0] == '2';
      assert !AllDigits(s) && !AllDigits(s[1..]) by {
        assert s[1..][1] == s[2];
      }
    } else {
      DigitsValueAppend("20", NatString(yy));
      NatStringValue(yy);
      assert DigitsValue("20") == 20 by {
        assert "20"[..1] == "2";
        assert "2"[..0] == "";
      }
    }
  }

  /** A two-digit field gives 2000 + yy, but a one-digit one 200 + yy. */
  lemma YearFromFieldValue(yy: int)
    ensures 10 <= yy < 100 ==> YearFromField(yy) == Some(2000 + yy)
    ensures 0 <= yy < 10 ==> YearFromField(yy) == Some(200 + yy)
  {
    if yy >= 0 {
      NatStringLength(yy);
      assert Pow10(1) == 10 && Pow10(2) == 100;
    }
  }

  // ---------------------------------------------------------------------
  // Setting the real-time clock from a GPS reading

  /** What one pass of the GPS reader leaves in the parser: either the read
      raised, or the parser's time (hours, minutes, seconds) and date (day,
      month, two-digit year) fields, converted with `int`. */
  datatype GpsRead = ReadFailed | Fix(hour: int, minute: int, second: int, day: int, month: int, yy: int)

  /** The tuple handed to `RTC.datetime`. */
  datatype RtcSetting = RtcSetting(year: int, month: int, day: int, weekday: int,
                                   hour: int, minute: int, second: int, subseconds: int)

  /** The outcome of one pass of the start-up loop: no usable fix (sleep and
      try again), a fix the code rejects with `ValueError` (the clock stays
      unset), or the setting the new clock receives. */
  datatype Attempt = NoFix | Rejected | Accepted(setting: RtcSetting)

  /** The fields are within the ranges the program checks. Every calendar
      date of any year with a time of day passes; the converse fails, as
      `AcceptsFebruaryThirtyFirst` shows, because this is a range check, not
      a calendar check. */
  predicate InRange(r: GpsRead): (ok: bool)
    requires r.Fix?
    ensures forall y ::
      (ValidDate(Date(y, r.month, r.day)) && 0 <= r.hour < 24 && 0 <= r.minute < 60 && 0 <= r.second < 60)
      ==> ok
  {
    1 <= r.month <= 12 && 1 <= r.day <= 31 && 0 <= r.hour <= 23
    && 0 <= r.minute <= 59 && 0 <= r.second <= 59
  }

  /** The setting built from an accepted fix. */
  function SettingOf(r: GpsRead, year: int): (t: RtcSetting)
    requires r.Fix?
    ensures t.year == year && t.month == r.month && t.day == r.day
    ensures t.hour == r.hour && t.minute == r.minute && t.second == r.second
    ensures t.weekday == Weekday(year, r.month, r.day) && 0 <= t.weekday < 7
    ensures t.subseconds == 0
  {
    RtcSetting(year, r.month, r.day, Weekday(year, r.month, r.day), r.hour, r.minute, r.second, 0)
  }

  /** One pass of the start-up loop, after the read. */
  function InitialAttempt(r: GpsRead): (a: Attempt)
    ensures a.NoFix? <==>
      (r.ReadFailed? || (r.hour, r.minute, r.second) == (0, 0, 0) || (r.day, r.month, r.yy) == (0, 0, 0))
    ensures a.Accepted? <==> !a.NoFix? && r.yy >= 0 && InRange(r)
    ensures a.Accepted? ==>
      (a.setting.year == YearFromField(r.yy).value && a.setting == SettingOf(r, a.setting.year))
  {
    if r.ReadFailed? then NoFix
    else if (r.hour, r.minute, r.second) != (0, 0, 0) && (r.day, r.month, r.yy) != (0, 0, 0) then
      match YearFromField(r.yy)
      case None => Rejected
      case Some(year) =>
        if InRange(r) then Accepted(SettingOf(r, year)) else Rejected
    else NoFix
  }

  /** One pass of the periodic update: the clock keeps its setting unless
      the reading is usable and valid. */
  function PeriodicUpdate(current: RtcSetting, r: GpsRead): (next: RtcSetting)
    ensures next != current ==> r.Fix? && r.yy >= 0 && InRange(r)
  {
    if r.ReadFailed? then current
    else if (r.hour, r.minute, r.second) != (0, 0, 0) && (r.day, r.month, r.yy) != (0, 0, 0) then
      match YearFromField(r.yy)
      case None => current
      case Some(year) =>
        if InRange(r) then SettingOf(r, year) else current
    else current
  }

  /** The start-up path and the periodic path accept the same readings and
      set the same value. */
  lemma UpdateAgreesWithStartUp(current: RtcSetting, r: GpsRead)
    ensures InitialAttempt(r).Accepted? ==> PeriodicUpdate(current, r) == InitialAttempt(r).setting
    ensures !InitialAttempt(r).Accepted? ==> PeriodicUpdate(current, r) == current
  {
  }

  /** The range check lets through dates the calendar does not have. */
  lemma AcceptsFebruaryThirtyFirst()
    ensures InitialAttempt(Fix(12, 0, 0, 31, 2, 24)).Accepted?
    ensures InitialAttempt(Fix(12, 0, 0, 31, 2, 24)).setting.year == 2024
    ensures !ValidDate(Date(2024, 2, 31))
  {
    YearFromFieldValue(24);
  }

  /** `gps_initialize`: readings until one pass accepts a fix. The readings are the
      environment's; when they run out before a fix is accepted the clock is
      still unset. `used` is the number of readings consumed. */
  method GpsInitialize(readings: seq<GpsRead>) returns (rtc: Option<RtcSetting>, used: nat)
    ensures used <= |readings|
    ensures forall i :: 0 <= i < used - 1 ==> !InitialAttempt(readings[i]).Accepted?
    ensures rtc.Some? <==> used >= 1 && InitialAttempt(readings[used - 1]).Accepted?
    ensures rtc.Some? ==> rtc.value == InitialAttempt(readings[used - 1]).setting
    ensures rtc.None? ==> used == |readings| && forall i :: 0 <= i < |readings| ==> !InitialAttempt(readings[i]).Accepted?
  {
    rtc, used := None, 0;
    while used < |readings|
      invariant used <= |readings|
      invariant forall i :: 0 <= i < used ==> !InitialAttempt(readings[i]).Accepted?
    {
      var attempt := InitialAttempt(readings[used]);
      used := used + 1;
      if attempt.Accepted? {
        rtc := Some(attempt.setting);
        return;
      }
    }
  }

  // ---------------------------------------------------------------------
  // Display refresh and capability

  datatype Refresh = FullRefresh | PartialRefresh

  /** The clock loop refreshes fully during minute 30 of each hour and
      partially otherwise. */
  function RefreshFor(minute: int): (mode: Refresh)
    ensures mode == FullRefresh <==> minute == 30
  {
    if 30 <= minute < 31 then FullRefresh else PartialRefresh
  }

  /** The refresh step of the clock loop: choose the mode for the current
      minute and wait for the display. A full refresh re-initialises the
      panel only when it was in partial mode. */
  method ChooseRefresh(display: EPD, minute: int)
    requires display.Valid() && !display.busy
    modifies display`trace, display`partial
    ensures display.partial <==> RefreshFor(minute) == PartialRefresh
    ensures display.trace == old(display.trace)
      + (if RefreshFor(minute) == FullRefresh && old(display.partial) then FullInitTrace() else [])
      + [WaitReady]
  {
    if RefreshFor(minute) == FullRefresh {
      display.SetFull(true, false);
    } else {
      display.SetPartial();
    }
    display.WaitUntilReady();
  }

  const PARTIAL_UPDATE_ERROR := "ePaper display does not support partial update."

  /** The start-up capability check on the display object's attributes:
      whether it is an e-paper display, or the error raised when an e-paper
      display cannot update partially. */
  function CheckDisplay(attributes: set<string>): (r: Result<bool, string>)
    ensures r.Failure? <==> "wait_until_ready" in attributes && "set_partial" !in attributes
    ensures r.Failure? ==> r.error == PARTIAL_UPDATE_ERROR
    ensures r.Success? ==> (r.value <==> "wait_until_ready" in attributes)
  {
    var epaper := "wait_until_ready" in attributes;
    if epaper && "set_partial" !in attributes then Failure(PARTIAL_UPDATE_ERROR) else Success(epaper)
  }

  /** The public operation names of the e-paper driver class, written out by
      hand from its definition: Dafny cannot list a class's members, so this
      set is not derived from `Epd.EPD`, and `DriverPassesCheck` is about
      this list. */
  const EPD_ATTRIBUTES: set<string> :=
    {"rgb", "reset", "init", "clear", "set_full", "set_partial", "ready", "show",
     "wait_until_ready", "sleep", "display_on", "display_on_partial"}

  /** The driver passes the check as an e-paper display. */
  lemma DriverPassesCheck()
    ensures CheckDisplay(EPD_ATTRIBUTES) == Success(true)
  {
  }
}
