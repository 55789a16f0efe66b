/**
 * `getTime` of the page controller: build a `Date` at the epoch, set its
 * seconds to `t`, and take the eight characters from index 11 of
 * `toISOString()`, whose layout is the Date Time String Format of ECMA-262
 * (`YYYY-MM-DDTHH:mm:ss.sssZ`). Time values are whole milliseconds since the
 * epoch, decomposed as ECMA-262's Day, HourFromTime, MinFromTime,
 * SecFromTime and msFromTime do.
 */
module TimeFormat {
  import opened Decimal

  const MsPerSecond: nat := 1000
  const MsPerMinute: nat := 60000
  const MsPerHour: nat := 3600000
  const MsPerDay: nat := 86400000
  const SecondsPerDay: nat := 86400

  /** Seconds from the epoch to 1 January of year 10000: below it the year has four digits. */
  const MaxSeconds: nat := 253402300800

  function Day(tv: nat): nat { tv / MsPerDay }
  function HourFromTime(tv: nat): nat { (tv / MsPerHour) % 24 }
  function MinFromTime(tv: nat): nat { (tv / MsPerMinute) % 60 }
  function SecFromTime(tv: nat): nat { (tv / MsPerSecond) % 60 }
  function MsFromTime(tv: nat): nat { tv % MsPerSecond }

  /** A time value is the sum of its day, hour, minute, second and millisecond fields. */
  lemma TimeDecomposition(tv: nat)
    ensures tv == Day(tv) * MsPerDay + HourFromTime(tv) * MsPerHour + MinFromTime(tv) * MsPerMinute
                  + SecFromTime(tv) * MsPerSecond + MsFromTime(tv)
  {
    var secs, ms := tv / MsPerSecond, tv % MsPerSecond;
    var mins, s := secs / 60, secs % 60;
    var hours, m := mins / 60, mins % 60;
    var days, h := hours / 24, hours % 24;
    DivMod(tv, MsPerMinute, mins, MsPerSecond * s + ms);
    DivMod(tv, MsPerHour, hours, MsPerMinute * m + MsPerSecond * s + ms);
    DivMod(tv, MsPerDay, days, MsPerHour * h + MsPerMinute * m + MsPerSecond * s + ms);
  }

  /**
   * `Date.prototype.setSeconds(sec)`: keep day, hour, minute and milliseconds,
   * replace the seconds; the time value moves by the difference in seconds.
   */
  function SetSeconds(tv: nat, sec: nat): (r: nat)
    ensures r + SecFromTime(tv) * MsPerSecond == tv + sec * MsPerSecond
  {
    TimeDecomposition(tv);
    Day(tv) * MsPerDay + HourFromTime(tv) * MsPerHour + MinFromTime(tv) * MsPerMinute
      + sec * MsPerSecond + MsFromTime(tv)
  }

  // ---------------------------------------------------------------------------
  // Calendar (proleptic Gregorian)

  predicate IsLeapYear(y: nat) {
    y % 4 == 0 && (y % 100 != 0 || y % 400 == 0)
  }

  function DaysInYear(y: nat): nat {
    if IsLeapYear(y) then 366 else 365
  }

  /** Days from 1 January of year 0 to 1 January of year `y`. */
  function DaysBeforeYear(y: nat): int {
    365 * y + (y + 3) / 4 - (y + 99) / 100 + (y + 399) / 400
  }

  /** Moving from `y + n - 1` to `y + n` crosses a multiple of `n` exactly when `n` divides `y`. */
  lemma DivStep(y: nat, n: nat)
    requires n > 0
    ensures (y + n) / n - (y + n - 1) / n == if y % n == 0 then 1 else 0
  {
    var q, r := y / n, y % n;
    assert y == q * n + r;
    if r == 0 {
      DivMod(y + n - 1, n, q, n - 1);
      DivMod(y + n, n, q + 1, 0);
    } else {
      DivMod(y + n - 1, n, q + 1, r - 1);
      DivMod(y + n, n, q + 1, r);
    }
  }

  /** A multiple of 400 is a multiple of 100, and a multiple of 100 one of 4. */
  lemma CenturyDivisors(y: nat)
    ensures y % 400 == 0 ==> y % 100 == 0
    ensures y % 100 == 0 ==> y % 4 == 0
  {
    if y % 400 == 0 {
      DivMod(y, 100, 4 * (y / 400), 0);
    }
    if y % 100 == 0 {
      DivMod(y, 4, 25 * (y / 100), 0);
    }
  }

  lemma DaysBeforeYearStep(y: nat)
    ensures DaysBeforeYear(y + 1) == DaysBeforeYear(y) + DaysInYear(y)
  {
    DivStep(y, 4);
    DivStep(y, 100);
    DivStep(y, 400);
    var a := (y + 4) / 4 - (y + 3) / 4;
    var b := (y + 100) / 100 - (y + 99) / 100;
    var c := (y + 400) / 400 - (y + 399) / 400;
    assert DaysBeforeYear(y + 1) == DaysBeforeYear(y) + 365 + a - b + c;
    CenturyDivisors(y);
  }

  /** The year holding day `d` counted from 1 January of year `y`, and the day within that year. */
  function YearWithin(d: nat, y: nat): (r: (nat, nat))
    ensures r.0 >= y && r.1 < DaysInYear(r.0)
    ensures DaysBeforeYear(r.0) + r.1 == DaysBeforeYear(y) + d
    decreases d
  {
    DaysBeforeYearStep(y);
    if d < DaysInYear(y) then (y, d) else YearWithin(d - DaysInYear(y), y + 1)
  }

  function MonthLength(m: nat, leap: bool): nat
    requires 1 <= m <= 12
  {
    if m == 2 then (if leap then 29 else 28)
    else if m == 4 || m == 6 || m == 9 || m == 11 then 30
    else 31
  }

  /** Days in the months from month `m` to December. */
  function DaysFromMonth(m: nat, leap: bool): nat
    requires 1 <= m <= 13
    decreases 13 - m
  {
    if m == 13 then 0 else MonthLength(m, leap) + DaysFromMonth(m + 1, leap)
  }

  lemma DaysFromJanuary(y: nat)
    ensures DaysFromMonth(1, IsLeapYear(y)) == DaysInYear(y)
  {
    if IsLeapYear(y) {
      assert DaysFromMonth(1, true) == 366;
    } else {
      assert DaysFromMonth(1, false) == 365;
    }
  }

  /** Month (1 to 12) and day of month (from 1) of day `doy` counted from the first day of month `m`. */
  function MonthWithin(doy: nat, m: nat, leap: bool): (r: (nat, nat))
    requires 1 <= m <= 12 && doy < DaysFromMonth(m, leap)
    ensures m <= r.0 <= 12 && 1 <= r.1 <= MonthLength(r.0, leap)
    decreases 12 - m
  {
    if doy < MonthLength(m, leap) then (m, doy + 1)
    else MonthWithin(doy - MonthLength(m, leap), m + 1, leap)
  }

  /** Before year 10000 the year of a time value has four digits. */
  lemma YearOfTimeValue(tv: nat)
    requires tv < MaxSeconds * MsPerSecond
    ensures YearWithin(Day(tv), 1970).0 < 10000
  {
    var r := YearWithin(Day(tv), 1970);
    assert DaysBeforeYear(1970) == 719528 && DaysBeforeYear(10000) == 3652425;
    assert Day(tv) < 2932897;
  }

  /** `Date.prototype.toISOString` for a time value before year 10000. */
  function ToIsoString(tv: nat): (s: string)
    requires tv < MaxSeconds * MsPerSecond
    ensures |s| == 24
    ensures s[11..19] == Clock(HourFromTime(tv), MinFromTime(tv), SecFromTime(tv))
  {
    YearOfTimeValue(tv);
    var yd := YearWithin(Day(tv), 1970);
    DaysFromJanuary(yd.0);
    var md := MonthWithin(yd.1, 1, IsLeapYear(yd.0));
    var date := DatePart(yd.0, md.0, md.1) + "T";
    var clock := Clock(HourFromTime(tv), MinFromTime(tv), SecFromTime(tv));
    var s := date + clock + ("." + Pad3(MsFromTime(tv)) + "Z");
    assert s[11..19] == clock;
    s
  }

  function DatePart(year: nat, month: nat, day: nat): (s: string)
    requires year < 10000 && month < 100 && day < 100
    ensures |s| == 10
  {
    Pad4(year) + "-" + Pad2(month) + "-" + Pad2(day)
  }

  /** `HH:mm:ss`, each field zero-padded to two digits. */
  function Clock(h: nat, m: nat, s: nat): (r: string)
    requires h < 100 && m < 100 && s < 100
    ensures |r| == 8
  {
    Pad2(h) + ":" + Pad2(m) + ":" + Pad2(s)
  }

  /** The clock reading of `s` seconds into a day. */
  function ClockOfDay(s: nat): string
    requires s < SecondsPerDay
  {
    Clock(s / 3600, s % 3600 / 60, s % 60)
  }

  /** `getTime(t)`: characters 11 to 18 of the ISO string of the epoch with its seconds set to `t`. */
  function GetTime(t: nat): (r: string)
    requires t < MaxSeconds
    ensures |r| == 8
  {
    var tv := SetSeconds(0, t);
    assert tv == t * MsPerSecond;
    ToIsoString(tv)[11..19]
  }

  // ---------------------------------------------------------------------------
  // Properties

  lemma MulMonotone(k: int, d: int)
    requires k >= 1 && d > 0
    ensures k * d >= d
  {
  }

  /** Quotient and remainder are unique. */
  lemma DivMod(x: int, d: int, q: int, r: int)
    requires 0 < d && 0 <= r < d && x == q * d + r
    ensures x / d == q && x % d == r
  {
    var q0, r0 := x / d, x % d;
    assert x == q0 * d + r0 && 0 <= r0 < d;
    assert (q - q0) * d == r0 - r;
    if q > q0 {
      MulMonotone(q - q0, d);
    } else if q < q0 {
      MulMonotone(q0 - q, d);
    }
  }

  lemma HourField(t: nat, days: nat, h: nat, rest: nat)
    requires t == SecondsPerDay * days + 3600 * h + rest && h < 24 && rest < 3600
    ensures HourFromTime(t * MsPerSecond) == h
  {
    DivMod(t * MsPerSecond, MsPerHour, 24 * days + h, MsPerSecond * rest);
    DivMod(24 * days + h, 24, days, h);
  }

  lemma MinuteField(t: nat, hours: nat, m: nat, sec: nat)
    requires t == 3600 * hours + 60 * m + sec && m < 60 && sec < 60
    ensures MinFromTime(t * MsPerSecond) == m
  {
    DivMod(t * MsPerSecond, MsPerMinute, 60 * hours + m, MsPerSecond * sec);
    DivMod(60 * hours + m, 60, hours, m);
  }

  lemma SecondField(t: nat, minutes: nat, sec: nat)
    requires t == 60 * minutes + sec && sec < 60
    ensures SecFromTime(t * MsPerSecond) == sec && MsFromTime(t * MsPerSecond) == 0
  {
    DivMod(t * MsPerSecond, MsPerSecond, t, 0);
    DivMod(t, 60, minutes, sec);
  }

  /** The hour, minute, second and millisecond fields of `t` whole seconds after the epoch. */
  lemma TimeFields(t: nat)
    ensures var s := t % SecondsPerDay;
            && HourFromTime(t * MsPerSecond) == s / 3600
            && MinFromTime(t * MsPerSecond) == s % 3600 / 60
            && SecFromTime(t * MsPerSecond) == s % 60
            && MsFromTime(t * MsPerSecond) == 0
  {
    var days, s := t / SecondsPerDay, t % SecondsPerDay;
    var h, rest := s / 3600, s % 3600;
    var m, sec := rest / 60, rest % 60;
    assert s % 60 == sec by {
      DivMod(s, 60, 60 * h + m, sec);
    }
    HourField(t, days, h, rest);
    MinuteField(t, 24 * days + h, m, sec);
    SecondField(t, 1440 * days + 60 * h + m, sec);
  }

  /** `getTime(t)` is the zero-padded `HH:MM:SS` of `t` modulo one day. */
  lemma GetTimeIsClock(t: nat)
    requires t < MaxSeconds
    ensures GetTime(t) == ClockOfDay(t % SecondsPerDay)
  {
    TimeFields(t);
    assert SetSeconds(0, t) == t * MsPerSecond;
  }

  /** The three fields of `Clock(h, m, sec)` read back as `h`, `m` and `sec`. */
  lemma ClockReadsBack(h: nat, m: nat, sec: nat)
    requires h < 100 && m < 100 && sec < 100
    ensures var r := Clock(h, m, sec);
            && r[2] == ':' && r[5] == ':'
            && AllDigits(r[..2]) && AllDigits(r[3..5]) && AllDigits(r[6..])
            && ParseDecimal(r[..2]) == h && ParseDecimal(r[3..5]) == m && ParseDecimal(r[6..]) == sec
  {
    var r := Clock(h, m, sec);
    assert r[..2] == Pad2(h) && r[3..5] == Pad2(m) && r[6..] == Pad2(sec);
    Pad2ReadsBack(h);
    Pad2ReadsBack(m);
    Pad2ReadsBack(sec);
  }

  /** The three fields of a clock reading read back as the hours, minutes and seconds of the day. */
  lemma ClockOfDayReadsBack(s: nat)
    requires s < SecondsPerDay
    ensures var r := ClockOfDay(s);
            && r[2] == ':' && r[5] == ':'
            && AllDigits(r[..2]) && AllDigits(r[3..5]) && AllDigits(r[6..])
            && ParseDecimal(r[..2]) < 24 && ParseDecimal(r[3..5]) < 60 && ParseDecimal(r[6..]) < 60
            && 3600 * ParseDecimal(r[..2]) + 60 * ParseDecimal(r[3..5]) + ParseDecimal(r[6..]) == s
  {
    var h, rest := s / 3600, s % 3600;
    var m, sec := rest / 60, rest % 60;
    assert s % 60 == sec by {
      DivMod(s, 60, 60 * h + m, sec);
    }
    ClockReadsBack(h, m, sec);
  }

  /** `getTime(t)` reads back as `t` modulo one day. */
  lemma GetTimeReadsBack(t: nat)
    requires t < MaxSeconds
    ensures var r := GetTime(t);
            && r[2] == ':' && r[5] == ':'
            && AllDigits(r[..2]) && AllDigits(r[3..5]) && AllDigits(r[6..])
            && 3600 * ParseDecimal(r[..2]) + 60 * ParseDecimal(r[3..5]) + ParseDecimal(r[6..])
               == t % SecondsPerDay
  {
    GetTimeIsClock(t);
    ClockOfDayReadsBack(t % SecondsPerDay);
  }

  lemma ShiftByDay(t: nat)
    ensures (t + SecondsPerDay) % SecondsPerDay == t % SecondsPerDay
  {
    DivMod(t + SecondsPerDay, SecondsPerDay, t / SecondsPerDay + 1, t % SecondsPerDay);
  }

  /** `getTime` wraps around after one day. */
  lemma GetTimeWraps(t: nat)
    requires t + SecondsPerDay < MaxSeconds
    ensures GetTime(t + SecondsPerDay) == GetTime(t)
  {
    ShiftByDay(t);
    GetTimeIsClock(t);
    GetTimeIsClock(t + SecondsPerDay);
  }

  /** The clock reading of `s` shows the unique hours, minutes and seconds that make up `s`. */
  lemma ClockOfDayIs(s: nat, h: nat, m: nat, sec: nat)
    requires h < 24 && m < 60 && sec < 60 && s == 3600 * h + 60 * m + sec
    ensures s < SecondsPerDay && ClockOfDay(s) == Clock(h, m, sec)
  {
    DivMod(s, 3600, h, 60 * m + sec);
    DivMod(60 * m + sec, 60, m, sec);
    DivMod(s, 60, 60 * h + m, sec);
  }

  lemma ClockOfDayExamples()
    ensures ClockOfDay(0) == "00:00:00"
    ensures ClockOfDay(65) == "00:01:05"
    ensures ClockOfDay(3661) == "01:01:01"
  {
    ClockOfDayIs(0, 0, 0, 0);
    ClockOfDayIs(65, 0, 1, 5);
    ClockOfDayIs(3661, 1, 1, 1);
    assert Clock(0, 0, 0) == "00:00:00";
    assert Clock(0, 1, 5) == "00:01:05";
    assert Clock(1, 1, 1) == "01:01:01";
  }

  lemma GetTimeExamples()
    ensures GetTime(0) == "00:00:00"
    ensures GetTime(65) == "00:01:05"
    ensures GetTime(3661) == "01:01:01"
    ensures GetTime(86400) == "00:00:00"
  {
    ClockOfDayExamples();
    GetTimeIsClock(0);
    GetTimeIsClock(65);
    GetTimeIsClock(3661);
    GetTimeIsClock(86400);
  }
}
