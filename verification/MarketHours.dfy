/** The market clock: regular hours in New York, from UTC seconds and the civil calendar. */
module MarketHours {
  import opened Calendar

  datatype State = Open | Closed

  const DAY := 86400

  /** Sunday is 0. */
  function WeekdaySunday0(days: int): int {
    (days + 4) % 7
  }

  function NthSundayOfMonth(year: int, month: int, n: int): int {
    var firstDay := DaysFromCivil(Date(year, month, 1));
    var offsetToSunday := (7 - WeekdaySunday0(firstDay)) % 7;
    firstDay + offsetToSunday + (n - 1) * 7
  }

  function DstStartDay(year: int): int {
    NthSundayOfMonth(year, 3, 2)
  }

  function DstEndDay(year: int): int {
    NthSundayOfMonth(year, 11, 1)
  }

  function RegularMarketState(now: int): State {
    var year := CivilFromDays(now / DAY).year;
    var dstStart := DstStartDay(year) * DAY + 7 * 3600;
    var dstEnd := DstEndDay(year) * DAY + 6 * 3600;
    var inDst := dstStart <= now < dstEnd;
    LocalMarketState(now + (if inDst then -4 * 3600 else -5 * 3600))
  }

  function LocalMarketState(local: int): State {
    var weekday := (local / DAY + 3) % 7;
    if weekday >= 5 then Closed
    else
      var minutes := local % DAY / 60;
      if 570 <= minutes < 960 then Open else Closed
  }

  // ----- the daylight-saving dates -----

  /** The `n`th Sunday is a Sunday, and `n - 1` Sundays of the month come before it. */
  lemma NthSundayIsSunday(year: int, month: int, n: int)
    ensures var first, r := DaysFromCivil(Date(year, month, 1)), NthSundayOfMonth(year, month, n);
            WeekdaySunday0(r) == 0 && first + 7 * (n - 1) <= r < first + 7 * n
  {
    hide DaysFromCivil;
    var first := DaysFromCivil(Date(year, month, 1));
    var w := WeekdaySunday0(first);
    var k := (7 - w) % 7;
    assert (w + k) % 7 == 0;
    assert (first + 4 + k + (n - 1) * 7) % 7 == 0;
  }

  lemma DayOfMonth(year: int, month: int, k: int)
    requires 1 <= month <= 12 && 0 <= k < LastDayOfMonth(year, month)
    ensures CivilFromDays(DaysFromCivil(Date(year, month, 1)) + k) == Date(year, month, 1 + k)
  {
    hide CivilFromDays;
    DateComesBack(Date(year, month, 1 + k));
  }

  /** Summer time starts on a Sunday from the 8th to the 14th of March and ends on a Sunday
      from the 1st to the 7th of November of the same year. */
  lemma DstDates(year: int)
    ensures var s, e := CivilFromDays(DstStartDay(year)), CivilFromDays(DstEndDay(year));
            && s.year == year && s.month == 3 && 8 <= s.day <= 14
            && e.year == year && e.month == 11 && 1 <= e.day <= 7
    ensures WeekdaySunday0(DstStartDay(year)) == 0 && WeekdaySunday0(DstEndDay(year)) == 0
  {
    hide CivilFromDays, DaysFromCivil;
    NthSundayIsSunday(year, 3, 2);
    NthSundayIsSunday(year, 11, 1);
    DayOfMonth(year, 3, DstStartDay(year) - DaysFromCivil(Date(year, 3, 1)));
    DayOfMonth(year, 11, DstEndDay(year) - DaysFromCivil(Date(year, 11, 1)));
  }

  // ----- one day -----

  /** Days strictly between the two changes run on summer time throughout. */
  predicate SummerDay(day: int) {
    var year := CivilFromDays(day).year;
    DstStartDay(year) < day < DstEndDay(year)
  }

  function OpensAt(day: int): int {
    if SummerDay(day) then 13 * 3600 + 30 * 60 else 14 * 3600 + 30 * 60
  }

  predicate TradingDay(day: int) {
    1 <= WeekdaySunday0(day) <= 5
  }

  /** Under a fixed offset of four or five hours, the session lies within one UTC day. */
  lemma SessionUnderOffset(day: int, second: int, offset: int)
    requires 0 <= second < DAY && (offset == 4 * 3600 || offset == 5 * 3600)
    ensures LocalMarketState(day * DAY + second - offset).Open? <==>
              TradingDay(day) && 34200 + offset <= second < 57600 + offset
  {
    var local := day * DAY + second - offset;
    if second >= offset {
      assert local / DAY == day && local % DAY == second - offset;
      assert (day + 3) % 7 < 5 <==> TradingDay(day);
    } else {
      assert local / DAY == day - 1 && local % DAY == second - offset + DAY;
    }
  }

  /** On every UTC day, Monday to Friday, the market is open for exactly one interval of 23400
      seconds that starts at 13:30 or 14:30; on Saturdays and Sundays it never opens. */
  lemma OneSessionPerTradingDay(day: int, second: int)
    requires 0 <= second < DAY
    ensures RegularMarketState(day * DAY + second).Open? <==>
              TradingDay(day) && OpensAt(day) <= second < OpensAt(day) + 23400
  {
    hide CivilFromDays, NthSundayOfMonth, LocalMarketState;
    var now := day * DAY + second;
    assert now / DAY == day;
    var year := CivilFromDays(day).year;
    DstDates(year);
    SessionUnderOffset(day, second, 4 * 3600);
    SessionUnderOffset(day, second, 5 * 3600);
    if TradingDay(day) {
      hide DstStartDay, DstEndDay;
      var s, e := DstStartDay(year), DstEndDay(year);
      assert day != s && day != e;
      SameSideOfChange(day, second, s, 7 * 3600);
      SameSideOfChange(day, second, e, 6 * 3600);
    }
  }

  /** The 2nd of January 2000, a Sunday. */
  const SUNDAY := DaysFromCivil(Date(2000, 1, 2))

  lemma SundayIsSunday()
    ensures SUNDAY == 10958
  {
    hide YearStart, CivilFromDays;
  }

  /** The Sunday in a given week of a month is the one the code finds. */
  lemma SundayInWeek(day: int, year: int, month: int, n: int)
    requires 1 <= month <= 12 && (day - SUNDAY) % 7 == 0
    requires var d := CivilFromDays(day); d.year == year && d.month == month && 7 * n - 6 <= d.day <= 7 * n
    ensures day == NthSundayOfMonth(year, month, n)
  {
    hide DaysFromCivil, NthSundayOfMonth, CivilFromDays;
    var first, k := DaysFromCivil(Date(year, month, 1)), CivilFromDays(day).day;
    DayNumberComesBack(day);
    FirstOfMonth(year, month, k);
    NthSundayIsSunday(year, month, n);
    SundayIsSunday();
    assert day == first + k - 1;
    assert (day + 4) % 7 == 0;
  }

  lemma FirstOfMonth(year: int, month: int, k: int)
    requires 1 <= month <= 12
    ensures DaysFromCivil(Date(year, month, k)) == DaysFromCivil(Date(year, month, 1)) + k - 1
  {
  }

  /** With `s` the second Sunday of March and `e` the first Sunday of November of the day's year:
      open from Monday to Friday, from 13:30 to 20:00 between the two and from 14:30 to 21:00
      outside, and at no other second. */
  lemma OpenExactly(day: int, second: int, s: int, e: int)
    requires 0 <= second < 86400 && (s - SUNDAY) % 7 == 0 && (e - SUNDAY) % 7 == 0
    requires var start, year := CivilFromDays(s), CivilFromDays(day).year; start.year == year && start.month == 3 && 8 <= start.day <= 14
    requires var end, year := CivilFromDays(e), CivilFromDays(day).year; end.year == year && end.month == 11 && 1 <= end.day <= 7
    ensures RegularMarketState(day * 86400 + second).Open? <==>
              1 <= (day - SUNDAY) % 7 <= 5 && (if s < day < e then 48600 <= second < 72000 else 52200 <= second < 75600)
  {
    hide CivilFromDays, DaysFromCivil, NthSundayOfMonth, RegularMarketState;
    SundayInWeek(s, CivilFromDays(s).year, 3, 2);
    SundayInWeek(e, CivilFromDays(e).year, 11, 1);
    SundayIsSunday();
    OneSessionPerTradingDay(day, second);
  }

  lemma SameSideOfChange(day: int, second: int, change: int, hour: int)
    requires 0 <= second < DAY && 0 <= hour < DAY && day != change
    ensures change * DAY + hour <= day * DAY + second <==> change < day
  {
  }

  // ----- the 400-year cycle -----

  lemma CivilRepeats(day: int)
    ensures var d := CivilFromDays(day); CivilFromDays(day + 146097) == d.(year := d.year + 400)
  {
    var z := day + 719468;
    hide CivilFromDays, YearOfEra, MonthStart, YearStart;
    CivilIsMarch(z / 146097, z % 146097);
    CivilIsMarch(z / 146097 + 1, z % 146097);
  }

  lemma DaysRepeat(year: int, month: int)
    requires 1 <= month <= 12
    ensures DaysFromCivil(Date(year + 400, month, 1)) == DaysFromCivil(Date(year, month, 1)) + 146097
  {
    var d, e := Date(year, month, 1), Date(year + 400, month, 1);
    hide DaysFromCivil, YearStart, MonthStart;
    DaysAreMarchDays(d);
    DaysAreMarchDays(e);
    var y := ToMarch(d).year;
    assert (y + 400) / 400 == y / 400 + 1 && (y + 400) % 400 == y % 400;
  }

  lemma SundaysRepeat(year: int, month: int, n: int)
    requires 1 <= month <= 12
    ensures NthSundayOfMonth(year + 400, month, n) == NthSundayOfMonth(year, month, n) + 146097
  {
    hide DaysFromCivil;
    DaysRepeat(year, month);
    var first := DaysFromCivil(Date(year, month, 1));
    assert (first + 146097 + 4) % 7 == (first + 4) % 7;
  }

  /** The market clock repeats every 146097 days. */
  lemma StateRepeats(now: int)
    ensures RegularMarketState(now + 146097 * DAY) == RegularMarketState(now)
  {
    hide CivilFromDays, NthSundayOfMonth;
    var day, second := now / DAY, now % DAY;
    var year := CivilFromDays(day).year;
    CivilRepeats(day);
    SundaysRepeat(year, 3, 2);
    SundaysRepeat(year, 11, 1);
    assert (day + 146097 + 4) % 7 == (day + 4) % 7;
    hide RegularMarketState;
    assert now == day * DAY + second && now + 146097 * DAY == (day + 146097) * DAY + second;
    OneSessionPerTradingDay(day, second);
    OneSessionPerTradingDay(day + 146097, second);
  }
}
