/** The civil calendar: day counts from dates and dates from day counts, over all years. */
module Calendar {

  datatype Date = Date(year: int, month: int, day: int)

  predicate IsLeapYear(y: int) {
    y % 4 == 0 && (y % 100 != 0 || y % 400 == 0)
  }

  const MONTH_DAYS := [31, 28, 31, 30, 31, 30, 31, 31, 30, 31, 30, 31]

  function LastDayOfMonth(y: int, m: int): int
    requires 1 <= m <= 12
  {
    if m == 2 && IsLeapYear(y) then 29 else MONTH_DAYS[m - 1]
  }

  predicate ValidDate(d: Date) {
    1 <= d.month <= 12 && 1 <= d.day <= LastDayOfMonth(d.year, d.month)
  }

  /** The machine's division, which truncates toward zero. */
  function TruncDiv(a: int, b: int): int
    requires 0 < b
  {
    if 0 <= a then a / b else -(-a / b)
  }

  /** Days since 1970-01-01. Defined, like the code, for any three numbers. */
  function DaysFromCivil(date: Date): int {
    var y := if date.month <= 2 then date.year - 1 else date.year;
    var era := TruncDiv(if y >= 0 then y else y - 399, 400);
    var yoe := y - era * 400;
    var mp := if date.month > 2 then date.month - 3 else date.month + 9;
    var doy := TruncDiv(153 * mp + 2, 5) + date.day - 1;
    var doe := yoe * 365 + TruncDiv(yoe, 4) - TruncDiv(yoe, 100) + doy;
    era * 146097 + doe - 719468
  }

  function CivilFromDays(days: int): Date {
    var z := days + 719468;
    var era := TruncDiv(if z >= 0 then z else z - 146096, 146097);
    CivilOfEra(era, z - era * 146097)
  }

  function CivilOfEra(era: int, doe: int): Date {
    var yoe := TruncDiv(doe - TruncDiv(doe, 1460) + TruncDiv(doe, 36524) - TruncDiv(doe, 146096), 365);
    var y := yoe + era * 400;
    var doy := doe - (365 * yoe + TruncDiv(yoe, 4) - TruncDiv(yoe, 100));
    var mp := TruncDiv(5 * doy + 2, 153);
    var d := doy - TruncDiv(153 * mp + 2, 5) + 1;
    var m := if mp < 10 then mp + 3 else mp - 9;
    Date(if m <= 2 then y + 1 else y, m, d)
  }

  /** The day after, by the calendar's own rules. */
  function NextDate(d: Date): Date
    requires ValidDate(d)
  {
    if d.day < LastDayOfMonth(d.year, d.month) then d.(day := d.day + 1)
    else if d.month < 12 then Date(d.year, d.month + 1, 1)
    else Date(d.year + 1, 1, 1)
  }

  // ----- eras of 400 years, counted from the first of March -----

  /** The era arithmetic with truncating division is floor division. */
  lemma EraIsFloor(a: int, b: int)
    requires 0 < b
    ensures TruncDiv(if a >= 0 then a else a - (b - 1), b) == a / b
  {
    if a < 0 {
      var q, r := a / b, a % b;
      assert -(a - (b - 1)) == -q * b + (b - 1 - r);
      DivUnique(-(a - (b - 1)), b, -q, b - 1 - r);
    }
  }

  lemma DivUnique(n: int, b: int, q: int, r: int)
    requires 0 < b && 0 <= r < b && n == q * b + r
    ensures n / b == q
  {
    var d := n / b - q;
    assert d * b == r - n % b;
    assert d >= 1 ==> d * b >= b;
    assert d <= -1 ==> d * b <= -b;
  }

  /** Days before the March-based year `yoe` of an era. */
  function YearStart(yoe: int): int {
    365 * yoe + yoe / 4 - yoe / 100
  }

  function YearOfEra(doe: int): int {
    (doe - doe / 1460 + doe / 36524 - doe / 146096) / 365
  }

  /** The year formula on a day given by its century, its four-year cycle and the rest. */
  lemma YearOfEraSplit(c: int, q: int, s: int)
    requires 0 <= c <= 3 && 0 <= q <= 24 && 0 <= s <= 1460 && (q == 24 ==> s <= 1459)
    ensures YearOfEra(36524 * c + 1461 * q + s) == 100 * c + 4 * q + (if s == 1460 then 3 else s / 365)
  {
    var doe := 36524 * c + 1461 * q + s;
    var e := if 24 * c + q + s >= 1460 then 1 else 0;
    assert doe / 1460 == 25 * c + q + e;
    assert doe / 36524 == c;
    assert doe / 146096 == 0;
    assert doe - doe / 1460 + doe / 36524 == 365 * (100 * c + 4 * q) + (s - e);
  }

  lemma YearStartSplit(c: int, q: int, a: int)
    requires 0 <= c <= 3 && 0 <= q <= 24 && 0 <= a <= 3
    ensures YearStart(100 * c + 4 * q + a) == 36524 * c + 1461 * q + 365 * a
    ensures YearStart(100 * c + 4 * q + a + 1)
         == if a < 3 then 36524 * c + 1461 * q + 365 * (a + 1)
            else if q < 24 then 36524 * c + 1461 * (q + 1)
            else if c < 3 then 36524 * (c + 1) else 146096
  {
    var y := 100 * c + 4 * q + a;
    assert y / 4 == 25 * c + q && y / 100 == c;
    if a < 3 {
      assert (y + 1) / 4 == 25 * c + q && (y + 1) / 100 == c;
    } else if q < 24 {
      assert (y + 1) / 4 == 25 * c + q + 1 && (y + 1) / 100 == c;
    } else {
      assert (y + 1) / 4 == 25 * (c + 1) && (y + 1) / 100 == c + 1;
    }
  }

  /** Century, four-year cycle and rest of a day of the era other than its last. */
  lemma SplitDay(doe: int) returns (c: int, q: int, s: int)
    requires 0 <= doe < 146096
    ensures doe == 36524 * c + 1461 * q + s
    ensures 0 <= c <= 3 && 0 <= q <= 24 && 0 <= s <= 1460 && (q == 24 ==> s <= 1459)
  {
    c := doe / 36524;
    q := (doe - 36524 * c) / 1461;
    s := doe - 36524 * c - 1461 * q;
  }

  /** The year formula picks the year that contains the day. */
  lemma YearOfEraCorrect(doe: int)
    requires 0 <= doe < 146097
    ensures 0 <= YearOfEra(doe) < 400
    ensures YearStart(YearOfEra(doe)) <= doe
    ensures YearOfEra(doe) < 399 ==> doe < YearStart(YearOfEra(doe) + 1)
  {
    if doe < 146096 {
      var c, q, s := SplitDay(doe);
      YearOfEraSplit(c, q, s);
      YearStartSplit(c, q, if s == 1460 then 3 else s / 365);
    }
  }

  lemma CenturyForm(c: int, r: int)
    requires 0 <= r < 100
    ensures (100 * c + r) / 4 == 25 * c + r / 4 && (100 * c + r) / 100 == c
  {
  }

  lemma Mod4Repeats(k: int, y: int)
    ensures (4 * k + y) % 4 == y % 4
  {
    assert 4 * k + y == 4 * (k + y / 4) + y % 4;
  }

  lemma Mod100Repeats(k: int, y: int)
    ensures (100 * k + y) % 100 == y % 100
  {
    assert 100 * k + y == 100 * (k + y / 100) + y % 100;
  }

  lemma Mod400Repeats(k: int, y: int)
    ensures (400 * k + y) % 400 == y % 400
  {
    assert 400 * k + y == 400 * (k + y / 400) + y % 400;
  }

  /** Every year has 365 days, and one more when the next year is a leap year not divisible by 400. */
  lemma YearStartNext(y: int)
    ensures YearStart(y + 1) == YearStart(y) + 365 + (if (y + 1) % 4 == 0 && (y + 1) % 100 != 0 then 1 else 0)
  {
    var c, r := y / 100, y % 100;
    CenturyForm(c, r);
    Mod4Repeats(25 * c, r + 1);
    Mod100Repeats(c, r + 1);
    assert y + 1 == 100 * c + (r + 1);
    if r < 99 {
      CenturyForm(c, r + 1);
      assert (r + 1) / 4 == r / 4 + (if (r + 1) % 4 == 0 then 1 else 0);
    } else {
      CenturyForm(c + 1, 0);
    }
  }

  lemma {:induction false} YearStartMonotone(a: int, b: int)
    requires a <= b
    ensures YearStart(a) + 365 * (b - a) <= YearStart(b)
    decreases b - a
  {
    hide YearStart;
    if a < b {
      YearStartNext(a);
      YearStartMonotone(a + 1, b);
    }
  }

  // ----- dates with the year turning on the first of March -----

  /** Year, month and day when the year starts in March, so that a leap day comes last. */
  datatype MarchDate = MarchDate(year: int, month: int, day: int)

  function ToMarch(d: Date): MarchDate {
    MarchDate(if d.month <= 2 then d.year - 1 else d.year, if d.month > 2 then d.month - 3 else d.month + 9, d.day)
  }

  function FromMarch(d: MarchDate): Date {
    Date(if d.month >= 10 then d.year + 1 else d.year, if d.month < 10 then d.month + 3 else d.month - 9, d.day)
  }

  /** Days of the March-based year before month `mp`. */
  function MonthStart(mp: int): int {
    (153 * mp + 2) / 5
  }

  function YearLength(marchYear: int): int {
    if IsLeapYear(marchYear + 1) then 366 else 365
  }

  /** Day number with floor division throughout. */
  function MarchDays(d: MarchDate): int {
    d.year / 400 * 146097 + YearStart(d.year % 400) + MonthStart(d.month) + d.day - 1 - 719468
  }

  lemma DaysAreMarchDays(d: Date)
    requires ValidDate(d)
    ensures DaysFromCivil(d) == MarchDays(ToMarch(d))
  {
    EraIsFloor(ToMarch(d).year, 400);
  }

  lemma MonthShape(mp: int)
    requires 0 <= mp <= 11
    ensures MonthStart(0) == 0 && MonthStart(11) == 337
    ensures mp < 11 ==> MonthStart(mp + 1) - MonthStart(mp) == MONTH_DAYS[if mp < 10 then mp + 2 else 0]
  {
  }

  lemma LastDayInMarchYear(y: int, mp: int)
    requires 0 <= mp <= 11
    ensures var d := FromMarch(MarchDate(y, mp, 1));
            MonthStart(mp) + LastDayOfMonth(d.year, d.month) == if mp < 11 then MonthStart(mp + 1) else YearLength(y)
  {
    MonthShape(mp);
  }

  lemma LeapYearsRepeat(era: int, y: int)
    ensures IsLeapYear(400 * era + y) <==> IsLeapYear(y)
  {
    Mod4Repeats(100 * era, y);
    Mod100Repeats(4 * era, y);
    Mod400Repeats(era, y);
  }

  lemma LeapInEra(y: int)
    ensures IsLeapYear(y + 1) <==> IsLeapYear(y % 400 + 1)
    ensures y % 400 < 399 ==> YearStart(y % 400 + 1) == YearStart(y % 400) + YearLength(y)
    ensures y % 400 == 399 ==> YearStart(y % 400) + YearLength(y) == 146097
  {
    var r := y % 400;
    LeapYearsRepeat(y / 400, r + 1);
    assert y + 1 == 400 * (y / 400) + (r + 1);
    hide YearStart;
    YearStartNext(r);
    if r == 399 {
      LastYearOfEra();
    } else {
      assert (r + 1) % 400 != 0;
    }
  }

  lemma LastYearOfEra()
    ensures YearStart(399) == 145731 && IsLeapYear(400)
  {
  }

  /** A valid date is a day of its March-based year. */
  lemma DayOfYear(d: Date)
    requires ValidDate(d)
    ensures var m := ToMarch(d);
            0 <= MonthStart(m.month) + m.day - 1 < YearLength(m.year) && 0 <= m.month <= 11 && FromMarch(m) == d
  {
    LastDayInMarchYear(ToMarch(d).year, ToMarch(d).month);
    MonthShape(ToMarch(d).month);
  }

  /** The month formula picks the month that contains the day. */
  lemma MonthOfDay(doy: int)
    requires 0 <= doy < 366
    ensures var mp := (5 * doy + 2) / 153;
            0 <= mp <= 11 && MonthStart(mp) <= doy && (mp < 11 ==> doy < MonthStart(mp + 1))
  {
  }

  lemma MonthOfDayUnique(mp: int, doy: int)
    requires 0 <= mp <= 11 && MonthStart(mp) <= doy < 366 && (mp < 11 ==> doy < MonthStart(mp + 1))
    ensures (5 * doy + 2) / 153 == mp
  {
  }

  /** The date on day `doe` of an era, with floor division throughout. */
  function MarchOf(era: int, doe: int): MarchDate {
    var yoe := YearOfEra(doe);
    var doy := doe - YearStart(yoe);
    var mp := (5 * doy + 2) / 153;
    MarchDate(era * 400 + yoe, mp, doy - MonthStart(mp) + 1)
  }

  lemma DayOfEra(doe: int)
    requires 0 <= doe < 146097
    ensures 0 <= YearOfEra(doe) < 400
    ensures 0 <= doe - YearStart(YearOfEra(doe)) < YearLength(YearOfEra(doe))
  {
    hide YearOfEra, YearStart, YearLength, IsLeapYear;
    YearOfEraCorrect(doe);
    var yoe := YearOfEra(doe);
    assert yoe % 400 == yoe;
    LeapInEra(yoe);
  }

  /** The code's formula, era by era. */
  lemma CivilIsMarch(era: int, doe: int)
    requires 0 <= doe < 146097
    ensures CivilFromDays(era * 146097 + doe - 719468) == FromMarch(MarchOf(era, doe))
  {
    hide CivilOfEra, FromMarch, MarchOf;
    var z := era * 146097 + doe;
    EraIsFloor(z, 146097);
    assert z / 146097 == era;
    CivilInEra(era, doe);
  }

  lemma CivilInEra(era: int, doe: int)
    requires 0 <= doe < 146097
    ensures CivilOfEra(era, doe) == FromMarch(MarchOf(era, doe))
  {
    DayOfEra(doe);
    YearOfEraIsTruncated(doe);
    var doy := doe - YearStart(YearOfEra(doe));
    MonthOfDay(doy);
  }

  lemma YearOfEraIsTruncated(doe: int)
    requires 0 <= doe < 146097
    ensures TruncDiv(doe - TruncDiv(doe, 1460) + TruncDiv(doe, 36524) - TruncDiv(doe, 146096), 365) == YearOfEra(doe)
  {
    assert doe - doe / 1460 + doe / 36524 - doe / 146096 >= 0;
  }

  lemma MarchOfIsValid(era: int, doe: int)
    requires 0 <= doe < 146097
    ensures var m := MarchOf(era, doe);
            && 0 <= m.month <= 11 && ValidDate(FromMarch(m)) && ToMarch(FromMarch(m)) == m
            && MarchDays(m) == era * 146097 + doe - 719468
  {
    DayOfEra(doe);
    var m, doy := MarchOf(era, doe), doe - YearStart(YearOfEra(doe));
    assert m.year / 400 == era && m.year % 400 == YearOfEra(doe);
    LeapInEra(m.year);
    MonthOfDay(doy);
    LastDayInMarchYear(m.year, m.month);
  }

  // ----- main results -----

  /** Every day number is the number of a real date, and the date's number. */
  lemma DayNumberComesBack(days: int)
    ensures ValidDate(CivilFromDays(days)) && DaysFromCivil(CivilFromDays(days)) == days
  {
    var z := days + 719468;
    var era, doe := z / 146097, z % 146097;
    CivilIsMarch(era, doe);
    MarchOfIsValid(era, doe);
    DaysAreMarchDays(CivilFromDays(days));
  }

  /** Every date is read back from its day number. */
  lemma DateComesBack(d: Date)
    requires ValidDate(d)
    ensures CivilFromDays(DaysFromCivil(d)) == d
  {
    hide CivilFromDays, DaysFromCivil, YearOfEra;
    DaysAreMarchDays(d);
    DayOfYear(d);
    var m := ToMarch(d);
    var era, yoe, doy := m.year / 400, m.year % 400, MonthStart(m.month) + m.day - 1;
    DayInEra(m.year, doy);
    YearOfEraUnique(yoe, YearStart(yoe) + doy);
    LastDayInMarchYear(m.year, m.month);
    MonthOfDayUnique(m.month, doy);
    assert MarchOf(era, YearStart(yoe) + doy) == m;
    CivilIsMarch(era, YearStart(yoe) + doy);
  }

  lemma DayInEra(y: int, doy: int)
    requires 0 <= doy < YearLength(y)
    ensures var r := y % 400;
            0 <= YearStart(r) + doy < 146097 && (r < 399 ==> YearStart(r) + doy < YearStart(r + 1))
  {
    LeapInEra(y);
    YearStartMonotone(0, y % 400);
    YearStartMonotone(y % 400, 399);
  }

  lemma YearOfEraUnique(yoe: int, doe: int)
    requires 0 <= yoe < 400 && YearStart(yoe) <= doe < 146097 && (yoe < 399 ==> doe < YearStart(yoe + 1))
    ensures YearOfEra(doe) == yoe
  {
    YearStartMonotone(0, yoe);
    YearOfEraCorrect(doe);
    var k := YearOfEra(doe);
    if k < yoe {
      YearStartMonotone(k + 1, yoe);
    } else if yoe < k {
      YearStartMonotone(yoe + 1, k);
    }
  }

  lemma NextYearInEra(y: int)
    ensures (y + 1) / 400 * 146097 + YearStart((y + 1) % 400) == y / 400 * 146097 + YearStart(y % 400) + YearLength(y)
  {
    LeapInEra(y);
    var r := y % 400;
    assert y + 1 == 400 * (y / 400) + (r + 1);
    if r < 399 {
      assert (y + 1) / 400 == y / 400 && (y + 1) % 400 == r + 1;
    } else {
      assert (y + 1) / 400 == y / 400 + 1 && (y + 1) % 400 == 0;
    }
  }

  /** The next day in March form: the next day of the month, of the year, or the first of March. */
  lemma NextInMarch(d: Date)
    requires ValidDate(d)
    ensures var m, e := ToMarch(d), NextDate(d);
            ToMarch(e) == if MonthStart(m.month) + m.day == YearLength(m.year) then MarchDate(m.year + 1, 0, 1)
                          else if e.day == 1 then MarchDate(m.year, m.month + 1, 1)
                          else m.(day := m.day + 1)
    ensures ValidDate(NextDate(d)) && 0 <= ToMarch(d).month <= 11
    ensures NextDate(d).day == 1 && ToMarch(d).month < 11 ==> MonthStart(ToMarch(d).month) + d.day == MonthStart(ToMarch(d).month + 1)
  {
    var m := ToMarch(d);
    LastDayInMarchYear(m.year, m.month);
    DayOfYear(d);
    MonthShape(m.month);
    if m.month < 11 {
      MonthsFitYear(m.month + 1);
    }
  }

  lemma MonthsFitYear(mp: int)
    requires 0 <= mp <= 11
    ensures MonthStart(mp) <= 337
  {
  }

  /** The calendar's next day has the next day number. */
  lemma DaysOfNextDate(d: Date)
    requires ValidDate(d)
    ensures ValidDate(NextDate(d)) && DaysFromCivil(NextDate(d)) == DaysFromCivil(d) + 1
  {
    var m := ToMarch(d);
    NextInMarch(d);
    hide DaysFromCivil, NextDate, ToMarch, ValidDate, YearLength, YearStart;
    DaysAreMarchDays(d);
    DaysAreMarchDays(NextDate(d));
    NextYearInEra(m.year);
    MonthShape(0);
  }

  /** Consecutive day numbers are consecutive dates. */
  lemma CivilOfNextDay(days: int)
    ensures ValidDate(CivilFromDays(days)) && CivilFromDays(days + 1) == NextDate(CivilFromDays(days))
  {
    hide *;
    DayNumberComesBack(days);
    DaysOfNextDate(CivilFromDays(days));
    DateComesBack(NextDate(CivilFromDays(days)));
  }

  /** Day zero is the first of January 1970. With `CivilOfNextDay` this fixes every date. */
  lemma EpochIsDayZero()
    ensures CivilFromDays(0) == Date(1970, 1, 1) && DaysFromCivil(Date(1970, 1, 1)) == 0
  {
    hide CivilFromDays;
    DateComesBack(Date(1970, 1, 1));
  }

  predicate Earlier(a: Date, b: Date) {
    a.year < b.year || (a.year == b.year && (a.month < b.month || (a.month == b.month && a.day < b.day)))
  }

  /** Later day numbers are later dates. */
  lemma {:induction false} CivilIsMonotone(a: int, b: int)
    requires a < b
    ensures Earlier(CivilFromDays(a), CivilFromDays(b))
    decreases b - a
  {
    hide CivilFromDays;
    CivilOfNextDay(a);
    if a + 1 < b {
      CivilIsMonotone(a + 1, b);
    }
  }
}
