/**
 The CA server's calendar arithmetic: seconds since the epoch to civil date and time, and
 back. The reference is a day-by-day walk of the Gregorian calendar, with the leap years of
 Appendix C of RFC 3339.
 */
module CivilTime {

  datatype Date = Date(year: nat, month: nat, day: nat)

  // ---- the calendar --------------------------------------------------------

  predicate IsLeap(year: nat) {
    year % 4 == 0 && (year % 100 != 0 || year % 400 == 0)
  }

  function DaysInMonth(year: nat, month: nat): nat {
    if month == 2 then (if IsLeap(year) then 29 else 28)
    else if month in {4, 6, 9, 11} then 30
    else 31
  }

  predicate ValidDate(date: Date) {
    1 <= date.month <= 12 && 1 <= date.day <= DaysInMonth(date.year, date.month)
  }

  function NextDay(date: Date): Date {
    if date.day < DaysInMonth(date.year, date.month) then Date(date.year, date.month, date.day + 1)
    else if date.month < 12 then Date(date.year, date.month + 1, 1)
    else Date(date.year + 1, 1, 1)
  }

  /** The date reached from 1970-01-01 by walking `days` days forward. */
  function Walk(days: nat): Date {
    if days == 0 then Date(1970, 1, 1) else NextDay(Walk(days - 1))
  }

  // ---- years of an era -----------------------------------------------------

  /** Days in the first `yoe` years of an era of 400 years, each starting on 1 March. */
  function YearStart(yoe: nat): nat {
    365 * yoe + yoe / 4 - yoe / 100
  }

  /** The days of an era up to this one, leap days not counted. */
  function CommonDays(doe: nat): int {
    doe - doe / 1460 + doe / 36_524 - doe / 146_096
  }

  function YearOfEra(doe: nat): (yoe: nat)
    requires doe < 146_097
  {
    CommonDaysBound(doe);
    CommonDays(doe) / 365
  }

  lemma CommonDaysBound(doe: nat)
    requires doe < 146_097
    ensures 0 <= CommonDays(doe) < 146_000
  {
    CommonDaysGrow(0, doe);
    CommonDaysGrow(doe, 146_096);
  }

  lemma FourYears(d: nat, e: nat)
    requires d <= e
    ensures d - d / 1460 <= e - e / 1460
  {
  }

  lemma Centuries(d: nat, e: nat)
    requires d <= e < 146_097
    ensures d / 36_524 - d / 146_096 <= e / 36_524 - e / 146_096
  {
  }

  lemma CommonDaysGrow(d: nat, e: nat)
    requires d <= e < 146_097
    ensures CommonDays(d) <= CommonDays(e)
  {
    FourYears(d, e);
    Centuries(d, e);
  }

  /** A year of an era, by century, four-year cycle and year of the cycle. */
  lemma YearStartBy(yoe: nat, q: nat, t: nat, u: nat)
    requires yoe == 100 * q + 4 * t + u && t < 25 && u < 4
    ensures YearStart(yoe) == 36_524 * q + 1461 * t + 365 * u
  {
    assert yoe / 4 == 25 * q + t;
    assert yoe / 100 == q;
  }

  /** The first day of a year has all the common days of the years before it behind it... */
  lemma FirstDay(yoe: nat, q: nat, t: nat, u: nat)
    requires yoe == 100 * q + 4 * t + u && t < 25 && u < 4 && q < 4
    ensures YearStart(yoe) < 146_096 && CommonDays(YearStart(yoe)) >= 365 * yoe
  {
    YearStartBy(yoe, q, t, u);
    var d := YearStart(yoe);
    assert d / 36_524 == q && d / 146_096 == 0;
    assert d / 1460 <= 25 * q + t;
  }

  /** ...and the day before it does not. */
  lemma LastDay(yoe: nat, q: nat, t: nat, u: nat)
    requires yoe == 100 * q + 4 * t + u && t < 25 && u < 4 && q < 4 && yoe > 0
    ensures 0 < YearStart(yoe) < 146_096 && CommonDays(YearStart(yoe) - 1) < 365 * yoe
  {
    YearStartBy(yoe, q, t, u);
    var d := YearStart(yoe) - 1;
    assert d / 146_096 == 0;
    if t == 0 && u == 0 {
      assert d / 36_524 == q - 1 && d / 1460 >= 25 * q - 1;
    } else {
      assert d / 36_524 == q && d / 1460 >= 25 * q + t;
    }
  }

  /** A day is in or after a year exactly when it has that year's common days behind it. */
  lemma InOrAfter(doe: nat, yoe: nat)
    requires doe < 146_097 && yoe <= 399
    ensures YearStart(yoe) <= doe <==> 365 * yoe <= CommonDays(doe)
  {
    var q, t, u := yoe / 100, yoe % 100 / 4, yoe % 4;
    if YearStart(yoe) <= doe {
      FirstDay(yoe, q, t, u);
      CommonDaysGrow(YearStart(yoe), doe);
    } else {
      LastDay(yoe, q, t, u);
      CommonDaysGrow(doe, YearStart(yoe) - 1);
    }
  }

  /** The division formula finds the year that holds the day. */
  lemma YearOfEraBounds(doe: nat)
    requires doe < 146_097
    ensures var yoe := YearOfEra(doe);
            yoe <= 399 && YearStart(yoe) <= doe && (yoe < 399 ==> doe < YearStart(yoe + 1))
  {
    var yoe := YearOfEra(doe);
    CommonDaysBound(doe);
    InOrAfter(doe, yoe);
    if yoe < 399 {
      InOrAfter(doe, yoe + 1);
    }
  }

  /** No other year holds the day. */
  lemma YearOfEraIsUnique(doe: nat, yoe: nat)
    requires doe < 146_097 && yoe <= 399
    requires YearStart(yoe) <= doe && (yoe < 399 ==> doe < YearStart(yoe + 1))
    ensures YearOfEra(doe) == yoe
  {
    CommonDaysBound(doe);
    InOrAfter(doe, yoe);
    if yoe < 399 {
      InOrAfter(doe, yoe + 1);
    }
  }

  lemma YearStartGrows(a: nat, b: nat)
    requires a < b
    ensures YearStart(a + 1) <= YearStart(b)
  {
  }

  lemma DivisionStep(y: nat, k: nat)
    requires k == 4 || k == 100
    ensures (y + 1) / k - y / k == if (y + 1) % k == 0 then 1 else 0
  {
  }

  lemma Mod4(q: int, r: int)
    requires 0 <= r < 4
    ensures (4 * q + r) % 4 == r
  {
  }

  lemma Mod100(q: int, r: int)
    requires 0 <= r < 100
    ensures (100 * q + r) % 100 == r
  {
  }

  lemma Mod400(q: int, r: int)
    requires 0 <= r < 400
    ensures (400 * q + r) % 400 == r
  {
  }

  lemma EraDoesNotMatter(era: nat, y: nat)
    requires y < 400
    ensures (400 * era + y) % 4 == y % 4 && (400 * era + y) % 100 == y % 100 && (400 * era + y) % 400 == y
  {
    Mod4(100 * era + y / 4, y % 4);
    Mod100(4 * era + y / 100, y % 100);
    Mod400(era, y);
  }

  /** A year of the era has 366 days exactly when the February it ends with is a leap February. */
  lemma YearLength(era: nat, yoe: nat)
    requires yoe < 399
    ensures YearStart(yoe + 1) - YearStart(yoe) == if IsLeap(400 * era + yoe + 1) then 366 else 365
  {
    EraDoesNotMatter(era, yoe + 1);
    DivisionStep(yoe, 4);
    DivisionStep(yoe, 100);
    assert (yoe + 1) % 100 == 0 ==> (yoe + 1) % 4 == 0;
  }

  lemma EraEndsWithLeapYear(era: nat)
    ensures IsLeap(400 * era + 400)
  {
    assert (400 * era + 400) % 4 == 0 && (400 * era + 400) % 400 == 0;
  }

  // ---- days to date --------------------------------------------------------

  /** Month and day of the `doy`-th day of a year that starts on 1 March. */
  function MonthDay(doy: nat): (nat, nat)
    requires doy <= 365
  {
    var mp := (5 * doy + 2) / 153;
    var d := doy - (153 * mp + 2) / 5 + 1;
    (if mp < 10 then mp + 3 else mp - 9, d)
  }

  /** The date part of `epoch_to_parts`. */
  function CivilFromDays(days: nat): Date {
    var z := days + 719_468;
    var era := z / 146_097;
    var doe := z - era * 146_097;
    YearOfEraBounds(doe);
    YearOfEraSpan(doe);
    var yoe := YearOfEra(doe);
    var y := yoe + era * 400;
    var doy := doe - YearStart(yoe);
    var (mo, d) := MonthDay(doy);
    Date(if mo <= 2 then y + 1 else y, mo, d)
  }

  lemma YearOfEraSpan(doe: nat)
    requires doe < 146_097
    ensures doe - YearStart(YearOfEra(doe)) <= 365
  {
    YearOfEraBounds(doe);
    var yoe := YearOfEra(doe);
    if yoe < 399 {
      YearLength(0, yoe);
    }
  }

  /** One day on within a year that starts on 1 March. */
  lemma MonthDayStep(doy: nat)
    requires doy < 365
    ensures var (mo, d) := MonthDay(doy);
            var (mo', d') := MonthDay(doy + 1);
            && 1 <= mo <= 12 && 1 <= d <= 31
            && (mo == 2 ==> mo' == 2 && d' == d + 1 && d == doy - 336)
            && (mo != 2 && d < DaysInMonth(0, mo) ==> mo' == mo && d' == d + 1)
            && (mo != 2 && d >= DaysInMonth(0, mo) ==> d' == 1 && mo' == if mo == 12 then 1 else mo + 1)
            && (mo' == 2 ==> doy + 1 >= 337)
  {
    var mp := (5 * doy + 2) / 153;
    assert 0 <= mp <= 11;
    if mp == 0 {
    } else if mp == 1 {
    } else if mp == 2 {
    } else if mp == 3 {
    } else if mp == 4 {
    } else if mp == 5 {
    } else if mp == 6 {
    } else if mp == 7 {
    } else if mp == 8 {
    } else if mp == 9 {
    } else if mp == 10 {
    } else {
    }
  }

  /** The position of a day: era, year of the era, day of the year. */
  predicate Decodes(days: nat, era: nat, yoe: nat, doy: nat) {
    && yoe <= 399 && doy <= 365
    && days + 719_468 == era * 146_097 + YearStart(yoe) + doy
    && (if yoe < 399 then YearStart(yoe) + doy < YearStart(yoe + 1) else YearStart(yoe) + doy < 146_097)
  }

  function Compose(era: nat, yoe: nat, doy: nat): Date
    requires doy <= 365
  {
    var (mo, d) := MonthDay(doy);
    Date(if mo <= 2 then yoe + era * 400 + 1 else yoe + era * 400, mo, d)
  }

  lemma DecodesIsUnique(days: nat, era: nat, yoe: nat, doy: nat)
    requires Decodes(days, era, yoe, doy)
    ensures CivilFromDays(days) == Compose(era, yoe, doy)
  {
    var doe := YearStart(yoe) + doy;
    YearInEra(yoe, doy);
    YearOfEraIsUnique(doe, yoe);
    EraIsUnique(days + 719_468, era, doe);
  }

  lemma EraIsUnique(z: nat, era: nat, doe: nat)
    requires z == era * 146_097 + doe && doe < 146_097
    ensures z / 146_097 == era
  {
  }

  lemma YearInEra(yoe: nat, doy: nat)
    requires yoe <= 399 && doy <= 365
    requires if yoe < 399 then YearStart(yoe) + doy < YearStart(yoe + 1) else YearStart(yoe) + doy < 146_097
    ensures YearStart(yoe) + doy < 146_097
  {
    if yoe < 398 {
      YearStartGrows(yoe, 399);
    }
  }

  lemma Decode(days: nat) returns (era: nat, yoe: nat, doy: nat)
    ensures Decodes(days, era, yoe, doy)
  {
    var z := days + 719_468;
    era := z / 146_097;
    var doe := z - era * 146_097;
    YearOfEraBounds(doe);
    YearOfEraSpan(doe);
    yoe := YearOfEra(doe);
    doy := doe - YearStart(yoe);
  }

  /** The position of the day after. */
  function Following(era: nat, yoe: nat, doy: nat): (nat, nat, nat) {
    if yoe < 399 then
      if doy + 1 < YearStart(yoe + 1) - YearStart(yoe) then (era, yoe, doy + 1) else (era, yoe + 1, 0)
    else if doy < 365 then (era, yoe, doy + 1)
    else (era + 1, 0, 0)
  }

  lemma FollowingDecodes(days: nat, era: nat, yoe: nat, doy: nat)
    requires Decodes(days, era, yoe, doy)
    ensures var (era', yoe', doy') := Following(era, yoe, doy); Decodes(days + 1, era', yoe', doy')
  {
    if yoe < 399 {
      YearLength(0, yoe);
      YearAfter(yoe);
    }
  }

  lemma FollowingIsNextDay(days: nat, era: nat, yoe: nat, doy: nat)
    requires Decodes(days, era, yoe, doy)
    ensures var (era', yoe', doy') := Following(era, yoe, doy);
            doy' <= 365 && Compose(era', yoe', doy') == NextDay(Compose(era, yoe, doy))
  {
    if yoe < 399 {
      YearLength(era, yoe);
      if doy + 1 < YearStart(yoe + 1) - YearStart(yoe) {
        SameYearStep(era, yoe, doy);
      } else {
        NewYearStep(era, yoe, doy);
      }
    } else {
      EraEndsWithLeapYear(era);
      if doy < 365 {
        SameYearStep(era, yoe, doy);
      } else {
        NewEraStep(era);
      }
    }
  }

  /** The next day of the walk is the next day of the arithmetic. */
  lemma CivilStep(days: nat)
    ensures CivilFromDays(days + 1) == NextDay(CivilFromDays(days))
  {
    var era, yoe, doy := Decode(days);
    var (era', yoe', doy') := Following(era, yoe, doy);
    FollowingDecodes(days, era, yoe, doy);
    FollowingIsNextDay(days, era, yoe, doy);
    DecodesIsUnique(days, era, yoe, doy);
    DecodesIsUnique(days + 1, era', yoe', doy');
  }

  lemma YearAfter(yoe: nat)
    requires yoe < 399
    ensures if yoe + 1 < 399 then YearStart(yoe + 1) < YearStart(yoe + 2) else YearStart(yoe + 1) < 146_097
  {
    if yoe + 1 < 399 {
      YearLength(0, yoe + 1);
    }
  }

  lemma NewEraStep(era: nat)
    requires IsLeap(399 + era * 400 + 1)
    ensures Compose(era + 1, 0, 0) == NextDay(Compose(era, 399, 365))
  {
  }

  /** A day that is not the last of its March year. */
  lemma SameYearStep(era: nat, yoe: nat, doy: nat)
    requires doy < 365
    requires doy == 364 ==> IsLeap(yoe + era * 400 + 1)
    ensures Compose(era, yoe, doy + 1) == NextDay(Compose(era, yoe, doy))
  {
    MonthDayStep(doy);
  }

  /** The last day of February is followed by 1 March. */
  lemma NewYearStep(era: nat, yoe: nat, doy: nat)
    requires doy == if IsLeap(yoe + era * 400 + 1) then 365 else 364
    ensures Compose(era, yoe + 1, 0) == NextDay(Compose(era, yoe, doy))
  {
  }

  /** The arithmetic agrees with the day-by-day walk, for every day. */
  lemma {:induction false} CivilIsWalk(days: nat)
    ensures CivilFromDays(days) == Walk(days)
  {
    if days > 0 {
      var yesterday := days - 1;
      CivilIsWalk(yesterday);
      CivilStep(yesterday);
    } else {
      Epoch();
    }
  }

  lemma Epoch()
    ensures CivilFromDays(0) == Date(1970, 1, 1)
  {
    DecodesIsUnique(0, 4, 369, 306);
  }

  lemma {:induction false} WalkIsValid(days: nat)
    ensures ValidDate(Walk(days))
  {
    if days > 0 {
      WalkIsValid(days - 1);
    }
  }
}
