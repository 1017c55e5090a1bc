/** Era-based conversion between day numbers and Gregorian dates. */
module Calendar {

  datatype Date = Date(year: int, month: int, day: int)

  // ---- the Gregorian calendar (RFC 3339, section 5.7 and appendix C) ----

  predicate IsLeap(year: int) {
    year % 4 == 0 && (year % 100 != 0 || year % 400 == 0)
  }

  function DaysInMonth(year: int, month: int): int {
    if month == 2 then (if IsLeap(year) then 29 else 28)
    else if month == 4 || month == 6 || month == 9 || month == 11 then 30
    else 31
  }

  predicate IsValid(d: Date) {
    1 <= d.month <= 12 && 1 <= d.day <= DaysInMonth(d.year, d.month)
  }

  function NextDay(d: Date): Date {
    if d.day < DaysInMonth(d.year, d.month) then d.(day := d.day + 1)
    else if d.month < 12 then Date(d.year, d.month + 1, 1)
    else Date(d.year + 1, 1, 1)
  }

  predicate Earlier(a: Date, b: Date) {
    a.year < b.year || (a.year == b.year && (a.month < b.month || (a.month == b.month && a.day < b.day)))
  }

  // ---- the source's arithmetic ----

  /** Division that drops the fraction, towards zero. */
  function Quotient(a: int, b: int): int
    requires b > 0
  {
    if a >= 0 then a / b else -(-a / b)
  }

  function CivilFromDays(daysSinceEpoch: int): Date {
    var z := daysSinceEpoch + 719_468;
    var era := Quotient(if z >= 0 then z else z - 146_096, 146_097);
    var dayOfEra := z - era * 146_097;
    var yearOfEra := YearOfEra(dayOfEra);
    var dayOfYear := dayOfEra - (365 * yearOfEra + Quotient(yearOfEra, 4) - Quotient(yearOfEra, 100));
    MonthAndDay(yearOfEra + era * 400, dayOfYear)
  }

  function YearOfEra(dayOfEra: int): int {
    Quotient(dayOfEra - Quotient(dayOfEra, 1460) + Quotient(dayOfEra, 36_524) - Quotient(dayOfEra, 146_096), 365)
  }

  function MonthAndDay(year: int, dayOfYear: int): Date {
    var monthPrime := Quotient(5 * dayOfYear + 2, 153);
    var day := dayOfYear - Quotient(153 * monthPrime + 2, 5) + 1;
    var month := monthPrime + if monthPrime < 10 then 3 else -9;
    Date(year + if month <= 2 then 1 else 0, month, day)
  }

  function DaysFromCivil(d: Date): int {
    var year := if d.month <= 2 then d.year - 1 else d.year;
    var month := if d.month <= 2 then d.month + 12 else d.month;
    var era := Quotient(if year >= 0 then year else year - 399, 400);
    var yoe := year - era * 400;
    var doy := Quotient(153 * (month - 3) + 2, 5) + d.day - 1;
    var doe := yoe * 365 + Quotient(yoe, 4) - Quotient(yoe, 100) + doy;
    era * 146_097 + doe - 719_468
  }

  // ---- a closed form: years start in March, months count from 0 ----

  /** Days before the March that starts year y. */
  function YearStart(y: int): int {
    365 * y + y / 4 - y / 100 + y / 400
  }

  /** Days of the year before month m, counted from March. */
  function MonthStart(m: int): int {
    (153 * m + 2) / 5
  }

  function MarchYear(d: Date): int {
    if d.month <= 2 then d.year - 1 else d.year
  }

  function MarchMonth(d: Date): int {
    if d.month <= 2 then d.month + 9 else d.month - 3
  }

  /** Shifting negative numbers first makes the dropping division round down. */
  lemma EraRoundsDown(y: int)
    ensures Quotient(if y >= 0 then y else y - 399, 400) == y / 400
    ensures Quotient(if y >= 0 then y else y - 146_096, 146_097) == y / 146_097
  {
  }

  /** The era arithmetic of the inverse conversion agrees with the closed form, for every date whatever. */
  lemma DaysClosedForm(d: Date)
    requires 1 <= d.month <= 12
    ensures DaysFromCivil(d) == YearStart(MarchYear(d)) + MonthStart(MarchMonth(d)) + d.day - 1 - 719_468
  {
    var y := MarchYear(d);
    EraRoundsDown(y);
    var era, yoe := y / 400, y % 400;
    assert y == 400 * era + yoe;
    assert y / 4 == 100 * era + yoe / 4;
    assert y / 100 == 4 * era + yoe / 100;
  }

  /** Centuries of 36524 days, groups of four years of 1461 days, years of 365 days; the last of each may be longer. */
  lemma SplitEra(doe: int) returns (century: int, group: int, rest: int)
    requires 0 <= doe < 146_097
    ensures doe == 36_524 * century + 1461 * group + rest
    ensures 0 <= century <= 3 && 0 <= group <= 24 && 0 <= rest <= 1460
    ensures group == 24 && century < 3 ==> rest < 1460
  {
    century := if doe == 146_096 then 3 else doe / 36_524;
    var r := doe - 36_524 * century;
    group, rest := r / 1461, r % 1461;
  }

  lemma YearStartInEra(century: int, group: int, year: int)
    requires 0 <= century <= 3 && 0 <= group <= 24 && 0 <= year <= 3
    ensures YearStart(100 * century + 4 * group + year) == 36_524 * century + 1461 * group + 365 * year
  {
    var y := 100 * century + 4 * group + year;
    assert y / 4 == 25 * century + group;
    assert y / 100 == century;
    assert y / 400 == 0;
  }

  lemma YearFormula(doe: int, century: int, group: int, rest: int)
    requires 0 <= doe < 146_097 && doe == 36_524 * century + 1461 * group + rest
    requires 0 <= century <= 3 && 0 <= group <= 24 && 0 <= rest <= 1460
    requires group == 24 && century < 3 ==> rest < 1460
    ensures YearOfEra(doe) == 100 * century + 4 * group + (if rest < 1460 then rest / 365 else 3)
  {
    var late := if 24 * century + group + rest >= 1460 then 1 else 0;
    assert doe / 1460 == 25 * century + group + late;
    assert doe / 36_524 - doe / 146_096 == century;
    var n := rest - late;
    assert doe - doe / 1460 + doe / 36_524 - doe / 146_096 == 365 * (100 * century + 4 * group) + n;
    assert n / 365 == if rest < 1460 then rest / 365 else 3;
  }

  /** The year-of-era formula finds the March year that holds the day. */
  lemma YearOfEraHoldsDay(doe: int)
    requires 0 <= doe < 146_097
    ensures var y := YearOfEra(doe);
      0 <= y < 400 && YearStart(y) <= doe < YearStart(y + 1)
  {
    var century, group, rest := SplitEra(doe);
    YearFormula(doe, century, group, rest);
    var year := if rest < 1460 then rest / 365 else 3;
    YearStartInEra(century, group, year);
    if year < 3 {
      YearStartInEra(century, group, year + 1);
    } else if group < 24 {
      YearStartInEra(century, group + 1, 0);
    } else if century < 3 {
      YearStartInEra(century + 1, 0, 0);
    }
  }

  lemma MonthOfYear(doy: int)
    requires 0 <= doy <= 365
    ensures var m := (5 * doy + 2) / 153;
      0 <= m < 12 && MonthStart(m) <= doy && (m < 11 ==> doy < MonthStart(m + 1))
  {
  }

  lemma CivilByEra(n: int) returns (era: int, doe: int)
    ensures n + 719_468 == 146_097 * era + doe && 0 <= doe < 146_097
    ensures var yoe := YearOfEra(doe);
      CivilFromDays(n) == MonthAndDay(yoe + 400 * era, doe - (365 * yoe + Quotient(yoe, 4) - Quotient(yoe, 100)))
  {
    hide YearOfEra, MonthAndDay;
    var z := n + 719_468;
    EraRoundsDown(z);
    era, doe := z / 146_097, z % 146_097;
  }

  /** What the forward conversion computes, without eras. */
  lemma CivilClosedForm(n: int) returns (year: int)
    ensures YearStart(year) <= n + 719_468 < YearStart(year + 1)
    ensures CivilFromDays(n) == MonthAndDay(year, n + 719_468 - YearStart(year))
  {
    hide YearOfEra, MonthAndDay, CivilFromDays, YearStart, Quotient;
    var era, doe := CivilByEra(n);
    YearOfEraHoldsDay(doe);
    var yoe := YearOfEra(doe);
    year := yoe + 400 * era;
    YearStartInFirstEra(yoe);
    YearStartPeriod(yoe, era);
    YearStartPeriod(yoe + 1, era);
    assert year + 1 == yoe + 1 + 400 * era;
  }

  lemma YearStartInFirstEra(yoe: nat)
    requires yoe < 400
    ensures YearStart(yoe) == 365 * yoe + Quotient(yoe, 4) - Quotient(yoe, 100)
  {
  }

  lemma YearStartPeriod(y: int, era: int)
    ensures YearStart(y + 400 * era) == YearStart(y) + 146_097 * era
  {
    assert (y + 400 * era) / 4 == y / 4 + 100 * era;
    assert (y + 400 * era) / 100 == y / 100 + 4 * era;
    assert (y + 400 * era) / 400 == y / 400 + era;
  }

  lemma YearLength(y: int)
    ensures YearStart(y + 1) - YearStart(y) == if IsLeap(y + 1) then 366 else 365
  {
    assert (y + 1) / 4 - y / 4 == if (y + 1) % 4 == 0 then 1 else 0;
    assert (y + 1) / 100 - y / 100 == if (y + 1) % 100 == 0 then 1 else 0;
    assert (y + 1) / 400 - y / 400 == if (y + 1) % 400 == 0 then 1 else 0;
    assert (y + 1) % 400 == 0 ==> (y + 1) % 100 == 0;
    assert (y + 1) % 100 == 0 ==> (y + 1) % 4 == 0;
  }

  lemma MarchDateIsValid(year: int, doy: int)
    requires 0 <= doy < if IsLeap(year + 1) then 366 else 365
    ensures var d := MonthAndDay(year, doy);
      IsValid(d) && 1 <= d.month <= 12 && MarchYear(d) == year && MonthStart(MarchMonth(d)) + d.day - 1 == doy
  {
    MonthOfYear(doy);
  }

  // ---- the results ----

  /** Every day number, negative ones included, is a valid Gregorian date that converts back. */
  lemma CivilRoundTrip(n: int)
    ensures IsValid(CivilFromDays(n))
    ensures DaysFromCivil(CivilFromDays(n)) == n
  {
    hide CivilFromDays, DaysFromCivil, YearStart, MonthAndDay, MonthStart, IsValid, IsLeap;
    var year := CivilClosedForm(n);
    YearLength(year);
    MarchDateIsValid(year, n + 719_468 - YearStart(year));
    DaysClosedForm(CivilFromDays(n));
  }

  /** Later dates have larger day numbers. */
  lemma DaysIncrease(a: Date, b: Date)
    requires IsValid(a) && IsValid(b) && Earlier(a, b)
    ensures DaysFromCivil(a) < DaysFromCivil(b)
  {
    hide DaysFromCivil, YearStart;
    DaysClosedForm(a);
    DaysClosedForm(b);
    DayWithinYear(a);
    DayWithinYear(b);
    var y, z := MarchYear(a), MarchYear(b);
    if y < z {
      YearStartsIncrease(y + 1, z);
    }
  }

  lemma DayWithinYear(d: Date)
    requires IsValid(d)
    ensures 0 <= MonthStart(MarchMonth(d)) + d.day - 1 < YearStart(MarchYear(d) + 1) - YearStart(MarchYear(d))
    ensures MarchMonth(d) < 11 ==> MonthStart(MarchMonth(d)) + d.day - 1 < MonthStart(MarchMonth(d) + 1)
  {
    YearLength(MarchYear(d));
  }

  lemma YearStartsIncrease(y: int, z: int)
    requires y <= z
    ensures YearStart(y) <= YearStart(z)
  {
    assert z / 100 - y / 100 <= z - y;
  }

  /** Every valid date has a day number that converts back. */
  lemma DaysRoundTrip(d: Date)
    requires IsValid(d)
    ensures CivilFromDays(DaysFromCivil(d)) == d
  {
    var n := DaysFromCivil(d);
    var back := CivilFromDays(n);
    CivilRoundTrip(n);
    if Earlier(d, back) {
      DaysIncrease(d, back);
    } else if Earlier(back, d) {
      DaysIncrease(back, d);
    }
  }

  /** The numbering itself: day 0 is 1 January 1970 and the calendar's next day has the next number. */
  lemma DaysCountUp(d: Date)
    requires IsValid(d)
    ensures DaysFromCivil(Date(1970, 1, 1)) == 0
    ensures IsValid(NextDay(d)) && DaysFromCivil(NextDay(d)) == DaysFromCivil(d) + 1
  {
    EpochIsZero();
    NextDayIsValid(d);
    hide DaysFromCivil, YearStart, IsLeap, MonthStart, DaysInMonth;
    DaysClosedForm(d);
    DaysClosedForm(NextDay(d));
    MonthLength(d);
    if d.day == DaysInMonth(d.year, d.month) && d.month == 2 {
      assert MarchYear(NextDay(d)) == MarchYear(d) + 1;
    }
  }

  /** The month table in March order. */
  lemma MonthLength(d: Date)
    requires 1 <= d.month <= 12
    ensures MonthStart(0) == 0
    ensures MarchMonth(d) < 11 ==>
      MonthStart(MarchMonth(d) + 1) - MonthStart(MarchMonth(d)) == DaysInMonth(d.year, d.month)
    ensures d.month == 2 ==>
      MonthStart(11) + DaysInMonth(d.year, d.month) == YearStart(MarchYear(d) + 1) - YearStart(MarchYear(d))
  {
    YearLength(MarchYear(d));
  }

  lemma EpochIsZero()
    ensures DaysFromCivil(Date(1970, 1, 1)) == 0
  {
  }

  lemma NextDayIsValid(d: Date)
    requires IsValid(d)
    ensures IsValid(NextDay(d))
  {
  }

  lemma CivilCountsUp(n: int)
    ensures CivilFromDays(0) == Date(1970, 1, 1)
    ensures CivilFromDays(n + 1) == NextDay(CivilFromDays(n))
  {
    hide CivilFromDays, DaysFromCivil, IsValid, NextDay;
    EpochIsValid();
    CivilRoundTrip(n);
    DaysCountUp(CivilFromDays(n));
    DaysRoundTrip(NextDay(CivilFromDays(n)));
    DaysRoundTrip(Date(1970, 1, 1));
  }

  lemma EpochIsValid()
    ensures IsValid(Date(1970, 1, 1))
  {
  }
}
