/** The date of a day counted from the Unix epoch, and that the arithmetic for it
    is the calendar: the proleptic Gregorian one of section 5.7 and Appendix C of
    RFC 3339, one day after another. */
module Calendar {

  datatype Date = Date(year: int, month: int, day: int)

  predicate IsLeap(year: int) {
    year % 4 == 0 && (year % 100 != 0 || year % 400 == 0)
  }

  function DaysInMonth(year: int, month: int): int {
    if month == 2 then (if IsLeap(year) then 29 else 28)
    else if month == 4 || month == 6 || month == 9 || month == 11 then 30
    else 31
  }

  predicate Valid(d: Date) {
    1 <= d.month <= 12 && 1 <= d.day <= DaysInMonth(d.year, d.month)
  }

  function NextDay(d: Date): Date {
    if d.day < DaysInMonth(d.year, d.month) then Date(d.year, d.month, d.day + 1)
    else if d.month < 12 then Date(d.year, d.month + 1, 1)
    else Date(d.year + 1, 1, 1)
  }

  function DayBefore(d: Date): Date {
    if d.day > 1 then Date(d.year, d.month, d.day - 1)
    else if d.month > 1 then Date(d.year, d.month - 1, DaysInMonth(d.year, d.month - 1))
    else Date(d.year - 1, 12, 31)
  }

  const EPOCH := Date(1970, 1, 1)

  /** The calendar, day by day from the epoch in both directions. */
  function DayByDay(z: int): Date
    decreases if z < 0 then -z else z
  {
    if z == 0 then EPOCH
    else if z > 0 then NextDay(DayByDay(z - 1))
    else DayBefore(DayByDay(z + 1))
  }

  // --------------------------------------------------------- the arithmetic

  function YearOfEra(doe: int): int {
    (doe - doe / 1460 + doe / 36524 - doe / 146096) / 365
  }

  /** The date of a day number by division alone (Howard Hinnant's algorithm). */
  function CivilFromDays(days: int): Date {
    var z := days + 719468;
    var era := z / 146097;
    var doe := z % 146097;
    var yoe := YearOfEra(doe);
    var y := yoe + era * 400;
    var doy := doe - (365 * yoe + yoe / 4 - yoe / 100);
    var mp := (5 * doy + 2) / 153;
    var d := doy - (153 * mp + 2) / 5 + 1;
    var m := if mp < 10 then mp + 3 else mp - 9;
    Date(if m <= 2 then y + 1 else y, m, d)
  }

  /** The same, reduced to the year. */
  function YearFromUnixDays(days: int): int {
    var z := days + 719468;
    var era := z / 146097;
    var doe := z % 146097;
    var yoe := YearOfEra(doe);
    var doy := doe - (365 * yoe + yoe / 4 - yoe / 100);
    var marchBasedMonth := (5 * doy + 2) / 153;
    var year := yoe + era * 400;
    if marchBasedMonth >= 10 then year + 1 else year
  }

  // -------------------------------------------------------------- the proof

  /** A day by its 400-year era, century, four-year group, year in the group and
      day in the year, years starting in March so that leap days end them. */
  datatype Place = Place(era: int, century: int, group: int, yearInGroup: int, doy: int)

  /** Whether the year a place is in ends in a leap day. */
  predicate EndsInLeapDay(p: Place) {
    p.yearInGroup == 3 && (p.group < 24 || p.century == 3)
  }

  predicate Placed(p: Place) {
    && 0 <= p.century < 4 && 0 <= p.group < 25 && 0 <= p.yearInGroup < 4
    && 0 <= p.doy < (if EndsInLeapDay(p) then 366 else 365)
  }

  function Yoe(p: Place): int {
    100 * p.century + 4 * p.group + p.yearInGroup
  }

  function Doe(p: Place): int {
    36524 * p.century + 1461 * p.group + 365 * p.yearInGroup + p.doy
  }

  function DaysOf(p: Place): int {
    146097 * p.era + Doe(p) - 719468
  }

  function MonthStart(mp: int): int {
    (153 * mp + 2) / 5
  }

  /** The date of a place whose day falls in the `mp`th month from March. */
  function DateIn(p: Place, mp: int): Date {
    var year := 400 * p.era + Yoe(p);
    if mp < 10 then Date(year, mp + 3, p.doy - MonthStart(mp) + 1)
    else Date(year + 1, mp - 9, p.doy - MonthStart(mp) + 1)
  }

  function MonthOf(doy: int): int {
    (5 * doy + 2) / 153
  }

  function DateOf(p: Place): Date {
    DateIn(p, MonthOf(p.doy))
  }

  lemma LowQuotients(p: Place)
    requires Placed(p)
    ensures var rest := 24 * p.century + p.group + 365 * p.yearInGroup + p.doy;
      Doe(p) / 1460 == 25 * p.century + p.group + if rest >= 1460 then 1 else 0
  {
  }

  lemma HighQuotients(p: Place)
    requires Placed(p)
    ensures Doe(p) / 36524 - Doe(p) / 146096 == p.century
    ensures 0 <= Doe(p) < 146097
  {
    if Doe(p) < 36524 * (p.century + 1) {
      assert Doe(p) / 36524 == p.century;
      assert Doe(p) / 146096 == 0;
    } else {
      assert Doe(p) == 146096;
    }
  }

  /** The divisions that drop leap days leave exactly the year. */
  lemma YearOfEraIsYoe(p: Place)
    requires Placed(p)
    ensures YearOfEra(Doe(p)) == Yoe(p)
    ensures Doe(p) - (365 * Yoe(p) + Yoe(p) / 4 - Yoe(p) / 100) == p.doy
  {
    LowQuotients(p);
    HighQuotients(p);
    var e := if 24 * p.century + p.group + 365 * p.yearInGroup + p.doy >= 1460 then 1 else 0;
    assert 0 <= p.doy - e < 365;
    assert Doe(p) - Doe(p) / 1460 + p.century == 365 * Yoe(p) + (p.doy - e);
    assert Yoe(p) / 4 == 25 * p.century + p.group;
    assert Yoe(p) / 100 == p.century;
  }

  lemma EraOf(p: Place)
    requires Placed(p)
    ensures (DaysOf(p) + 719468) / 146097 == p.era && (DaysOf(p) + 719468) % 146097 == Doe(p)
  {
    HighQuotients(p);
    assert DaysOf(p) + 719468 == 146097 * p.era + Doe(p);
  }

  /** The arithmetic finds the date of every place. */
  lemma ArithmeticIsDateOf(p: Place)
    requires Placed(p)
    ensures CivilFromDays(DaysOf(p)) == DateOf(p)
    ensures YearFromUnixDays(DaysOf(p)) == DateOf(p).year
  {
    hide YearOfEra, Doe;
    EraOf(p);
    YearOfEraIsYoe(p);
    MonthIsOf(p.doy);
  }

  lemma MonthIsOf(doy: int)
    requires 0 <= doy < 366
    ensures var mp := MonthOf(doy);
      0 <= mp < 12 && MonthStart(mp) <= doy < (if mp == 11 then 366 else MonthStart(mp + 1))
  {
  }

  /** Where a day number stands: the place in its era by the nested cycles. */
  function PlaceAt(days: int): Place {
    var z := days + 719468;
    var doe := z % 146097;
    var century := if doe == 146096 then 3 else doe / 36524;
    var inCentury := doe - 36524 * century;
    var inGroup := inCentury % 1461;
    var year := if inGroup == 1460 then 3 else inGroup / 365;
    Place(z / 146097, century, inCentury / 1461, year, inGroup - 365 * year)
  }

  lemma PlaceAtIsPlaced(days: int)
    ensures Placed(PlaceAt(days)) && DaysOf(PlaceAt(days)) == days
  {
    var z := days + 719468;
    var doe := z % 146097;
    var p := PlaceAt(days);
    assert z == 146097 * (z / 146097) + doe;
    var inCentury := doe - 36524 * p.century;
    assert 0 <= inCentury <= 36524 && (inCentury == 36524 ==> p.century == 3);
    assert inCentury == 1461 * p.group + inCentury % 1461;
    assert 0 <= p.group < 25;
  }

  function Month(d: Date): int {
    if d.month > 2 then d.month - 3 else d.month + 9
  }

  /** The place of a date. */
  function PlaceOf(d: Date): Place {
    var year := if d.month > 2 then d.year else d.year - 1;
    var yoe := year % 400;
    Place(year / 400, yoe / 100, yoe % 100 / 4, yoe % 4, MonthStart(Month(d)) + d.day - 1)
  }

  lemma YearParts(year: int)
    ensures var yoe := year % 400;
      && 0 <= yoe / 100 < 4 && 0 <= yoe % 100 / 4 < 25 && 0 <= yoe % 4 < 4
      && yoe == 100 * (yoe / 100) + 4 * (yoe % 100 / 4) + yoe % 4
      && year == 400 * (year / 400) + yoe
  {
    var yoe := year % 400;
    assert yoe % 100 == yoe - 100 * (yoe / 100);
    assert (yoe % 100) % 4 == yoe % 4;
  }

  /** Leap years are the ones a March-based year ends in. */
  lemma LeapDayEnds(p: Place)
    requires 0 <= p.century < 4 && 0 <= p.group < 25 && 0 <= p.yearInGroup < 4
    ensures EndsInLeapDay(p) <==> IsLeap(400 * p.era + Yoe(p) + 1)
  {
    var last := p.yearInGroup + 1;
    var inCentury := 4 * p.group + last;
    var inEra := 100 * p.century + inCentury;
    Remainders(100 * p.era + 25 * p.century + p.group, last);
    Remainders(4 * p.era + p.century, inCentury);
    Remainders(p.era, inEra);
    assert 400 * p.era + Yoe(p) + 1 == 400 * p.era + inEra;
  }

  lemma Remainders(k: int, r: int)
    ensures 0 <= r <= 4 ==> (4 * k + r) % 4 == if r == 4 then 0 else r
    ensures 0 <= r <= 100 ==> (100 * k + r) % 100 == if r == 100 then 0 else r
    ensures 0 <= r <= 400 ==> (400 * k + r) % 400 == if r == 400 then 0 else r
  {
    assert 0 <= r < 4 ==> (4 * k + r) / 4 == k;
    assert 0 <= r < 100 ==> (100 * k + r) / 100 == k;
    assert 0 <= r < 400 ==> (400 * k + r) / 400 == k;
    assert 4 * k + 4 == 4 * (k + 1) && 100 * k + 100 == 100 * (k + 1) && 400 * k + 400 == 400 * (k + 1);
  }

  lemma MonthLengths(year: int, month: int)
    requires 1 <= month <= 12 && month != 2
    ensures var mp := if month > 2 then month - 3 else month + 9;
      0 <= mp < 11 && MonthStart(mp + 1) - MonthStart(mp) == DaysInMonth(year, month)
  {
  }

  lemma MonthAt(mp: int, doy: int)
    requires 0 <= mp < 12 && MonthStart(mp) <= doy < if mp == 11 then 366 else MonthStart(mp + 1)
    ensures MonthOf(doy) == mp
  {
  }

  lemma MonthStartsAreInYear(mp: int)
    requires 0 <= mp < 12
    ensures 0 <= MonthStart(mp) <= 337 && (mp < 11 ==> MonthStart(mp + 1) <= 337) && (mp == 11 ==> MonthStart(mp) == 337)
  {
  }

  /** Every valid date has a place, whose date it is. */
  lemma PlaceOfIsPlaced(d: Date)
    requires Valid(d)
    ensures Placed(PlaceOf(d)) && DateOf(PlaceOf(d)) == d
  {
    var year := if d.month > 2 then d.year else d.year - 1;
    var p, mp := PlaceOf(d), Month(d);
    YearParts(year);
    LeapDayEnds(p);
    MonthStartsAreInYear(mp);
    if d.month != 2 {
      MonthLengths(d.year, d.month);
    }
    hide MonthStart, MonthOf, IsLeap;
    MonthAt(mp, p.doy);
  }

  lemma DateOfIsValid(p: Place)
    requires Placed(p)
    ensures Valid(DateOf(p))
  {
    MonthIsOf(p.doy);
    var mp := MonthOf(p.doy);
    var d := DateOf(p);
    LeapDayEnds(p);
    MonthStartsAreInYear(mp);
    hide MonthStart, MonthOf, IsLeap;
    if mp < 11 {
      MonthLengths(d.year, d.month);
    }
  }

  lemma DayZeroIsTheEpoch()
    ensures CivilFromDays(0) == EPOCH
  {
    hide YearOfEra;
    assert 719468 / 146097 == 4 && 719468 % 146097 == 135080;
    YearOfDayZero();
    assert 135080 - (365 * 369 + 369 / 4 - 369 / 100) == 306;
    assert (5 * 306 + 2) / 153 == 10 && (153 * 10 + 2) / 5 == 306;
  }

  lemma YearOfDayZero()
    ensures YearOfEra(135080) == 369
  {
    assert 135080 / 1460 == 92 && 135080 / 36524 == 3 && 135080 / 146096 == 0;
  }

  /** Every day number has a valid date, and day 0 is the first of 1970. */
  lemma CivilIsValid(days: int)
    ensures Valid(CivilFromDays(days))
    ensures CivilFromDays(0) == EPOCH
  {
    DayZeroIsTheEpoch();
    hide CivilFromDays, DateOf, Valid, Placed, DaysOf, PlaceAt;
    PlaceAtIsPlaced(days);
    ArithmeticIsDateOf(PlaceAt(days));
    DateOfIsValid(PlaceAt(days));
  }

  /** Every valid date is the date of one day number. */
  lemma DateHasItsDay(d: Date)
    requires Valid(d)
    ensures CivilFromDays(DaysOf(PlaceOf(d))) == d
    ensures forall z :: CivilFromDays(z) == d ==> z == DaysOf(PlaceOf(d))
  {
    PlaceOfIsPlaced(d);
    ArithmeticIsDateOf(PlaceOf(d));
    forall z | CivilFromDays(z) == d ensures z == DaysOf(PlaceOf(d)) {
      PlaceAtIsPlaced(z);
      ArithmeticIsDateOf(PlaceAt(z));
      DateDeterminesPlace(PlaceAt(z));
    }
  }

  lemma DateDeterminesPlace(p: Place)
    requires Placed(p)
    ensures PlaceOf(DateOf(p)) == p
  {
    MonthIsOf(p.doy);
    var d := DateOf(p);
    assert Month(d) == MonthOf(p.doy);
    var year := 400 * p.era + Yoe(p);
    assert year == if d.month > 2 then d.year else d.year - 1;
    hide MonthStart, MonthOf;
    YearParts(year);
    assert year / 400 == p.era && year % 400 == Yoe(p);
  }

  /** Days before the March a year starts with. */
  function DaysBefore(year: int): int {
    365 * year + year / 4 - year / 100 + year / 400
  }

  lemma YearLength(year: int)
    ensures DaysBefore(year + 1) - DaysBefore(year) == if IsLeap(year + 1) then 366 else 365
  {
    assert (year + 1) / 4 - year / 4 == if (year + 1) % 4 == 0 then 1 else 0;
    assert (year + 1) / 100 - year / 100 == if (year + 1) % 100 == 0 then 1 else 0;
    assert (year + 1) / 400 - year / 400 == if (year + 1) % 400 == 0 then 1 else 0;
    assert (year + 1) % 100 == 0 ==> (year + 1) % 4 == 0;
  }

  lemma DaysAre(d: Date)
    ensures var year := if d.month > 2 then d.year else d.year - 1;
      DaysOf(PlaceOf(d)) == DaysBefore(year) + MonthStart(Month(d)) + d.day - 1 - 719468
  {
    hide MonthStart;
    var year := if d.month > 2 then d.year else d.year - 1;
    YearParts(year);
    var p := PlaceOf(d);
    assert year / 4 == 100 * p.era + 25 * p.century + p.group;
    assert year / 100 == 4 * p.era + p.century;
  }

  /** The next day is a day later. */
  lemma NextDayIsNext(d: Date)
    requires Valid(d)
    ensures Valid(NextDay(d)) && DaysOf(PlaceOf(NextDay(d))) == DaysOf(PlaceOf(d)) + 1
  {
    hide IsLeap, DaysBefore, PlaceOf, DaysOf;
    DaysAre(d);
    DaysAre(NextDay(d));
    if d.month != 2 {
      MonthLengths(d.year, d.month);
    } else {
      YearLength(d.year - 1);
    }
  }

  /** The day after a day's date is the next day's date. */
  lemma CivilOfNextDay(days: int)
    ensures CivilFromDays(days + 1) == NextDay(CivilFromDays(days))
  {
    var d := CivilFromDays(days);
    CivilIsValid(days);
    DateHasItsDay(d);
    NextDayIsNext(d);
    DateHasItsDay(NextDay(d));
  }

  lemma DayBeforeUndoesNextDay(d: Date)
    requires Valid(d)
    ensures DayBefore(NextDay(d)) == d
  {
    hide IsLeap;
  }

  /** The arithmetic is the calendar, day by day from the epoch either way. */
  lemma {:induction false} CivilIsDayByDay(days: int)
    ensures CivilFromDays(days) == DayByDay(days)
    decreases if days < 0 then -days else days
  {
    hide CivilFromDays, NextDay, DayBefore;
    if days == 0 {
      CivilIsValid(0);
    } else if days > 0 {
      CivilIsDayByDay(days - 1);
      CivilOfNextDay(days - 1);
    } else {
      CivilIsDayByDay(days + 1);
      CivilOfNextDay(days);
      CivilIsValid(days);
      DayBeforeUndoesNextDay(CivilFromDays(days));
    }
  }

  /** The year alone is the date's year. */
  lemma YearIsTheDates(days: int)
    ensures YearFromUnixDays(days) == DayByDay(days).year
  {
    PlaceAtIsPlaced(days);
    ArithmeticIsDateOf(PlaceAt(days));
    CivilIsDayByDay(days);
  }
}
