/** Calendar dates from day numbers (`civil_from_days` and `format_datetime` of
    wirebson/src/encode.rs). */
module Calendar {
  import opened Bytes

  /** Division that truncates toward zero, as the source's `/` does. */
  function TruncDiv(a: int, b: int): int
    requires b > 0
  {
    if a >= 0 then a / b else -(-a / b)
  }

  datatype Date = Date(year: int, month: int, day: int)

  predicate Leap(year: int) {
    year % 4 == 0 && (year % 100 != 0 || year % 400 == 0)
  }

  function DaysInMonth(year: int, month: int): int {
    if month == 2 then (if Leap(year) then 29 else 28)
    else if month == 4 || month == 6 || month == 9 || month == 11 then 30
    else 31
  }

  predicate ValidDate(d: Date) {
    1 <= d.month <= 12 && 1 <= d.day <= DaysInMonth(d.year, d.month)
  }

  /** The next day of the proleptic Gregorian calendar. */
  function NextDay(d: Date): Date {
    if d.day < DaysInMonth(d.year, d.month) then d.(day := d.day + 1)
    else if d.month < 12 then Date(d.year, d.month + 1, 1)
    else Date(d.year + 1, 1, 1)
  }

  // ------------------------------------------------------------ the algorithm

  const ERA_DAYS := 146_097

  function Era(z: int): int {
    TruncDiv(if z >= 0 then z else z - 146_096, ERA_DAYS)
  }

  /** Year of the 400-year era, counted from March. */
  function YearOfEra(doe: int): int {
    (doe - doe / 1460 + doe / 36_524 - doe / 146_096) / 365
  }

  /** The day of the era on which year `yoe` begins. */
  function YearStart(yoe: int): int {
    365 * yoe + yoe / 4 - yoe / 100
  }

  function MonthFromMarch(doy: int): int {
    (5 * doy + 2) / 153
  }

  function MonthStart(mp: int): int {
    (153 * mp + 2) / 5
  }

  function DateOf(y: int, doy: int): Date {
    var mp := MonthFromMarch(doy);
    var d := doy - MonthStart(mp) + 1;
    var m := if mp < 10 then mp + 3 else mp - 9;
    Date(if m <= 2 then y + 1 else y, m, d)
  }

  function CivilFromDays(days: int): Date {
    var z := days + 719_468;
    var era := Era(z);
    var doe := z - era * ERA_DAYS;
    var yoe := YearOfEra(doe);
    var y := yoe + era * 400;
    var doy := doe - YearStart(yoe);
    DateOf(y, doy)
  }

  // ------------------------------------------------------------ a place in the calendar

  /** A day located by era, century, four-year cycle, year of the cycle and day
      of the March-based year. */
  datatype Place = Place(era: int, century: int, cycle: int, year: int, doy: int)

  /** The March-based year ends with February of the next civil year. */
  function YearLength(y: int): int {
    if Leap(y + 1) then 366 else 365
  }

  function YearNumber(p: Place): int {
    400 * p.era + 100 * p.century + 4 * p.cycle + p.year
  }

  predicate ValidPlace(p: Place) {
    && 0 <= p.century <= 3 && 0 <= p.cycle <= 24 && 0 <= p.year <= 3
    && 0 <= p.doy < YearLength(YearNumber(p))
  }

  /** Days since 1970-01-01. */
  function DayNumber(p: Place): int {
    ERA_DAYS * p.era + 36_524 * p.century + 1461 * p.cycle + 365 * p.year + p.doy - 719_468
  }

  lemma EraIsFloor(z: int)
    ensures Era(z) == z / ERA_DAYS
  {
    if z < 0 {
      var q := z / ERA_DAYS;
      assert (146_096 - z) / ERA_DAYS == -q;
    }
  }

  lemma Mod4(q: int, r: int)
    requires 0 < r <= 4
    ensures (4 * q + r) % 4 == 0 <==> r == 4
  {
  }

  lemma Mod100(q: int, r: int)
    requires 0 < r <= 100
    ensures (100 * q + r) % 100 == 0 <==> r == 100
  {
  }

  lemma Mod400(q: int, r: int)
    requires 0 < r <= 400
    ensures (400 * q + r) % 400 == 0 <==> r == 400
  {
  }

  lemma LongYear(p: Place)
    requires 0 <= p.century <= 3 && 0 <= p.cycle <= 24 && 0 <= p.year <= 3
    ensures Leap(YearNumber(p) + 1) <==> p.year == 3 && (p.cycle < 24 || p.century == 3)
  {
    var y := YearNumber(p) + 1;
    var w := 4 * p.cycle + p.year + 1;
    Mod4(100 * p.era + 25 * p.century + p.cycle, p.year + 1);
    Mod100(4 * p.era + p.century, w);
    Mod400(p.era, 100 * p.century + w);
    assert y == 4 * (100 * p.era + 25 * p.century + p.cycle) + (p.year + 1);
    assert y == 100 * (4 * p.era + p.century) + w;
    assert y == 400 * p.era + (100 * p.century + w);
  }

  /** Centuries and four-year cycles completed by day `doe` of an era. */
  lemma EraDivisions(c: int, q: int, r: int, d: int)
    requires 0 <= c <= 3 && 0 <= q <= 24 && 0 <= r <= 3
    requires 0 <= d <= 365 && (d == 365 ==> r == 3 && (q < 24 || c == 3))
    ensures var doe := 36_524 * c + 1461 * q + 365 * r + d;
            doe / 36_524 - doe / 146_096 == c && 0 <= doe < ERA_DAYS
    ensures var doe := 36_524 * c + 1461 * q + 365 * r + d;
            doe / 1460 == 25 * c + q + (if 24 * c + q + 365 * r + d >= 1460 then 1 else 0)
  {
    var inCentury := 1461 * q + 365 * r + d;
    var doe := 36_524 * c + inCentury;
    assert 0 <= inCentury <= 36_524 && (inCentury == 36_524 ==> c == 3);
    assert inCentury < 36_524 ==> doe / 36_524 == c && doe / 146_096 == 0;
    assert doe == 1460 * (25 * c + q) + (24 * c + q + 365 * r + d);
  }

  lemma YearStartAt(c: int, q: int, r: int)
    requires 0 <= c <= 3 && 0 <= q <= 24 && 0 <= r <= 3
    ensures YearStart(100 * c + 4 * q + r) == 36_524 * c + 1461 * q + 365 * r
  {
    var yoe := 100 * c + 4 * q + r;
    assert yoe / 4 == 25 * c + q && yoe / 100 == c;
  }

  /** The closed form of the year of the era finds the right year. */
  lemma YearOfEraAt(p: Place)
    requires ValidPlace(p)
    ensures var doe := DayNumber(p) + 719_468 - ERA_DAYS * p.era;
            var yoe := 100 * p.century + 4 * p.cycle + p.year;
            0 <= doe < ERA_DAYS && YearOfEra(doe) == yoe && doe - YearStart(yoe) == p.doy
  {
    hide Leap, YearStart, YearOfEra;
    LongYear(p);
    var c, q, r, d := p.century, p.cycle, p.year, p.doy;
    YearStartAt(c, q, r);
    YearOfEraFrom(c, q, r, d);
  }

  lemma LeapCorrection(c: int, q: int, r: int, d: int)
    requires 0 <= c <= 3 && 0 <= q <= 24 && 0 <= r <= 3
    requires 0 <= d <= 365 && (d == 365 ==> r == 3 && (q < 24 || c == 3))
    ensures 0 <= d - (if 24 * c + q + 365 * r + d >= 1460 then 1 else 0) < 365
  {
  }

  lemma YearOfEraFrom(c: int, q: int, r: int, d: int)
    requires 0 <= c <= 3 && 0 <= q <= 24 && 0 <= r <= 3
    requires 0 <= d <= 365 && (d == 365 ==> r == 3 && (q < 24 || c == 3))
    ensures var doe := 36_524 * c + 1461 * q + 365 * r + d;
            0 <= doe < ERA_DAYS && YearOfEra(doe) == 100 * c + 4 * q + r
  {
    EraDivisions(c, q, r, d);
    var k := if 24 * c + q + 365 * r + d >= 1460 then 1 else 0;
    LeapCorrection(c, q, r, d);
    var doe := 36_524 * c + 1461 * q + 365 * r + d;
    assert doe - doe / 1460 + doe / 36_524 - doe / 146_096 == 365 * (100 * c + 4 * q + r) + (d - k);
    YearQuotient(100 * c + 4 * q + r, d - k);
  }

  lemma YearQuotient(yoe: int, d: int)
    requires 0 <= d < 365
    ensures (365 * yoe + d) / 365 == yoe
  {
  }

  lemma CivilAt(p: Place)
    requires ValidPlace(p)
    ensures CivilFromDays(DayNumber(p)) == DateOf(YearNumber(p), p.doy)
  {
    hide YearOfEra, YearStart, DateOf;
    YearOfEraAt(p);
    var z := DayNumber(p) + 719_468;
    EraIsFloor(z);
    assert z / ERA_DAYS == p.era;
  }

  /** Every day has a place. */
  lemma Locate(days: int) returns (p: Place)
    ensures ValidPlace(p) && DayNumber(p) == days
  {
    var z := days + 719_468;
    var era := z / ERA_DAYS;
    var doe := z % ERA_DAYS;
    var century := if doe / 36_524 > 3 then 3 else doe / 36_524;
    var inCentury := doe - 36_524 * century;
    var cycle := inCentury / 1461;
    var inCycle := inCentury - 1461 * cycle;
    var year := if inCycle / 365 > 3 then 3 else inCycle / 365;
    p := Place(era, century, cycle, year, inCycle - 365 * year);
    LongYear(p);
  }

  function NextPlace(p: Place): Place {
    if p.doy + 1 < YearLength(YearNumber(p)) then p.(doy := p.doy + 1)
    else if p.year < 3 then p.(year := p.year + 1, doy := 0)
    else if p.cycle < 24 then p.(cycle := p.cycle + 1, year := 0, doy := 0)
    else if p.century < 3 then Place(p.era, p.century + 1, 0, 0, 0)
    else Place(p.era + 1, 0, 0, 0, 0)
  }

  lemma NextPlaceIsNextDay(p: Place)
    requires ValidPlace(p)
    ensures ValidPlace(NextPlace(p)) && DayNumber(NextPlace(p)) == DayNumber(p) + 1
    ensures YearNumber(NextPlace(p)) == YearNumber(p) + (if NextPlace(p).doy == 0 then 1 else 0)
    ensures NextPlace(p).doy == if p.doy + 1 < YearLength(YearNumber(p)) then p.doy + 1 else 0
  {
    hide Leap;
    LongYear(p);
  }

  // ------------------------------------------------------------ months

  lemma MonthOf(doy: int)
    requires 0 <= doy <= 365
    ensures var mp := MonthFromMarch(doy);
            0 <= mp <= 11 && MonthStart(mp) <= doy < MonthStart(mp + 1)
  {
  }

  lemma MonthLengths(y: int, mp: int)
    requires 0 <= mp <= 10
    ensures MonthStart(mp + 1) - MonthStart(mp)
         == DaysInMonth(if mp < 10 then y else y + 1, if mp < 10 then mp + 3 else mp - 9)
    ensures MonthStart(mp + 1) <= 337
  {
    assert MonthStart(0) == 0 && MonthStart(1) == 31 && MonthStart(2) == 61 && MonthStart(3) == 92
        && MonthStart(4) == 122 && MonthStart(5) == 153 && MonthStart(6) == 184 && MonthStart(7) == 214
        && MonthStart(8) == 245 && MonthStart(9) == 275 && MonthStart(10) == 306 && MonthStart(11) == 337;
  }

  lemma DateOfIsValid(y: int, doy: int)
    requires 0 <= doy < YearLength(y)
    ensures ValidDate(DateOf(y, doy))
  {
    hide Leap, MonthFromMarch, MonthStart;
    MonthOf(doy);
    var mp := MonthFromMarch(doy);
    if mp <= 10 {
      MonthLengths(y, mp);
    } else {
      FebruaryStart();
    }
  }

  lemma FebruaryStart()
    ensures MonthStart(11) == 337 && MonthStart(0) == 0
    ensures MonthStart(12) == 367 && MonthFromMarch(0) == 0
  {
  }

  lemma SameMonth(doy: int, mp: int)
    requires 0 <= mp <= 11 && MonthStart(mp) <= doy < MonthStart(mp + 1)
    ensures MonthFromMarch(doy) == mp
  {
  }

  lemma DateOfNext(y: int, doy: int)
    requires 0 <= doy < YearLength(y)
    ensures NextDay(DateOf(y, doy))
         == if doy + 1 < YearLength(y) then DateOf(y, doy + 1) else DateOf(y + 1, 0)
  {
    hide Leap, MonthFromMarch, MonthStart;
    MonthOf(doy);
    FebruaryStart();
    var mp := MonthFromMarch(doy);
    if mp <= 10 {
      MonthLengths(y, mp);
      if doy + 1 < MonthStart(mp + 1) {
        SameMonth(doy + 1, mp);
      } else {
        MonthStartIncreases(mp + 1);
        SameMonth(doy + 1, mp + 1);
      }
    } else if doy < 365 {
      SameMonth(doy + 1, 11);
    }
  }

  lemma MonthStartIncreases(mp: int)
    requires 0 <= mp <= 11
    ensures MonthStart(mp) < MonthStart(mp + 1)
  {
  }

  // ------------------------------------------------------------ date and time

  datatype DateTimeParts = DateTimeParts(date: Date, hour: int, minute: int, second: int, millis: int)

  /** The parts `format_datetime` prints, with Euclidean division. */
  function SplitDateTime(ms: i64): DateTimeParts {
    var secs := ms / 1000;
    var days := secs / 86_400;
    var sod := secs % 86_400;
    DateTimeParts(CivilFromDays(days), sod / 3600, sod / 60 % 60, sod % 60, ms % 1000)
  }

  // ------------------------------------------------------------ the theorems

  lemma EpochIsFirstOfJanuary1970()
    ensures CivilFromDays(0) == Date(1970, 1, 1)
  {
  }

  /** For every day number: a valid date, and the next number is the next day. */
  lemma CivilFollowsCalendar(days: int)
    ensures ValidDate(CivilFromDays(days))
    ensures CivilFromDays(days + 1) == NextDay(CivilFromDays(days))
  {
    hide CivilFromDays, DateOf, Leap, NextDay;
    var p := Locate(days);
    CivilAt(p);
    DateOfIsValid(YearNumber(p), p.doy);
    NextPlaceIsNextDay(p);
    CivilAt(NextPlace(p));
    DateOfNext(YearNumber(p), p.doy);
  }

  // ------------------------------------------------------------ counting days, the other way

  function DaysBeforeMonth(year: int, month: int): int
    decreases month
  {
    if month <= 1 then 0 else DaysBeforeMonth(year, month - 1) + DaysInMonth(year, month - 1)
  }

  /** Days from 0001-01-01 to the first day of `year`. */
  function DaysBeforeYear(year: int): int {
    365 * (year - 1) + (year - 1) / 4 - (year - 1) / 100 + (year - 1) / 400
  }

  /** The day number of a date, counted on the calendar itself. */
  function DaysFromCivil(d: Date): int {
    DaysBeforeYear(d.year) + DaysBeforeMonth(d.year, d.month) + d.day - 1 - 719_162
  }

  function DaysInYear(year: int): int {
    if Leap(year) then 366 else 365
  }

  lemma MonthsFillYear(year: int)
    ensures DaysBeforeMonth(year, 13) == DaysInYear(year)
  {
    hide Leap;
    assert DaysBeforeMonth(year, 4) == 90 + DaysInYear(year) - 365;
    assert DaysBeforeMonth(year, 7) == DaysBeforeMonth(year, 4) + 91;
    assert DaysBeforeMonth(year, 10) == DaysBeforeMonth(year, 7) + 92;
    assert DaysBeforeMonth(year, 13) == DaysBeforeMonth(year, 10) + 92;
  }

  /** One more of `n` completes another block of `k` exactly when `n + 1` is a
      multiple. */
  lemma NextQuotient4(n: int)
    ensures (n + 1) / 4 == n / 4 + (if (n + 1) % 4 == 0 then 1 else 0)
  {
  }

  lemma NextQuotient100(n: int)
    ensures (n + 1) / 100 == n / 100 + (if (n + 1) % 100 == 0 then 1 else 0)
  {
  }

  lemma NextQuotient400(n: int)
    ensures (n + 1) / 400 == n / 400 + (if (n + 1) % 400 == 0 then 1 else 0)
    ensures n % 400 == 0 ==> n % 100 == 0 && n % 4 == 0
    ensures n % 100 == 0 ==> n % 4 == 0
  {
  }

  lemma NextYear(year: int)
    ensures DaysBeforeYear(year + 1) == DaysBeforeYear(year) + DaysInYear(year)
  {
    NextQuotient4(year - 1);
    NextQuotient100(year - 1);
    NextQuotient400(year - 1);
    NextQuotient400(year);
  }

  lemma NextDayCounts(d: Date)
    requires ValidDate(d)
    ensures DaysFromCivil(NextDay(d)) == DaysFromCivil(d) + 1
  {
    hide Leap, DaysBeforeYear;
    MonthsFillYear(d.year);
    NextYear(d.year);
  }

  /** Counting the days of a computed date gives its day number back. */
  lemma {:induction false} DaysOfCivil(days: int)
    ensures DaysFromCivil(CivilFromDays(days)) == days
    decreases if days >= 0 then days else -days
  {
    hide CivilFromDays, NextDay, ValidDate, DaysFromCivil;
    if days == 0 {
      EpochIsFirstOfJanuary1970();
      EpochCounts();
    } else if days > 0 {
      DaysOfCivil(days - 1);
      CivilFollowsCalendar(days - 1);
      NextDayCounts(CivilFromDays(days - 1));
    } else {
      DaysOfCivil(days + 1);
      CivilFollowsCalendar(days);
      NextDayCounts(CivilFromDays(days));
    }
  }

  lemma EpochCounts()
    ensures DaysFromCivil(Date(1970, 1, 1)) == 0
  {
  }

  lemma {:induction false} MonthsAccumulate(year: int, month: int, later: int)
    requires 1 <= month < later
    ensures DaysBeforeMonth(year, month) + DaysInMonth(year, month) <= DaysBeforeMonth(year, later)
    decreases later
  {
    hide Leap;
    if month + 1 < later {
      MonthsAccumulate(year, month, later - 1);
    }
  }

  lemma {:induction false} YearsAccumulate(year: int, later: int)
    requires year < later
    ensures DaysBeforeYear(year) + DaysInYear(year) <= DaysBeforeYear(later)
    decreases later - year
  {
    hide DaysBeforeYear;
    NextYear(year);
    if year + 1 < later {
      YearsAccumulate(year + 1, later);
    }
  }

  lemma DaysOrdered(a: Date, b: Date)
    requires ValidDate(a) && ValidDate(b) && Before(a, b)
    ensures DaysFromCivil(a) < DaysFromCivil(b)
  {
    hide DaysBeforeYear, DaysBeforeMonth, Leap;
    if a.year < b.year {
      YearsAccumulate(a.year, b.year);
      MonthsAccumulate(a.year, a.month, 13);
      MonthsFillYear(a.year);
      FirstMonth(b.year, b.month);
    } else if a.month < b.month {
      MonthsAccumulate(a.year, a.month, b.month);
    }
  }

  lemma FirstMonth(year: int, month: int)
    ensures DaysBeforeMonth(year, month) >= 0
  {
  }

  /** Every valid date is reached, and by its own day number. */
  lemma CivilOfDays(d: Date)
    requires ValidDate(d)
    ensures CivilFromDays(DaysFromCivil(d)) == d
  {
    hide CivilFromDays, DaysFromCivil, ValidDate, NextDay;
    var e := CivilFromDays(DaysFromCivil(d));
    CivilFollowsCalendar(DaysFromCivil(d));
    DaysOfCivil(DaysFromCivil(d));
    if Before(d, e) {
      DaysOrdered(d, e);
    } else if Before(e, d) {
      DaysOrdered(e, d);
    }
  }

  /** The printed parts are in range and determine the instant: the day counted
      from the date and the clock time recombine to the original milliseconds. */
  lemma DateTimeRecombines(ms: i64)
    ensures var t := SplitDateTime(ms);
            && ValidDate(t.date)
            && 0 <= t.hour < 24 && 0 <= t.minute < 60 && 0 <= t.second < 60 && 0 <= t.millis < 1000
            && ms == ((((DaysFromCivil(t.date) * 24 + t.hour) * 60 + t.minute) * 60) + t.second) * 1000 + t.millis
  {
    hide CivilFromDays, ValidDate, DaysFromCivil, NextDay;
    var secs := ms / 1000;
    var days := secs / 86_400;
    var sod := secs % 86_400;
    ClockRecombines(sod);
    CivilFollowsCalendar(days);
    DaysOfCivil(days);
  }

  lemma ClockRecombines(sod: int)
    requires 0 <= sod < 86_400
    ensures (sod / 3600 * 60 + sod / 60 % 60) * 60 + sod % 60 == sod
    ensures sod / 3600 < 24
  {
    assert sod / 3600 == sod / 60 / 60;
  }

  /** Different day numbers are different dates, so the date identifies the day. */
  lemma {:induction false} CivilIsInjective(days: int, later: nat)
    requires later > 0
    ensures Before(CivilFromDays(days), CivilFromDays(days + later))
  {
    hide CivilFromDays, Leap;
    CivilFollowsCalendar(days + later - 1);
    if later > 1 {
      CivilIsInjective(days, later - 1);
    }
  }

  predicate Before(a: Date, b: Date) {
    a.year < b.year || (a.year == b.year && (a.month < b.month || (a.month == b.month && a.day < b.day)))
  }
}
