/**
 Civil dates (07_storage.c:91-181): a date is the number of days since 1970-01-01 in the
 proleptic Gregorian calendar, read and written as the full-date of section 5.6 of RFC 3339.
 */
module Dates {
  import opened Common
  import opened Values

  datatype Civil = Civil(year: int, month: int, day: int)

  datatype Error = InvalidDate

  /** C's division, which truncates towards zero. */
  function TruncDiv(a: int, b: int): int
    requires b > 0
  {
    if a >= 0 then a / b else -(-a / b)
  }

  predicate Leap(year: int) {
    (year % 4 == 0 && year % 100 != 0) || year % 400 == 0
  }

  function DaysInMonth(year: int, month: int): int
    requires 1 <= month <= 12
  {
    if month == 2 && Leap(year) then 29
    else [31, 28, 31, 30, 31, 30, 31, 31, 30, 31, 30, 31][month - 1]
  }

  predicate Valid(c: Civil) {
    1 <= c.month <= 12 && 1 <= c.day <= DaysInMonth(c.year, c.month)
  }

  function DaysFromCivil(c: Civil): int {
    var year := if c.month <= 2 then c.year - 1 else c.year;
    var era := TruncDiv(if year >= 0 then year else year - 399, 400);
    var yoe := year - era * 400;
    var doy := (153 * (c.month + (if c.month > 2 then -3 else 9)) + 2) / 5 + c.day - 1;
    var doe := yoe * 365 + yoe / 4 - yoe / 100 + doy;
    era * 146097 + doe - 719468
  }

  function CivilFromDays(days: int): Civil {
    var z := days + 719468;
    var era := TruncDiv(if z >= 0 then z else z - 146096, 146097);
    CivilInEra(era, z - era * 146097)
  }

  function YearOfEra(doe: int): int {
    (doe - doe / 1460 + doe / 36524 - doe / 146096) / 365
  }

  function CivilInEra(era: int, doe: int): Civil {
    var yoe := YearOfEra(doe);
    var doy := doe - (365 * yoe + yoe / 4 - yoe / 100);
    var mp := (5 * doy + 2) / 153;
    var day := doy - (153 * mp + 2) / 5 + 1;
    var month := mp + (if mp < 10 then 3 else -9);
    var year := yoe + era * 400 + (if month <= 2 then 1 else 0);
    Civil(year, month, day)
  }

  // ---------- eras, years, months ----------

  lemma FloorIsTrunc(a: int, b: int)
    requires b > 0
    ensures TruncDiv(if a >= 0 then a else a - (b - 1), b) == a / b
  {
    if a < 0 {
      var q := a / b;
      var r := a % b;
      assert a == q * b + r && 0 <= r < b;
      assert -(a - (b - 1)) == (-q) * b + (b - 1 - r);
      DivIs(-(a - (b - 1)), b, -q, b - 1 - r);
    }
  }

  lemma DivIs(n: int, b: int, q: int, r: int)
    requires b > 0 && n == q * b + r && 0 <= r < b
    ensures n / b == q && n % b == r
  {
    var d := n / b - q;
    assert d * b == r - n % b;
    assert d >= 1 ==> d * b >= b;
    assert d <= -1 ==> d * b <= -b;
  }

  /** Days before year-of-era y, years starting in March. */
  function YearStart(y: int): int {
    365 * y + y / 4 - y / 100
  }

  /** A March-to-February year ends with the February of the next calendar year. */
  function YearLength(y: int): int {
    if Leap(y + 1) then 366 else 365
  }

  /** One more year adds one to a quotient exactly when it completes a multiple. */
  lemma DivStep(y: int, b: int)
    requires b > 0
    ensures (y + 1) / b == y / b + if (y + 1) % b == 0 then 1 else 0
  {
    if y % b < b - 1 {
      DivIs(y + 1, b, y / b, y % b + 1);
    } else {
      DivIs(y + 1, b, y / b + 1, 0);
    }
  }

  /** A century year is a fourth year too. */
  lemma CenturyIsFourth(y: int)
    ensures y % 100 == 0 ==> y % 4 == 0
  {
    DivIs(y, 4, 25 * (y / 100) + y % 100 / 4, y % 100 % 4);
  }

  lemma YearStartStep(y: int)
    requires 0 <= y < 400
    ensures y < 399 ==> YearStart(y + 1) == YearStart(y) + YearLength(y)
    ensures y == 399 ==> YearStart(y) + YearLength(y) == 146097
  {
    if y < 399 {
      DivStep(y, 4);
      DivStep(y, 100);
      CenturyIsFourth(y + 1);
      DivIs(y + 1, 400, 0, y + 1);
    }
  }

  /** Year of era as century, four-year cycle and year of the cycle. */
  lemma YearParts(c: int, m: int, q: int)
    requires 0 <= c < 4 && 0 <= m < 25 && 0 <= q < 4
    ensures YearStart(100 * c + 4 * m + q) == 36524 * c + 1461 * m + 365 * q
    ensures Leap(100 * c + 4 * m + q + 1) ==> q == 3 && (m == 24 ==> c == 3)
  {
    DivIs(100 * c + 4 * m + q, 100, c, 4 * m + q);
    DivIs(100 * c + 4 * m + q, 4, 25 * c + m, q);
  }

  /** Centuries gone by on day e of century c; the last day of the era is the 36525th of its century. */
  lemma CenturiesPassed(c: int, e: int)
    requires 0 <= c < 4 && 0 <= e <= 36524 && (e == 36524 ==> c == 3)
    ensures (36524 * c + e) / 36524 - (36524 * c + e) / 146096 == c
  {
    if e < 36524 {
      DivIs(36524 * c + e, 36524, c, e);
      DivIs(36524 * c + e, 146096, 0, 36524 * c + e);
    }
  }

  /** Four-year cycles gone by, one too many on the last days of some of them. */
  lemma FourYearsPassed(c: int, m: int, q: int, doy: int) returns (late: int)
    requires 0 <= c < 4 && 0 <= m < 25 && 0 <= q < 4
    requires 0 <= doy <= 365 && (doy == 365 ==> q == 3 && (m == 24 ==> c == 3))
    ensures 0 <= late <= 1 && late <= doy && (doy == 365 ==> late == 1)
    ensures (36524 * c + 1461 * m + 365 * q + doy) / 1460 == 25 * c + m + late
  {
    var doe, over := 36524 * c + 1461 * m + 365 * q + doy, m + 24 * c + 365 * q + doy;
    late := if over >= 1460 then 1 else 0;
    DivIs(doe, 1460, 25 * c + m + late, over - 1460 * late);
  }

  /** The formula inverts YearStart over a whole era. */
  lemma YearOfEraParts(c: int, m: int, q: int, doy: int)
    requires 0 <= c < 4 && 0 <= m < 25 && 0 <= q < 4
    requires 0 <= doy <= 365 && (doy == 365 ==> q == 3 && (m == 24 ==> c == 3))
    ensures YearOfEra(36524 * c + 1461 * m + 365 * q + doy) == 100 * c + 4 * m + q
  {
    var e := 1461 * m + 365 * q + doy;
    var doe := 36524 * c + e;
    CenturiesPassed(c, e);
    var late := FourYearsPassed(c, m, q, doy);
    var y := 100 * c + 4 * m + q;
    DivIs(365 * y + doy - late, 365, y, doy - late);
  }

  lemma YearOfEraIs(y: int, doy: int)
    requires 0 <= y < 400 && 0 <= doy < YearLength(y)
    ensures YearOfEra(YearStart(y) + doy) == y
  {
    var c, m, q := y / 100, y % 100 / 4, y % 100 % 4;
    YearParts(c, m, q);
    YearOfEraParts(c, m, q, doy);
  }

  /** Every day of an era is a day of one of its years. */
  lemma {:induction false} DayInEra(doe: int, y: int) returns (year: int)
    requires 0 <= y <= 399 && YearStart(y) <= doe < 146097
    ensures 0 <= year < 400 && YearStart(year) <= doe < YearStart(year) + YearLength(year)
    decreases 399 - y
  {
    YearStartStep(y);
    if doe < YearStart(y) + YearLength(y) {
      year := y;
    } else {
      year := DayInEra(doe, y + 1);
    }
  }

  function MonthStart(mp: int): int {
    (153 * mp + 2) / 5
  }

  /** The length of month mp of a March-based year, whose February has `feb` days. */
  function MonthLength(mp: int, feb: int): int
    requires 0 <= mp < 12
  {
    if mp == 11 then feb else MonthStart(mp + 1) - MonthStart(mp)
  }

  lemma MonthOfYear(mp: int, day: int)
    requires 0 <= mp < 12 && 1 <= day <= MonthLength(mp, 29)
    ensures (5 * (MonthStart(mp) + day - 1) + 2) / 153 == mp
  {
    assert mp == 0 || mp == 1 || mp == 2 || mp == 3 || mp == 4 || mp == 5
           || mp == 6 || mp == 7 || mp == 8 || mp == 9 || mp == 10 || mp == 11;
  }

  lemma DayInYear(doy: int)
    requires 0 <= doy < 366
    ensures var mp := (5 * doy + 2) / 153;
            0 <= mp < 12 && MonthStart(mp) <= doy && (mp < 11 ==> doy < MonthStart(mp + 1))
  {
    var mp := (5 * doy + 2) / 153;
    assert mp == 0 || mp == 1 || mp == 2 || mp == 3 || mp == 4 || mp == 5
           || mp == 6 || mp == 7 || mp == 8 || mp == 9 || mp == 10 || mp == 11;
  }

  /** A date in March-based terms: era, year of era, month from March, day. */
  datatype Marched = Marched(era: int, yoe: int, mp: int, day: int)

  predicate MarchedOk(d: Marched) {
    0 <= d.yoe < 400 && 0 <= d.mp < 12 && 1 <= d.day <= MonthLength(d.mp, if Leap(d.yoe + 1) then 29 else 28)
  }

  function March(c: Civil): Marched
    requires Valid(c)
  {
    var year := if c.month <= 2 then c.year - 1 else c.year;
    Marched(year / 400, year % 400, c.month + (if c.month > 2 then -3 else 9), c.day)
  }

  function Unmarch(d: Marched): Civil {
    var month := d.mp + (if d.mp < 10 then 3 else -9);
    Civil(d.yoe + d.era * 400 + (if month <= 2 then 1 else 0), month, d.day)
  }

  function MarchedDays(d: Marched): int {
    d.era * 146097 + YearStart(d.yoe) + MonthStart(d.mp) + d.day - 1 - 719468
  }

  lemma LeapPeriodic(era: int, yoe: int)
    ensures Leap(era * 400 + yoe) == Leap(yoe)
  {
    DivIs(era * 400 + yoe, 400, era + yoe / 400, yoe % 400);
    DivIs(era * 400 + yoe, 100, 4 * era + yoe / 100, yoe % 100);
    DivIs(era * 400 + yoe, 4, 100 * era + yoe / 4, yoe % 4);
  }

  lemma MarchValid(c: Civil)
    requires Valid(c)
    ensures MarchedOk(March(c))
  {
    var year := if c.month <= 2 then c.year - 1 else c.year;
    LeapPeriodic(year / 400, year % 400 + 1);
    assert year + 1 == year / 400 * 400 + (year % 400 + 1);
    hide Leap;
    assert c.month == 1 || c.month == 2 || c.month == 3 || c.month == 4 || c.month == 5 || c.month == 6
           || c.month == 7 || c.month == 8 || c.month == 9 || c.month == 10 || c.month == 11 || c.month == 12;
  }

  lemma MarchCounts(c: Civil)
    requires Valid(c)
    ensures DaysFromCivil(c) == MarchedDays(March(c))
  {
    hide Leap, TruncDiv;
    var year := if c.month <= 2 then c.year - 1 else c.year;
    FloorIsTrunc(year, 400);
    assert year == year / 400 * 400 + year % 400;
  }

  lemma MarchIs(c: Civil)
    requires Valid(c)
    ensures MarchedOk(March(c)) && Unmarch(March(c)) == c && DaysFromCivil(c) == MarchedDays(March(c))
  {
    hide Leap, DaysFromCivil, MarchedDays, MarchedOk;
    MarchValid(c);
    MarchCounts(c);
  }

  lemma UnmarchIs(d: Marched)
    requires MarchedOk(d)
    ensures Valid(Unmarch(d)) && March(Unmarch(d)) == d
  {
    DivIs(d.era * 400 + d.yoe, 400, d.era, d.yoe);
    LeapPeriodic(d.era, d.yoe + 1);
    assert d.mp == 0 || d.mp == 1 || d.mp == 2 || d.mp == 3 || d.mp == 4 || d.mp == 5
           || d.mp == 6 || d.mp == 7 || d.mp == 8 || d.mp == 9 || d.mp == 10 || d.mp == 11;
  }

  lemma DayOfYearBound(d: Marched)
    requires MarchedOk(d)
    ensures 0 <= MonthStart(d.mp) + d.day - 1 < YearLength(d.yoe) && d.day <= MonthLength(d.mp, 29)
  {
    assert d.mp == 0 || d.mp == 1 || d.mp == 2 || d.mp == 3 || d.mp == 4 || d.mp == 5
           || d.mp == 6 || d.mp == 7 || d.mp == 8 || d.mp == 9 || d.mp == 10 || d.mp == 11;
  }

  /** Splitting a day number into era and day of era. */
  lemma EraOfDays(era: int, doe: int)
    requires 0 <= doe < 146097
    ensures var z := era * 146097 + doe;
            TruncDiv(if z >= 0 then z else z - 146096, 146097) == era
  {
    var z := era * 146097 + doe;
    FloorIsTrunc(z, 146097);
    DivIs(z, 146097, era, doe);
  }

  lemma CivilInEraIs(d: Marched)
    requires MarchedOk(d)
    ensures CivilInEra(d.era, YearStart(d.yoe) + MonthStart(d.mp) + d.day - 1) == Unmarch(d)
  {
    hide YearOfEra, Leap, YearLength, MarchedOk;
    MarchedYear(d);
    DayOfYearBound(d);
    MonthOfYear(d.mp, d.day);
    YearOfEraIs(d.yoe, MonthStart(d.mp) + d.day - 1);
  }

  lemma MarchedYear(d: Marched)
    requires MarchedOk(d)
    ensures 0 <= d.yoe < 400 && 0 <= d.mp < 12 && d.day >= 1
  {
  }

  lemma CivilFromParts(era: int, doe: int)
    requires 0 <= doe < 146097
    ensures CivilFromDays(era * 146097 + doe - 719468) == CivilInEra(era, doe)
  {
    EraOfDays(era, doe);
    assert era * 146097 + doe - 719468 + 719468 - era * 146097 == doe;
  }

  lemma DayOfEraBound(d: Marched)
    requires MarchedOk(d)
    ensures 0 <= YearStart(d.yoe) + MonthStart(d.mp) + d.day - 1 < 146097
  {
    DayOfYearBound(d);
    YearStartGrows(d.yoe);
  }

  /** civilFromDays undoes the day number of any March-based date. */
  lemma CivilOfMarched(d: Marched)
    requires MarchedOk(d)
    ensures CivilFromDays(MarchedDays(d)) == Unmarch(d)
  {
    hide YearStart, MonthStart, CivilInEra, CivilFromDays, MarchedOk;
    var doe := YearStart(d.yoe) + MonthStart(d.mp) + d.day - 1;
    DayOfEraBound(d);
    CivilFromParts(d.era, doe);
    CivilInEraIs(d);
    assert MarchedDays(d) == d.era * 146097 + doe - 719468;
  }

  lemma YearStartGrows(y: int)
    requires 0 <= y < 400
    ensures 0 <= YearStart(y) && YearStart(y) + YearLength(y) <= 146097
  {
  }

  // ---------- the two directions ----------

  /** Every valid date comes back from its day number. */
  lemma CivilRoundTrip(c: Civil)
    requires Valid(c)
    ensures CivilFromDays(DaysFromCivil(c)) == c
  {
    MarchIs(c);
    CivilOfMarched(March(c));
  }

  /** Every day of an era has a March-based date. */
  lemma MarchedOfDays(era: int, doe: int) returns (d: Marched)
    requires 0 <= doe < 146097
    ensures MarchedOk(d) && d.era == era && YearStart(d.yoe) + MonthStart(d.mp) + d.day - 1 == doe
  {
    var yoe := DayInEra(doe, 0);
    var doy := doe - YearStart(yoe);
    DayInYear(doy);
    var mp := (5 * doy + 2) / 153;
    d := Marched(era, yoe, mp, doy - MonthStart(mp) + 1);
  }

  /** Every day number is the number of a valid date. */
  lemma DaysRoundTrip(days: int)
    ensures Valid(CivilFromDays(days)) && DaysFromCivil(CivilFromDays(days)) == days
  {
    var z := days + 719468;
    var d := MarchedOfDays(z / 146097, z % 146097);
    assert MarchedDays(d) == days;
    CivilOfMarched(d);
    UnmarchIs(d);
    MarchIs(Unmarch(d));
  }

  // ---------- the calendar, as a reference ----------

  function NextDay(c: Civil): Civil
    requires Valid(c)
  {
    if c.day < DaysInMonth(c.year, c.month) then c.(day := c.day + 1)
    else if c.month < 12 then Civil(c.year, c.month + 1, 1)
    else Civil(c.year + 1, 1, 1)
  }

  ghost predicate Before(a: Civil, b: Civil) {
    || a.year < b.year
    || (a.year == b.year && a.month < b.month)
    || (a.year == b.year && a.month == b.month && a.day < b.day)
  }

  /** The March-based year after this one. */
  lemma NextYear(year: int)
    ensures year % 400 < 399 ==> (year + 1) / 400 == year / 400 && (year + 1) % 400 == year % 400 + 1
    ensures year % 400 == 399 ==> (year + 1) / 400 == year / 400 + 1 && (year + 1) % 400 == 0
  {
    if year % 400 < 399 {
      DivIs(year + 1, 400, year / 400, year % 400 + 1);
    } else {
      DivIs(year + 1, 400, year / 400 + 1, 0);
    }
  }

  lemma NextInMonth(c: Civil)
    requires Valid(c) && c.day < DaysInMonth(c.year, c.month)
    ensures Valid(NextDay(c)) && MarchedDays(March(NextDay(c))) == MarchedDays(March(c)) + 1
  {
    hide YearStart, MonthStart, Leap;
  }

  lemma MonthEnds(year: int, month: int)
    requires 1 <= month <= 12 && month != 2
    ensures var mp := month + (if month > 2 then -3 else 9);
            MonthStart(mp + 1) == MonthStart(mp) + DaysInMonth(year, month)
  {
    hide Leap;
    assert month == 1 || month == 3 || month == 4 || month == 5 || month == 6
           || month == 7 || month == 8 || month == 9 || month == 10 || month == 11 || month == 12;
  }

  lemma NextMonth(c: Civil)
    requires Valid(c) && c.day == DaysInMonth(c.year, c.month) && c.month != 2
    ensures Valid(NextDay(c)) && MarchedDays(March(NextDay(c))) == MarchedDays(March(c)) + 1
  {
    MonthEnds(c.year, c.month);
    hide YearStart, MonthStart, Leap;
    var n := NextDay(c);
    assert n.month == 1 || n.month == c.month + 1;
    assert n.day == 1 && DaysInMonth(n.year, n.month) >= 1;
  }

  lemma YearAfterInEra(era: int, yoe: int)
    requires 0 <= yoe < 400
    ensures var a := Marched(era, yoe, 11, if Leap(yoe + 1) then 29 else 28);
            var b := if yoe < 399 then Marched(era, yoe + 1, 0, 1) else Marched(era + 1, 0, 0, 1);
            MarchedDays(b) == MarchedDays(a) + 1
  {
    hide YearStart, MonthStart, Leap;
    YearStartStep(yoe);
    FirstDays();
  }

  lemma FirstDays()
    ensures MonthStart(11) == 337 && MonthStart(0) == 0 && YearStart(0) == 0
  {
  }

  lemma YearAfter(year: int)
    ensures var a, b := Marched(year / 400, year % 400, 11, if Leap(year + 1) then 29 else 28), Marched((year + 1) / 400, (year + 1) % 400, 0, 1);
            MarchedDays(b) == MarchedDays(a) + 1
  {
    hide Leap, MarchedDays;
    NextYear(year);
    LeapPeriodic(year / 400, year % 400 + 1);
    assert year + 1 == year / 400 * 400 + (year % 400 + 1);
    YearAfterInEra(year / 400, year % 400);
  }

  lemma NextMarch(c: Civil)
    requires Valid(c) && c.day == DaysInMonth(c.year, c.month) && c.month == 2
    ensures Valid(NextDay(c)) && MarchedDays(March(NextDay(c))) == MarchedDays(March(c)) + 1
  {
    YearAfter(c.year - 1);
    hide YearStart, MonthStart, Leap, MarchedDays;
  }

  /** The day number counts: the epoch is 0, and the next day is one more. */
  lemma DaysCount(c: Civil)
    requires Valid(c)
    ensures DaysFromCivil(Civil(1970, 1, 1)) == 0
    ensures Valid(NextDay(c)) && DaysFromCivil(NextDay(c)) == DaysFromCivil(c) + 1
  {
    Epoch();
    hide DaysFromCivil, MarchedDays, March, Leap, NextDay, MarchedOk;
    if c.day < DaysInMonth(c.year, c.month) {
      NextInMonth(c);
    } else if c.month == 2 {
      NextMarch(c);
    } else {
      NextMonth(c);
    }
    MarchIs(c);
    MarchIs(NextDay(c));
  }

  lemma Epoch()
    ensures DaysFromCivil(Civil(1970, 1, 1)) == 0
  {
    assert TruncDiv(1969, 400) == 4;
  }

  lemma NextIsLater(c: Civil, d: Civil)
    requires Valid(c)
    ensures Before(c, NextDay(c)) && (Before(d, c) ==> Before(d, NextDay(c)))
  {
    hide Leap;
  }

  lemma {:induction false} LaterDays(days: int, n: nat)
    requires n > 0
    ensures Before(CivilFromDays(days), CivilFromDays(days + n))
    decreases n
  {
    hide CivilFromDays, DaysFromCivil, NextDay, Leap, Before, Valid;
    var last := CivilFromDays(days + n - 1);
    DaysRoundTrip(days + n - 1);
    DaysCount(last);
    CivilRoundTrip(NextDay(last));
    NextIsLater(last, CivilFromDays(days));
    if n > 1 {
      LaterDays(days, n - 1);
    }
  }

  lemma BeforeIsStrict(a: Civil, b: Civil)
    ensures !(Before(a, b) && Before(b, a)) && !Before(a, a)
  {
  }

  /** Dates and their day numbers are in the same order. */
  lemma OrderPreserved(a: Civil, b: Civil)
    requires Valid(a) && Valid(b)
    ensures Before(a, b) <==> DaysFromCivil(a) < DaysFromCivil(b)
  {
    hide CivilFromDays, DaysFromCivil, Before, Valid;
    var m, n := DaysFromCivil(a), DaysFromCivil(b);
    CivilRoundTrip(a);
    CivilRoundTrip(b);
    BeforeIsStrict(a, b);
    if m < n {
      LaterDays(m, n - m);
    } else if n < m {
      LaterDays(n, m - n);
    }
  }

  // ---------- text ----------

  const DASH: Byte := 45
  const DIGIT_0: Byte := 48

  function DigitOf(n: int): Byte
    requires 0 <= n < 10
  {
    n + DIGIT_0
  }

  predicate IsDigit(b: Byte) {
    48 <= b <= 57
  }

  /** printf's %04u-%02u-%02u for numbers that fit. */
  function Written(y: int, m: int, d: int): Bytes
    requires 0 <= y < 10000 && 0 <= m < 100 && 0 <= d < 100
  {
    [DigitOf(y / 10 / 10 / 10), DigitOf(y / 10 / 10 % 10), DigitOf(y / 10 % 10), DigitOf(y % 10), DASH,
     DigitOf(m / 10), DigitOf(m % 10), DASH, DigitOf(d / 10), DigitOf(d % 10)]
  }

  /** dateToText: the year is reduced through an unsigned word, so only 0 to 9999 survives. */
  function DateToText(days: int): Bytes {
    var c := CivilFromDays(days);
    DaysRoundTrip(days);
    Written(c.year % 0x1_0000_0000 % 10000, c.month % 100, c.day % 100)
  }

  /** The value of n digits from position `at`. */
  function Number(text: Bytes, at: nat, n: nat): int
    requires at + n <= |text|
  {
    if n == 0 then 0 else Number(text, at, n - 1) * 10 + (text[at + n - 1] as int - 48)
  }

  predicate Digits(text: Bytes, at: nat, n: nat)
    requires at + n <= |text|
  {
    forall i :: at <= i < at + n ==> IsDigit(text[i])
  }

  /** A full-date: YYYY-MM-DD, and a day that exists. */
  predicate FullDate(text: Bytes) {
    && |text| == 10 && text[4] == DASH && text[7] == DASH
    && Digits(text, 0, 4) && Digits(text, 5, 2) && Digits(text, 8, 2)
    && Valid(Civil(Number(text, 0, 4), Number(text, 5, 2), Number(text, 8, 2)))
  }

  /** textToDate: three runs of digits, each checked as it is read. */
  method TextToDate(text: Bytes) returns (r: Result<int, Error>)
    ensures r == if FullDate(text) then Ok(DaysFromCivil(Named(text))) else Err(InvalidDate)
  {
    if |text| != 10 || text[4] != DASH || text[7] != DASH {
      return Err(InvalidDate);
    }
    var field := [0, 0, 0];
    var at := 0;
    var part := 0;
    while part < 3
      invariant 0 <= part <= 3 && |field| == 3
      invariant at == [0, 5, 8, 11][part]
      invariant part > 0 ==> Digits(text, 0, 4) && field[0] == Number(text, 0, 4)
      invariant part > 1 ==> Digits(text, 5, 2) && field[1] == Number(text, 5, 2)
      invariant part > 2 ==> Digits(text, 8, 2) && field[2] == Number(text, 8, 2)
    {
      var start, digits := at, if part == 0 then 4 else 2;
      var value := 0;
      var d := 0;
      while d < digits
        invariant 0 <= d <= digits && at == start + d && value == Number(text, start, d) && Digits(text, start, d)
      {
        if text[at] < 48 || text[at] > 57 {
          return Err(InvalidDate);
        }
        value := value * 10 + (text[at] as int - 48);
        d, at := d + 1, at + 1;
      }
      field := field[part := value];
      at := at + 1;
      part := part + 1;
    }
    if field[1] < 1 || field[1] > 12 {
      return Err(InvalidDate);
    }
    if field[2] < 1 || field[2] > DaysInMonth(field[0], field[1]) {
      return Err(InvalidDate);
    }
    return Ok(DaysFromCivil(Civil(field[0], field[1], field[2])));
  }

  lemma NumberOfTwo(text: Bytes, at: nat)
    requires at + 2 <= |text|
    ensures Number(text, at, 2) == (text[at] as int - 48) * 10 + (text[at + 1] as int - 48)
  {
    assert Number(text, at, 1) == Number(text, at, 0) * 10 + (text[at] as int - 48);
  }

  lemma NumberOfFour(text: Bytes, at: nat)
    requires at + 4 <= |text|
    ensures Number(text, at, 4)
            == (text[at] as int - 48) * 1000 + (text[at + 1] as int - 48) * 100 + (text[at + 2] as int - 48) * 10 + (text[at + 3] as int - 48)
  {
    NumberOfTwo(text, at);
    assert Number(text, at, 3) == Number(text, at, 2) * 10 + (text[at + 2] as int - 48);
  }

  lemma WrittenReads(y: int, m: int, d: int)
    requires 0 <= y < 10000 && 0 <= m < 100 && 0 <= d < 100
    ensures var text := Written(y, m, d);
            && |text| == 10 && text[4] == DASH && text[7] == DASH
            && Digits(text, 0, 4) && Digits(text, 5, 2) && Digits(text, 8, 2)
            && Number(text, 0, 4) == y && Number(text, 5, 2) == m && Number(text, 8, 2) == d
  {
    hide Number;
    var text := Written(y, m, d);
    NumberOfFour(text, 0);
    NumberOfTwo(text, 5);
    NumberOfTwo(text, 8);
  }

  lemma FourDigits(a: int, b: int, c: int, d: int)
    requires 0 <= a < 10 && 0 <= b < 10 && 0 <= c < 10 && 0 <= d < 10
    ensures var y := a * 1000 + b * 100 + c * 10 + d;
            y % 10 == d && y / 10 % 10 == c && y / 10 / 10 % 10 == b && y / 10 / 10 / 10 == a
  {
    var y := a * 1000 + b * 100 + c * 10 + d;
    DivIs(y, 10, a * 100 + b * 10 + c, d);
    DivIs(a * 100 + b * 10 + c, 10, a * 10 + b, c);
    DivIs(a * 10 + b, 10, a, b);
  }

  lemma ReadsWritten(text: Bytes)
    requires FullDate(text)
    ensures 0 <= Number(text, 0, 4) < 10000 && 0 <= Number(text, 5, 2) < 100 && 0 <= Number(text, 8, 2) < 100
    ensures Written(Number(text, 0, 4), Number(text, 5, 2), Number(text, 8, 2)) == text
  {
    hide Number, Valid;
    NumberOfFour(text, 0);
    NumberOfTwo(text, 5);
    NumberOfTwo(text, 8);
    assert IsDigit(text[0]) && IsDigit(text[1]) && IsDigit(text[2]) && IsDigit(text[3]);
    assert IsDigit(text[5]) && IsDigit(text[6]) && IsDigit(text[8]) && IsDigit(text[9]);
    FourDigits(text[0] as int - 48, text[1] as int - 48, text[2] as int - 48, text[3] as int - 48);
    DivIs(Number(text, 5, 2), 10, text[5] as int - 48, text[6] as int - 48);
    DivIs(Number(text, 8, 2), 10, text[8] as int - 48, text[9] as int - 48);
  }

  /** The date a full-date names. */
  function Named(text: Bytes): Civil
    requires FullDate(text)
  {
    Civil(Number(text, 0, 4), Number(text, 5, 2), Number(text, 8, 2))
  }

  /** Reducing through unsigned words changes nothing in years 0000 to 9999. */
  lemma Reduced(c: Civil)
    requires Valid(c)
    ensures 0 <= c.month < 100 && 0 <= c.day < 100 && c.month % 100 == c.month && c.day % 100 == c.day
    ensures 0 <= c.year < 10000 ==> c.year % 0x1_0000_0000 % 10000 == c.year
  {
    hide Leap;
  }

  /** Every full-date comes back from the day it names. */
  lemma TextRoundTrip(text: Bytes)
    requires FullDate(text)
    ensures DateToText(DaysFromCivil(Named(text))) == text
  {
    hide Number, CivilFromDays, DaysFromCivil, Written, Valid;
    CivilRoundTrip(Named(text));
    Reduced(Named(text));
    ReadsWritten(text);
  }

  /** A day comes back from its text exactly when its year is 0000 to 9999. */
  lemma DateRoundTripIff(days: int)
    ensures var text := DateToText(days);
            (FullDate(text) && DaysFromCivil(Named(text)) == days) <==> 0 <= CivilFromDays(days).year <= 9999
  {
    hide Number, CivilFromDays, DaysFromCivil, Written, Valid, Digits;
    var c := CivilFromDays(days);
    DaysRoundTrip(days);
    Reduced(c);
    var y := c.year % 0x1_0000_0000 % 10000;
    WrittenReads(y, c.month, c.day);
    var back := Civil(y, c.month, c.day);
    if Valid(back) {
      CivilRoundTrip(back);
    }
  }

  /** The last day of year -1 is written as a date in 7295. */
  lemma YearMinusOne()
    ensures CivilFromDays(-719529) == Civil(-1, 12, 31)
    ensures DateToText(-719529)[..4] == [55, 50, 57, 53]
  {
    hide CivilFromDays, DaysFromCivil, Leap;
    LastOfMinusOne();
    assert Valid(Civil(-1, 12, 31));
    CivilRoundTrip(Civil(-1, 12, 31));
    assert -1 % 0x1_0000_0000 % 10000 == 7295;
    WrittenIs(7295, 12, 31);
  }

  lemma WrittenIs(y: int, m: int, d: int)
    requires y == 7295 && 0 <= m < 100 && 0 <= d < 100
    ensures Written(y, m, d)[..4] == [55, 50, 57, 53]
  {
  }

  lemma LastOfMinusOne()
    ensures DaysFromCivil(Civil(-1, 12, 31)) == -719529
  {
    assert TruncDiv(-400, 400) == -1;
  }
}
