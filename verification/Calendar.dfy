/** The closed-form calendar of apps/wifi-provisioner/src/ztp_manifest.c, against
    the Gregorian leap rule. */
module Calendar {
  import opened Common

  datatype Date = Date(y: int, m: int, d: int)

  // ----- the calendar as people count it -----

  predicate Leap(y: int) { y % 4 == 0 && (y % 100 != 0 || y % 400 == 0) }

  function DaysInMonth(y: int, m: int): int {
    if m == 2 then (if Leap(y) then 29 else 28)
    else if m == 4 || m == 6 || m == 9 || m == 11 then 30
    else 31
  }

  predicate Valid(t: Date) { 1 <= t.m <= 12 && 1 <= t.d <= DaysInMonth(t.y, t.m) }

  function NextDate(t: Date): Date {
    if t.d < DaysInMonth(t.y, t.m) then t.(d := t.d + 1)
    else if t.m < 12 then Date(t.y, t.m + 1, 1)
    else Date(t.y + 1, 1, 1)
  }

  predicate Earlier(a: Date, b: Date) {
    a.y < b.y || (a.y == b.y && (a.m < b.m || (a.m == b.m && a.d < b.d)))
  }

  // ----- the code -----

  /** days_from_civil. The caller has checked the month and the day's range; the
      unsigned sums then neither wrap nor go below zero. */
  function DaysFromCivil(y: int, m: int, d: int): int
    requires 1 <= m <= 12 && 1 <= d <= 31
  {
    var y1 := if m <= 2 then y - 1 else y;
    var era := CDiv(if y1 >= 0 then y1 else y1 - 399, 400);
    var yoe := y1 - era * 400;
    var doy := MonthStart(m + (if m > 2 then -3 else 9)) + d - 1;
    var doe := YearStart(yoe) + doy;
    era * 146097 + doe - 719468
  }

  /** The civil arithmetic of ztp_format_rfc3339. */
  function CivilFromDays(days: int): Date {
    var z := days + 719468;
    var era := CDiv(if z >= 0 then z else z - 146096, 146097);
    CivilOfEraDay(era, z - era * 146097)
  }

  function CivilOfEraDay(era: int, doe: int): Date {
    var yoe := YearOfEra(doe);
    var doy := doe - YearStart(yoe);
    var mp := (5 * doy + 2) / 153;
    var d := doy - MonthStart(mp) + 1;
    var m := if mp < 10 then mp + 3 else mp - 9;
    Date(yoe + era * 400 + (if m <= 2 then 1 else 0), m, d)
  }

  function YearOfEra(doe: int): int { (doe - doe / 1460 + doe / 36524 - doe / 146096) / 365 }

  // ----- C division made floor -----

  lemma EraIsFloor(y: int)
    ensures CDiv(if y >= 0 then y else y - 399, 400) == y / 400
  {
  }

  lemma DayEraIsFloor(z: int)
    ensures CDiv(if z >= 0 then z else z - 146096, 146097) == z / 146097
  {
  }

  lemma SplitEra(era: int, doe: int)
    requires 0 <= doe < 146097
    ensures (era * 146097 + doe) / 146097 == era && (era * 146097 + doe) % 146097 == doe
  {
  }

  lemma SplitCentury4(era: int, yoe: int)
    requires 0 <= yoe < 400
    ensures (era * 400 + yoe) / 400 == era && (era * 400 + yoe) % 400 == yoe
  {
  }

  // ----- years of an era -----

  /** Days before year y of an era that starts on March 1st. */
  function YearStart(y: int): int { 365 * y + y / 4 - y / 100 }

  /** The year of an era that starts in March is long when the civil year that
      its February falls in is a leap year. */
  function YearLength(y: int): int { if Leap(y + 1) then 366 else 365 }

  /** The closed form finds the year: day k of the year 100c + 4q + r. */
  lemma YearOfEraParts(c: int, q: int, r: int, k: int)
    requires 0 <= c < 4 && 0 <= q < 25 && 0 <= r < 4 && 0 <= k
    requires k < 365 || (k == 365 && r == 3 && (q != 24 || c == 3))
    ensures YearOfEra(36524 * c + 1461 * q + 365 * r + k) == 100 * c + 4 * q + r
  {
    var doe := 36524 * c + 1461 * q + 365 * r + k;
    var e := 24 * c + q + 365 * r + k;
    var over := if e >= 1460 then 1 else 0;
    assert doe == 1460 * (25 * c + q) + e;
    assert doe / 1460 == 25 * c + q + over;
    assert doe / 36524 - doe / 146096 == c;
    assert doe - doe / 1460 + doe / 36524 - doe / 146096 == 365 * (100 * c + 4 * q + r) + k - over;
  }

  lemma YearParts(y: int)
    requires 0 <= y < 400
    ensures var c, q, r := y / 100, y % 100 / 4, y % 4;
      && 0 <= c < 4 && 0 <= q < 25 && 0 <= r < 4 && y == 100 * c + 4 * q + r
      && YearStart(y) == 36524 * c + 1461 * q + 365 * r
      && (Leap(y + 1) <==> r == 3 && (q != 24 || c == 3))
  {
    var c, q, r := y / 100, y % 100 / 4, y % 4;
    assert y / 4 == 25 * c + q;
  }

  /** Year and day of year to day of era and back. */
  lemma YearOfEraOfDay(y: int, doy: int)
    requires 0 <= y < 400 && 0 <= doy < YearLength(y)
    ensures 0 <= YearStart(y) + doy < 146097
    ensures YearOfEra(YearStart(y) + doy) == y
  {
    YearParts(y);
    YearOfEraParts(y / 100, y % 100 / 4, y % 4, doy);
  }

  /** Every day of an era is in some year. */
  lemma DayOfEraSplit(doe: int) returns (y: int, doy: int)
    requires 0 <= doe < 146097
    ensures 0 <= y < 400 && 0 <= doy < YearLength(y) && doe == YearStart(y) + doy
  {
    var c := if doe == 146096 then 3 else doe / 36524;
    var in100 := doe - 36524 * c;
    var q := if in100 == 36524 then 24 else in100 / 1461;
    var in4 := in100 - 1461 * q;
    var r := if in4 == 1460 then 3 else in4 / 365;
    y, doy := 100 * c + 4 * q + r, in4 - 365 * r;
    assert y / 100 == c && y % 100 / 4 == q && y % 4 == r;
    YearParts(y);
  }

  // ----- months -----

  /** Days before month mp of a year that starts in March. */
  function MonthStart(mp: int): int { (153 * mp + 2) / 5 }

  lemma MonthOfDay(mp: int, d: int)
    requires 0 <= mp < 12 && 1 <= d
    requires if mp == 11 then d <= 29 else MonthStart(mp) + d <= MonthStart(mp + 1)
    ensures (5 * (MonthStart(mp) + d - 1) + 2) / 153 == mp
  {
  }

  lemma MonthLengths(y: int, m: int)
    requires 1 <= m <= 12
    ensures var mp := if m > 2 then m - 3 else m + 9;
      mp < 11 ==> MonthStart(mp + 1) - MonthStart(mp) == DaysInMonth(y, m)
  {
  }

  lemma DayOfYearSplit(doy: int) returns (mp: int, d: int)
    requires 0 <= doy <= 365
    ensures 0 <= mp < 12 && 1 <= d && doy == MonthStart(mp) + d - 1
    ensures if mp == 11 then d <= 29 else MonthStart(mp) + d <= MonthStart(mp + 1)
  {
    mp := (5 * doy + 2) / 153;
    d := doy - MonthStart(mp) + 1;
  }

  // ----- day numbers, without C division -----

  /** A March-based year and a day of it, as a day number. */
  function DayNumber(y1: int, doy: int): int {
    y1 / 400 * 146097 + YearStart(y1 % 400) + doy - 719468
  }

  lemma DaysFromCivilIs(y: int, m: int, d: int)
    requires 1 <= m <= 12 && 1 <= d <= 31
    ensures DaysFromCivil(y, m, d)
         == DayNumber(if m <= 2 then y - 1 else y,
                      MonthStart(if m > 2 then m - 3 else m + 9) + d - 1)
  {
    EraIsFloor(if m <= 2 then y - 1 else y);
  }

  lemma CivilFromDaysIs(y1: int, mp: int, d: int)
    requires 0 <= mp < 12 && 1 <= d && MonthStart(mp) + d - 1 < YearLength(y1)
    requires if mp == 11 then d <= 29 else MonthStart(mp) + d <= MonthStart(mp + 1)
    ensures var m := if mp < 10 then mp + 3 else mp - 9;
      CivilFromDays(DayNumber(y1, MonthStart(mp) + d - 1))
        == Date(if m <= 2 then y1 + 1 else y1, m, d)
  {
    hide CivilFromDays, CivilOfEraDay, YearStart, YearLength, DayNumber;
    var doy, yoe := MonthStart(mp) + d - 1, y1 % 400;
    YearLengthPeriodic(y1);
    YearOfEraOfDay(yoe, doy);
    hide MonthStart;
    CivilFromDayNumber(y1, doy);
    CivilOfEraDayIs(y1 / 400, yoe, mp, d);
    assert y1 == y1 / 400 * 400 + yoe;
  }

  lemma CivilFromDayNumber(y1: int, doy: int)
    requires 0 <= YearStart(y1 % 400) + doy < 146097
    ensures CivilFromDays(DayNumber(y1, doy))
         == CivilOfEraDay(y1 / 400, YearStart(y1 % 400) + doy)
  {
    hide YearStart, CivilOfEraDay;
    var z := y1 / 400 * 146097 + (YearStart(y1 % 400) + doy);
    DayEraIsFloor(z);
    SplitEra(y1 / 400, YearStart(y1 % 400) + doy);
  }

  lemma CivilOfEraDayIs(era: int, yoe: int, mp: int, d: int)
    requires 0 <= mp < 12 && 1 <= d
    requires if mp == 11 then d <= 29 else MonthStart(mp) + d <= MonthStart(mp + 1)
    requires YearOfEra(YearStart(yoe) + (MonthStart(mp) + d - 1)) == yoe
    ensures var m := if mp < 10 then mp + 3 else mp - 9;
      CivilOfEraDay(era, YearStart(yoe) + (MonthStart(mp) + d - 1))
        == Date(yoe + era * 400 + (if m <= 2 then 1 else 0), m, d)
  {
    hide YearStart, YearOfEra;
    MonthOfDay(mp, d);
  }

  lemma YearLengthPeriodic(y: int)
    ensures YearLength(y) == YearLength(y % 400)
  {
    var e, r := y / 400, y % 400;
    assert y == 400 * e + r;
    LeapPeriodic(e, r + 1);
    assert 400 * e + (r + 1) == y + 1;
  }

  lemma LeapPeriodic(e: int, r: int)
    ensures Leap(400 * e + r) == Leap(r)
  {
    SameRemainder4(100 * e, r);
    SameRemainder100(4 * e, r);
    SameRemainder400(e, r);
  }

  lemma SameRemainder4(a: int, r: int) ensures (4 * a + r) % 4 == r % 4 {}
  lemma SameRemainder100(a: int, r: int) ensures (100 * a + r) % 100 == r % 100 {}
  lemma SameRemainder400(a: int, r: int) ensures (400 * a + r) % 400 == r % 400 {}

  // ----- bijection -----

  lemma FebruaryFits(t: Date)
    requires Valid(t)
    ensures var mp := if t.m > 2 then t.m - 3 else t.m + 9;
      var y1 := if t.m <= 2 then t.y - 1 else t.y;
      && MonthStart(mp) + t.d - 1 < YearLength(y1)
      && if mp == 11 then t.d <= 29 else MonthStart(mp) + t.d <= MonthStart(mp + 1)
  {
    MonthLengths(t.y, t.m);
  }

  /** From a date to its day number and back. */
  lemma CivilOfDays(t: Date)
    requires Valid(t)
    ensures CivilFromDays(DaysFromCivil(t.y, t.m, t.d)) == t
  {
    hide DayNumber, CivilFromDays, DaysFromCivil, DaysInMonth, YearLength;
    FebruaryFits(t);
    DaysFromCivilIs(t.y, t.m, t.d);
    CivilFromDaysIs(if t.m <= 2 then t.y - 1 else t.y, if t.m > 2 then t.m - 3 else t.m + 9, t.d);
  }

  /** From a day number to its date and back; every day number has a valid date. */
  lemma DaysOfCivil(n: int)
    ensures var t := CivilFromDays(n);
      Valid(t) && t.d <= 31 && DaysFromCivil(t.y, t.m, t.d) == n
  {
    hide CivilFromDays, DaysFromCivil, YearStart, Leap;
    var z := n + 719468;
    var era, doe := z / 146097, z % 146097;
    var yoe, doy := DayOfEraSplit(doe);
    var y1 := era * 400 + yoe;
    SplitCentury4(era, yoe);
    assert n == DayNumber(y1, doy);
    YearLengthPeriodic(y1);
    CivilOfDayNumber(y1, doy);
  }

  lemma CivilOfDayNumber(y1: int, doy: int)
    requires 0 <= doy < YearLength(y1)
    ensures var t := CivilFromDays(DayNumber(y1, doy));
      Valid(t) && t.d <= 31 && DaysFromCivil(t.y, t.m, t.d) == DayNumber(y1, doy)
  {
    hide CivilFromDays, DaysFromCivil, DayNumber, Leap;
    var mp, d := DayOfYearSplit(doy);
    CivilFromDaysIs(y1, mp, d);
    var t := CivilFromDays(DayNumber(y1, doy));
    MonthLengths(t.y, t.m);
    DaysFromCivilIs(t.y, t.m, t.d);
  }

  // ----- counting -----

  /** The next calendar date has the next day number. */
  lemma NextDateIsNextDay(t: Date)
    requires Valid(t)
    ensures Valid(NextDate(t))
    ensures DaysFromCivil(NextDate(t).y, NextDate(t).m, NextDate(t).d)
         == DaysFromCivil(t.y, t.m, t.d) + 1
  {
    hide DaysFromCivil, DayNumber, Leap;
    var n := NextDate(t);
    DaysFromCivilIs(t.y, t.m, t.d);
    DaysFromCivilIs(n.y, n.m, n.d);
    MonthLengths(t.y, t.m);
    var y1 := if t.m <= 2 then t.y - 1 else t.y;
    var doy := MonthStart(if t.m > 2 then t.m - 3 else t.m + 9) + t.d - 1;
    NextDayNumber(y1, doy);
    if t.m == 2 && n.m == 3 {
      YearStartNext(t.y - 1);
      DayNumberLinear(y1, doy);
    }
  }

  lemma NextDayNumber(y: int, doy: int)
    ensures DayNumber(y, doy + 1) == DayNumber(y, doy) + 1
  {
  }

  lemma DayNumberLinear(y: int, doy: int)
    ensures DayNumber(y, doy) == DayNumber(y, 0) + doy
  {
  }

  lemma YearStartStep(yoe: int)
    requires 0 <= yoe < 400
    ensures if yoe == 399 then YearStart(yoe) + YearLength(yoe) == 146097 + YearStart(0)
            else YearStart(yoe + 1) == YearStart(yoe) + YearLength(yoe)
  {
    StepQuotient(yoe, 4);
    StepQuotient(yoe, 100);
    assert yoe < 399 ==> (yoe + 1) % 400 != 0;
  }

  lemma StepQuotient(y: int, k: int)
    requires k == 4 || k == 100
    ensures (y + 1) / k == y / k + if (y + 1) % k == 0 then 1 else 0
  {
  }

  lemma YearStartNext(y: int)
    ensures DayNumber(y + 1, 0) == DayNumber(y, 0) + YearLength(y)
  {
    var era, yoe := y / 400, y % 400;
    YearLengthPeriodic(y);
    YearStartStep(yoe);
    hide YearStart, YearLength;
    if yoe == 399 {
      SplitCentury4(era + 1, 0);
      assert y + 1 == (era + 1) * 400 + 0;
    } else {
      SplitCentury4(era, yoe + 1);
      assert y + 1 == era * 400 + (yoe + 1);
    }
  }

  /** Step the calendar n times. */
  function After(t: Date, n: nat): Date { if n == 0 then t else NextDate(After(t, n - 1)) }

  const EPOCH: Date := Date(1970, 1, 1)

  /** The closed form equals counting days one by one, from any date. */
  lemma {:induction false} DayNumbersCount(t: Date, n: nat)
    requires Valid(t)
    ensures Valid(After(t, n))
    ensures var a := After(t, n); DaysFromCivil(a.y, a.m, a.d) == DaysFromCivil(t.y, t.m, t.d) + n
  {
    hide DaysFromCivil, NextDate, DaysInMonth;
    if n > 0 {
      DayNumbersCount(t, n - 1);
      NextDateIsNextDay(After(t, n - 1));
    }
  }

  lemma EpochIsDayZero()
    ensures DaysFromCivil(1970, 1, 1) == 0 && Valid(EPOCH)
  {
  }

  /** In particular from the epoch, whose day number is 0; and backwards, every
      earlier day counts up to it. */
  lemma DayNumbersFromEpoch(n: int)
    ensures DaysFromCivil(1970, 1, 1) == 0
    ensures n >= 0 ==> CivilFromDays(n) == After(EPOCH, n)
    ensures n < 0 ==> After(CivilFromDays(n), -n) == EPOCH
  {
    EpochIsDayZero();
    hide DaysFromCivil, CivilFromDays, DaysInMonth, After;
    if n >= 0 {
      DayNumbersCount(EPOCH, n);
      CivilOfDays(After(EPOCH, n));
    } else {
      DaysOfCivil(n);
      DayNumbersCount(CivilFromDays(n), -n);
      CivilOfDays(After(CivilFromDays(n), -n));
      CivilOfDays(EPOCH);
    }
  }

  /** Dates come in the order of their day numbers. */
  lemma {:induction false} CivilMonotone(a: int, b: int)
    requires a < b
    ensures Earlier(CivilFromDays(a), CivilFromDays(b))
    decreases b - a
  {
    hide DaysFromCivil, CivilFromDays;
    DaysOfCivil(b - 1);
    var t := CivilFromDays(b - 1);
    NextDateIsNextDay(t);
    CivilOfDays(NextDate(t));
    if a < b - 1 { CivilMonotone(a, b - 1); }
  }
}
