/** Civil-date arithmetic (crates/ciphr-audit/src/time.rs) and the Gregorian calendar it computes. */
module Calendar {

  datatype Date = Date(year: int, month: int, day: int)

  // ----- the source's arithmetic

  /** Rust's `/` on signed integers, for a positive divisor: rounds toward zero. */
  function TruncatingDiv(a: int, b: int): int
    requires b > 0
  {
    if a >= 0 then a / b else -((-a) / b)
  }

  function Era(z: int): int {
    TruncatingDiv(if z >= 0 then z else z - 146096, 146097)
  }

  function YearOfEra(doe: int): int {
    (doe - doe / 1460 + doe / 36524 - doe / 146096) / 365
  }

  function DayOfYear(doe: int): int {
    doe - (365 * YearOfEra(doe) + YearOfEra(doe) / 4 - YearOfEra(doe) / 100)
  }

  function MonthPrime(doy: int): int {
    (5 * doy + 2) / 153
  }

  function DayOf(doy: int): int {
    doy - (153 * MonthPrime(doy) + 2) / 5 + 1
  }

  function MonthOf(doy: int): int {
    if MonthPrime(doy) < 10 then MonthPrime(doy) + 3 else MonthPrime(doy) - 9
  }

  /** `u32::try_from(v).unwrap_or(1)`. */
  function ToU32Or1(v: int): int {
    if 0 <= v < 0x1_0000_0000 then v else 1
  }

  function CivilInEra(era: int, doe: int): Date {
    var year := YearOfEra(doe) + era * 400;
    var day := ToU32Or1(DayOf(DayOfYear(doe)));
    var month := ToU32Or1(MonthOf(DayOfYear(doe)));
    Date(if month <= 2 then year + 1 else year, month, day)
  }

  function CivilFromDays(days: int): Date {
    var z := days + 719468;
    CivilInEra(Era(z), z - Era(z) * 146097)
  }

  // ----- the Gregorian calendar

  predicate IsLeap(year: int) {
    year % 4 == 0 && (year % 100 != 0 || year % 400 == 0)
  }

  function DaysInMonth(year: int, month: int): int {
    if month == 2 then (if IsLeap(year) then 29 else 28)
    else if month == 4 || month == 6 || month == 9 || month == 11 then 30
    else 31
  }

  predicate IsDate(d: Date) {
    1 <= d.month <= 12 && 1 <= d.day <= DaysInMonth(d.year, d.month)
  }

  function NextDay(d: Date): Date {
    if d.day < DaysInMonth(d.year, d.month) then d.(day := d.day + 1)
    else if d.month < 12 then Date(d.year, d.month + 1, 1)
    else Date(d.year + 1, 1, 1)
  }

  predicate Before(a: Date, b: Date) {
    a.year < b.year || (a.year == b.year && (a.month < b.month || (a.month == b.month && a.day < b.day)))
  }

  // ----- the arithmetic computes the calendar

  lemma EraIsFloor(z: int)
    ensures Era(z) == z / 146097
    ensures z - Era(z) * 146097 == z % 146097
  {
    if z < 0 {
      var n := -z;
      assert (n + 146096) / 146097 == -(z / 146097);
    }
  }

  /** The first day of a year of the era, counted from 1 March. */
  function YearStart(yoe: int): int {
    365 * yoe + yoe / 4 - yoe / 100
  }

  /** Whether the year of the era that begins in March ends with a leap day. */
  predicate EndsInLeapDay(yoe: int) {
    (yoe + 1) % 4 == 0 && ((yoe + 1) % 100 != 0 || yoe + 1 == 400)
  }

  function YearLength(yoe: int): int {
    if EndsInLeapDay(yoe) then 366 else 365
  }

  /** Writing the year as century, four-year cycle and remainder linearizes the estimate. */
  lemma EstimateIsExact(c: int, q: int, k: int, s: int)
    requires 0 <= c < 4 && 0 <= q < 25 && 0 <= k < 4
    requires 0 <= s < YearLength(100 * c + 4 * q + k)
    ensures YearOfEra(36524 * c + 1461 * q + 365 * k + s) == 100 * c + 4 * q + k
  {
    var doe := 36524 * c + 1461 * q + 365 * k + s;
    assert s == 365 ==> k == 3 && (q < 24 || c == 3);
    var a, b, e := doe / 1460, doe / 36524, doe / 146096;
    assert e == if doe == 146096 then 1 else 0;
    assert b == if doe == 146096 then 4 else c;
    assert 25 * c + q <= a <= 25 * c + q + 1;
    assert a == 25 * c + q + 1 ==> k == 3 && 24 * c + q + s >= 365;
  }

  /** A day of the era as century, four-year cycle, year and day. */
  lemma DecomposeDay(doe: int) returns (c: int, q: int, k: int, s: int)
    requires 0 <= doe < 146097
    ensures 0 <= c < 4 && 0 <= q < 25 && 0 <= k < 4
    ensures 0 <= s < YearLength(100 * c + 4 * q + k)
    ensures doe == 36524 * c + 1461 * q + 365 * k + s
  {
    c := if doe == 146096 then 3 else doe / 36524;
    var r := doe - 36524 * c;
    q := if r == 36524 then 24 else r / 1461;
    var t := r - 1461 * q;
    k := if t >= 1460 then 3 else t / 365;
    s := t - 365 * k;
  }

  lemma YearStartOf(c: int, q: int, k: int)
    requires 0 <= c < 4 && 0 <= q < 25 && 0 <= k < 4
    ensures YearStart(100 * c + 4 * q + k) == 36524 * c + 1461 * q + 365 * k
  {
  }

  /** The decomposition of a day of the era, and its year's bounds. */
  lemma YearOfEraBounds(doe: int)
    requires 0 <= doe < 146097
    ensures 0 <= YearOfEra(doe) < 400
    ensures 0 <= DayOfYear(doe) < YearLength(YearOfEra(doe))
  {
    var c, q, k, s := DecomposeDay(doe);
    EstimateIsExact(c, q, k, s);
    YearStartOf(c, q, k);
  }

  lemma YearStartAdvances(y: int, z: int)
    requires 0 <= y < z < 400
    ensures YearStart(y) + YearLength(y) <= YearStart(z)
    ensures z == y + 1 ==> YearStart(y) + YearLength(y) == YearStart(z)
  {
  }

  lemma YearOfEraIs(doe: int, yoe: int)
    requires 0 <= doe < 146097 && 0 <= yoe < 400
    requires YearStart(yoe) <= doe < YearStart(yoe) + YearLength(yoe)
    ensures YearOfEra(doe) == yoe
  {
    YearOfEraBounds(doe);
    if YearOfEra(doe) < yoe {
      YearStartAdvances(YearOfEra(doe), yoe);
    } else if yoe < YearOfEra(doe) {
      YearStartAdvances(yoe, YearOfEra(doe));
    }
  }

  /** The month lengths of a year that begins in March; February takes what is left. */
  predicate ThirtyDays(mp: int) {
    mp == 1 || mp == 3 || mp == 6 || mp == 8
  }

  lemma MonthAndDay(doy: int)
    requires 0 <= doy <= 365
    ensures 0 <= MonthPrime(doy) < 12 && 1 <= DayOf(doy)
    ensures DayOf(doy) <= if MonthPrime(doy) == 11 then doy - 336 else if ThirtyDays(MonthPrime(doy)) then 30 else 31
  {
  }

  lemma NextDayInYear(doy: int)
    requires 0 <= doy < 365
    ensures MonthPrime(doy) < 11 ==>
              if DayOf(doy) == (if ThirtyDays(MonthPrime(doy)) then 30 else 31)
              then MonthPrime(doy + 1) == MonthPrime(doy) + 1 && DayOf(doy + 1) == 1
              else MonthPrime(doy + 1) == MonthPrime(doy) && DayOf(doy + 1) == DayOf(doy) + 1
    ensures MonthPrime(doy) == 11 ==> MonthPrime(doy + 1) == 11 && DayOf(doy + 1) == DayOf(doy) + 1
  {
  }

  lemma Mod400(y: int, k: int)
    ensures (y + k * 400) % 400 == y % 400
  {
  }

  lemma Mod100(y: int, k: int)
    ensures (y + k * 100) % 100 == y % 100
  {
  }

  lemma Mod4(y: int, k: int)
    ensures (y + k * 4) % 4 == y % 4
  {
  }

  lemma LeapYears(yoe: int, era: int)
    requires 0 <= yoe < 400
    ensures EndsInLeapDay(yoe) <==> IsLeap(yoe + era * 400 + 1)
  {
    var y := yoe + 1;
    Mod400(y, era);
    Mod100(y, era * 4);
    Mod4(y, era * 100);
  }

  /** The date of a day given by its era, year of the era and day of that year. */
  function DateAt(era: int, yoe: int, doy: int): Date {
    var year := yoe + era * 400;
    Date(if MonthOf(doy) <= 2 then year + 1 else year, MonthOf(doy), DayOf(doy))
  }

  function DayNumber(era: int, yoe: int, doy: int): int {
    era * 146097 + YearStart(yoe) + doy - 719468
  }

  predicate IsPosition(yoe: int, doy: int) {
    0 <= yoe < 400 && 0 <= doy < YearLength(yoe)
  }

  lemma EraAt(z: int, era: int, doe: int)
    requires 0 <= doe < 146097 && z == era * 146097 + doe
    ensures Era(z) == era && z - Era(z) * 146097 == doe
  {
    EraIsFloor(z);
    assert z / 146097 == era && z % 146097 == doe;
  }

  lemma CivilInEraAt(era: int, yoe: int, doy: int)
    requires IsPosition(yoe, doy)
    ensures CivilInEra(era, YearStart(yoe) + doy) == DateAt(era, yoe, doy)
    ensures ToU32Or1(DayOf(doy)) == DayOf(doy) && ToU32Or1(MonthOf(doy)) == MonthOf(doy)
  {
    YearOfEraIs(YearStart(yoe) + doy, yoe);
    MonthAndDay(doy);
  }

  lemma CivilAt(era: int, yoe: int, doy: int)
    requires IsPosition(yoe, doy)
    ensures CivilFromDays(DayNumber(era, yoe, doy)) == DateAt(era, yoe, doy)
  {
    CivilInEraAt(era, yoe, doy);
    EraAt(DayNumber(era, yoe, doy) + 719468, era, YearStart(yoe) + doy);
  }

  lemma PositionOf(days: int) returns (era: int, yoe: int, doy: int)
    ensures IsPosition(yoe, doy) && days == DayNumber(era, yoe, doy)
  {
    var z := days + 719468;
    var doe := z % 146097;
    YearOfEraBounds(doe);
    era, yoe, doy := z / 146097, YearOfEra(doe), DayOfYear(doe);
  }

  lemma NextDate(era: int, yoe: int, doy: int)
    requires IsPosition(yoe, doy)
    ensures IsDate(DateAt(era, yoe, doy))
    ensures doy + 1 < YearLength(yoe) ==> NextDay(DateAt(era, yoe, doy)) == DateAt(era, yoe, doy + 1)
    ensures doy + 1 == YearLength(yoe) ==> NextDay(DateAt(era, yoe, doy)) == Date(yoe + era * 400 + 1, 3, 1)
  {
    LeapYears(yoe, era);
    MonthAndDay(doy);
    if doy < 365 {
      NextDayInYear(doy);
    }
    assert MonthPrime(doy) == 11 ==> DayOf(doy) == doy - 336;
  }

  /** Any numbering that agrees with the positions counts the days one by one. */
  lemma NumberingCountsDays(dates: int -> Date, days: int)
    requires forall era, yoe, doy :: IsPosition(yoe, doy) ==> dates(DayNumber(era, yoe, doy)) == DateAt(era, yoe, doy)
    ensures IsDate(dates(days)) && dates(days + 1) == NextDay(dates(days))
  {
    var era, yoe, doy := PositionOf(days);
    NextDate(era, yoe, doy);
    if doy + 1 < YearLength(yoe) {
      assert dates(DayNumber(era, yoe, doy + 1)) == DateAt(era, yoe, doy + 1);
    } else if yoe < 399 {
      YearStartAdvances(yoe, yoe + 1);
      assert dates(DayNumber(era, yoe + 1, 0)) == DateAt(era, yoe + 1, 0);
    } else {
      assert dates(DayNumber(era + 1, 0, 0)) == DateAt(era + 1, 0, 0);
    }
  }

  /** Consecutive day counts are consecutive days. */
  lemma SuccessorIsNextDay(days: int)
    ensures IsDate(CivilFromDays(days))
    ensures CivilFromDays(days + 1) == NextDay(CivilFromDays(days))
  {
    forall era, yoe, doy | IsPosition(yoe, doy)
      ensures CivilFromDays(DayNumber(era, yoe, doy)) == DateAt(era, yoe, doy)
    {
      CivilAt(era, yoe, doy);
    }
    NumberingCountsDays(CivilFromDays, days);
  }

  /** Neither conversion to an unsigned month or day ever falls back to 1. */
  lemma FallbacksAreUnreachable(days: int)
    ensures var z := days + 719468;
            var doy := DayOfYear(z - Era(z) * 146097);
            ToU32Or1(DayOf(doy)) == DayOf(doy) && ToU32Or1(MonthOf(doy)) == MonthOf(doy)
  {
    EraIsFloor(days + 719468);
    YearOfEraBounds((days + 719468) % 146097);
    MonthAndDay(DayOfYear((days + 719468) % 146097));
  }

  lemma EpochIsFirstOfJanuary1970()
    ensures CivilFromDays(0) == Date(1970, 1, 1)
  {
  }

  lemma {:induction false} SuccessorsAdvance(dates: int -> Date, a: int, b: int)
    requires forall d :: IsDate(dates(d)) && dates(d + 1) == NextDay(dates(d))
    requires a < b
    ensures Before(dates(a), dates(b))
    decreases b - a
  {
    assert dates((b - 1) + 1) == NextDay(dates(b - 1));
    if a < b - 1 {
      SuccessorsAdvance(dates, a, b - 1);
    }
  }

  lemma LaterDaysAreLaterDates(a: int, b: int)
    requires a < b
    ensures Before(CivilFromDays(a), CivilFromDays(b))
  {
    forall d
      ensures IsDate(CivilFromDays(d)) && CivilFromDays(d + 1) == NextDay(CivilFromDays(d))
    {
      SuccessorIsNextDay(d);
    }
    SuccessorsAdvance(CivilFromDays, a, b);
  }
}
