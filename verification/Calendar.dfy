/** Civil dates from day counts, and ISO timestamps: src-tauri/core/src/time.rs. */
module Calendar {
  datatype Date = Date(year: int, month: int, day: int)

  /** Rust's `/` on integers truncates toward zero. */
  function Div(a: int, b: int): int
    requires b > 0
  {
    if a >= 0 then a / b else -(-a / b)
  }

  function YearOfEra(doe: int): int {
    Div(doe - Div(doe, 1460) + Div(doe, 36524) - Div(doe, 146_096), 365)
  }

  function DayOfYear(doe: int, yoe: int): int {
    doe - (365 * yoe + Div(yoe, 4) - Div(yoe, 100))
  }

  /** Month and day from a day of the March-based year. */
  function MonthDay(doy: int): (int, int) {
    var mp := Div(5 * doy + 2, 153);
    (if mp < 10 then mp + 3 else mp - 9, doy - Div(153 * mp + 2, 5) + 1)
  }

  /** The date of day `doe` of an era, from its year and its day of the March year. */
  function EraDate(era: int, doe: int): Date {
    var yoe := YearOfEra(doe);
    var (m, d) := MonthDay(DayOfYear(doe, yoe));
    Date(if m <= 2 then yoe + era * 400 + 1 else yoe + era * 400, m, d)
  }

  function CivilFromDays(days: int): Date {
    var z := days + 719_468;
    var era := Div(if z >= 0 then z else z - 146_096, 146_097);
    EraDate(era, z - era * 146_097)
  }

  // ---------------------------------------------------- the naive calendar

  predicate Leap(year: int) {
    year % 4 == 0 && (year % 100 != 0 || year % 400 == 0)
  }

  function DaysIn(year: int, month: int): int {
    if month == 2 then (if Leap(year) then 29 else 28)
    else if month == 4 || month == 6 || month == 9 || month == 11 then 30
    else 31
  }

  predicate Valid(d: Date) {
    1 <= d.month <= 12 && 1 <= d.day <= DaysIn(d.year, d.month)
  }

  function NextDay(d: Date): Date {
    if d.day < DaysIn(d.year, d.month) then d.(day := d.day + 1)
    else if d.month < 12 then Date(d.year, d.month + 1, 1)
    else Date(d.year + 1, 1, 1)
  }

  // ------------------------------------------------ years within a 400-year era

  /** Days before year `y` of an era whose years start in March. */
  function Before(y: int): int {
    365 * y + y / 4 - y / 100 + y / 400
  }

  /** The closed form on a day written as centuries, four-year cycles, years and days. */
  lemma YearFromParts(c: int, q: int, k: int, d: int)
    requires 0 <= c < 4 && 0 <= q < 25 && 0 <= k < 4 && 0 <= d <= 365
    requires d == 365 ==> k == 3 && (q == 24 ==> c == 3)
    ensures YearOfEra(36524 * c + 1461 * q + 365 * k + d) == 100 * c + 4 * q + k
  {
    var doe, low := 36524 * c + 1461 * q + 365 * k + d, 24 * c + q + 365 * k + d;
    var e := if low >= 1460 then 1 else 0;
    var last := if doe == 146_096 then 1 else 0;
    assert doe / 1460 == 25 * c + q + e;
    assert doe / 36524 == c + last;
    assert doe / 146_096 == last;
    assert doe - doe / 1460 + doe / 36524 - doe / 146_096 == 365 * (100 * c + 4 * q + k) + d - e;
  }

  lemma YearOfEraCorrect(doe: int)
    requires 0 <= doe < 146_097
    ensures 0 <= YearOfEra(doe) < 400
    ensures Before(YearOfEra(doe)) <= doe < Before(YearOfEra(doe) + 1)
  {
    var c := if doe / 36524 < 3 then doe / 36524 else 3;
    var r := doe - 36524 * c;
    var q := if r / 1461 < 24 then r / 1461 else 24;
    var s := r - 1461 * q;
    var k := if s / 365 < 3 then s / 365 else 3;
    YearFromParts(c, q, k, s - 365 * k);
    BeforeFromParts(c, q, k);
    hide YearOfEra, Before;
  }

  lemma BeforeFromParts(c: int, q: int, k: int)
    requires 0 <= c < 4 && 0 <= q < 25 && 0 <= k < 4
    ensures var y := 100 * c + 4 * q + k;
      && Before(y) == 36524 * c + 1461 * q + 365 * k
      && Before(y + 1) == Before(y) + 365 + (if k == 3 && (q < 24 || c == 3) then 1 else 0)
  {
    var y := 100 * c + 4 * q + k;
    assert y / 4 == 25 * c + q && y / 100 == c && y / 400 == 0;
    if k == 3 {
      assert (y + 1) / 4 == 25 * c + q + 1;
      assert (y + 1) / 100 == if q == 24 then c + 1 else c;
      assert (y + 1) / 400 == if q == 24 && c == 3 then 1 else 0;
    } else {
      assert (y + 1) / 4 == 25 * c + q && (y + 1) / 100 == c && (y + 1) / 400 == 0;
    }
  }

  /** The year is the only one whose days include `doe`. */
  lemma YearUnique(doe: int, y: int)
    requires 0 <= doe < 146_097 && 0 <= y < 400 && Before(y) <= doe < Before(y + 1)
    ensures YearOfEra(doe) == y
  {
    YearOfEraCorrect(doe);
    var y' := YearOfEra(doe);
    if y < y' {
      BeforeMonotone(y + 1, y');
    } else if y' < y {
      BeforeMonotone(y' + 1, y);
    }
  }

  lemma BeforeMonotone(a: int, b: int)
    requires a <= b
    ensures Before(a) <= Before(b)
  {
  }

  // ------------------------------------------------- months within a March year

  /** Days before month `mp` of a March-based year. */
  function MonthStart(mp: int): int {
    (153 * mp + 2) / 5
  }

  lemma MonthOf(mp: int, doy: int)
    requires 0 <= mp < 12 && MonthStart(mp) <= doy < MonthStart(mp + 1) && doy <= 365
    ensures MonthDay(doy) == (if mp < 10 then mp + 3 else mp - 9, doy - MonthStart(mp) + 1)
  {
    assert 153 * mp <= 5 * doy + 2 < 153 * (mp + 1);
  }

  lemma MonthExists(doy: int) returns (mp: int)
    requires 0 <= doy <= 365
    ensures 0 <= mp < 12 && MonthStart(mp) <= doy < MonthStart(mp + 1)
  {
    mp := (5 * doy + 2) / 153;
  }

  /** Month lengths of the March year are those of the civil year, February last. */
  lemma MonthLength(mp: int, year: int)
    requires 0 <= mp < 11
    ensures MonthStart(mp + 1) - MonthStart(mp) == DaysIn(year, if mp < 10 then mp + 3 else mp - 9)
  {
  }

  // ------------------------------------------------------------ era arithmetic

  function Era(days: int): int { (days + 719_468) / 146_097 }

  function DayOfEra(days: int): int { (days + 719_468) % 146_097 }

  /** The adjusted truncating division is a floor division, for negative days too. */
  lemma FloorDivision(z: int)
    ensures Div(if z >= 0 then z else z - 146_096, 146_097) == z / 146_097
    ensures z - z / 146_097 * 146_097 == z % 146_097
  {
    if z < 0 {
      var n := 146_096 - z;
      assert 146_097 * (n / 146_097) <= n < 146_097 * (n / 146_097) + 146_097;
      assert 146_097 * -(n / 146_097) <= z < 146_097 * (-(n / 146_097) + 1);
    }
  }

  lemma CivilByEra(days: int)
    ensures CivilFromDays(days) == EraDate(Era(days), DayOfEra(days))
  {
    FloorDivision(days + 719_468);
  }

  // ------------------------------------------------------- one day to the next

  /** Whether the March year `y` of an era ends with a 29 February. */
  predicate LongYear(y: int) {
    Before(y + 1) - Before(y) == 366
  }

  lemma LeapShift(year: int, era: int)
    ensures Leap(year + era * 400) <==> Leap(year)
  {
    ShiftBy4(year, era);
    ShiftBy100(year, era);
    ShiftBy400(year, era);
  }

  lemma ShiftBy4(year: int, era: int)
    ensures (year + era * 400) % 4 == year % 4
  {
    var q, r := year / 4 + 100 * era, year % 4;
    assert year + era * 400 == 4 * q + r;
  }

  lemma ShiftBy100(year: int, era: int)
    ensures (year + era * 400) % 100 == year % 100
  {
    var q, r := year / 100 + 4 * era, year % 100;
    assert year + era * 400 == 100 * q + r;
  }

  lemma ShiftBy400(year: int, era: int)
    ensures (year + era * 400) % 400 == year % 400
  {
    var q, r := year / 400 + era, year % 400;
    assert year + era * 400 == 400 * q + r;
  }

  lemma YearLength(era: int, y: int)
    requires 0 <= y < 400
    ensures Before(y + 1) - Before(y) == 365 || LongYear(y)
    ensures LongYear(y) <==> Leap(y + 1 + era * 400)
  {
    LeapShift(y + 1, era);
    assert (y + 1) / 4 - y / 4 == if (y + 1) % 4 == 0 then 1 else 0;
    assert (y + 1) / 100 - y / 100 == if (y + 1) % 100 == 0 then 1 else 0;
    assert (y + 1) / 400 - y / 400 == if (y + 1) % 400 == 0 then 1 else 0;
  }

  lemma DayOfYearIs(y: int, doy: int)
    requires 0 <= y < 400
    ensures DayOfYear(Before(y) + doy, y) == doy
  {
    assert y / 400 == 0;
  }

  function March(era: int, y: int, mp: int, day: int): Date {
    Date(if mp >= 10 then y + 1 + era * 400 else y + era * 400, if mp < 10 then mp + 3 else mp - 9, day)
  }

  lemma EraDateIs(era: int, doe: int, y: int, m: int, d: int)
    requires YearOfEra(doe) == y && MonthDay(DayOfYear(doe, y)) == (m, d)
    ensures EraDate(era, doe) == Date(if m <= 2 then y + era * 400 + 1 else y + era * 400, m, d)
  {
    hide YearOfEra, DayOfYear, MonthDay;
  }

  lemma BeforeBounds(y: int)
    requires 0 <= y < 400
    ensures Before(0) == 0 <= Before(y) && Before(y + 1) <= 146_097 == Before(400)
  {
    BeforeMonotone(0, y);
    BeforeMonotone(y + 1, 400);
    assert Before(0) == 0 && Before(400) == 146_097;
  }

  /** A date of an era, from year and day of the March year. */
  lemma EraDateFrom(era: int, y: int, mp: int, doy: int)
    requires 0 <= y < 400 && 0 <= mp < 12 && MonthStart(mp) <= doy < MonthStart(mp + 1)
    requires doy < Before(y + 1) - Before(y) <= 366
    ensures EraDate(era, Before(y) + doy) == March(era, y, mp, doy - MonthStart(mp) + 1)
  {
    hide *;
    var doe := Before(y) + doy;
    DayInYear(mp, doy);
    BeforeBounds(y);
    YearUnique(doe, y);
    DayOfYearIs(y, doy);
    MonthOf(mp, doy);
    EraDateIs(era, doe, y, if mp < 10 then mp + 3 else mp - 9, doy - MonthStart(mp) + 1);
    MarchIs(era, y, mp, doy - MonthStart(mp) + 1);
  }

  lemma DayInYear(mp: int, doy: int)
    requires 0 <= mp < 12 && MonthStart(mp) <= doy
    ensures 0 <= MonthStart(mp) <= doy
  {
  }

  lemma MarchIs(era: int, y: int, mp: int, day: int)
    requires 0 <= mp < 12
    ensures var m := if mp < 10 then mp + 3 else mp - 9;
      March(era, y, mp, day) == Date(if m <= 2 then y + era * 400 + 1 else y + era * 400, m, day)
  {
  }

  lemma EraParts(days: int)
    ensures days + 719_468 == 146_097 * Era(days) + DayOfEra(days) && 0 <= DayOfEra(days) < 146_097
  {
  }

  lemma MonthParts(y: int, doe: int) returns (mp: int)
    requires 0 <= y < 400 && Before(y) <= doe < Before(y + 1)
    ensures Before(y + 1) - Before(y) <= 366
    ensures 0 <= mp < 12 && MonthStart(mp) <= doe - Before(y) < MonthStart(mp + 1)
  {
    YearLength(0, y);
    mp := MonthExists(doe - Before(y));
  }

  /** Every day count is a day `doy` of month `mp` of year `y` of an era. */
  lemma CivilParts(days: int) returns (era: int, y: int, mp: int, doy: int)
    ensures 0 <= y < 400 && 0 <= mp < 12 && MonthStart(mp) <= doy < MonthStart(mp + 1)
    ensures doy < Before(y + 1) - Before(y) <= 366
    ensures days + 719_468 == 146_097 * era + Before(y) + doy
  {
    EraParts(days);
    YearOfEraCorrect(DayOfEra(days));
    era, y := Era(days), YearOfEra(DayOfEra(days));
    doy := DayOfEra(days) - Before(y);
    mp := MonthParts(y, DayOfEra(days));
  }

  lemma EraIs(days: int, era: int, doe: int)
    requires 0 <= doe < 146_097 && days + 719_468 == 146_097 * era + doe
    ensures Era(days) == era && DayOfEra(days) == doe
  {
  }

  lemma CivilAt(days: int, era: int, y: int, mp: int, doy: int)
    requires 0 <= y < 400 && 0 <= mp < 12 && MonthStart(mp) <= doy < MonthStart(mp + 1)
    requires doy < Before(y + 1) - Before(y) <= 366
    requires days + 719_468 == 146_097 * era + Before(y) + doy
    ensures CivilFromDays(days) == March(era, y, mp, doy - MonthStart(mp) + 1)
  {
    assert MonthStart(mp) >= 0;
    hide Before, Era, DayOfEra, MonthStart, EraDate;
    BeforeBounds(y);
    EraIs(days, era, Before(y) + doy);
    CivilByEra(days);
    EraDateFrom(era, y, mp, doy);
  }

  lemma FebruaryLength(era: int, y: int)
    requires 0 <= y < 400
    ensures MonthStart(11) + DaysIn(y + 1 + era * 400, 2) == Before(y + 1) - Before(y)
  {
    YearLength(era, y);
  }

  /** Month `mp` of March year `y` ends where its civil month does. */
  lemma MonthEnd(era: int, y: int, mp: int, day: int)
    requires 0 <= y < 400 && 0 <= mp < 12
    ensures var d := March(era, y, mp, day);
            MonthStart(mp) + DaysIn(d.year, d.month)
              == if mp < 11 then MonthStart(mp + 1) else Before(y + 1) - Before(y)
  {
    if mp < 11 {
      MonthLength(mp, March(era, y, mp, day).year);
    } else {
      FebruaryLength(era, y);
    }
  }

  lemma YearDays(y: int)
    requires 0 <= y < 400
    ensures 365 <= Before(y + 1) - Before(y) <= 366
  {
    YearLength(0, y);
    hide Before, Leap;
  }

  lemma MarchFirst(era: int, y: int)
    ensures MonthStart(0) == 0 && MonthStart(1) == 31
    ensures March(era, y, 0, 1) == Date(y + era * 400, 3, 1)
  {
  }

  lemma FirstOfMarch(days: int, era: int, y: int)
    requires 0 <= y < 400 && days + 719_468 == 146_097 * era + Before(y)
    ensures CivilFromDays(days) == Date(y + era * 400, 3, 1)
  {
    hide *;
    YearDays(y);
    MarchFirst(era, y);
    CivilAt(days, era, y, 0, 0);
  }

  lemma NewYear(days: int, era: int, y: int)
    requires 0 <= y < 400 && days + 719_468 == 146_097 * era + Before(y + 1)
    ensures CivilFromDays(days) == Date(y + 1 + era * 400, 3, 1)
  {
    hide *;
    if y < 399 {
      FirstOfMarch(days, era, y + 1);
    } else {
      BeforeBounds(y);
      assert y + 1 == 400;
      FirstOfMarch(days, era + 1, 0);
    }
  }

  /** The calendar's own successor of a day of a March year. */
  lemma NextMarch(era: int, y: int, mp: int, day: int, length: int)
    requires 0 <= y < 400 && 0 <= mp < 12 && 1 <= day <= length
    requires var d := March(era, y, mp, day); length == DaysIn(d.year, d.month)
    ensures Valid(March(era, y, mp, day))
    ensures NextDay(March(era, y, mp, day)) ==
      if day < length then March(era, y, mp, day + 1)
      else if mp < 11 then March(era, y, mp + 1, 1)
      else Date(y + 1 + era * 400, 3, 1)
  {
  }

  lemma NextCivil(days: int, era: int, y: int, mp: int, doy: int, length: int)
    requires 0 <= y < 400 && 0 <= mp < 12 && MonthStart(mp) <= doy < MonthStart(mp + 1)
    requires doy < Before(y + 1) - Before(y) <= 366
    requires days + 719_468 == 146_097 * era + Before(y) + doy
    requires MonthStart(mp) + length == if mp < 11 then MonthStart(mp + 1) else Before(y + 1) - Before(y)
    ensures var day := doy - MonthStart(mp) + 1;
            CivilFromDays(days + 1) ==
              if day < length then March(era, y, mp, day + 1)
              else if mp < 11 then March(era, y, mp + 1, 1)
              else Date(y + 1 + era * 400, 3, 1)
  {
    if doy - MonthStart(mp) + 1 < length {
      CivilAt(days + 1, era, y, mp, doy + 1);
    } else if mp < 11 {
      NextMonth(days + 1, era, y, mp + 1);
    } else {
      NewYear(days + 1, era, y);
    }
  }

  /** Every day count gives a date that exists, and the next count gives the next day. */
  lemma NextCountNextDay(days: int)
    ensures Valid(CivilFromDays(days)) && CivilFromDays(days + 1) == NextDay(CivilFromDays(days))
  {
    var era, y, mp, doy := CivilParts(days);
    var day := doy - MonthStart(mp) + 1;
    var d := March(era, y, mp, day);
    var length := DaysIn(d.year, d.month);
    CivilAt(days, era, y, mp, doy);
    MonthEnd(era, y, mp, day);
    NextMarch(era, y, mp, day, length);
    NextCivil(days, era, y, mp, doy, length);
  }

  lemma NextMonth(days: int, era: int, y: int, mp: int)
    requires 0 <= y < 400 && 0 < mp < 12 && days + 719_468 == 146_097 * era + Before(y) + MonthStart(mp)
    ensures CivilFromDays(days) == March(era, y, mp, 1)
  {
    YearLength(0, y);
    CivilAt(days, era, y, mp, MonthStart(mp));
  }

  // ------------------------------------------------------ agreement and inverse

  const EPOCH := Date(1970, 1, 1)

  function PreviousDay(d: Date): Date {
    if d.day > 1 then d.(day := d.day - 1)
    else if d.month > 1 then Date(d.year, d.month - 1, DaysIn(d.year, d.month - 1))
    else Date(d.year - 1, 12, 31)
  }

  /** Walking the calendar one day at a time from the epoch. */
  function Walk(days: int): Date
    decreases if days >= 0 then days else -days
  {
    if days == 0 then EPOCH
    else if days > 0 then NextDay(Walk(days - 1))
    else PreviousDay(Walk(days + 1))
  }

  lemma PreviousOfNext(d: Date)
    requires Valid(d)
    ensures PreviousDay(NextDay(d)) == d
  {
  }

  lemma Epoch()
    ensures CivilFromDays(0) == EPOCH
  {
    YearFromParts(3, 17, 1, 306);
  }

  /** The closed form is the naive calendar, for every integer day. */
  lemma {:induction false} AgreesWithWalk(days: int)
    ensures CivilFromDays(days) == Walk(days)
    decreases if days >= 0 then days else -days
  {
    hide CivilFromDays, NextDay, PreviousDay, Valid;
    if days == 0 {
      Epoch();
    } else if days > 0 {
      AgreesWithWalk(days - 1);
      NextCountNextDay(days - 1);
    } else {
      AgreesWithWalk(days + 1);
      NextCountNextDay(days);
      PreviousOfNext(CivilFromDays(days));
    }
  }

  /** The inverse day count, March-based. */
  function DaysFromCivil(d: Date): int {
    var year := if d.month <= 2 then d.year - 1 else d.year;
    var mp := if d.month <= 2 then d.month + 9 else d.month - 3;
    146_097 * (year / 400) + Before(year % 400) + MonthStart(mp) + d.day - 1 - 719_468
  }

  /** The inverse restores every day count, and every valid date is some day's. */
  lemma CivilRoundTrip(days: int)
    ensures DaysFromCivil(CivilFromDays(days)) == days
  {
    var era, y, mp, doy := CivilParts(days);
    CivilAt(days, era, y, mp, doy);
    assert (y + era * 400) / 400 == era && (y + era * 400) % 400 == y;
  }

  lemma DateRoundTrip(d: Date)
    requires Valid(d)
    ensures CivilFromDays(DaysFromCivil(d)) == d
  {
    var year := if d.month <= 2 then d.year - 1 else d.year;
    var mp := if d.month <= 2 then d.month + 9 else d.month - 3;
    var era, y, doy := year / 400, year % 400, MonthStart(mp) + d.day - 1;
    assert year == y + era * 400;
    FebruaryLength(era, y);
    if mp < 11 {
      MonthLength(mp, d.year);
    }
    CivilAt(DaysFromCivil(d), era, y, mp, doy);
  }

  // ------------------------------------------------------------- 64-bit range

  const I64_MAX: int := 0x7FFF_FFFF_FFFF_FFFF

  predicate FitsI64(x: int) {
    -I64_MAX - 1 <= x <= I64_MAX
  }

  /** Every sum and product on the way that can be large. */
  predicate StepsFit(days: int) {
    var z := days + 719_468;
    var dividend := if z >= 0 then z else z - 146_096;
    var era := Div(dividend, 146_097);
    && FitsI64(z) && FitsI64(dividend) && FitsI64(era * 146_097) && FitsI64(z - era * 146_097)
    && FitsI64(YearOfEra(z - era * 146_097) + era * 400 + 1)
  }

  /** The arithmetic leaves the 64-bit range only where the first addition does, at the far future end. */
  lemma OverflowOnlyAtTheEnd(days: int)
    requires FitsI64(days)
    ensures StepsFit(days) <==> days <= I64_MAX - 719_468
  {
    var z := days + 719_468;
    FloorDivision(z);
    YearOfEraCorrect(z % 146_097);
  }
}
