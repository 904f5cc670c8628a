/** Days since the Unix epoch (`wn_DaysFromCivil`, `wn_DaysInMonth` in `wn_x509.c`). */
module CivilDate {
  import opened Bytes

  // ----- the code --------------------------------------------------------------------------

  /** C division: the quotient is truncated toward zero. */
  function TruncDiv(a: int, b: int): int
    requires b > 0
  {
    if a >= 0 then a / b else 0 - ((0 - a) / b)
  }

  predicate Leap(y: int) { y % 4 == 0 && (y % 100 != 0 || y % 400 == 0) }

  const MONTH_DAYS: seq<int> := [31, 28, 31, 30, 31, 30, 31, 31, 30, 31, 30, 31]

  function DaysInMonth(y: int, m: int): (d: int)
    requires 1 <= m <= 12
    ensures 28 <= d <= 31
  {
    if m == 2 && Leap(y) then 29 else MONTH_DAYS[m - 1]
  }

  // The year that starts on 1 March and contains the date.
  function MarchYear(y: int, m: int): int { if m <= 2 then y - 1 else y }

  function Era(y: int): int { TruncDiv(if y >= 0 then y else y - 399, 400) }

  function DayOfYear(m: int, d: int): int { (153 * (m + (if m > 2 then -3 else 9)) + 2) / 5 + d - 1 }

  function DaysFromCivil(y: int, m: int, d: int): int {
    var y1 := MarchYear(y, m);
    var era := Era(y1);
    var yoe := y1 - era * 400;
    var doe := yoe * 365 + yoe / 4 - yoe / 100 + DayOfYear(m, d);
    era * 146097 + doe - 719468
  }

  // ----- counting days one month and one year at a time ------------------------------------

  predicate ValidDate(y: int, m: int, d: int) { 0 <= y && 1 <= m <= 12 && 1 <= d <= DaysInMonth(y, m) }

  function YearDays(y: int): int { if Leap(y) then 366 else 365 }

  function DaysBeforeYear(y: nat): int { if y == 0 then 0 else DaysBeforeYear(y - 1) + YearDays(y - 1) }

  function DaysBeforeMonth(y: int, m: int): int
    requires 1 <= m <= 12
    decreases m
  {
    if m == 1 then 0 else DaysBeforeMonth(y, m - 1) + DaysInMonth(y, m - 1)
  }

  /** The day count of a date, 1970-01-01 being day 0. */
  function DayNumber(y: int, m: int, d: int): int
    requires ValidDate(y, m, d)
  {
    DaysBeforeYear(y) - DaysBeforeYear(1970) + DaysBeforeMonth(y, m) + d - 1
  }

  datatype Date = Date(y: int, m: int, d: int)

  function NextDate(t: Date): Date
    requires ValidDate(t.y, t.m, t.d)
  {
    if t.d < DaysInMonth(t.y, t.m) then Date(t.y, t.m, t.d + 1)
    else if t.m < 12 then Date(t.y, t.m + 1, 1)
    else Date(t.y + 1, 1, 1)
  }

  // ----- proofs ----------------------------------------------------------------------------

  lemma {:induction false} YearsClosedForm(y: nat)
    ensures DaysBeforeYear(y) == 365 * y + (y + 3) / 4 - (y + 99) / 100 + (y + 399) / 400
  {
    if y > 0 {
      YearsClosedForm(y - 1);
      LeapStep(y - 1);
      LeapNests(y - 1);
    }
  }

  // Each of the three divisions steps exactly at the multiples of its divisor.
  lemma LeapStep(y: nat)
    ensures (y + 4) / 4 - (y + 3) / 4 == (if y % 4 == 0 then 1 else 0)
    ensures (y + 100) / 100 - (y + 99) / 100 == (if y % 100 == 0 then 1 else 0)
    ensures (y + 400) / 400 - (y + 399) / 400 == (if y % 400 == 0 then 1 else 0)
  {
    StepAt(y, 4);
    StepAt(y, 100);
    StepAt(y, 400);
  }

  lemma LeapNests(y: nat)
    ensures y % 400 == 0 ==> y % 100 == 0
    ensures y % 100 == 0 ==> y % 4 == 0
  {
    if y % 400 == 0 {
      DivModUnique(y, 100, 4 * (y / 400), 0);
    }
    if y % 100 == 0 {
      DivModUnique(y, 4, 25 * (y / 100), 0);
    }
  }

  lemma StepAt(y: nat, k: nat)
    requires k > 1
    ensures (y + k) / k - (y + (k - 1)) / k == (if y % k == 0 then 1 else 0)
  {
    var q, r := y / k, y % k;
    assert y == q * k + r;
    assert (q + 1) * k == q * k + k;
    DivModUnique(y + k, k, q + 1, r);
    if r == 0 {
      DivModUnique(y + (k - 1), k, q, k - 1);
    } else {
      DivModUnique(y + (k - 1), k, q + 1, r - 1);
    }
  }

  /** The truncating division and its correction compute the floor: the year of the era is in range. */
  lemma EraIsFloor(y: int)
    ensures Era(y) == y / 400 && 0 <= y - Era(y) * 400 < 400
  {}

  lemma EraSplit(y: int, era: int, yoe: int)
    requires y == 400 * era + yoe && 0 <= yoe < 400
    ensures y / 4 == 100 * era + yoe / 4 && y / 100 == 4 * era + yoe / 100 && y / 400 == era
  {}

  /** Days from 1 March to the start of a month, by the linear formula. */
  lemma MarchOffset(y: int, m: int)
    requires 1 <= m <= 12
    ensures m > 2 ==> DaysBeforeMonth(y, m) == DaysBeforeMonth(y, 3) + DayOfYear(m, 1)
    ensures m <= 2 ==> DaysBeforeMonth(y, m) == DayOfYear(m, 1) - 306
    ensures DaysBeforeMonth(y, 3) == if Leap(y) then 60 else 59
  {
    assert DaysBeforeMonth(y, 2) == 31;
    assert DaysBeforeMonth(y, 3) == 31 + DaysInMonth(y, 2);
    FromMarch(y, m);
  }

  const FROM_MARCH: seq<int> := [0, 31, 61, 92, 122, 153, 184, 214, 245, 275]

  lemma FromMarch(y: int, m: int)
    requires 1 <= m <= 12
    ensures m > 2 ==> DaysBeforeMonth(y, m) == DaysBeforeMonth(y, 3) + FROM_MARCH[m - 3]
    decreases m
  {}

  /** The days before 1 March of year `y`, and before 1 January of the next, in era terms. */
  lemma MarchFirst(y: int)
    requires -1 <= y
    ensures DaysBeforeYear(y + 1) == Era(y) * 146097 + 365 * (y - Era(y) * 400)
                                     + (y - Era(y) * 400) / 4 - (y - Era(y) * 400) / 100 + 366
  {
    EraIsFloor(y);
    EraSplit(y, Era(y), y - Era(y) * 400);
    YearsClosedForm(y + 1);
    assert (y + 4) / 4 == y / 4 + 1 && (y + 100) / 100 == y / 100 + 1 && (y + 400) / 400 == y / 400 + 1;
  }

  lemma EpochYear()
    ensures DaysBeforeYear(1970) == 719528
  {
    YearsClosedForm(1970);
  }

  /** The civil-date formula counts days, for every Gregorian date from year 0 on. */
  lemma CivilCountsDays(y: int, m: int, d: int)
    requires ValidDate(y, m, d)
    ensures DaysFromCivil(y, m, d) == DayNumber(y, m, d)
  {
    hide DaysBeforeYear, DaysBeforeMonth, Era;
    EpochYear();
    MarchOffset(y, m);
    MarchFirst(MarchYear(y, m));
    if m > 2 {
      YearEnd(y);
    }
  }

  lemma YearEnd(y: nat)
    ensures DaysBeforeYear(y + 1) == DaysBeforeYear(y) + YearDays(y)
  {}

  /** Consecutive dates differ by one, and the epoch is day 0. */
  lemma ConsecutiveDates(t: Date)
    requires ValidDate(t.y, t.m, t.d)
    ensures var n := NextDate(t);
      ValidDate(n.y, n.m, n.d) && DaysFromCivil(n.y, n.m, n.d) == DaysFromCivil(t.y, t.m, t.d) + 1
    ensures DaysFromCivil(1970, 1, 1) == 0
  {
    hide DaysFromCivil, DaysBeforeYear, DaysBeforeMonth;
    var n := NextDate(t);
    CivilCountsDays(t.y, t.m, t.d);
    CivilCountsDays(n.y, n.m, n.d);
    CivilCountsDays(1970, 1, 1);
    MonthLengths(t.y, t.m);
    MonthLengths(n.y, n.m);
    MonthLengths(1970, 1);
    YearEnd(t.y);
  }

  lemma MonthLengths(y: int, m: int)
    requires 1 <= m <= 12
    ensures DaysBeforeMonth(y, 1) == 0
    ensures m < 12 ==> DaysBeforeMonth(y, m + 1) == DaysBeforeMonth(y, m) + DaysInMonth(y, m)
    ensures DaysBeforeMonth(y, 12) + 31 == YearDays(y)
  {
    FromMarch(y, 12);
    MarchOffset(y, 3);
  }

  /** Every intermediate value stays in the C types' ranges for the years a certificate can name. */
  lemma IntermediatesInRange(y: int, m: int, d: int)
    requires ValidDate(y, m, d) && y <= 9999
    ensures var y1 := MarchYear(y, m);
      var yoe := y1 - Era(y1) * 400;
      && 0 <= yoe <= 399 && 0 <= DayOfYear(m, d) <= 365
      && 0 <= yoe * 365 + yoe / 4 - yoe / 100 + DayOfYear(m, d) <= 146096
      && -719528 <= DaysFromCivil(y, m, d) <= 2932896
  {
    var y1 := MarchYear(y, m);
    EraIsFloor(y1);
    var yoe := y1 - Era(y1) * 400;
    DayOfYearRange(y, m, d);
    LastDayOfMarchYear(yoe, y1);
  }

  lemma DayOfYearRange(y: int, m: int, d: int)
    requires ValidDate(y, m, d)
    ensures 0 <= DayOfYear(m, d) <= (if Leap(MarchYear(y, m) + 1) then 365 else 364)
  {}

  lemma LastDayOfMarchYear(yoe: int, y: int)
    requires 0 <= yoe <= 399 && y % 400 == yoe
    ensures var last := if Leap(y + 1) then 365 else 364;
      365 * yoe + yoe / 4 - yoe / 100 + last <= 146096
  {}
}
