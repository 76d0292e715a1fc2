/**
 * The proleptic Gregorian calendar of java.time: LocalDate's year range,
 * leap years, the epoch-day count (days since 1970-01-01) and its inverse,
 * and Instant.toEpochMilli's overflow-checked conversion to a Java long.
 */
module Calendar {
  import opened Wrappers

  /** A LocalDate's fields, not yet checked. */
  datatype Date = Date(year: int, month: int, day: int)

  /** Year.MIN_VALUE and Year.MAX_VALUE. */
  const MinYear: int := -999_999_999
  const MaxYear: int := 999_999_999

  /** Days from 0000-01-01 to 1970-01-01. */
  const DaysTo1970: int := 719_528

  /** Days in one 400-year Gregorian cycle. */
  const DaysPerCycle: int := 146_097

  const SecondsPerDay: int := 86_400
  const MillisPerDay: int := 86_400_000

  /** The range of a Java long. */
  const LongMin: int := -0x8000_0000_0000_0000
  const LongMax: int := 0x7FFF_FFFF_FFFF_FFFF

  type Long = x: int | LongMin <= x <= LongMax

  predicate IsLeap(y: int)
  {
    y % 4 == 0 && (y % 100 != 0 || y % 400 == 0)
  }

  function YearLength(y: int): int
  {
    if IsLeap(y) then 366 else 365
  }

  function DaysInMonth(y: int, m: int): int
    requires 1 <= m <= 12
  {
    if m == 2 then (if IsLeap(y) then 29 else 28)
    else if m == 4 || m == 6 || m == 9 || m == 11 then 30
    else 31
  }

  /** What LocalDate.of accepts (and what the STRICT resolver lets through). */
  predicate ValidDate(d: Date)
  {
    MinYear <= d.year <= MaxYear && 1 <= d.month <= 12 && 1 <= d.day <= DaysInMonth(d.year, d.month)
  }

  /** Days from 0000-01-01 to January 1st of year y (negative before year 0). */
  function DaysBeforeYear(y: int): int
  {
    365 * y + (y + 3) / 4 - (y + 99) / 100 + (y + 399) / 400
  }

  /** Days from January 1st to the first of month m (m = 13 gives the whole year). */
  function DaysBeforeMonth(y: int, m: int): (r: int)
    requires 1 <= m <= 13
    ensures m == 13 ==> r == YearLength(y)
  {
    var common :=
      if m == 1 then 0 else if m == 2 then 31 else if m == 3 then 59
      else if m == 4 then 90 else if m == 5 then 120 else if m == 6 then 151
      else if m == 7 then 181 else if m == 8 then 212 else if m == 9 then 243
      else if m == 10 then 273 else if m == 11 then 304 else if m == 12 then 334
      else 365;
    common + (if m > 2 && IsLeap(y) then 1 else 0)
  }

  /** LocalDate.toEpochDay: the number of days from 1970-01-01 to d. */
  function EpochDay(d: Date): int
    requires 1 <= d.month <= 12
  {
    DaysBeforeYear(d.year) + DaysBeforeMonth(d.year, d.month) + d.day - 1 - DaysTo1970
  }

  // ---------------------------------------------------------------------
  // Arithmetic facts about the year count
  // ---------------------------------------------------------------------

  /** A month starts where the previous one ends. */
  lemma MonthStep(y: int, m: int)
    requires 1 <= m <= 12
    ensures DaysBeforeMonth(y, m) + DaysInMonth(y, m) == DaysBeforeMonth(y, m + 1)
  {
  }

  lemma MulAtLeast(d: int, t: int)
    requires d > 0 && t >= 1
    ensures d * t >= d
    decreases t
  {
    if t > 1 {
      MulAtLeast(d, t - 1);
      assert d * t == d * (t - 1) + d;
    }
  }

  /** Euclidean division is determined by its defining equation. */
  lemma DivUnique(a: int, d: int, q: int, r: int)
    requires d > 0 && 0 <= r < d && a == d * q + r
    ensures a / d == q && a % d == r
  {
    var q', r' := a / d, a % d;
    assert a == d * q' + r' && 0 <= r' < d;
    if q' < q {
      assert d * q - d * q' == d * (q - q');
      MulAtLeast(d, q - q');
    } else if q' > q {
      assert d * q' - d * q == d * (q' - q);
      MulAtLeast(d, q' - q);
    }
  }

  /** Adding one to the dividend moves the quotient up exactly when it reaches a multiple. */
  lemma DivStep(a: int, d: int)
    requires d > 0
    ensures (a + 1) / d == a / d + (if (a + 1) % d == 0 then 1 else 0)
  {
    var q, r := a / d, a % d;
    assert a == d * q + r;
    if r == d - 1 {
      assert a + 1 == d * (q + 1) + 0;
      DivUnique(a + 1, d, q + 1, 0);
    } else {
      DivUnique(a + 1, d, q, r + 1);
    }
  }

  /** Shifting the dividend by whole multiples of d. */
  lemma DivShift(a: int, d: int, k: int)
    requires d > 0
    ensures (a + d * k) / d == a / d + k && (a + d * k) % d == a % d
  {
    var q, r := a / d, a % d;
    assert a == d * q + r;
    assert a + d * k == d * (q + k) + r;
    DivUnique(a + d * k, d, q + k, r);
  }

  /** Consecutive years start YearLength days apart. */
  lemma YearStep(y: int)
    ensures DaysBeforeYear(y + 1) == DaysBeforeYear(y) + YearLength(y)
  {
    StepAt(y, 4);
    StepAt(y, 100);
    StepAt(y, 400);
    LeapCount(y);
  }

  /** The length of a year by inclusion and exclusion over the divisors 4, 100 and 400. */
  lemma LeapCount(y: int)
    ensures YearLength(y) == 365 + (if y % 4 == 0 then 1 else 0) - (if y % 100 == 0 then 1 else 0)
                                  + (if y % 400 == 0 then 1 else 0)
  {
    if y % 400 == 0 {
      DivUnique(y, 100, 4 * (y / 400), 0);
    }
    if y % 100 == 0 {
      DivUnique(y, 4, 25 * (y / 100), 0);
    }
  }

  /** (y + d) / d counts one more multiple of d than (y + d - 1) / d exactly when d divides y. */
  lemma StepAt(y: int, d: int)
    requires d > 0
    ensures (y + d) / d == (y + d - 1) / d + (if y % d == 0 then 1 else 0)
  {
    DivStep(y + d - 1, d);
    DivShift(y, d, 1);
  }

  /** The calendar repeats every 400 years. */
  lemma CycleShift(q: int, k: int)
    ensures DaysBeforeYear(400 * q + k) == DaysPerCycle * q + DaysBeforeYear(k)
    ensures IsLeap(400 * q + k) == IsLeap(k)
    ensures YearLength(400 * q + k) == YearLength(k)
  {
    DivShift(k + 3, 4, 100 * q);
    DivShift(k + 99, 100, 4 * q);
    DivShift(k + 399, 400, q);
    DivShift(k, 4, 100 * q);
    DivShift(k, 100, 4 * q);
    DivShift(k, 400, q);
  }

  lemma {:induction false} DaysBeforeYearMonotonic(a: int, b: int)
    requires a <= b
    ensures DaysBeforeYear(a) <= DaysBeforeYear(b)
    decreases b - a
  {
    if a < b {
      DaysBeforeYearMonotonic(a, b - 1);
      YearStep(b - 1);
    }
  }

  lemma DaysBeforeMonthMonotonic(y: int, a: int, b: int)
    requires 1 <= a <= b <= 13
    ensures DaysBeforeMonth(y, a) <= DaysBeforeMonth(y, b)
  {
  }

  // ---------------------------------------------------------------------
  // The inverse: LocalDate.ofEpochDay
  // ---------------------------------------------------------------------

  /** The year k in [0, 400) of a 400-year cycle in which day r of the cycle falls. */
  function YearOfCycle(r: int, k: int): (y: int)
    requires 0 <= k < 400 && DaysBeforeYear(k) <= r < DaysPerCycle
    ensures k <= y < 400 && DaysBeforeYear(y) <= r < DaysBeforeYear(y + 1)
    decreases 400 - k
  {
    if r < DaysBeforeYear(k + 1) then k else YearOfCycle(r, k + 1)
  }

  /**
   * The month in which (0-based) day `doy` of year y falls, searching from
   * month m; December catches everything after the start of December.
   */
  function MonthOfYear(y: int, doy: int, m: int): (r: int)
    requires 1 <= m <= 12
    ensures m <= r <= 12
    ensures DaysBeforeMonth(y, m) <= doy < YearLength(y) ==>
              DaysBeforeMonth(y, r) <= doy < DaysBeforeMonth(y, r + 1)
    decreases 13 - m
  {
    if m == 12 || doy < DaysBeforeMonth(y, m + 1) then m else MonthOfYear(y, doy, m + 1)
  }

  lemma CycleEnds()
    ensures DaysBeforeYear(0) == 0 && DaysBeforeYear(400) == DaysPerCycle
  {
  }

  /** Within a 400-year cycle starting at year 400q, day r falls in year 400q+k when year k's span holds r. */
  lemma CycleYear(z: int, q: int, r: int, k: int)
    requires z == DaysPerCycle * q + r
    requires 0 <= k < 400 && DaysBeforeYear(k) <= r < DaysBeforeYear(k + 1)
    ensures DaysBeforeYear(400 * q + k) + (r - DaysBeforeYear(k)) == z
    ensures 0 <= r - DaysBeforeYear(k) < YearLength(400 * q + k)
  {
    YearStep(k);
    CycleShift(q, k);
  }

  /** The year, and the 0-based day within it, of the z-th day counted from 0000-01-01. */
  function YearAndDay(z: int): (yd: (int, int))
    ensures DaysBeforeYear(yd.0) + yd.1 == z
    ensures 0 <= yd.1 < YearLength(yd.0)
  {
    CycleEnds();
    var r := z % DaysPerCycle;
    CycleYearAndDay(z / DaysPerCycle, r, YearOfCycle(r, 0))
  }

  /** Year 400q + k and its day: day r of the cycle that starts at year 400q, with r in year k of that cycle. */
  function CycleYearAndDay(q: int, r: int, k: int): (yd: (int, int))
    requires 0 <= k < 400 && DaysBeforeYear(k) <= r < DaysBeforeYear(k + 1)
    ensures DaysBeforeYear(yd.0) + yd.1 == DaysPerCycle * q + r
    ensures 0 <= yd.1 < YearLength(yd.0)
  {
    CycleYear(DaysPerCycle * q + r, q, r, k);
    (400 * q + k, r - DaysBeforeYear(k))
  }

  /** LocalDate.ofEpochDay: the date n days after 1970-01-01. */
  function OfEpochDay(n: int): (d: Date)
    ensures 1 <= d.month <= 12
  {
    var (y, doy) := YearAndDay(n + DaysTo1970);
    var m := MonthOfYear(y, doy, 1);
    Date(y, m, doy - DaysBeforeMonth(y, m) + 1)
  }

  /** ofEpochDay yields a calendar date, and toEpochDay gives back the day count. */
  lemma EpochDayOfEpochDay(n: int)
    ensures 1 <= OfEpochDay(n).day <= DaysInMonth(OfEpochDay(n).year, OfEpochDay(n).month)
    ensures EpochDay(OfEpochDay(n)) == n
  {
    var (y, doy) := YearAndDay(n + DaysTo1970);
    var m := MonthOfYear(y, doy, 1);
    MonthStep(y, m);
  }

  /** toEpochDay then ofEpochDay gives back the date: distinct dates have distinct day counts. */
  lemma OfEpochDayOfDate(d: Date)
    requires ValidDate(d)
    ensures OfEpochDay(EpochDay(d)) == d
  {
    var y := d.year;
    var doy := DaysBeforeMonth(y, d.month) + d.day - 1;
    DayOfYearInRange(d);
    var (y', doy') := YearAndDay(EpochDay(d) + DaysTo1970);
    YearOfDayUnique(y, doy, y', doy');
    MonthOfDayOfYear(d);
  }

  /** The 0-based day of the year of a valid date lies within its year. */
  lemma DayOfYearInRange(d: Date)
    requires ValidDate(d)
    ensures 0 <= DaysBeforeMonth(d.year, d.month) + d.day - 1 < YearLength(d.year)
  {
    MonthStep(d.year, d.month);
    DaysBeforeMonthMonotonic(d.year, d.month + 1, 13);
  }

  /** The month search finds the month of a valid date from its day of year. */
  lemma MonthOfDayOfYear(d: Date)
    requires ValidDate(d)
    ensures MonthOfYear(d.year, DaysBeforeMonth(d.year, d.month) + d.day - 1, 1) == d.month
  {
    var y, m := d.year, d.month;
    var doy := DaysBeforeMonth(y, m) + d.day - 1;
    DayOfYearInRange(d);
    MonthStep(y, m);
    var m' := MonthOfYear(y, doy, 1);
    if m' < m {
      DaysBeforeMonthMonotonic(y, m' + 1, m);
    } else if m' > m {
      DaysBeforeMonthMonotonic(y, m + 1, m');
    }
  }

  /** A day count splits into (year, day of year) in only one way. */
  lemma YearOfDayUnique(y: int, doy: int, y': int, doy': int)
    requires 0 <= doy < YearLength(y) && 0 <= doy' < YearLength(y')
    requires DaysBeforeYear(y) + doy == DaysBeforeYear(y') + doy'
    ensures y == y' && doy == doy'
  {
    if y < y' {
      YearStep(y);
      DaysBeforeYearMonotonic(y + 1, y');
    } else if y > y' {
      YearStep(y');
      DaysBeforeYearMonotonic(y' + 1, y);
    }
  }

  /** Epoch days that fit a Java long of milliseconds stay inside LocalDate's year range. */
  lemma OfEpochDayYearRange(n: int)
    requires -200_000_000_000 <= n <= 200_000_000_000
    ensures ValidDate(OfEpochDay(n))
  {
    OfEpochDayInMonth(n);
    var z := n + DaysTo1970;
    var q := z / DaysPerCycle;
    assert -1_400_000 <= q <= 1_400_000;
    assert YearAndDay(z).0 == CycleYearAndDay(q, z % DaysPerCycle, YearOfCycle(z % DaysPerCycle, 0)).0;
  }

  /** The day ofEpochDay produces exists in its month, whatever the count. */
  lemma OfEpochDayInMonth(n: int)
    ensures 1 <= OfEpochDay(n).day <= DaysInMonth(OfEpochDay(n).year, OfEpochDay(n).month)
  {
    var (y, doy) := YearAndDay(n + DaysTo1970);
    var m := MonthOfYear(y, doy, 1);
    MonthStep(y, m);
  }

  /** Instant.toEpochMilli on (seconds, nanos): the exact millisecond count, or None on long overflow. */
  function ToEpochMilli(seconds: int, nanos: int): (r: Option<int>)
    requires 0 <= nanos < 1_000_000_000
    ensures r.Some? <==> LongMin <= seconds * 1000 + nanos / 1_000_000 <= LongMax
    ensures r.Some? ==> r.value == seconds * 1000 + nanos / 1_000_000
  {
    if seconds < 0 && nanos > 0 then
      var millis := (seconds + 1) * 1000;
      if !(LongMin <= millis <= LongMax) then None
      else
        var total := millis + (nanos / 1_000_000 - 1000);
        if LongMin <= total <= LongMax then Some(total) else None
    else
      var millis := seconds * 1000;
      if !(LongMin <= millis <= LongMax) then None
      else
        var total := millis + nanos / 1_000_000;
        if LongMin <= total <= LongMax then Some(total) else None
  }

}
