/** Proleptic Gregorian calendar instants with microsecond resolution, and
    their conversion to and from absolute microsecond ticks counted from
    0001-01-01 00:00:00. This is the part of the host language's `datetime`
    and `timedelta` arithmetic the period model relies on. */
module Calendar {

  /** Microseconds in one second, minute, hour and day. */
  const Second: int := 1_000_000
  const Minute: int := 60_000_000
  const Hour: int := 3_600_000_000
  const Day: int := 86_400_000_000

  predicate IsLeap(y: int) {
    y % 4 == 0 && (y % 100 != 0 || y % 400 == 0)
  }

  function DaysInYear(y: int): int {
    if IsLeap(y) then 366 else 365
  }

  function DaysInMonth(y: int, m: int): (n: int)
    requires 1 <= m <= 12
    ensures 28 <= n <= 31
  {
    if m == 2 then (if IsLeap(y) then 29 else 28)
    else if m == 4 || m == 6 || m == 9 || m == 11 then 30
    else 31
  }

  /** The month after (y, m): December rolls over to January of the next
      year. This is the `next_month` helper the month rule calls. */
  function NextMonth(y: int, m: int): (r: (int, int))
    requires 1 <= m <= 12
    ensures 1 <= r.1 <= 12
    ensures m < 12 ==> r == (y, m + 1)
    ensures m == 12 ==> r == (y + 1, 1)
  {
    if m == 12 then (y + 1, 1) else (y, m + 1)
  }

  datatype DateTime = DateTime(year: int, month: int, day: int,
                               hour: int, minute: int, second: int, micro: int)
  {
    predicate ValidDate() {
      1 <= year && 1 <= month <= 12 && 1 <= day <= DaysInMonth(year, month)
    }

    predicate Valid() {
      && ValidDate()
      && 0 <= hour < 24 && 0 <= minute < 60 && 0 <= second < 60
      && 0 <= micro < 1_000_000
    }
  }

  /** A value of the host language's `datetime` type (years from 1 on). */
  type Instant = t: DateTime | t.Valid() witness DateTime(1, 1, 1, 0, 0, 0, 0)

  /** Midnight at the start of a valid date. */
  function Midnight(y: int, m: int, d: int): (t: Instant)
    requires DateTime(y, m, d, 0, 0, 0, 0).Valid()
  {
    DateTime(y, m, d, 0, 0, 0, 0)
  }

  // ---------------------------------------------------------------------
  // Day ordinals: 0 for 0001-01-01, counting days

  function DaysBeforeYear(y: int): nat
    requires y >= 1
    decreases y
  {
    if y == 1 then 0 else DaysBeforeYear(y - 1) + DaysInYear(y - 1)
  }

  function DaysBeforeMonth(y: int, m: int): nat
    requires 1 <= m <= 12
  {
    var leap := if IsLeap(y) && m > 2 then 1 else 0;
    leap +
    (if m == 1 then 0 else if m == 2 then 31 else if m == 3 then 59
     else if m == 4 then 90 else if m == 5 then 120 else if m == 6 then 151
     else if m == 7 then 181 else if m == 8 then 212 else if m == 9 then 243
     else if m == 10 then 273 else if m == 11 then 304 else 334)
  }

  lemma MonthStep(y: int, m: int)
    requires 1 <= m <= 12
    ensures m < 12 ==> DaysBeforeMonth(y, m + 1) == DaysBeforeMonth(y, m) + DaysInMonth(y, m)
    ensures m == 12 ==> DaysBeforeMonth(y, m) + DaysInMonth(y, m) == DaysInYear(y)
  {
  }

  lemma {:induction false} DaysBeforeMonthMonotone(y: int, m1: int, m2: int)
    requires 1 <= m1 <= m2 <= 12
    ensures DaysBeforeMonth(y, m1) + (if m1 < m2 then DaysInMonth(y, m1) else 0) <= DaysBeforeMonth(y, m2)
    decreases m2 - m1
  {
    if m1 < m2 {
      MonthStep(y, m1);
      DaysBeforeMonthMonotone(y, m1 + 1, m2);
    }
  }

  lemma DaysBeforeMonthFits(y: int, m: int)
    requires 1 <= m <= 12
    ensures DaysBeforeMonth(y, m) + DaysInMonth(y, m) <= DaysInYear(y)
  {
    DaysBeforeMonthMonotone(y, m, 12);
    MonthStep(y, 12);
  }

  lemma {:induction false} DaysBeforeYearMonotone(y1: int, y2: int)
    requires 1 <= y1 <= y2
    ensures DaysBeforeYear(y1) + (if y1 < y2 then DaysInYear(y1) else 0) <= DaysBeforeYear(y2)
    decreases y2 - y1
  {
    if y1 < y2 {
      DaysBeforeYearMonotone(y1 + 1, y2);
    }
  }

  /** Day ordinal of a valid date. */
  function Ordinal(y: int, m: int, d: int): nat
    requires DateTime(y, m, d, 0, 0, 0, 0).ValidDate()
  {
    DaysBeforeYear(y) + DaysBeforeMonth(y, m) + d - 1
  }

  /** Year holding the `n`-th day counted from January 1st of `y`, and the
      0-based day within that year. */
  function YearOf(n: nat, y: int): (r: (int, nat))
    requires y >= 1
    ensures r.0 >= y && r.1 < DaysInYear(r.0)
    ensures DaysBeforeYear(r.0) + r.1 == DaysBeforeYear(y) + n
    decreases n
  {
    if n < DaysInYear(y) then (y, n) else YearOf(n - DaysInYear(y), y + 1)
  }

  /** Month holding the 0-based day `k` of year `y`, searching from month `m`,
      and the 0-based day within that month. */
  function MonthOf(y: int, k: nat, m: int): (r: (int, nat))
    requires 1 <= m <= 12
    requires DaysBeforeMonth(y, m) <= k < DaysInYear(y)
    ensures m <= r.0 <= 12 && r.1 < DaysInMonth(y, r.0)
    ensures DaysBeforeMonth(y, r.0) + r.1 == k
    decreases 12 - m
  {
    MonthStep(y, m);
    if m == 12 || k < DaysBeforeMonth(y, m + 1) then
      (m, k - DaysBeforeMonth(y, m))
    else
      MonthOf(y, k, m + 1)
  }

  /** Date of a day ordinal. */
  function FromOrdinal(n: nat): (t: Instant)
    ensures t.hour == 0 && t.minute == 0 && t.second == 0 && t.micro == 0
    ensures Ordinal(t.year, t.month, t.day) == n
  {
    var (y, k) := YearOf(n, 1);
    var (m, j) := MonthOf(y, k, 1);
    DateTime(y, m, j + 1, 0, 0, 0, 0)
  }

  lemma {:induction false} YearOfDecomposes(n: nat, y0: int, y: int, j: nat)
    requires 1 <= y0 <= y && j < DaysInYear(y)
    requires DaysBeforeYear(y0) + n == DaysBeforeYear(y) + j
    ensures YearOf(n, y0) == (y, j)
    decreases y - y0
  {
    DaysBeforeYearMonotone(y0, y);
    if y0 < y {
      YearOfDecomposes(n - DaysInYear(y0), y0 + 1, y, j);
    }
  }

  lemma {:induction false} MonthOfDecomposes(y: int, m0: int, m: int, j: nat)
    requires 1 <= m0 <= m <= 12 && j < DaysInMonth(y, m)
    ensures DaysBeforeMonth(y, m) + j < DaysInYear(y)
    ensures MonthOf(y, DaysBeforeMonth(y, m) + j, m0) == (m, j)
    decreases m - m0
  {
    DaysBeforeMonthFits(y, m);
    DaysBeforeMonthMonotone(y, m0, m);
    MonthStep(y, m0);
    if m0 < m {
      DaysBeforeMonthMonotone(y, m0 + 1, m);
      MonthOfDecomposes(y, m0 + 1, m, j);
    }
  }

  /** A date's ordinal leads back to the date. */
  lemma OrdinalRoundTrip(y: int, m: int, d: int)
    requires DateTime(y, m, d, 0, 0, 0, 0).ValidDate()
    ensures FromOrdinal(Ordinal(y, m, d)) == Midnight(y, m, d)
  {
    DaysBeforeMonthFits(y, m);
    YearOfDecomposes(Ordinal(y, m, d), 1, y, DaysBeforeMonth(y, m) + d - 1);
    MonthOfDecomposes(y, 1, m, d - 1);
  }

  /** Distinct dates have distinct ordinals. */
  lemma OrdinalInjective(a: Instant, b: Instant)
    requires Ordinal(a.year, a.month, a.day) == Ordinal(b.year, b.month, b.day)
    ensures a.year == b.year && a.month == b.month && a.day == b.day
  {
    OrdinalRoundTrip(a.year, a.month, a.day);
    OrdinalRoundTrip(b.year, b.month, b.day);
  }

  /** The ordinal of the first day of the next month is the ordinal of the
      first day of this month plus the month's length. */
  lemma OrdinalNextMonth(y: int, m: int)
    requires y >= 1 && 1 <= m <= 12
    ensures Ordinal(NextMonth(y, m).0, NextMonth(y, m).1, 1) == Ordinal(y, m, 1) + DaysInMonth(y, m)
  {
    MonthStep(y, m);
  }

  // ---------------------------------------------------------------------
  // Ticks

  /** Time of day in microseconds. */
  function TimeOfDay(t: Instant): (n: nat)
    ensures n < Day
  {
    t.hour * Hour + t.minute * Minute + t.second * Second + t.micro
  }

  /** Absolute microsecond count of an instant. */
  function Ticks(t: Instant): nat {
    Ordinal(t.year, t.month, t.day) * Day + TimeOfDay(t)
  }

  /** The instant `n` microseconds after 0001-01-01 00:00:00. */
  function FromTicks(n: nat): (t: Instant)
    ensures Ticks(t) == n
  {
    var date := FromOrdinal(n / Day);
    var tod := n % Day;
    var rh := tod % Hour;
    var rm := rh % Minute;
    DateTime(date.year, date.month, date.day, tod / Hour, rh / Minute, rm / Second, rm % Second)
  }

  /** An instant's ticks lead back to the instant. */
  lemma TicksRoundTrip(t: Instant)
    ensures FromTicks(Ticks(t)) == t
  {
    var o := Ordinal(t.year, t.month, t.day);
    var n := Ticks(t);
    assert n / Day == o && n % Day == TimeOfDay(t);
    var tod := TimeOfDay(t);
    assert tod / Hour == t.hour;
    assert tod % Hour == t.minute * Minute + t.second * Second + t.micro;
    OrdinalRoundTrip(t.year, t.month, t.day);
  }

  /** The instant with a given tick count. */
  lemma FromTicksOf(t: Instant, n: nat)
    requires Ticks(t) == n
    ensures FromTicks(n) == t
  {
    TicksRoundTrip(t);
  }

  lemma TicksInjective(a: Instant, b: Instant)
    requires Ticks(a) == Ticks(b)
    ensures a == b
  {
    TicksRoundTrip(a);
    TicksRoundTrip(b);
  }

  /** An instant whose ticks fall within the `o`-th day lies on that day. */
  lemma OnDay(t: Instant, o: nat)
    requires o * Day <= Ticks(t) < o * Day + Day
    ensures Ordinal(t.year, t.month, t.day) == o
  {
  }

  /** The date after a valid date. */
  function NextDate(y: int, m: int, d: int): (r: Instant)
    requires DateTime(y, m, d, 0, 0, 0, 0).ValidDate()
    ensures Ordinal(r.year, r.month, r.day) == Ordinal(y, m, d) + 1
    ensures r.hour == 0 && r.minute == 0 && r.second == 0 && r.micro == 0
  {
    if d < DaysInMonth(y, m) then
      DateTime(y, m, d + 1, 0, 0, 0, 0)
    else
      var (ny, nm) := NextMonth(y, m);
      OrdinalNextMonth(y, m);
      DateTime(ny, nm, 1, 0, 0, 0, 0)
  }
}
