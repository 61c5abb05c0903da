/** Reporting periods: canonical boundaries of the day, month and year
    kinds, and the registry of periods with its lookup-or-create
    operations and navigation to the following period.

    The registry is the table of stored periods, in storage order. It is
    threaded through every operation that may create a period. */
module Periods {
  import opened Values
  import opened Calendar

  /** The stored `period_type` of a period. */
  datatype PeriodType = DayType | WeekType | MonthType | QuarterType | SemesterType | YearType | CustomType

  /** The period classes that define a boundary rule. Each class looks only
      at stored periods of its own type. */
  datatype PeriodClass = DayPeriod | MonthPeriod | YearPeriod

  /** A closed interval `[start, end]` tagged with its type. The triple is
      unique in the registry, so it is also the period's identity. */
  datatype Period = Period(start: Instant, end: Instant, periodType: PeriodType)

  type Registry = seq<Period>

  /** `timedelta(ONE_MICROSECOND)`: the class constant is 1e-11 days,
      i.e. 0.864 microseconds, which `timedelta` rounds to one tick. */
  const OneMicrosecond: int := 1

  function TypeOf(cls: PeriodClass): PeriodType {
    match cls
    case DayPeriod => DayType
    case MonthPeriod => MonthType
    case YearPeriod => YearType
  }

  /** Nominal length in days, used only to step to the next period. */
  function Delta(cls: PeriodClass): int {
    match cls
    case DayPeriod => 1
    case MonthPeriod => 28
    case YearPeriod => 365
  }

  /** Inclusive containment, as `find_create_by_date` tests it. */
  predicate Covers(p: Period, t: Instant) {
    Ticks(p.start) <= Ticks(t) <= Ticks(p.end)
  }

  /** No two stored periods share the (start, end, type) triple. */
  predicate Unique(reg: Registry) {
    forall i, j :: 0 <= i < j < |reg| ==> reg[i] != reg[j]
  }

  // ---------------------------------------------------------------------
  // Boundary rules

  /** `DayPeriod.boundaries` as written: the bare name `ONE_MICROSECOND` is
      not in scope inside the method, so every call raises. */
  function DayBoundariesAsWritten(t: Instant): Result<(Instant, Instant)> {
    Raised(NameError("ONE_MICROSECOND"))
  }

  /** `DayPeriod.boundaries` with the class constant in scope: midnight of
      the instant's day, and one tick before the next midnight. */
  function DayBoundaries(t: Instant): (r: (Instant, Instant))
    ensures r.0 == Midnight(t.year, t.month, t.day)
    ensures r.1 == DateTime(t.year, t.month, t.day, 23, 59, 59, 999_999)
    ensures Ticks(r.1) + OneMicrosecond == Ticks(NextDate(t.year, t.month, t.day))
    ensures Ticks(r.0) <= Ticks(t) <= Ticks(r.1)
  {
    var start := Midnight(t.year, t.month, t.day);
    var end := FromTicks(Ticks(start) + Delta(DayPeriod) * Day - OneMicrosecond);
    TicksInjective(end, DateTime(t.year, t.month, t.day, 23, 59, 59, 999_999));
    (start, end)
  }

  /** `MonthPeriod.boundaries`: midnight of the first of the instant's
      month, and one tick before midnight of the first of the next month. */
  function MonthBoundaries(t: Instant): (r: (Instant, Instant))
    ensures r.0 == Midnight(t.year, t.month, 1)
    ensures r.1 == DateTime(t.year, t.month, DaysInMonth(t.year, t.month), 23, 59, 59, 999_999)
    ensures Ticks(r.1) + OneMicrosecond
            == Ticks(Midnight(NextMonth(t.year, t.month).0, NextMonth(t.year, t.month).1, 1))
    ensures Ticks(r.0) <= Ticks(t) <= Ticks(r.1)
  {
    var (nyear, nmonth) := NextMonth(t.year, t.month);
    var start := Midnight(t.year, t.month, 1);
    var next := Midnight(nyear, nmonth, 1);
    OrdinalNextMonth(t.year, t.month);
    var end := FromTicks(Ticks(next) - OneMicrosecond);
    TicksInjective(end, DateTime(t.year, t.month, DaysInMonth(t.year, t.month), 23, 59, 59, 999_999));
    (start, end)
  }

  /** `YearPeriod.boundaries` as written: `replace(month=0, day=0)` is
      rejected by `datetime`, so every call raises. */
  function YearBoundariesAsWritten(t: Instant): Result<(Instant, Instant)> {
    Raised(ValueError)
  }

  /** The year rule the code evidently intends: midnight of January 1st,
      and one tick before midnight of January 1st of the next year. */
  function YearBoundaries(t: Instant): (r: (Instant, Instant))
    ensures r.0 == Midnight(t.year, 1, 1)
    ensures r.1 == DateTime(t.year, 12, 31, 23, 59, 59, 999_999)
    ensures Ticks(r.1) + OneMicrosecond == Ticks(Midnight(t.year + 1, 1, 1))
    ensures Ticks(r.0) <= Ticks(t) <= Ticks(r.1)
  {
    var start := Midnight(t.year, 1, 1);
    var next := Midnight(t.year + 1, 1, 1);
    DaysBeforeMonthFits(t.year, t.month);
    MonthStep(t.year, 12);
    var end := FromTicks(Ticks(next) - OneMicrosecond);
    TicksInjective(end, DateTime(t.year, 12, 31, 23, 59, 59, 999_999));
    (start, end)
  }

  function Boundaries(cls: PeriodClass, t: Instant): (r: (Instant, Instant))
    ensures Ticks(r.0) <= Ticks(t) <= Ticks(r.1)
  {
    match cls
    case DayPeriod => DayBoundaries(t)
    case MonthPeriod => MonthBoundaries(t)
    case YearPeriod => YearBoundaries(t)
  }

  /** The aligned period of class `cls` that holds `t`. */
  function Canonical(cls: PeriodClass, t: Instant): (p: Period)
    ensures p.periodType == TypeOf(cls) && Covers(p, t)
  {
    var (s, e) := Boundaries(cls, t);
    Period(s, e, TypeOf(cls))
  }

  /** Every instant of an aligned period has that same aligned period. */
  lemma CanonicalStable(cls: PeriodClass, x: Instant, t: Instant)
    requires Covers(Canonical(cls, x), t)
    ensures Canonical(cls, t) == Canonical(cls, x)
  {
    match cls
    case DayPeriod => DayStable(x, t);
    case MonthPeriod => MonthStable(x, t);
    case YearPeriod => YearStable(x, t);
  }

  lemma DayStable(x: Instant, t: Instant)
    requires Covers(Canonical(DayPeriod, x), t)
    ensures Canonical(DayPeriod, t) == Canonical(DayPeriod, x)
  {
    OnDay(t, Ordinal(x.year, x.month, x.day));
    OrdinalInjective(t, x);
  }

  lemma MonthStable(x: Instant, t: Instant)
    requires Covers(Canonical(MonthPeriod, x), t)
    ensures Canonical(MonthPeriod, t) == Canonical(MonthPeriod, x)
  {
    var o := Ordinal(t.year, t.month, t.day);
    var first := Ordinal(x.year, x.month, 1);
    OrdinalNextMonth(x.year, x.month);
    assert first <= o < first + DaysInMonth(x.year, x.month);
    var same := DateTime(x.year, x.month, o - first + 1, 0, 0, 0, 0);
    OrdinalInjective(t, same);
  }

  lemma YearStable(x: Instant, t: Instant)
    requires Covers(Canonical(YearPeriod, x), t)
    ensures Canonical(YearPeriod, t) == Canonical(YearPeriod, x)
  {
    var o := Ordinal(t.year, t.month, t.day);
    DaysBeforeMonthFits(t.year, t.month);
    DaysBeforeMonthFits(x.year, 12);
    YearOfDecomposes(o, 1, t.year, o - DaysBeforeYear(t.year));
    YearOfDecomposes(o, 1, x.year, o - DaysBeforeYear(x.year));
  }

  /** Every stored period of the class's type is the aligned period of its
      own start. */
  predicate Aligned(reg: Registry, cls: PeriodClass) {
    forall i :: 0 <= i < |reg| && reg[i].periodType == TypeOf(cls) ==>
      reg[i] == Canonical(cls, reg[i].start)
  }

  // ---------------------------------------------------------------------
  // Registry search

  /** Position of the first stored period from `from` on that `matches`. */
  function FirstWhere(reg: Registry, matches: Period -> bool, from: nat): (r: Option<nat>)
    requires from <= |reg|
    ensures r.Some? ==> from <= r.value < |reg| && matches(reg[r.value])
    ensures r.Some? ==> forall j :: from <= j < r.value ==> !matches(reg[j])
    ensures r.None? ==> forall j :: from <= j < |reg| ==> !matches(reg[j])
    decreases |reg| - from
  {
    if from == |reg| then None
    else if matches(reg[from]) then Some(from)
    else FirstWhere(reg, matches, from + 1)
  }

  /** A stored period of the class's type containing `t`. */
  predicate CoversFor(cls: PeriodClass, t: Instant, q: Period) {
    q.periodType == TypeOf(cls) && Covers(q, t)
  }

  /** Position `i` holds the first stored period of the class's type that
      contains `t`. */
  predicate IsFirstCovering(reg: Registry, cls: PeriodClass, t: Instant, i: int) {
    && 0 <= i < |reg| && CoversFor(cls, t, reg[i])
    && forall j :: 0 <= j < i ==> !CoversFor(cls, t, reg[j])
  }

  // ---------------------------------------------------------------------
  // Lookup-or-create

  /** `find_create_with` as written: the lookup goes through the class's
      manager, which only sees periods of the class's own type, while the
      creation stores the requested type; the table's unique constraint
      then rejects a second creation of the same triple. */
  function FindCreateWithAsWritten(reg: Registry, cls: PeriodClass, start: Instant, end: Instant,
                                   periodType: Option<PeriodType>): (r: (Result<Period>, Registry))
    ensures r.0.Ok? ==> r.0.value == Period(start, end, if periodType.Some? then periodType.value else TypeOf(cls))
  {
    var typ := if periodType.Some? then periodType.value else TypeOf(cls);
    var p := Period(start, end, typ);
    match FirstWhere(reg, (q: Period) => q.periodType == TypeOf(cls) && q == p, 0)
    case Some(i) => (Ok(reg[i]), reg)
    case None =>
      if p in reg then (Raised(IntegrityError), reg) else (Ok(p), reg + [p])
  }

  /** `find_create_with` looking the requested triple up among all stored
      periods: the stored period with that triple if there is one,
      otherwise a new one appended to the registry. */
  function FindCreateWith(reg: Registry, cls: PeriodClass, start: Instant, end: Instant,
                          periodType: Option<PeriodType>): (r: (Period, Registry))
    ensures r.0 == Period(start, end, if periodType.Some? then periodType.value else TypeOf(cls))
    ensures r.0 in reg ==> r.1 == reg
    ensures r.0 !in reg ==> r.1 == reg + [r.0]
  {
    var typ := if periodType.Some? then periodType.value else TypeOf(cls);
    var p := Period(start, end, typ);
    match FirstWhere(reg, (q: Period) => q == p, 0)
    case Some(i) => (reg[i], reg)
    case None => (p, reg + [p])
  }

  /** Without an explicit type, or with the class's own type, the code as
      written and the corrected lookup agree. */
  lemma FindCreateWithAgrees(reg: Registry, cls: PeriodClass, start: Instant, end: Instant,
                             periodType: Option<PeriodType>)
    requires periodType.None? || periodType == Some(TypeOf(cls))
    ensures FindCreateWithAsWritten(reg, cls, start, end, periodType)
            == (Ok(FindCreateWith(reg, cls, start, end, periodType).0),
                FindCreateWith(reg, cls, start, end, periodType).1)
  {
    var p := FindCreateWith(reg, cls, start, end, periodType).0;
    var f := FirstWhere(reg, (q: Period) => q.periodType == TypeOf(cls) && q == p, 0);
    if p in reg {
      var k :| 0 <= k < |reg| && reg[k] == p;
      assert f.Some?;
    }
  }

  /** The code as written is not idempotent: asking a day class twice for
      the same month-typed triple raises on the second call. */
  lemma FindCreateWithAsWrittenNotIdempotent(reg: Registry, start: Instant, end: Instant)
    requires Period(start, end, MonthType) !in reg
    ensures var first := FindCreateWithAsWritten(reg, DayPeriod, start, end, Some(MonthType));
            && first.0 == Ok(Period(start, end, MonthType))
            && FindCreateWithAsWritten(first.1, DayPeriod, start, end, Some(MonthType)).0 == Raised(IntegrityError)
  {
    var p := Period(start, end, MonthType);
    var first := FindCreateWithAsWritten(reg, DayPeriod, start, end, Some(MonthType));
    assert first.1 == reg + [p];
    assert first.1[|reg|] == p;
  }

  /** Repeating `find_create_with` returns the same period and stores nothing more. */
  lemma FindCreateWithIdempotent(reg: Registry, cls: PeriodClass, start: Instant, end: Instant,
                                 periodType: Option<PeriodType>)
    ensures var first := FindCreateWith(reg, cls, start, end, periodType);
            FindCreateWith(first.1, cls, start, end, periodType) == first
  {
    var first := FindCreateWith(reg, cls, start, end, periodType);
    assert first.0 in first.1;
  }

  /** `find_create_with` keeps the registry free of duplicate triples. */
  lemma FindCreateWithKeepsUnique(reg: Registry, cls: PeriodClass, start: Instant, end: Instant,
                                  periodType: Option<PeriodType>)
    requires Unique(reg)
    ensures Unique(FindCreateWith(reg, cls, start, end, periodType).1)
  {
  }

  /** `find_create_by_date`: the first stored period of the class's type
      that contains `t` (inclusively), or else the aligned period of `t`,
      created. */
  function FindCreateByDate(reg: Registry, cls: PeriodClass, t: Instant): (r: (Period, Registry))
    ensures CoversFor(cls, t, r.0)
    ensures forall i {:trigger IsFirstCovering(reg, cls, t, i)} :: IsFirstCovering(reg, cls, t, i) ==> r == (reg[i], reg)
    ensures (forall i :: 0 <= i < |reg| ==> !CoversFor(cls, t, reg[i])) ==>
              r.0 == Canonical(cls, t) && r.1 == reg + [r.0]
  {
    match FirstWhere(reg, (q: Period) => CoversFor(cls, t, q), 0)
    case Some(i) =>
      assert IsFirstCovering(reg, cls, t, i);
      (reg[i], reg)
    case None =>
      var (s, e) := Boundaries(cls, t);
      FindCreateWith(reg, cls, s, e, None)
  }

  /** When some stored period of the class's type contains `t`, the result
      is the first such period and nothing is created. */
  lemma FindCreateByDateFinds(reg: Registry, cls: PeriodClass, t: Instant, i: int)
    requires IsFirstCovering(reg, cls, t, i)
    ensures FindCreateByDate(reg, cls, t) == (reg[i], reg)
  {
    var f := FirstWhere(reg, (q: Period) => CoversFor(cls, t, q), 0);
    assert f == Some(i);
  }

  /** `find_create_by_date` keeps the registry free of duplicate triples. */
  lemma FindCreateByDateKeepsUnique(reg: Registry, cls: PeriodClass, t: Instant)
    requires Unique(reg)
    ensures Unique(FindCreateByDate(reg, cls, t).1)
  {
  }

  /** On a registry whose periods of the class's type are all aligned, the
      result is exactly the aligned period of `t`, and the registry stays
      aligned. */
  lemma FindCreateByDateAligned(reg: Registry, cls: PeriodClass, t: Instant)
    requires Aligned(reg, cls)
    ensures FindCreateByDate(reg, cls, t).0 == Canonical(cls, t)
    ensures Aligned(FindCreateByDate(reg, cls, t).1, cls)
  {
    var f := FirstWhere(reg, (q: Period) => CoversFor(cls, t, q), 0);
    if f.Some? {
      AlignedFound(reg, cls, t, f.value);
    } else {
      AlignedCreated(reg, cls, t);
    }
  }

  lemma AlignedFound(reg: Registry, cls: PeriodClass, t: Instant, i: int)
    requires Aligned(reg, cls) && IsFirstCovering(reg, cls, t, i)
    ensures FindCreateByDate(reg, cls, t).0 == Canonical(cls, t)
    ensures FindCreateByDate(reg, cls, t).1 == reg
  {
    FindCreateByDateFinds(reg, cls, t, i);
    CanonicalStable(cls, reg[i].start, t);
  }

  lemma AlignedCreated(reg: Registry, cls: PeriodClass, t: Instant)
    requires Aligned(reg, cls)
    requires forall i :: 0 <= i < |reg| ==> !CoversFor(cls, t, reg[i])
    ensures FindCreateByDate(reg, cls, t).0 == Canonical(cls, t)
    ensures Aligned(FindCreateByDate(reg, cls, t).1, cls)
  {
    var c := Canonical(cls, t);
    CanonicalStable(cls, t, c.start);
    var reg' := FindCreateByDate(reg, cls, t).1;
    assert reg' == reg + [c];
    forall i | 0 <= i < |reg'| && reg'[i].periodType == TypeOf(cls)
      ensures reg'[i] == Canonical(cls, reg'[i].start)
    {
      if i < |reg| {
        assert reg'[i] == reg[i];
      }
    }
  }

  /** The boundary rules as written: only the month rule returns. */
  function BoundariesAsWritten(cls: PeriodClass, t: Instant): Result<(Instant, Instant)> {
    match cls
    case DayPeriod => DayBoundariesAsWritten(t)
    case MonthPeriod => Ok(MonthBoundaries(t))
    case YearPeriod => YearBoundariesAsWritten(t)
  }

  /** `find_create_by_date` as written, on the boundary rules and the
      `find_create_with` as written. */
  function FindCreateByDateAsWritten(reg: Registry, cls: PeriodClass, t: Instant): (Result<Period>, Registry) {
    match FirstWhere(reg, (q: Period) => CoversFor(cls, t, q), 0)
    case Some(i) => (Ok(reg[i]), reg)
    case None =>
      var b := BoundariesAsWritten(cls, t);
      if b.Raised? then (Raised(b.exception), reg)
      else FindCreateWithAsWritten(reg, cls, b.value.0, b.value.1, None)
  }

  /** As written, a day or year class can only find stored periods: when
      none covers the instant the boundary rule raises and nothing is
      created. The month class behaves as corrected. */
  lemma FindCreateByDateAsWrittenAgrees(reg: Registry, cls: PeriodClass, t: Instant)
    ensures (exists i :: 0 <= i < |reg| && CoversFor(cls, t, reg[i])) || cls == MonthPeriod ==>
              FindCreateByDateAsWritten(reg, cls, t)
              == (Ok(FindCreateByDate(reg, cls, t).0), FindCreateByDate(reg, cls, t).1)
    ensures (forall i :: 0 <= i < |reg| ==> !CoversFor(cls, t, reg[i])) && cls == DayPeriod ==>
              FindCreateByDateAsWritten(reg, cls, t) == (Raised(NameError("ONE_MICROSECOND")), reg)
    ensures (forall i :: 0 <= i < |reg| ==> !CoversFor(cls, t, reg[i])) && cls == YearPeriod ==>
              FindCreateByDateAsWritten(reg, cls, t) == (Raised(ValueError), reg)
  {
    var f := FirstWhere(reg, (q: Period) => CoversFor(cls, t, q), 0);
    if f.Some? {
      FindCreateByDateFinds(reg, cls, t, f.value);
    } else if cls == MonthPeriod {
      var b := MonthBoundaries(t);
      FindCreateWithAgrees(reg, cls, b.0, b.1, None);
    }
  }

  // ---------------------------------------------------------------------
  // Navigation

  /** `middle()`: start plus half the length, the half rounded down to a
      whole tick. */
  function Middle(p: Period): (m: Instant)
    ensures Ticks(p.start) <= Ticks(p.end) ==> Ticks(p.start) <= Ticks(m) <= Ticks(p.end)
    ensures Ticks(p.end) < Ticks(p.start) ==> Ticks(p.end) <= Ticks(m) <= Ticks(p.start)
  {
    var s := Ticks(p.start);
    var e := Ticks(p.end);
    FromTicks(s + (e - s) / 2)
  }

  /** `next()`: the period found for the middle of `p` moved on by the
      class's nominal length. */
  function Next(reg: Registry, cls: PeriodClass, p: Period): (Period, Registry) {
    FindCreateByDate(reg, cls, NextTarget(cls, p))
  }

  /** The instant `next()` looks up: the middle of `p` plus the class's
      nominal length. */
  function NextTarget(cls: PeriodClass, p: Period): (t: Instant)
    ensures Ticks(t) == Ticks(Middle(p)) + Delta(cls) * Day
  {
    FromTicks(Ticks(Middle(p)) + Delta(cls) * Day)
  }

  /** The middle of a period `len` days long, moved on by `delta` days,
      lands inside the following period as long as `delta` lies between
      half the longest and the shortest length plus half the shortest. */
  lemma MiddlePlusDelta(len: int, nextLen: int, delta: int, lo: int, hi: int)
    requires 1 <= lo <= len <= hi && lo <= nextLen
    requires hi < 2 * delta && 2 * delta < 3 * lo
    ensures len * Day <= (len * Day - 1) / 2 + delta * Day < len * Day + nextLen * Day
  {
    var l := len * Day;
    var half := (l - 1) / 2;
    assert 2 * half <= l - 1 < 2 * half + 2;
    assert l <= hi * Day - (hi - len) * Day;
    assert 2 * delta * Day >= hi * Day + Day;
    assert 2 * delta * Day < 3 * lo * Day;
  }

  /** When the middle of `p` moved on by the class's length falls inside the
      aligned period `q`, `next()` on an aligned registry returns `q`. */
  lemma NextLands(reg: Registry, cls: PeriodClass, p: Period, q: Period)
    requires Aligned(reg, cls) && q == Canonical(cls, q.start)
    requires Ticks(q.start) <= Ticks(Middle(p)) + Delta(cls) * Day <= Ticks(q.end)
    ensures Next(reg, cls, p).0 == q
  {
    LandsIn(reg, cls, NextTarget(cls, p), q);
  }

  /** On an aligned registry, an instant inside the aligned period `q` is
      looked up as `q`. */
  lemma LandsIn(reg: Registry, cls: PeriodClass, t: Instant, q: Period)
    requires Aligned(reg, cls) && q == Canonical(cls, q.start) && Covers(q, t)
    ensures FindCreateByDate(reg, cls, t).0 == q
  {
    CanonicalStable(cls, q.start, t);
    FindCreateByDateAligned(reg, cls, t);
  }

  /** The middle of `p` in ticks, spelled out from its length. */
  lemma MiddleTicks(p: Period)
    requires Ticks(p.start) <= Ticks(p.end)
    ensures Ticks(Middle(p)) == Ticks(p.start) + (Ticks(p.end) + 1 - Ticks(p.start) - 1) / 2
  {
  }

  /** `next()` of an aligned day period, on a registry whose day periods are
      aligned, is the following calendar day. */
  lemma NextDay(reg: Registry, p: Period)
    requires Aligned(reg, DayPeriod)
    requires p == Canonical(DayPeriod, p.start)
    ensures var n := NextDate(p.start.year, p.start.month, p.start.day);
            Next(reg, DayPeriod, p).0 == Canonical(DayPeriod, n) && Next(reg, DayPeriod, p).0.start == n
  {
    var x := p.start;
    var n := NextDate(x.year, x.month, x.day);
    var q := Canonical(DayPeriod, n);
    var s := Ticks(p.start);
    assert Ticks(p.end) + 1 == s + Day;
    assert Ticks(q.start) == s + Day;
    assert Ticks(q.end) + 1 == s + 2 * Day;
    MiddleTicks(p);
    MiddlePlusDelta(1, 1, 1, 1, 1);
    NextLands(reg, DayPeriod, p, q);
  }

  /** `next()` of an aligned month period, on a registry whose month
      periods are aligned, is the following calendar month (December is
      followed by January of the next year). */
  lemma NextMonthPeriod(reg: Registry, p: Period)
    requires Aligned(reg, MonthPeriod)
    requires p == Canonical(MonthPeriod, p.start)
    ensures var (ny, nm) := NextMonth(p.start.year, p.start.month);
            Next(reg, MonthPeriod, p).0 == Canonical(MonthPeriod, Midnight(ny, nm, 1))
            && Next(reg, MonthPeriod, p).0.start == Midnight(ny, nm, 1)
  {
    var x := p.start;
    var (ny, nm) := NextMonth(x.year, x.month);
    var n := Midnight(ny, nm, 1);
    var q := Canonical(MonthPeriod, n);
    var len := DaysInMonth(x.year, x.month);
    var nextLen := DaysInMonth(ny, nm);
    var s := Ticks(p.start);
    OrdinalNextMonth(x.year, x.month);
    OrdinalNextMonth(ny, nm);
    assert Ticks(p.end) + 1 == s + len * Day;
    assert Ticks(q.start) == s + len * Day;
    assert Ticks(q.end) + 1 == s + len * Day + nextLen * Day;
    MiddleTicks(p);
    MiddlePlusDelta(len, nextLen, 28, 28, 31);
    NextLands(reg, MonthPeriod, p, q);
  }

  /** The aligned year period starting at a new year is that year long. */
  lemma YearLength(y: int)
    requires y >= 1
    ensures var q := Canonical(YearPeriod, Midnight(y, 1, 1));
            q.start == Midnight(y, 1, 1) && Ticks(q.end) + 1 == Ticks(q.start) + DaysInYear(y) * Day
  {
    var b := YearBoundaries(Midnight(y, 1, 1));
    assert Canonical(YearPeriod, Midnight(y, 1, 1)) == Period(b.0, b.1, YearType);
    NewYearTicks(y);
  }

  /** Consecutive new years lie a year's length apart. */
  lemma NewYearTicks(y: int)
    requires y >= 1
    ensures Ticks(Midnight(y + 1, 1, 1)) == Ticks(Midnight(y, 1, 1)) + DaysInYear(y) * Day
  {
    assert Ticks(Midnight(y, 1, 1)) == DaysBeforeYear(y) * Day;
    assert Ticks(Midnight(y + 1, 1, 1)) == DaysBeforeYear(y + 1) * Day;
    assert DaysBeforeYear(y + 1) == DaysBeforeYear(y) + DaysInYear(y);
  }

  /** `next()` of an aligned year period, on a registry whose year periods
      are aligned, is the following calendar year. */
  lemma NextYear(reg: Registry, p: Period)
    requires Aligned(reg, YearPeriod)
    requires p == Canonical(YearPeriod, p.start)
    ensures Next(reg, YearPeriod, p).0 == Canonical(YearPeriod, Midnight(p.start.year + 1, 1, 1))
    ensures Next(reg, YearPeriod, p).0.start == Midnight(p.start.year + 1, 1, 1)
  {
    var q := Canonical(YearPeriod, Midnight(p.start.year + 1, 1, 1));
    NextYearTarget(p);
    YearLength(p.start.year + 1);
    NextLands(reg, YearPeriod, p, q);
  }

  /** The middle of an aligned year moved on by 365 days falls in the next
      aligned year. */
  lemma NextYearTarget(p: Period)
    requires p == Canonical(YearPeriod, p.start)
    ensures var q := Canonical(YearPeriod, Midnight(p.start.year + 1, 1, 1));
            Ticks(q.start) <= Ticks(Middle(p)) + 365 * Day <= Ticks(q.end)
  {
    ConsecutiveYears(p);
    MiddleTicks(p);
  }

  /** An aligned year period and the one after it, in ticks. */
  lemma ConsecutiveYears(p: Period)
    requires p == Canonical(YearPeriod, p.start)
    ensures var y := p.start.year;
            var q := Canonical(YearPeriod, Midnight(y + 1, 1, 1));
            && Ticks(p.start) <= Ticks(p.end)
            && Ticks(p.end) + 1 == Ticks(p.start) + DaysInYear(y) * Day
            && Ticks(q.start) == Ticks(p.start) + DaysInYear(y) * Day
            && Ticks(q.end) + 1 == Ticks(q.start) + DaysInYear(y + 1) * Day
  {
    ThisYear(p);
    YearLength(p.start.year + 1);
  }

  /** An aligned year period ends just before the next new year. */
  lemma ThisYear(p: Period)
    requires p == Canonical(YearPeriod, p.start)
    ensures Ticks(p.start) <= Ticks(p.end)
    ensures Ticks(p.end) + 1 == Ticks(p.start) + DaysInYear(p.start.year) * Day
    ensures Ticks(p.end) + 1 == Ticks(Midnight(p.start.year + 1, 1, 1))
  {
    var y := p.start.year;
    YearPeriodShape(p);
    NewYearTicks(y);
    assert Ticks(p.start) <= Ticks(p.end) by {
      assert Covers(p, p.start);
    }
  }

  /** An aligned year period runs from midnight of its January 1st to one
      tick before the next. */
  lemma YearPeriodShape(p: Period)
    requires p == Canonical(YearPeriod, p.start)
    ensures p.start == Midnight(p.start.year, 1, 1)
    ensures Ticks(p.end) + 1 == Ticks(Midnight(p.start.year + 1, 1, 1))
  {
    var b := YearBoundaries(p.start);
    CanonicalYear(p.start);
    assert p.start == b.0 && p.end == b.1;
  }

  lemma CanonicalYear(t: Instant)
    ensures Canonical(YearPeriod, t) == Period(YearBoundaries(t).0, YearBoundaries(t).1, YearType)
  {
    assert Boundaries(YearPeriod, t) == YearBoundaries(t);
  }

  // ---------------------------------------------------------------------
  // Containment

  /** The argument of `includes`: a `datetime`, a `date` or a year number. */
  datatype DateArg = AtInstant(t: Instant) | OnDate(year: int, month: int, day: int) | InYear(y: int)

  predicate ValidArg(arg: DateArg) {
    arg.OnDate? ==> DateTime(arg.year, arg.month, arg.day, 12, 0, 0, 0).Valid()
  }

  /** `includes` as written: `isinstance` receives its arguments swapped, so
      every call with a date, datetime or year raises. */
  function IncludesAsWritten(p: Period, arg: DateArg): Result<bool> {
    Raised(TypeError)
  }

  /** `includes` as intended: a `date` stands for noon of that day, a
      `datetime` must lie strictly between start and end, a year number is
      never included. */
  function Includes(p: Period, arg: DateArg): (r: bool)
    requires ValidArg(arg)
    ensures arg.AtInstant? ==> (r <==> Ticks(p.start) < Ticks(arg.t) < Ticks(p.end))
    ensures arg.OnDate? ==>
              (r <==> Ticks(p.start) < Ticks(DateTime(arg.year, arg.month, arg.day, 12, 0, 0, 0)) < Ticks(p.end))
    ensures arg.InYear? ==> !r
  {
    match arg
    case AtInstant(t) => Ticks(p.start) < Ticks(t) && Ticks(p.end) > Ticks(t)
    case OnDate(y, m, d) =>
      var noon: Instant := DateTime(y, m, d, 12, 0, 0, 0);
      Ticks(p.start) < Ticks(noon) && Ticks(p.end) > Ticks(noon)
    case InYear(_) => false
  }

  /** Neither end of a period is included, unlike the inclusive test
      `find_create_by_date` applies. */
  lemma IncludesExcludesEnds(p: Period, t: Instant)
    ensures Ticks(t) == Ticks(p.start) || Ticks(t) == Ticks(p.end) ==> !Includes(p, AtInstant(t))
    ensures Includes(p, AtInstant(t)) <==> Covers(p, t) && Ticks(t) != Ticks(p.start) && Ticks(t) != Ticks(p.end)
  {
  }

  /** A day period includes its own day (its noon) under the intended
      test, while the code as written raises for every argument. */
  lemma IncludesOwnDay(t: Instant)
    ensures var p := Canonical(DayPeriod, t);
            && IncludesAsWritten(p, OnDate(t.year, t.month, t.day)) == Raised(TypeError)
            && Includes(p, OnDate(t.year, t.month, t.day))
  {
    var p := Canonical(DayPeriod, t);
    var noon: Instant := DateTime(t.year, t.month, t.day, 12, 0, 0, 0);
    assert Ticks(p.start) < Ticks(noon) < Ticks(p.end);
  }

  // ---------------------------------------------------------------------
  // Construction from calendar fields

  /** An optional integer argument that the code tests for truth. */
  predicate Given(o: Option<int>) {
    o.Some? && o.value != 0
  }

  function OrDefault(o: Option<int>, default: int): int {
    if Given(o) then o.value else default
  }

  /** The year-only branch of `find_create_from` as written: the bare name
      `ONE_MICROSECOND` is not in scope, so after building January 1st the
      call raises. */
  function FindCreateFromYearAsWritten(reg: Registry, cls: PeriodClass, year: int): (Result<Period>, Registry) {
    if year < 1 then (Raised(ValueError), reg) else (Raised(NameError("ONE_MICROSECOND")), reg)
  }

  /** One tick before the next new year is the last instant of the year. */
  lemma YearEnd(year: int)
    requires year >= 1
    ensures FromTicks(Ticks(Midnight(year + 1, 1, 1)) - OneMicrosecond) == DateTime(year, 12, 31, 23, 59, 59, 999_999)
  {
    var last: Instant := DateTime(year, 12, 31, 23, 59, 59, 999_999);
    LastTickOfYear(year);
    FromTicksOf(last, Ticks(Midnight(year + 1, 1, 1)) - OneMicrosecond);
  }

  /** The last instant of a year is one tick before the next new year. */
  lemma LastTickOfYear(year: int)
    requires year >= 1
    ensures Ticks(DateTime(year, 12, 31, 23, 59, 59, 999_999)) + 1 == Ticks(Midnight(year + 1, 1, 1))
  {
    MonthStep(year, 12);
    assert Ordinal(year, 12, 31) + 1 == DaysBeforeYear(year + 1);
  }

  /** A stored period of the class's type spanning the whole of `[sy, ey]`. */
  predicate Encloses(cls: PeriodClass, sy: Instant, ey: Instant, q: Period) {
    q.periodType == TypeOf(cls) && Ticks(q.start) <= Ticks(sy) && Ticks(q.end) >= Ticks(ey)
  }

  /** The year-only branch as intended: the first stored period of the
      class's type enclosing the whole year, or else a new period of the
      class's type spanning exactly that year. */
  function FindCreateFromYear(reg: Registry, cls: PeriodClass, year: int): (r: (Result<Period>, Registry))
    ensures year < 1 <==> r.0.Raised?
    ensures year < 1 ==> r.1 == reg
    ensures year >= 1 ==>
              && Encloses(cls, Midnight(year, 1, 1), DateTime(year, 12, 31, 23, 59, 59, 999_999), r.0.value)
              && (r.0.value in reg ==> r.1 == reg)
              && (r.0.value !in reg ==>
                    && r.1 == reg + [r.0.value]
                    && r.0.value == Period(Midnight(year, 1, 1), DateTime(year, 12, 31, 23, 59, 59, 999_999), TypeOf(cls)))
  {
    if year < 1 then (Raised(ValueError), reg)
    else
      var sy := Midnight(year, 1, 1);
      var ey := FromTicks(Ticks(Midnight(year + 1, 1, 1)) - OneMicrosecond);
      YearEnd(year);
      match FirstWhere(reg, (q: Period) => Encloses(cls, sy, ey, q), 0)
      case Some(i) => (Ok(reg[i]), reg)
      case None =>
        var (p, reg') := FindCreateWith(reg, cls, sy, ey, None);
        (Ok(p), reg')
  }

  /** Position `i` holds the first stored period of the class's type that
      spans the whole of `[sy, ey]`. */
  predicate IsFirstEnclosing(reg: Registry, cls: PeriodClass, sy: Instant, ey: Instant, i: int) {
    && 0 <= i < |reg| && Encloses(cls, sy, ey, reg[i])
    && forall j :: 0 <= j < i ==> !Encloses(cls, sy, ey, reg[j])
  }

  /** The year-only branch finds before it creates: the first stored period
      enclosing the year is returned with the registry unchanged, and only
      when none encloses it is the year's own period appended. */
  lemma FindCreateFromYearFinds(reg: Registry, cls: PeriodClass, year: int)
    ensures year >= 1 ==>
              var sy := Midnight(year, 1, 1);
              var ey: Instant := DateTime(year, 12, 31, 23, 59, 59, 999_999);
              && (forall i {:trigger IsFirstEnclosing(reg, cls, sy, ey, i)} ::
                    IsFirstEnclosing(reg, cls, sy, ey, i) ==> FindCreateFromYear(reg, cls, year) == (Ok(reg[i]), reg))
              && ((forall i :: 0 <= i < |reg| ==> !Encloses(cls, sy, ey, reg[i])) ==>
                    FindCreateFromYear(reg, cls, year) == (Ok(Period(sy, ey, TypeOf(cls))), reg + [Period(sy, ey, TypeOf(cls))]))
  {
    if year >= 1 {
      var sy := Midnight(year, 1, 1);
      var ey := FromTicks(Ticks(Midnight(year + 1, 1, 1)) - OneMicrosecond);
      YearEnd(year);
      forall i | IsFirstEnclosing(reg, cls, sy, ey, i)
        ensures FindCreateFromYear(reg, cls, year) == (Ok(reg[i]), reg)
      {
        YearFound(reg, cls, year, i);
      }
      if forall i :: 0 <= i < |reg| ==> !Encloses(cls, sy, ey, reg[i]) {
        YearCreated(reg, cls, year);
      }
    }
  }

  lemma YearFound(reg: Registry, cls: PeriodClass, year: int, i: int)
    requires year >= 1
    requires IsFirstEnclosing(reg, cls, Midnight(year, 1, 1), FromTicks(Ticks(Midnight(year + 1, 1, 1)) - OneMicrosecond), i)
    ensures FindCreateFromYear(reg, cls, year) == (Ok(reg[i]), reg)
  {
    var sy := Midnight(year, 1, 1);
    var ey := FromTicks(Ticks(Midnight(year + 1, 1, 1)) - OneMicrosecond);
    var f := FirstWhere(reg, (q: Period) => Encloses(cls, sy, ey, q), 0);
    assert f == Some(i);
  }

  lemma YearCreated(reg: Registry, cls: PeriodClass, year: int)
    requires year >= 1
    requires var sy := Midnight(year, 1, 1);
             var ey := FromTicks(Ticks(Midnight(year + 1, 1, 1)) - OneMicrosecond);
             forall i :: 0 <= i < |reg| ==> !Encloses(cls, sy, ey, reg[i])
    ensures var sy := Midnight(year, 1, 1);
            var ey := FromTicks(Ticks(Midnight(year + 1, 1, 1)) - OneMicrosecond);
            FindCreateFromYear(reg, cls, year) == (Ok(Period(sy, ey, TypeOf(cls))), reg + [Period(sy, ey, TypeOf(cls))])
  {
    var sy := Midnight(year, 1, 1);
    var ey := FromTicks(Ticks(Midnight(year + 1, 1, 1)) - OneMicrosecond);
    var f := FirstWhere(reg, (q: Period) => Encloses(cls, sy, ey, q), 0);
    assert f.None?;
    var p := Period(sy, ey, TypeOf(cls));
    assert Encloses(cls, sy, ey, p);
    assert p !in reg;
  }

  /** As written the year-only branch never returns a period; as intended
      it returns one spanning the whole year. */
  lemma FindCreateFromYearAsWrittenRaises(reg: Registry, cls: PeriodClass, year: int)
    requires year >= 1
    ensures FindCreateFromYearAsWritten(reg, cls, year) == (Raised(NameError("ONE_MICROSECOND")), reg)
    ensures FindCreateFromYear(reg, cls, year).0.Ok?
  {
  }

  /** `find_create_from`: a year alone names the whole year; a week number
      names the range the external week resolver gives for it; otherwise
      month, day, hour, minute and second default to 1, 1, 0, 0, 0 and the
      resulting instant is resolved by `find_create_by_date`. */
  function FindCreateFrom(reg: Registry, cls: PeriodClass, year: int,
                          month: Option<int>, day: Option<int>, week: Option<int>,
                          hour: Option<int>, minute: Option<int>, second: Option<int>,
                          weekRange: (int, int) -> (Instant, Instant)): (r: (Result<Period>, Registry))
    ensures !Given(week) && !Given(month) ==> r == FindCreateFromYear(reg, cls, year)
    ensures Given(week) ==>
              var p := Period(weekRange(year, week.value).0, weekRange(year, week.value).1, TypeOf(cls));
              && r.0 == Ok(p)
              && (p in reg ==> r.1 == reg)
              && (p !in reg ==> r.1 == reg + [p])
    ensures !Given(week) && Given(month) ==>
              var t := DateTime(year, month.value, OrDefault(day, 1), OrDefault(hour, 0),
                                OrDefault(minute, 0), OrDefault(second, 0), 0);
              (t.Valid() ==> r.0 == Ok(FindCreateByDate(reg, cls, t).0) && r.1 == FindCreateByDate(reg, cls, t).1)
              && (!t.Valid() ==> r == (Raised(ValueError), reg))
  {
    if !Given(week) && !Given(month) then
      FindCreateFromYear(reg, cls, year)
    else if Given(week) then
      var (sw, ew) := weekRange(year, week.value);
      var (p, reg') := FindCreateWith(reg, cls, sw, ew, None);
      (Ok(p), reg')
    else
      var t := DateTime(year, OrDefault(month, 1), OrDefault(day, 1), OrDefault(hour, 0),
                        OrDefault(minute, 0), OrDefault(second, 0), 0);
      if !t.Valid() then (Raised(ValueError), reg)
      else
        var (p, reg') := FindCreateByDate(reg, cls, t);
        (Ok(p), reg')
  }

  /** `find_create_from(y, m)` resolves midnight of the first of that month. */
  lemma FindCreateFromMonth(reg: Registry, cls: PeriodClass, year: int, month: int,
                            weekRange: (int, int) -> (Instant, Instant))
    requires year >= 1 && 1 <= month <= 12
    ensures var r := FindCreateFrom(reg, cls, year, Some(month), None, None, None, None, None, weekRange);
            var byDate := FindCreateByDate(reg, cls, Midnight(year, month, 1));
            r == (Ok(byDate.0), byDate.1)
  {
  }
}
