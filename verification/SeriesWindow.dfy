/**
 * The buckets of the dashboard's chart (src/analytics/series-window.ts). A period's
 * boundaries are numbered; every function is placed on that number line.
 */
module SeriesWindow {
  import opened Arithmetic
  import opened Calendar

  datatype Period = PerDay | PerWeek | PerMonth | PerYear

  /** `SERIES_PERIODS`. */
  function Count(period: Period): nat {
    match period
    case PerDay => 30
    case PerWeek => 12
    case PerMonth => 12
    case PerYear => 5
  }

  // ---------- Boundaries ----------

  /** The day on which bucket number `k` starts. Weeks start on Monday, and 1970-01-01 was a Thursday. */
  function FirstDay(period: Period, k: int): int {
    match period
    case PerDay => k
    case PerWeek => 7 * k - 3
    case PerMonth => MonthDay(k)
    case PerYear => DayFromYear(k)
  }

  function Boundary(period: Period, k: int): int {
    FirstDay(period, k) * MS_PER_DAY
  }

  /** The number of the bucket that holds `t`. */
  function Index(period: Period, t: int): int {
    match period
    case PerDay => Day(t)
    case PerWeek => (Day(t) + 3) / 7
    case PerMonth => MonthOf(Day(t))
    case PerYear => YearOf(Day(t))
  }

  function Truncated(period: Period, t: int): int {
    Boundary(period, Index(period, t))
  }

  lemma FirstDayAfter(period: Period, k: int)
    ensures FirstDay(period, k) + (if period == PerYear then 365 else 1) <= FirstDay(period, k + 1)
  {
    hide MonthDay, DayFromYear;
    match period {
      case PerMonth => MonthAfter(k);
      case PerYear => YearAfter(k);
      case _ =>
    }
  }

  lemma {:induction false} BoundariesIncrease(period: Period, a: int, b: int)
    requires a <= b
    ensures Boundary(period, a) + MS_PER_DAY * (b - a) <= Boundary(period, b)
    decreases b - a
  {
    hide FirstDay;
    if a < b {
      BoundariesIncrease(period, a, b - 1);
      FirstDayAfter(period, b - 1);
    }
  }

  lemma DayIsHeld(period: Period, t: int)
    ensures FirstDay(period, Index(period, t)) <= Day(t) < FirstDay(period, Index(period, t) + 1)
  {
    hide MonthDay, MonthOf, YearOf, DayFromYear, Day;
    if period == PerMonth {
      CivilIs(Day(t));
    }
  }

  /** Every instant is in the bucket of its number, and in no other. */
  lemma HeldByOneBucket(period: Period, t: int, k: int)
    ensures Boundary(period, Index(period, t)) <= t < Boundary(period, Index(period, t) + 1)
    ensures Boundary(period, k) <= t < Boundary(period, k + 1) ==> k == Index(period, t)
  {
    hide FirstDay, Index;
    var i := Index(period, t);
    DayIsHeld(period, t);
    assert t == Day(t) * MS_PER_DAY + WithinDay(t);
    if k < i {
      BoundariesIncrease(period, k + 1, i);
    } else if i < k {
      BoundariesIncrease(period, i + 1, k);
    }
  }

  /** The order of instants and of boundaries is the order of numbers. */
  lemma AtOrAfter(period: Period, t: int, k: int)
    ensures Boundary(period, k) <= t <==> k <= Index(period, t)
  {
    hide Boundary, Index;
    HeldByOneBucket(period, t, k);
    if k <= Index(period, t) {
      BoundariesIncrease(period, k, Index(period, t));
    } else {
      BoundariesIncrease(period, Index(period, t) + 1, k);
    }
  }

  lemma IndexOfBoundary(period: Period, k: int)
    ensures Index(period, Boundary(period, k)) == k
  {
    hide Boundary, Index;
    BoundariesIncrease(period, k, k + 1);
    HeldByOneBucket(period, Boundary(period, k), k);
  }

  // ---------- bucketStart ----------

  /** Outside the years 0 to 99, which `Date.UTC` reads as others. */
  predicate PlainYear(t: int) {
    !(0 <= CivilOf(Day(t)).year <= 99)
  }

  /** `Date.UTC(at.getUTCFullYear(), at.getUTCMonth(), at.getUTCDate())`. */
  function Midnight(t: int): int {
    var c := CivilOf(Day(t));
    DateUTC(c.year, c.month, c.date)
  }

  /** Exactly outside the years 0 to 99 the result is the start of the instant's own bucket. */
  method BucketStart(period: Period, at: JsDate) returns (d: JsDate)
    ensures fresh(d) && d.time == Truncated(period, Midnight(at.time))
    ensures d.time == Truncated(period, at.time) <==> PlainYear(at.time)
  {
    hide CivilOf, MonthDay, MonthOf, YearOf, DayFromYear, MakeDay;
    var y, m, date := at.GetUTCFullYear(), at.GetUTCMonth(), at.GetUTCDate();
    d := new JsDate(DateUTC(y, m, date));
    ghost var day := Day(d.time);
    MidnightIs(at.time);
    CivilParts(day);
    if period == PerWeek {
      d.SetUTCDate(d.GetUTCDate() - (d.GetUTCDay() + 6) % 7);
      MoveDate(day, CivilOf(day).date - (day + 3) % 7);
      WeekStart(day);
    }
    if period == PerMonth {
      d.SetUTCDate(1);
      MoveDate(day, 1);
    }
    if period == PerYear {
      d.SetUTCMonth(0, 1);
      FirstOfYear(day);
    }
    MidnightTruncates(period, at.time);
  }

  lemma MidnightIs(t: int)
    ensures Midnight(t) == Day(Midnight(t)) * MS_PER_DAY && WithinDay(Midnight(t)) == 0
  {
    hide MakeDay, CivilOf;
    var c := CivilOf(Day(t));
    StartOfDay(MakeDay(if 0 <= c.year <= 99 then 1900 + c.year else c.year, c.month, c.date));
  }

  lemma PlainMidnight(t: int)
    requires PlainYear(t)
    ensures Day(Midnight(t)) == Day(t)
  {
    hide MakeDay, CivilOf;
    CivilParts(Day(t));
    StartOfDay(Day(t));
  }

  /** Read as a year of the twentieth century, the day is centuries later. */
  lemma OtherMidnight(t: int)
    requires !PlainYear(t)
    ensures Day(t) < DayFromYear(100) && DayFromYear(1900) <= Day(Midnight(t))
  {
    hide DayFromYear, MonthDay, CivilOf, MakeDay;
    var c := CivilOf(Day(t));
    CivilIs(Day(t));
    YearsInOrder(c.year + 1, 100);
    YearsInOrder(1900, 1900 + c.year);
    MakeDayIsMonthDay(1900 + c.year, c.month, c.date);
    YearIsItsJanuary(1900 + c.year);
    MonthsAhead(12 * (1900 + c.year), 12 * (1900 + c.year) + c.month);
    DateIsPositive(Day(t));
    MidnightIs(t);
  }

  lemma DateIsPositive(day: int)
    ensures CivilOf(day).date >= 1
  {
    hide MonthDay;
    CivilIs(day);
  }

  lemma {:induction false} YearsInOrder(a: int, b: int)
    requires a <= b
    ensures DayFromYear(a) <= DayFromYear(b)
    decreases b - a
  {
    hide DayFromYear;
    if a < b {
      YearsInOrder(a, b - 1);
      YearAfter(b - 1);
    }
  }

  /** No bucket is longer than a leap year. */
  lemma FirstDayWithin(period: Period, k: int)
    ensures FirstDay(period, k + 1) <= FirstDay(period, k) + 366
  {
    hide MonthDay, DayFromYear;
    match period {
      case PerMonth => MonthAfter(k);
      case PerYear => YearAfter(k);
      case _ =>
    }
  }

  lemma MidnightTruncates(period: Period, t: int)
    ensures Truncated(period, Midnight(t)) == Truncated(period, t) <==> PlainYear(t)
  {
    hide PlainYear, Midnight, FirstDay, YearOf, MonthOf, DayFromYear;
    if PlainYear(t) {
      PlainMidnight(t);
      SameDayIndex(period, Midnight(t), t);
    } else {
      var k := Index(period, Midnight(t));
      OtherMidnight(t);
      MidnightIs(t);
      HeldByOneBucket(period, Midnight(t), k);
      HeldByOneBucket(period, t, k);
      FirstDayWithin(period, k);
      CenturiesApart();
    }
  }

  lemma SameDayIndex(period: Period, t: int, u: int)
    requires Day(t) == Day(u)
    ensures Index(period, t) == Index(period, u)
  {
    hide YearOf, MonthOf;
  }

  lemma CenturiesApart()
    ensures DayFromYear(100) + 367 <= DayFromYear(1900)
  {
  }

  lemma CivilParts(day: int)
    ensures var c := CivilOf(day);
            && 0 <= c.month < 12 && c.year == YearOf(day) && MakeDay(c.year, c.month, c.date) == day
  {
    hide MonthDay, MakeDay;
    CivilIs(day);
    var c := CivilOf(day);
    MakeDayIsMonthDay(c.year, c.month, c.date);
  }

  lemma StartOfDay(day: int)
    ensures Day(day * MS_PER_DAY) == day && WithinDay(day * MS_PER_DAY) == 0
  {
    DayOfTime(day, 0);
  }

  /** Setting the date within the month, past its ends or not, counts days from the month's first. */
  lemma MoveDate(day: int, date: int)
    ensures var c := CivilOf(day);
            && MakeDay(c.year, c.month, date) == MonthDay(MonthOf(day)) + date - 1
            && MakeDay(c.year, c.month, date) == day + (date - c.date)
  {
    hide MonthDay, MakeDay;
    CivilIs(day);
    var c := CivilOf(day);
    MakeDayIsMonthDay(c.year, c.month, date);
  }

  lemma WeekStart(day: int)
    ensures (day + 4) % 7 >= 0 && ((day + 4) % 7 + 6) % 7 == (day + 3) % 7
    ensures 7 * ((day + 3) / 7) - 3 == day - (day + 3) % 7
  {
  }

  lemma FirstOfYear(day: int)
    ensures MakeDay(YearOf(day), 0, 1) == DayFromYear(YearOf(day))
  {
  }

  /** `bucketStart` is the greatest boundary not past its instant. */
  lemma TruncatedIsGreatest(period: Period, t: int, k: int)
    ensures Truncated(period, t) <= t < Boundary(period, Index(period, t) + 1)
    ensures Boundary(period, k) <= t ==> Boundary(period, k) <= Truncated(period, t)
  {
    hide Boundary, Index;
    HeldByOneBucket(period, t, k);
    AtOrAfter(period, t, k);
    if k <= Index(period, t) {
      BoundariesIncrease(period, k, Index(period, t));
    }
  }

  lemma TruncatedIsIdempotent(period: Period, t: int)
    ensures Truncated(period, Truncated(period, t)) == Truncated(period, t)
  {
    hide Boundary, Index;
    IndexOfBoundary(period, Index(period, t));
  }

  lemma TruncatedIsMonotone(period: Period, t: int, u: int)
    requires t <= u
    ensures Truncated(period, t) <= Truncated(period, u)
  {
    hide Boundary, Index;
    HeldByOneBucket(period, t, 0);
    TruncatedIsGreatest(period, u, Index(period, t));
  }

  // ---------- shiftBuckets ----------

  /** What the setters do to an instant. */
  function Shifted(period: Period, t: int, n: int): int {
    var c := CivilOf(Day(t));
    (match period
     case PerDay => MakeDay(c.year, c.month, c.date + n)
     case PerWeek => MakeDay(c.year, c.month, c.date + 7 * n)
     case PerMonth => MakeDay(c.year, c.month + n, c.date)
     case PerYear => MakeDay(c.year + n, c.month, c.date)) * MS_PER_DAY + WithinDay(t)
  }

  method ShiftBuckets(period: Period, start: JsDate, n: int) returns (d: JsDate)
    ensures fresh(d) && d.time == Shifted(period, start.time, n)
  {
    hide CivilOf, MakeDay;
    d := new JsDate(start.time);
    if period == PerDay {
      d.SetUTCDate(d.GetUTCDate() + n);
    }
    if period == PerWeek {
      d.SetUTCDate(d.GetUTCDate() + 7 * n);
    }
    if period == PerMonth {
      d.SetUTCMonth(d.GetUTCMonth() + n, d.GetUTCDate());
    }
    if period == PerYear {
      d.SetUTCFullYear(d.GetUTCFullYear() + n);
    }
  }

  /** On bucket starts, shifting moves along the numbers, across months, years and leap days alike. */
  lemma ShiftedBoundary(period: Period, k: int, n: int)
    ensures Shifted(period, Boundary(period, k), n) == Boundary(period, k + n)
  {
    hide CivilOf, MonthDay, DayFromYear, MakeDay;
    var day := FirstDay(period, k);
    var c := CivilOf(day);
    StartOfDay(day);
    match period {
      case PerDay => MoveDate(day, c.date + n);
      case PerWeek => MoveDate(day, c.date + 7 * n);
      case PerMonth =>
        CivilOfFirst(k);
        MakeDayIsMonthDay(k / 12, k % 12 + n, 1);
      case PerYear =>
        YearIsItsJanuary(k);
        CivilOfFirst(12 * k);
        YearMoves(k, n);
    }
  }

  lemma YearMoves(k: int, n: int)
    ensures 12 * k / 12 == k && 12 * k % 12 == 0 && MakeDay(k + n, 0, 1) == DayFromYear(k + n)
  {
    ModUnique(12 * k, 12, k, 0);
  }

  /** Shifts of a bucket start compose by adding, and undo each other. */
  lemma ShiftsAdd(period: Period, t: int, m: int, n: int)
    requires t == Truncated(period, t)
    ensures Shifted(period, Shifted(period, t, m), n) == Shifted(period, t, m + n)
    ensures Shifted(period, t, 0) == t
    ensures Shifted(period, Shifted(period, t, n), -n) == t
  {
    hide Boundary, Index, Shifted;
    var k := Index(period, t);
    ShiftedBoundary(period, k, m);
    ShiftedBoundary(period, k + m, n);
    ShiftedBoundary(period, k, m + n);
    ShiftedBoundary(period, k, 0);
    ShiftedBoundary(period, k, n);
    ShiftedBoundary(period, k + n, -n);
  }

  /** An instant lies from its bucket's start up to the next one's. */
  lemma BucketHoldsItsInstant(period: Period, t: int)
    ensures Truncated(period, t) <= t < Shifted(period, Truncated(period, t), 1)
  {
    hide Boundary, Index, Shifted;
    ShiftedBoundary(period, Index(period, t), 1);
    HeldByOneBucket(period, t, 0);
  }

  // ---------- seriesWindow ----------

  datatype Window = Window(buckets: seq<int>, since: int, previousSince: int)

  /** Consecutive buckets that end with the one holding `now`, and the same number of them just before. */
  predicate IsWindow(period: Period, now: int, w: Window) {
    var k, count := Index(period, now), Count(period);
    && |w.buckets| == count
    && (forall i :: 0 <= i < count ==> w.buckets[i] == Boundary(period, k - count + 1 + i))
    && w.since == Boundary(period, k - count + 1)
    && w.previousSince == Boundary(period, k - 2 * count + 1)
  }

  method SeriesWindow(period: Period, now: JsDate) returns (w: Window)
    ensures IsWindow(period, Midnight(now.time), w)
    ensures PlainYear(now.time) ==> IsWindow(period, now.time, w)
    ensures |w.buckets| == match period case PerDay => 30 case PerWeek => 12 case PerMonth => 12 case PerYear => 5
  {
    hide Boundary, Index, Shifted, PlainYear, Midnight;
    var count: int := Count(period);
    ghost var k := Index(period, Midnight(now.time));
    ghost var from := k - (count - 1);
    var start := BucketStart(period, now);
    var first := ShiftBuckets(period, start, -(count - 1));
    ShiftedBoundary(period, k, -(count - 1));
    var buckets: seq<int> := [];
    for i := 0 to count
      invariant first.time == Boundary(period, from)
      invariant |buckets| == i && forall j :: 0 <= j < i ==> buckets[j] == Boundary(period, from + j)
    {
      var bucket := ShiftBuckets(period, first, i);
      ShiftedBoundary(period, from, i);
      buckets := buckets + [bucket.time];
    }
    var previous := ShiftBuckets(period, first, -count);
    ShiftedBoundary(period, from, -count);
    w := Window(buckets, first.time, previous.time);
    if PlainYear(now.time) {
      PlainMidnight(now.time);
      SameDayIndex(period, Midnight(now.time), now.time);
    }
  }

  /** Where bucket `i` ends: at the next one, or, for the last, at the next boundary after `now`. */
  function End(period: Period, now: int, w: Window, i: nat): int
    requires i < |w.buckets|
  {
    if i + 1 < |w.buckets| then w.buckets[i + 1] else Boundary(period, Index(period, now) + 1)
  }

  /** The buckets tile the window: each of its instants is in exactly one of them, and `now` in the last. */
  lemma BucketsTile(period: Period, now: int, w: Window, t: int)
    requires IsWindow(period, now, w)
    ensures w.buckets[Count(period) - 1] <= now < End(period, now, w, Count(period) - 1)
    ensures w.since == w.buckets[0]
    ensures w.since <= t < Boundary(period, Index(period, now) + 1) <==>
      exists i :: 0 <= i < |w.buckets| && w.buckets[i] <= t < End(period, now, w, i)
    ensures forall i, j | 0 <= i < |w.buckets| && 0 <= j < |w.buckets| ::
      (w.buckets[i] <= t < End(period, now, w, i) && w.buckets[j] <= t < End(period, now, w, j)) ==> i == j
  {
    hide Boundary, Index;
    var k, count := Index(period, now), Count(period);
    var from := k - count + 1;
    HeldByOneBucket(period, now, k);
    forall i | 0 <= i < count
      ensures End(period, now, w, i) == Boundary(period, from + i + 1)
      ensures w.buckets[i] <= t < End(period, now, w, i) <==> from + i == Index(period, t)
    {
      HeldByOneBucket(period, t, from + i);
    }
    AtOrAfter(period, t, from);
    AtOrAfter(period, t, k + 1);
    if from <= Index(period, t) <= k {
      var i := Index(period, t) - from;
      assert w.buckets[i] <= t < End(period, now, w, i);
    }
  }

  /** The window before holds as many buckets and ends exactly where this one starts. */
  lemma PreviousWindowMeetsThisOne(period: Period, now: int, w: Window)
    requires IsWindow(period, now, w)
    ensures Shifted(period, w.previousSince, Count(period)) == w.since
    ensures Index(period, w.since) - Index(period, w.previousSince) == Count(period)
  {
    hide Boundary, Index, Shifted;
    var k, count := Index(period, now), Count(period);
    ShiftedBoundary(period, k - 2 * count + 1, count);
    IndexOfBoundary(period, k - count + 1);
    IndexOfBoundary(period, k - 2 * count + 1);
  }

  // ---------- Splitting at `since` ----------

  /** A truncated instant is before a boundary exactly when the instant is. */
  lemma SplitsAlike(period: Period, t: int, since: int)
    requires since == Truncated(period, since)
    ensures Truncated(period, t) < since <==> t < since
  {
    hide Boundary, Index;
    AtOrAfter(period, t, Index(period, since));
    AtOrAfter(period, Truncated(period, t), Index(period, since));
    IndexOfBoundary(period, Index(period, t));
  }
}
