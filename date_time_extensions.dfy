/** The DateTime extension methods: the first and last instant of an hour, a day and a
    month, and the billing cut-off window, over the proleptic Gregorian calendar with
    millisecond resolution. */
module DateTimeExtensions {

  /** A System.DateTime reduced to the fields the extensions read and write. */
  datatype DateTime = DateTime(year: int, month: int, day: int, hour: int, minute: int, second: int, millisecond: int)

  function Min(a: int, b: int): int {
    if a <= b then a else b
  }

  predicate IsLeapYear(year: int) {
    year % 4 == 0 && (year % 100 != 0 || year % 400 == 0)
  }

  /** DateTime.DaysInMonth: the Gregorian length of a month. */
  function DaysInMonth(year: int, month: int): (n: int)
    requires 1 <= month <= 12
    ensures 28 <= n <= 31
    ensures month == 2 ==> n == (if IsLeapYear(year) then 29 else 28)
    ensures month == 4 || month == 6 || month == 9 || month == 11 ==> n == 30
    ensures month != 2 && month != 4 && month != 6 && month != 9 && month != 11 ==> n == 31
  {
    if month == 2 then (if IsLeapYear(year) then 29 else 28)
    else if month == 4 || month == 6 || month == 9 || month == 11 then 30
    else 31
  }

  /** A date and time that `new DateTime(...)` accepts (years are not capped at 9999 here). */
  predicate Valid(d: DateTime) {
    1 <= d.year && 1 <= d.month <= 12 && 1 <= d.day <= DaysInMonth(d.year, d.month) &&
    0 <= d.hour < 24 && 0 <= d.minute < 60 && 0 <= d.second < 60 && 0 <= d.millisecond < 1000
  }

  /** Milliseconds since midnight. */
  function TimeOfDay(d: DateTime): int {
    ((d.hour * 60 + d.minute) * 60 + d.second) * 1000 + d.millisecond
  }

  /** A key that orders dates (without the time) chronologically. */
  function DateKey(d: DateTime): int {
    d.year * 10000 + d.month * 100 + d.day
  }

  /** A key that orders instants chronologically. */
  function Key(d: DateTime): int {
    DateKey(d) * 86_400_000 + TimeOfDay(d)
  }

  /** The months since the start of year 0, so that consecutive months differ by one. */
  function MonthIndex(d: DateTime): int {
    d.year * 12 + d.month - 1
  }

  /** DateTime.AddMonths(n): the month moves by n, the day is clamped to the new month's
      length, the time of day is kept. */
  function AddMonths(d: DateTime, n: int): (r: DateTime)
    requires Valid(d) && MonthIndex(d) + n >= 12
    ensures Valid(r) && MonthIndex(r) == MonthIndex(d) + n
    ensures r.day == Min(d.day, DaysInMonth(r.year, r.month))
    ensures TimeOfDay(r) == TimeOfDay(d)
  {
    var total := MonthIndex(d) + n;
    var year, month := total / 12, total % 12 + 1;
    DateTime(year, month, Min(d.day, DaysInMonth(year, month)), d.hour, d.minute, d.second, d.millisecond)
  }

  /** DateTime.AddDays(1): the next calendar day at the same time of day. */
  function AddOneDay(d: DateTime): (r: DateTime)
    requires Valid(d)
    ensures Valid(r) && TimeOfDay(r) == TimeOfDay(d)
    ensures DateKey(d) < DateKey(r)
    ensures d.day < DaysInMonth(d.year, d.month) ==> r.year == d.year && r.month == d.month && r.day == d.day + 1
    ensures d.day == DaysInMonth(d.year, d.month) ==> r.day == 1 && MonthIndex(r) == MonthIndex(d) + 1
  {
    if d.day < DaysInMonth(d.year, d.month) then d.(day := d.day + 1)
    else if d.month < 12 then d.(month := d.month + 1, day := 1)
    else d.(year := d.year + 1, month := 1, day := 1)
  }

  /** DateTime.AddDays(-1): the previous calendar day at the same time of day; AddDays(1) undoes it.
      There is none before 0001-01-01. */
  function PreviousDay(d: DateTime): (r: DateTime)
    requires Valid(d) && (d.day > 1 || MonthIndex(d) > 12)
    ensures Valid(r) && TimeOfDay(r) == TimeOfDay(d)
    ensures DateKey(r) < DateKey(d) && AddOneDay(r) == d
  {
    if d.day > 1 then d.(day := d.day - 1)
    else if d.month > 1 then d.(month := d.month - 1, day := DaysInMonth(d.year, d.month - 1))
    else d.(year := d.year - 1, month := 12, day := 31)
  }

  /** Stepping forward a day and back again returns to the same instant. */
  lemma PreviousOfNext(d: DateTime)
    requires Valid(d)
    ensures var n := AddOneDay(d); (n.day > 1 || MonthIndex(n) > 12) && PreviousDay(n) == d
  {
  }

  /** BeginOfHour: minute, second and millisecond set to zero; the start of the hour that holds source. */
  function BeginOfHour(source: DateTime): (r: DateTime)
    requires Valid(source)
    ensures Valid(r) && r.minute == 0 && r.second == 0 && r.millisecond == 0
    ensures DateKey(r) == DateKey(source) && r.hour == source.hour
    ensures Key(r) <= Key(source) < Key(r) + 3_600_000
  {
    DateTime(source.year, source.month, source.day, source.hour, 0, 0, 0)
  }

  /** EndOfHour: 59 minutes, 59 seconds and 999 milliseconds; the last millisecond of the hour. */
  function EndOfHour(source: DateTime): (r: DateTime)
    requires Valid(source)
    ensures Valid(r) && r.minute == 59 && r.second == 59 && r.millisecond == 999
    ensures DateKey(r) == DateKey(source) && r.hour == source.hour
    ensures Key(r) - 3_600_000 < Key(source) <= Key(r)
  {
    DateTime(source.year, source.month, source.day, source.hour, 59, 59, 999)
  }

  /** BeginOfDay: midnight of the same date. */
  function BeginOfDay(source: DateTime): (r: DateTime)
    requires Valid(source)
    ensures Valid(r) && DateKey(r) == DateKey(source) && TimeOfDay(r) == 0
    ensures Key(r) <= Key(source)
  {
    DateTime(source.year, source.month, source.day, 0, 0, 0, 0)
  }

  /** EndOfDay: 23:59:59.999 of the same date. */
  function EndOfDay(source: DateTime): (r: DateTime)
    requires Valid(source)
    ensures Valid(r) && DateKey(r) == DateKey(source) && TimeOfDay(r) == 86_399_999
    ensures Key(source) <= Key(r)
  {
    DateTime(source.year, source.month, source.day, 23, 59, 59, 999)
  }

  /** BeginOfMonth: the first day of the month at midnight. */
  function BeginOfMonth(source: DateTime): (r: DateTime)
    requires Valid(source)
    ensures Valid(r) && r.year == source.year && r.month == source.month && r.day == 1
    ensures TimeOfDay(r) == 0 && Key(r) <= Key(source)
  {
    BeginOfDay(DateTime(source.year, source.month, 1, 0, 0, 0, 0))
  }

  /** EndOfMonth: the last day of the month at 23:59:59.999. */
  function EndOfMonth(source: DateTime): (r: DateTime)
    requires Valid(source)
    ensures Valid(r) && r.year == source.year && r.month == source.month
    ensures r.day == DaysInMonth(source.year, source.month)
    ensures TimeOfDay(r) == 86_399_999 && Key(source) <= Key(r)
  {
    var day := DaysInMonth(source.year, source.month);
    EndOfDay(DateTime(source.year, source.month, day, 0, 0, 0, 0))
  }

  /** The windows nest: month, then day, then hour around the source instant. */
  lemma WindowsNest(source: DateTime)
    requires Valid(source)
    ensures Key(BeginOfMonth(source)) <= Key(BeginOfDay(source)) <= Key(BeginOfHour(source)) <= Key(source)
    ensures Key(source) <= Key(EndOfHour(source)) <= Key(EndOfDay(source)) <= Key(EndOfMonth(source))
  {
  }

  /** A cut-off date: midnight of the cut-off day of its month, the last day of a window. */
  predicate IsCutOffDate(d: DateTime, cutOffDay: int) {
    Valid(d) && TimeOfDay(d) == 0 && d.day == CutOffDay(d.year, d.month, cutOffDay)
  }

  /** The cut-off day of a month: cutOffDay itself, clamped to the month's length, or the last
      day of the month when cutOffDay is not positive. */
  function CutOffDay(year: int, month: int, cutOffDay: int): (d: int)
    requires 1 <= month <= 12
    ensures 1 <= d <= DaysInMonth(year, month)
    ensures cutOffDay <= 0 ==> d == DaysInMonth(year, month)
    ensures cutOffDay > 0 ==> d == Min(cutOffDay, DaysInMonth(year, month))
  {
    if cutOffDay <= 0 then DaysInMonth(year, month) else Min(cutOffDay, DaysInMonth(year, month))
  }

  /** EndOfCutOff: midnight of the first cut-off day on or after the source date; when this
      month's cut-off day has passed, the next month's. */
  function EndOfCutOff(source: DateTime, cutOffDay: int): (r: DateTime)
    requires Valid(source)
    ensures Valid(r) && TimeOfDay(r) == 0
    ensures DateKey(source) <= DateKey(r)
    ensures r.day == CutOffDay(r.year, r.month, cutOffDay)
    ensures cutOffDay <= 0 ==> r.year == source.year && r.month == source.month && r.day == DaysInMonth(source.year, source.month)
    ensures source.day <= CutOffDay(source.year, source.month, cutOffDay) ==> r.year == source.year && r.month == source.month
    ensures CutOffDay(source.year, source.month, cutOffDay) < source.day ==> MonthIndex(r) == MonthIndex(source) + 1
  {
    var work := source;
    var endOfMonth := DaysInMonth(work.year, work.month);
    var fixedCutOff := if cutOffDay <= 0 then endOfMonth else Min(cutOffDay, endOfMonth);
    if fixedCutOff < work.day then
      var next := AddMonths(work, 1);
      var endOfNextMonth := DaysInMonth(next.year, next.month);
      DateTime(next.year, next.month, Min(cutOffDay, endOfNextMonth), 0, 0, 0, 0)
    else
      DateTime(work.year, work.month, fixedCutOff, 0, 0, 0, 0)
  }

  /** A cut-off date closes its own window. */
  lemma CutOffDateFixed(c: DateTime, cutOffDay: int)
    requires IsCutOffDate(c, cutOffDay)
    ensures EndOfCutOff(c, cutOffDay) == c
  {
  }

  /** A later month has a larger date key. */
  lemma LaterMonth(a: DateTime, b: DateTime)
    requires Valid(a) && Valid(b) && MonthIndex(a) < MonthIndex(b)
    ensures DateKey(a) < DateKey(b)
  {
  }

  /** BeginOfCutOff as written: the day after the end of the cut-off window of the source moved
      back one month. It never lies after the source date. */
  function BeginOfCutOff(source: DateTime, cutOffDay: int): (r: DateTime)
    requires Valid(source) && MonthIndex(source) >= 13
    ensures Valid(r) && TimeOfDay(r) == 0
    ensures DateKey(r) <= DateKey(source)
    ensures r.day > 1 || MonthIndex(r) > 12
    ensures IsCutOffDate(PreviousDay(r), cutOffDay)
    ensures MonthIndex(source) - 1 <= MonthIndex(PreviousDay(r)) <= MonthIndex(source)
    ensures var previous := AddMonths(source, -1);
      MonthIndex(PreviousDay(r)) == MonthIndex(source) - 1 <==>
      previous.day <= CutOffDay(previous.year, previous.month, cutOffDay)
  {
    var previous := AddMonths(source, -1);
    var end := EndOfCutOff(previous, cutOffDay);
    BeginBeforeSource(source, previous, end, cutOffDay);
    PreviousOfNext(end);
    AddOneDay(end)
  }

  /** The end of the previous month's window lies before the source date. */
  lemma BeginBeforeSource(source: DateTime, previous: DateTime, end: DateTime, cutOffDay: int)
    requires Valid(source) && MonthIndex(source) >= 13
    requires previous == AddMonths(source, -1) && end == EndOfCutOff(previous, cutOffDay)
    ensures DateKey(AddOneDay(end)) <= DateKey(source)
  {
    var next := AddOneDay(end);
    if MonthIndex(end) == MonthIndex(previous) {
      if end.day < DaysInMonth(end.year, end.month) {
        LaterMonth(next, source);
      } else {
        assert MonthIndex(next) == MonthIndex(source);
        assert next.year == source.year && next.month == source.month;
      }
    } else {
      assert MonthIndex(end) == MonthIndex(source);
      assert end.year == source.year && end.month == source.month;
      assert end.day < source.day;
      assert next.year == source.year && next.month == source.month && next.day == end.day + 1;
    }
  }

  /** On 2023-05-31 with cut-off day 30, BeginOfCutOff as written gives 2023-05-01, the start of
      the previous window: its window ends on 2023-05-30, not on 2023-06-30 like the source's. */
  lemma BeginOfCutOffSkipsBack()
    ensures BeginOfCutOff(DateTime(2023, 5, 31, 0, 0, 0, 0), 30) == DateTime(2023, 5, 1, 0, 0, 0, 0)
    ensures EndOfCutOff(DateTime(2023, 5, 31, 0, 0, 0, 0), 30) == DateTime(2023, 6, 30, 0, 0, 0, 0)
    ensures EndOfCutOff(DateTime(2023, 5, 1, 0, 0, 0, 0), 30) == DateTime(2023, 5, 30, 0, 0, 0, 0)
  {
    AprilWindow();
    MayFirst();
    JuneWindow();
    MayWindow();
  }

  /** Moved back a month, 2023-05-31 is 2023-04-30, a cut-off date itself. */
  lemma AprilWindow()
    ensures AddMonths(DateTime(2023, 5, 31, 0, 0, 0, 0), -1) == DateTime(2023, 4, 30, 0, 0, 0, 0)
    ensures EndOfCutOff(DateTime(2023, 4, 30, 0, 0, 0, 0), 30) == DateTime(2023, 4, 30, 0, 0, 0, 0)
  {
    assert DaysInMonth(2023, 4) == 30;
  }

  lemma MayFirst()
    ensures AddOneDay(DateTime(2023, 4, 30, 0, 0, 0, 0)) == DateTime(2023, 5, 1, 0, 0, 0, 0)
  {
    assert DaysInMonth(2023, 4) == 30;
  }

  /** The 31st is past the 30th, so the window of 2023-05-31 closes in June. */
  lemma JuneWindow()
    ensures EndOfCutOff(DateTime(2023, 5, 31, 0, 0, 0, 0), 30) == DateTime(2023, 6, 30, 0, 0, 0, 0)
  {
    JuneNext();
    assert DaysInMonth(2023, 5) == 31 && DaysInMonth(2023, 6) == 30;
  }

  /** A month after 2023-05-31 is 2023-06-30: June has only 30 days. */
  lemma JuneNext()
    ensures AddMonths(DateTime(2023, 5, 31, 0, 0, 0, 0), 1) == DateTime(2023, 6, 30, 0, 0, 0, 0)
  {
    assert DaysInMonth(2023, 6) == 30;
  }

  lemma MayWindow()
    ensures EndOfCutOff(DateTime(2023, 5, 1, 0, 0, 0, 0), 30) == DateTime(2023, 5, 30, 0, 0, 0, 0)
  {
    assert DaysInMonth(2023, 5) == 31;
  }

  /** The start of the cut-off window that holds the source: the day after the previous cut-off
      day, found from the window's end rather than from the source moved back a month. */
  function BeginOfCutOffWindow(source: DateTime, cutOffDay: int): (r: DateTime)
    requires Valid(source) && MonthIndex(source) >= 13
    ensures Valid(r) && TimeOfDay(r) == 0
    ensures DateKey(r) <= DateKey(source)
    ensures EndOfCutOff(r, cutOffDay) == EndOfCutOff(source, cutOffDay)
    ensures r.day > 1 || MonthIndex(r) > 12
    ensures IsCutOffDate(PreviousDay(r), cutOffDay)
    ensures EndOfCutOff(PreviousDay(r), cutOffDay) != EndOfCutOff(source, cutOffDay)
  {
    var end := EndOfCutOff(source, cutOffDay);
    var previous := AddMonths(end, -1);
    var cut := EndOfCutOff(previous, cutOffDay);
    var r := AddOneDay(cut);
    WindowStart(source, cutOffDay, end, previous, r);
    PreviousOfNext(cut);
    CutOffDateFixed(cut, cutOffDay);
    r
  }

  /** Two dates of the same month index lie in the same year and month. */
  lemma SameMonth(a: DateTime, b: DateTime)
    requires 1 <= a.month <= 12 && 1 <= b.month <= 12 && MonthIndex(a) == MonthIndex(b)
    ensures a.year == b.year && a.month == b.month
  {
  }

  /** In each month there is one cut-off date at midnight. */
  lemma CutOffDateUnique(a: DateTime, b: DateTime, cutOffDay: int)
    requires Valid(a) && Valid(b) && TimeOfDay(a) == 0 && TimeOfDay(b) == 0
    requires MonthIndex(a) == MonthIndex(b)
    requires a.day == CutOffDay(a.year, a.month, cutOffDay) && b.day == CutOffDay(b.year, b.month, cutOffDay)
    ensures a == b
  {
    SameMonth(a, b);
  }

  /** The cut-off date of the month before the end of a window stays in that month. */
  lemma PreviousCutOff(end: DateTime, previous: DateTime, cutOffDay: int)
    requires Valid(end) && MonthIndex(end) >= 13 && end.day == CutOffDay(end.year, end.month, cutOffDay)
    requires previous == AddMonths(end, -1)
    ensures MonthIndex(EndOfCutOff(previous, cutOffDay)) == MonthIndex(previous)
  {
    assert previous.day <= CutOffDay(previous.year, previous.month, cutOffDay);
  }

  lemma WindowStart(source: DateTime, cutOffDay: int, end: DateTime, previous: DateTime, r: DateTime)
    requires Valid(source) && MonthIndex(source) >= 13
    requires end == EndOfCutOff(source, cutOffDay) && MonthIndex(end) >= 13
    requires previous == AddMonths(end, -1)
    requires r == AddOneDay(EndOfCutOff(previous, cutOffDay))
    ensures DateKey(r) <= DateKey(source)
    ensures EndOfCutOff(r, cutOffDay) == end
    ensures r.day == 1 || r.day - 1 == CutOffDay(r.year, r.month, cutOffDay)
  {
    var cut := EndOfCutOff(previous, cutOffDay);
    PreviousCutOff(end, previous, cutOffDay);
    SameMonth(cut, previous);
    WindowEnd(cutOffDay, end, cut, r);
    if MonthIndex(end) == MonthIndex(source) {
      if cut.day < DaysInMonth(cut.year, cut.month) {
        LaterMonth(r, source);
      } else {
        SameMonth(r, source);
      }
    } else {
      SameMonth(previous, source);
    }
  }

  /** The day after a cut-off date opens the window that ends at the next cut-off date. */
  lemma WindowEnd(cutOffDay: int, end: DateTime, cut: DateTime, r: DateTime)
    requires Valid(end) && TimeOfDay(end) == 0 && end.day == CutOffDay(end.year, end.month, cutOffDay)
    requires Valid(cut) && MonthIndex(cut) + 1 == MonthIndex(end) && cut.day == CutOffDay(cut.year, cut.month, cutOffDay)
    requires r == AddOneDay(cut)
    ensures EndOfCutOff(r, cutOffDay) == end
    ensures r.day == 1 || r.day - 1 == CutOffDay(r.year, r.month, cutOffDay)
  {
    var x := EndOfCutOff(r, cutOffDay);
    if cut.day < DaysInMonth(cut.year, cut.month) {
      assert CutOffDay(r.year, r.month, cutOffDay) < r.day;
    } else {
      SameMonth(r, end);
      assert r.day <= CutOffDay(r.year, r.month, cutOffDay);
    }
    CutOffDateUnique(x, end, cutOffDay);
  }
}
