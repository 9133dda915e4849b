/** The KPI figures of app.py lines 53-73, the progress ratio of line 90 and the pie counts of lines 112 and 124. */
module Kpis {
  import opened Results
  import opened Classifier

  /** One course row once its numeric columns hold numbers. */
  datatype CourseRow = CourseRow(
    course: string,
    requiredDays: real,
    completedDays: real,
    completedBooks: real,
    bookPages: real)

  /** What a floating-point division in the script can give here: a finite value or NaN. */
  datatype Float = Finite(value: real) | NaN

  function RequiredDaysOf(row: CourseRow): real { row.requiredDays }
  function CompletedDaysOf(row: CourseRow): real { row.completedDays }
  function CompletedBooksOf(row: CourseRow): real { row.completedBooks }
  function BookPagesOf(row: CourseRow): real { row.bookPages }

  function StatusOf(row: CourseRow): Status {
    DetermineStatus(row.requiredDays, row.completedDays)
  }

  /** `df['Status'] = df.apply(determine_status, axis=1)` (line 53). */
  function StatusColumn(rows: seq<CourseRow>): (s: seq<Status>)
    ensures |s| == |rows|
    ensures forall i :: 0 <= i < |rows| ==> s[i] == StatusOf(rows[i])
  {
    seq(|rows|, i requires 0 <= i < |rows| => StatusOf(rows[i]))
  }

  /** `(df['Status'] == '✅ Completed').sum()` (line 57). */
  function CountCompleted(statuses: seq<Status>): (n: nat)
    ensures n <= |statuses|
    ensures n == |statuses| <==> forall i :: 0 <= i < |statuses| ==> statuses[i] == Completed
    ensures n == 0 <==> forall i :: 0 <= i < |statuses| ==> statuses[i] != Completed
  {
    if statuses == [] then 0
    else
      var rest := CountCompleted(statuses[1..]);
      assert forall i :: 1 <= i < |statuses| ==> statuses[i] == statuses[1..][i - 1];
      (if statuses[0] == Completed then 1 else 0) + rest
  }

  /** The count does not depend on the order of the rows: it is the multiplicity of Completed. */
  lemma {:induction false} CountCompletedIsMultiplicity(statuses: seq<Status>)
    ensures CountCompleted(statuses) == multiset(statuses)[Completed]
  {
    if statuses != [] {
      CountCompletedIsMultiplicity(statuses[1..]);
      assert statuses == [statuses[0]] + statuses[1..];
      assert multiset(statuses) == multiset{statuses[0]} + multiset(statuses[1..]);
    }
  }

  /** `df[col].sum()` for one numeric column (lines 60-63). */
  function Total(rows: seq<CourseRow>, field: CourseRow -> real): (t: real)
    ensures (forall i :: 0 <= i < |rows| ==> field(rows[i]) == 0.0) ==> t == 0.0
  {
    if rows == [] then 0.0 else field(rows[0]) + Total(rows[1..], field)
  }

  /** One row contributes its own cell to the sum. */
  lemma TotalSingleton(row: CourseRow, field: CourseRow -> real)
    ensures Total([row], field) == field(row)
  {
  }

  /** The sum of a concatenation is the sum of the parts, so the total does not depend on how the rows are split. */
  lemma {:induction false} TotalAppend(a: seq<CourseRow>, b: seq<CourseRow>, field: CourseRow -> real)
    ensures Total(a + b, field) == Total(a, field) + Total(b, field)
  {
    if a == [] {
      assert a + b == b;
    } else {
      assert (a + b)[1..] == a[1..] + b;
      TotalAppend(a[1..], b, field);
    }
  }

  lemma {:induction false} TotalNonNegative(rows: seq<CourseRow>, field: CourseRow -> real)
    requires forall i :: 0 <= i < |rows| ==> field(rows[i]) >= 0.0
    ensures Total(rows, field) >= 0.0
  {
    if rows != [] {
      TotalNonNegative(rows[1..], field);
    }
  }

  lemma {:induction false} TotalMonotone(rows: seq<CourseRow>, lo: CourseRow -> real, hi: CourseRow -> real)
    requires forall i :: 0 <= i < |rows| ==> lo(rows[i]) <= hi(rows[i])
    ensures Total(rows, lo) <= Total(rows, hi)
  {
    if rows != [] {
      TotalMonotone(rows[1..], lo, hi);
    }
  }

  /** Python's `int(x)` on a float: truncation toward zero (lines 60-61). */
  function Truncate(x: real): (n: int)
    ensures 0.0 <= x ==> 0 <= n && n as real <= x < n as real + 1.0
    ensures x < 0.0 ==> n <= 0 && n as real - 1.0 < x <= n as real
  {
    if x >= 0.0 then x.Floor else -((-x).Floor)
  }

  /**
   * `completed_courses / total_courses * 100` (line 58). The numerator is a
   * NumPy integer, so an empty table gives NaN rather than an exception.
   */
  function CompletedCoursesPct(completed: nat, total: nat): (p: Float)
    requires completed <= total
    ensures p == NaN <==> total == 0
    ensures p.Finite? ==> 0.0 <= p.value <= 100.0 && p.value * total as real == completed as real * 100.0
    ensures 0 < total == completed ==> p == Finite(100.0)
  {
    if total == 0 then NaN
    else
      var q := completed as real / total as real;
      assert completed == total ==> q == 1.0;
      Finite(q * 100.0)
  }

  /** `program_day_pct` (line 64): guarded against a non-positive denominator. */
  function ProgramDayPct(totalCompleted: real, totalRequired: real): (p: real)
    ensures totalRequired <= 0.0 ==> p == 0.0
    ensures totalRequired > 0.0 ==> p * totalRequired == totalCompleted * 100.0
    ensures totalCompleted >= 0.0 ==> p >= 0.0
    ensures totalCompleted <= totalRequired ==> p <= 100.0
  {
    if totalRequired > 0.0 then totalCompleted / totalRequired * 100.0 else 0.0
  }

  /**
   * `completed / total * 100` on two Python integers (lines 69 and 73):
   * a zero total raises ZeroDivisionError.
   */
  function IntPct(completed: int, total: int): (r: Result<real>)
    ensures r == Failure(DivisionByZero) <==> total == 0
    ensures r.Failure? <==> total == 0
    ensures r.Failure? ==> r.error == DivisionByZero
    ensures r.Success? ==> r.value * total as real == completed as real * 100.0
    ensures 0 <= completed <= total && total != 0 ==> r.Success? && 0.0 <= r.value <= 100.0
  {
    if total == 0 then Failure(DivisionByZero)
    else
      var q := completed as real / total as real;
      assert 0 <= completed <= total ==> 0.0 <= q <= 1.0;
      Success(q * 100.0)
  }

  /** The "Remaining" slice of the theses and comps pies (lines 112 and 124). */
  function Remaining(completed: int, total: int): (r: int)
    ensures r + completed == total
    ensures 0 <= completed <= total ==> 0 <= r <= total
  {
    total - completed
  }

  /** The hardcoded milestone figures (lines 67-68 and 71-72). */
  const ThesesTotal: int := 45
  const ThesesCompleted: int := 4
  const CompsTotal: int := 45
  const CompsCompleted: int := 0

  lemma MilestoneFigures()
    ensures IntPct(ThesesCompleted, ThesesTotal) == Success(80.0 / 9.0)
    ensures IntPct(CompsCompleted, CompsTotal) == Success(0.0)
    ensures Remaining(ThesesCompleted, ThesesTotal) == 41
    ensures Remaining(CompsCompleted, CompsTotal) == 45
  {
  }

  /** `clip(0, 1)` on a finite value: the nearest point of [0, 1]. */
  function Clip(x: real): (y: real)
    ensures 0.0 <= y <= 1.0
    ensures 0.0 <= x <= 1.0 ==> y == x
    ensures x < 0.0 ==> y == 0.0
    ensures x > 1.0 ==> y == 1.0
  {
    if x < 0.0 then 0.0 else if x > 1.0 then 1.0 else x
  }

  /**
   * `(completed / required).clip(0, 1)` on one row (line 90), with float
   * division: x/0 is +inf or -inf by the sign of x and clips to 1 or 0; 0/0 is NaN
   * and `clip` leaves it NaN.
   */
  function Progress(required: real, completed: real): (p: Float)
    ensures p.Finite? ==> 0.0 <= p.value <= 1.0
    ensures p == NaN <==> required == 0.0 && completed == 0.0
    ensures required != 0.0 ==> p == Finite(Clip(completed / required))
    ensures required != 0.0 && 0.0 <= completed / required <= 1.0 ==> p == Finite(completed / required)
    ensures required == 0.0 && completed > 0.0 ==> p == Finite(1.0)
    ensures required == 0.0 && completed < 0.0 ==> p == Finite(0.0)
    ensures required != 0.0 && completed / required < 0.0 ==> p == Finite(0.0)
  {
    if required == 0.0 then
      if completed == 0.0 then NaN
      else if completed > 0.0 then Finite(1.0)
      else Finite(0.0)
    else Finite(Clip(completed / required))
  }

  /** The bar of a course with positive required days is full exactly when its status is Completed, and empty when it has not started. */
  lemma ProgressAgreesWithStatus(required: real, completed: real)
    requires required > 0.0
    ensures DetermineStatus(required, completed) == Completed <==> Progress(required, completed) == Finite(1.0)
    ensures DetermineStatus(required, completed) == NotStarted ==> Progress(required, completed) == Finite(0.0)
    ensures DetermineStatus(required, completed) == InProgress && completed > 0.0 ==>
      0.0 < Progress(required, completed).value < 1.0
  {
    var q := completed / required;
    assert q * required == completed;
    assert q >= 1.0 <==> completed >= required;
    assert q > 0.0 <==> completed > 0.0;
  }

  /** Three sample course rows: finished, not started and half done. */
  lemma ExampleRows()
    ensures DetermineStatus(10.0, 10.0) == Completed && Progress(10.0, 10.0) == Finite(1.0)
    ensures DetermineStatus(8.0, 0.0) == NotStarted && Progress(8.0, 0.0) == Finite(0.0)
    ensures DetermineStatus(12.0, 6.0) == InProgress && Progress(12.0, 6.0) == Finite(0.5)
  {
  }

  /** The `Progress %` column. */
  function ProgressColumn(rows: seq<CourseRow>): (p: seq<Float>)
    ensures |p| == |rows|
    ensures forall i :: 0 <= i < |rows| ==> p[i] == Progress(rows[i].requiredDays, rows[i].completedDays)
  {
    seq(|rows|, i requires 0 <= i < |rows| => Progress(rows[i].requiredDays, rows[i].completedDays))
  }

  /** The figures of the "Summary Statistics" panel and the milestone pies. */
  datatype Summary = Summary(
    totalCourses: nat,
    completedCourses: nat,
    completedCoursesPct: Float,
    totalBooks: int,
    totalPages: int,
    totalRequiredDays: real,
    totalCompletedDays: real,
    programDayPct: real,
    thesesPct: real,
    compsPct: real,
    thesesRemaining: int,
    compsRemaining: int)

  /** Lines 56-73, 112 and 124 over the filtered, typed rows. */
  function Summarize(rows: seq<CourseRow>): (s: Summary)
    ensures s.totalCourses == |rows|
    ensures s.completedCourses == CountCompleted(StatusColumn(rows))
    ensures s.completedCoursesPct == CompletedCoursesPct(s.completedCourses, |rows|)
    ensures s.totalRequiredDays == Total(rows, RequiredDaysOf)
    ensures s.totalCompletedDays == Total(rows, CompletedDaysOf)
    ensures s.totalBooks == Truncate(Total(rows, CompletedBooksOf))
    ensures s.totalPages == Truncate(Total(rows, BookPagesOf))
    ensures s.programDayPct == ProgramDayPct(s.totalCompletedDays, s.totalRequiredDays)
    ensures IntPct(ThesesCompleted, ThesesTotal) == Success(s.thesesPct)
    ensures IntPct(CompsCompleted, CompsTotal) == Success(s.compsPct)
    ensures s.completedCourses <= s.totalCourses
    ensures s.completedCourses == |rows| <==> forall i :: 0 <= i < |rows| ==> StatusOf(rows[i]) == Completed
    ensures s.completedCoursesPct == NaN <==> rows == []
    ensures s.completedCoursesPct.Finite? ==> 0.0 <= s.completedCoursesPct.value <= 100.0
    ensures s.totalRequiredDays <= 0.0 ==> s.programDayPct == 0.0
    ensures s.thesesRemaining + ThesesCompleted == ThesesTotal
    ensures s.compsRemaining + CompsCompleted == CompsTotal
  {
    var statuses := StatusColumn(rows);
    var completed := CountCompleted(statuses);
    var required := Total(rows, RequiredDaysOf);
    var done := Total(rows, CompletedDaysOf);
    Summary(
      |rows|,
      completed,
      CompletedCoursesPct(completed, |rows|),
      Truncate(Total(rows, CompletedBooksOf)),
      Truncate(Total(rows, BookPagesOf)),
      required,
      done,
      ProgramDayPct(done, required),
      IntPct(ThesesCompleted, ThesesTotal).value,
      IntPct(CompsCompleted, CompsTotal).value,
      Remaining(ThesesCompleted, ThesesTotal),
      Remaining(CompsCompleted, CompsTotal))
  }

  /**
   * With no negative day counts the overall progress is non-negative; when,
   * in addition, no course has more completed than required days, it is at most 100.
   */
  lemma ProgramDayPctInRange(rows: seq<CourseRow>)
    requires forall i :: 0 <= i < |rows| ==> 0.0 <= rows[i].completedDays
    ensures 0.0 <= Summarize(rows).programDayPct
    ensures (forall i :: 0 <= i < |rows| ==> rows[i].completedDays <= rows[i].requiredDays) ==>
      Summarize(rows).programDayPct <= 100.0
  {
    TotalNonNegative(rows, CompletedDaysOf);
    if forall i :: 0 <= i < |rows| ==> rows[i].completedDays <= rows[i].requiredDays {
      TotalMonotone(rows, CompletedDaysOf, RequiredDaysOf);
    }
  }

  /** Book and page totals are never negative when the cells are not. */
  lemma ReadingTotalsNonNegative(rows: seq<CourseRow>)
    requires forall i :: 0 <= i < |rows| ==> 0.0 <= rows[i].completedBooks && 0.0 <= rows[i].bookPages
    ensures Summarize(rows).totalBooks >= 0 && Summarize(rows).totalPages >= 0
  {
    TotalNonNegative(rows, CompletedBooksOf);
    TotalNonNegative(rows, BookPagesOf);
  }
}
