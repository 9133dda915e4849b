# SAASS progress dashboard: the data path, modelled in Dafny

The dashboard script (`app.py`) downloads a published spreadsheet as CSV and
turns it into the figures of a course-progress page. This project models the
part of the script that computes those figures:

1. **Table cleanup** (lines 14-21). It drops the columns that are empty in every row. Data row 1 becomes
   the header: a missing cell becomes `""` and every label is whitespace-stripped. Only the rows after the
   header are kept, the labels are stripped again, and `Course Title` is renamed to `Course`.
2. **Curriculum filter** (lines 24-36). It keeps the rows whose `Course` cell is exactly one of the ten
   curriculum course names.
3. **Numeric coercion** (lines 39-42). The script loops over `Required Days`, `Completed Days`,
   `Completed Books` and `Book Pages`. For each one the table has, every cell becomes a number, and a cell
   that does not read as a number becomes 0.
4. **Status** (lines 45-53). `determine_status` applies a three-way threshold rule, with the Completed test first.
5. **Figures** (lines 56-73, 90, 112, 124). These are the course counts and the completion percentage,
   the book, page and day totals, the overall day percentage (guarded against a zero denominator), the
   hardcoded thesis and comps percentages, the per-course progress ratio clipped to [0, 1], and the
   "remaining" pie slices.

Modules, one per stage: `Whitespace` (Python's `str.strip`), `Frames` (the table and stage 1),
`Curriculum` (stage 2), `Coercion` (stage 3, a method with the script's `for` loop),
`Classifier` (stage 4), `Kpis` (stage 5) and `Dashboard` (the stages in order, as the method `Run`
and the function `Pipeline` it is proved equal to). `Results` holds `Option`, `Result` and the
ways the script can stop.

Modelling choices:

- **The table.** A table is a `Frame`: column labels plus rows of cells. A cell is `Missing` (pandas' NaN), `Text` or `Number`.
  Rows are a `seq`. The positional index that `reset_index` renumbers is implicit.
- **The parser.** The parser behind `pd.to_numeric` is library code, so it is a parameter:
  `parse: string -> Option<real>` gives `Some(v)` when a text reads as the number `v`.
- **Real numbers.** Day counts, books and pages are `real`, because `to_numeric` may produce fractional
  values. `int(...)` on the book and page totals is truncation toward zero (`Kpis.Truncate`).
- **How the script stops.** Python exceptions become `Result.Failure` values:
  - `df.iloc[1]` on fewer than two rows is `MissingHeaderRow`.
  - A header row with no cells (every column of the download empty) or with a number is `HeaderNotText`: the script stops at line 15 or 17. `.str` refuses a header row without any text or missing cell at line 15; otherwise `.str.strip()` turns the number into NaN, and `x.strip()` on line 17 then fails.
  - A missing column is `MissingColumn(name)`.
  - `int / int` with a zero divisor is `DivisionByZero`.
- **Division outcomes.**
  - `completed_courses` is a NumPy integer, so `completed_courses / total_courses` is NaN on an empty table rather than an exception. The model returns `Float.NaN` there.
  - On line 90, `x / 0` is an infinity that `clip` turns into 1 (or 0 when `x` is negative), and `0 / 0` stays NaN.
- **Exact matching.** Matching course names after trimming would keep "Space Power ". The script
  compares cell values exactly (line 36) and does not. The model follows the script
  (`Curriculum.UntrimmedNameIsDropped`).

## Model

| member | source | states |
|---|---|---|
| Whitespace.TrimStart | app.py:15 | the result is the longest suffix of the input that does not start with whitespace; everything cut off is whitespace |
| Whitespace.TrimEnd | app.py:15 | the result is the longest prefix that does not end with whitespace; everything cut off is whitespace |
| Whitespace.Strip | app.py:15-17 | the result has no whitespace at either end, is empty exactly when the input is all whitespace, and equals the input when the input is already clean |
| Whitespace.StripRemovesOnlyMargins | app.py:15-17 | `strip` returns the slice of the input between two all-whitespace margins |
| Whitespace.StripIdempotent | app.py:17 | stripping twice equals stripping once, so the second strip of the labels (line 17) changes nothing |
| Frames.IndexOf | app.py:36 | the position read by `df['Course']` is the first column with that label |
| Frames.KeptIndices | app.py:14 | lists no more positions than there are columns, each of a column that holds some value |
| Frames.KeptIndicesComplete | app.py:14 | the kept positions are strictly increasing and include every column that holds a value |
| Frames.DropEmptyColumns | app.py:14 | keeps the row count; no column of the result is empty; the result's columns are exactly the kept positions, each with its own label, and every row is the input row read at those positions |
| Frames.ProjectKeptKeepsValues | app.py:14 | removing the empty columns from a row keeps all its non-missing values, in order |
| Frames.DropEmptyColumnsKeepsValues | app.py:14 | every row of the result has the same non-missing values, in the same order, as the input row |
| Frames.KeptIndicesAll | app.py:14 | when no column is empty, every column position is kept |
| Frames.DropEmptyColumnsNoOp | app.py:14 | a table with no all-empty column passes line 14 unchanged |
| Frames.HeaderLabel | app.py:15 | a missing header cell gives `""`; a text cell gives its `Strip`; the label is clean, and a clean text is kept verbatim |
| Frames.PromoteHeader | app.py:15-16 | fails exactly when there is no data row 1 (`MissingHeaderRow`), or the table has no columns or row 1 holds a number (`HeaderNotText`); otherwise label j is the header label of cell j of row 1, and the rows are those from index 2 on |
| Frames.StripHeaders | app.py:17 | each label becomes `Strip` of the old label; all labels are clean afterwards; a table whose labels are already clean is unchanged |
| Frames.RenameCourseTitle | app.py:20-21 | no `Course Title` label remains; `Course` is present iff either name was before; other labels and all rows are unchanged |
| Frames.HeaderNumberKept | app.py:14-15 | line 14 leaves no column exactly when every column is empty; the header row holds a number exactly when it still does after the empty columns are dropped |
| Frames.CleanLabelsRenamed | app.py:17-21 | on clean labels, line 17 changes nothing and lines 20-21 rename only `Course Title`; rows unchanged |
| Frames.CourseLabel | app.py:20-21 | `Course Title` becomes `Course`, any other label is kept, and the result is never `Course Title` |
| Frames.CleanTable | app.py:14-21 | fails exactly when the download has fewer than two rows (`MissingHeaderRow`), or every column is empty or its header row holds a number (`HeaderNotText`); otherwise the labels are the stripped header cells of the kept columns with `Course Title` renamed, the rows are the kept rows after the header, and the labels are clean and contain no `Course Title` |
| Frames.CleanTableKeepsValues | app.py:14-16 | each data row after the header keeps its non-missing values, in order, through the cleanup |
| Curriculum.Listed | app.py:36 | a row's course cell matches exactly when it is text equal to one of the ten curriculum names |
| Curriculum.KeepListed | app.py:36 | never adds rows, and every row it keeps has a curriculum name in the course column |
| Curriculum.KeepListedWidth | app.py:36 | the kept rows keep their width |
| Curriculum.KeepListedMembers | app.py:36 | a row survives exactly when it is in the table and its course cell is text equal to a curriculum name |
| Curriculum.KeepListedAppend | app.py:36 | filtering distributes over concatenation, so the rows keep their relative order |
| Curriculum.KeepListedIsSubsequence | app.py:36 | the result is a subsequence of the input |
| Curriculum.KeepListedAllListed | app.py:36 | a table of curriculum rows is returned unchanged |
| Curriculum.KeepListedIdempotent | app.py:36 | filtering twice equals filtering once |
| Curriculum.FilterCurriculum | app.py:24-36 | fails, and only with a missing `Course` column, exactly when the label is absent; otherwise keeps the labels and exactly the listed rows |
| Curriculum.FilterCurriculumIdempotent | app.py:36 | running the filter on its own output changes nothing |
| Curriculum.UntrimmedNameIsDropped | app.py:24-36 | a course name with a trailing blank is not matched |
| Coercion.CoerceCell | app.py:42 | the result is always a number; a number is kept, parseable text becomes its value, and missing or unparseable cells become 0 |
| Coercion.CoerceColumns | app.py:40-42 | labels and row count are unchanged; cells of the named columns are coerced and all other cells are untouched |
| Coercion.CoerceNothing | app.py:40-42 | coercing no column is the identity |
| Coercion.CoerceOneMore | app.py:40-42 | one more pass of the loop coerces one more named column |
| Coercion.CoerceAbsent | app.py:41 | naming a column the table lacks changes nothing (the `if col in df.columns` guard) |
| Coercion.CoerceNumericColumns | app.py:39-42 | the loop leaves the table equal to coercing exactly the four numeric columns that are present |
| Classifier.DetermineStatus | app.py:45-51 | Completed iff 0 < required <= completed; Not Started iff completed == 0; In Progress iff completed != 0 and (required <= 0 or completed < required) |
| Classifier.ZeroRequiredNeverCompleted | app.py:46-51 | with 0 required days, 0 completed is Not Started and anything else is In Progress |
| Classifier.Label | app.py:47-57 | the stored label equals the Completed label that line 57 compares against exactly when the status is Completed |
| Classifier.LabelsDistinct | app.py:47-57 | the three status labels differ, so counting the Completed label counts Completed rows |
| Kpis.StatusColumn | app.py:53 | one status per row, in row order, each the rule applied to that row |
| Kpis.CountCompleted | app.py:57 | at most the number of rows; equal to it iff every row is Completed; 0 iff none is |
| Kpis.CountCompletedIsMultiplicity | app.py:57 | the count is the multiplicity of Completed, so it does not depend on row order |
| Kpis.Total | app.py:60-63 | the column sum is 0 when every cell is 0; `TotalSingleton` and `TotalAppend` fix it as the sum of the rows' cells |
| Kpis.TotalSingleton | app.py:60-63 | one row contributes exactly its own cell |
| Kpis.TotalAppend | app.py:60-63 | the sum over a concatenation is the sum of the two parts |
| Kpis.TotalNonNegative | app.py:60-63 | the sum of a column with no negative cell is not negative |
| Kpis.TotalMonotone | app.py:62-63 | a column that is nowhere larger than another has a sum no larger |
| Kpis.Truncate | app.py:60-61 | `int()` truncates toward zero: the result is within one of the input, on the side of zero |
| Kpis.CompletedCoursesPct | app.py:58 | NaN exactly on an empty table; otherwise percentage times total equals 100 times completed, within [0, 100], and 100 when all are completed |
| Kpis.ProgramDayPct | app.py:62-64 | 0 when required <= 0; otherwise percentage times required equals 100 times completed; non-negative for non-negative completed; at most 100 when completed <= required |
| Kpis.IntPct | app.py:69-73 | fails, and only with ZeroDivisionError, exactly when the total is 0; otherwise percentage times total equals 100 times completed, within [0, 100] when 0 <= completed <= total |
| Kpis.Remaining | app.py:112-124 | completed and remaining slices add up to the total; remaining is in [0, total] when completed is |
| Kpis.MilestoneFigures | app.py:67-73 | the hardcoded figures give 80/9 % of theses and 0 % of comps, with 41 and 45 remaining |
| Kpis.Clip | app.py:90 | the nearest point of [0, 1]: 0 below it, 1 above it, the input inside it |
| Kpis.Progress | app.py:90 | NaN exactly when both day counts are 0; with required days the clipped ratio (0 for a negative ratio, the plain ratio inside [0, 1]); with 0 required days 1 for positive and 0 for negative completed days |
| Kpis.ProgressAgreesWithStatus | app.py:46-90 | with positive required days, the bar is full iff the status is Completed, empty when Not Started, and strictly between when In Progress with completed > 0 |
| Kpis.ExampleRows | app.py:45-90 | 10 of 10 days is Completed at 1, 0 of 8 is Not Started at 0, 6 of 12 is In Progress at 0.5 |
| Kpis.ProgressColumn | app.py:90 | one progress value per row, in row order |
| Kpis.Summarize | app.py:56-124 | each figure is its component over the rows: completed = count of Completed statuses, its percentage, the day sums, the truncated book and page sums, the guarded day percentage and the milestone percentages; completed <= total, equal iff every row is Completed; the percentage is NaN iff there are no rows, else in [0, 100]; the pie slices add up to the totals |
| Kpis.ProgramDayPctInRange | app.py:62-64 | non-negative completed days give a non-negative overall percentage; if no course exceeds its required days, it is at most 100 |
| Kpis.ReadingTotalsNonNegative | app.py:60-61 | non-negative book and page cells give non-negative totals |
| Dashboard.FirstAbsent | app.py:46-61 | names the first absent numeric column in reading order, and is None iff all four are present |
| Dashboard.CourseRows | app.py:46-63 | fails with a missing-column error iff a numeric column is absent; otherwise one record per row holding that row's course text and numeric values |
| Dashboard.CoercedFilterIsTyped | app.py:36-42 | after filtering and coercion the course cells are text, unchanged by coercion, and the numeric cells are numbers |
| Dashboard.CoursesAfterFilter | app.py:39-63 | after the filter, coercion and the column reads fail exactly when a numeric column is absent; otherwise record i is read from kept row i: its course text verbatim and each numeric cell as line 42 coerces it |
| Dashboard.Pipeline | app.py:14-90 | a cleanup failure is the run's failure; a successful run's figures are the report of its course rows |
| Dashboard.Run | app.py:14-90 | the script's statements in order produce exactly `Pipeline` of the downloaded table |
| Dashboard.PipelineNeedsHeaderRow | app.py:15 | a download with fewer than two data rows stops at the header promotion |
| Dashboard.ReportGuarantees | app.py:53-90 | statuses and progress values line up with the courses; completed <= total; the completion percentage is NaN iff there are no courses; every progress value is in [0, 1] |
| Dashboard.PipelineCourses | app.py:14-42 | a successful run reports only curriculum courses, at most one per data row after the header, and its figures are those of the reported rows |
| Dashboard.ListedRowRead | app.py:36-63 | a listed row of the table before the filter becomes a course record holding its course text and its coerced numeric cells |
| Dashboard.PipelineReportsListedRows | app.py:14-63 | every row of the cleaned table whose course cell is a curriculum name reaches the report as a record holding that name and the row's coerced numeric cells |
| Dashboard.PipelineSucceeds | app.py:14-63 | a download yields a report exactly when it cleans and its labels include `Course` and the four numeric columns; otherwise it stops with the cleanup error, the missing `Course`, or the first absent numeric column |

## Left out

- The download and CSV parsing (`pd.read_csv(url)`, lines 10-11) are network I/O and library code. The model starts from the parsed table.
- The page setup, metrics, tables and warnings (lines 5-7, 76-86, 134-140) are rendering only.
- The Altair charts and the `value_counts` pie data (lines 91-131) are rendering through a charting library. Only the `Progress %` values and the "remaining" counts they are built from are modelled.
- `round(..., 1)` and floating-point rounding in sums and quotients are left out. The model uses exact real arithmetic.
- Kpis.Progress, Kpis.CompletedCoursesPct: infinities other than the clipped `x / 0` on line 90 are not represented.
- Kpis.CompletedCoursesPct: it requires `completed <= total`. Line 57 always provides this. A positive count over zero rows cannot occur.
- Coercion.CoerceCell: a text the parser reads as `inf` would give an infinite cell, which `real` cannot hold.
- Duplicate column labels are not modelled. pandas returns a sub-table for `df[name]` and then behaves differently or raises. The model reads the first column with the label and coerces every column with a numeric label.
- An empty filtered table is treated as a table with no rows. The model does not capture what pandas' `apply` does on an empty frame at line 53.
- Dashboard.FirstAbsent: the column reported as missing follows the order in which a non-empty table reads the columns. On an empty table, line 53 may stop the script with a different error (pandas' `apply` on an empty frame); the model still reports the first absent column.
- The number-versus-text type inference of `read_csv` is not modelled. Any cell may be a number, and the header rule covers both outcomes.
