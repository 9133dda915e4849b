/**
 * The whole data path of app.py, from the downloaded table to the figures
 * the page shows: cleanup (lines 14-21), curriculum filter (36), numeric
 * coercion (39-42), status (53), KPIs (56-73), progress (90) and the
 * milestone pie counts (112, 124).
 */
module Dashboard {
  import opened Results
  import opened Whitespace
  import opened Frames
  import opened Curriculum
  import opened Coercion
  import opened Classifier
  import opened Kpis

  /**
   * The numeric columns the status rule and the KPI sums look up, in the
   * order a non-empty table first reads them (lines 46, 60, 61).
   */
  const ReadColumns: seq<string> := ["Completed Days", "Required Days", "Completed Books", "Book Pages"]

  predicate HasReadColumns(columns: seq<string>) {
    && "Completed Days" in columns
    && "Required Days" in columns
    && "Completed Books" in columns
    && "Book Pages" in columns
  }

  /** The first of the read columns that the table lacks, in reading order. */
  function FirstAbsent(columns: seq<string>): (r: Option<string>)
    ensures r == None <==> HasReadColumns(columns)
    ensures r.Some? ==> r.value in ReadColumns && r.value !in columns
    ensures r.Some? ==> forall k :: 0 <= k < |ReadColumns| && ReadColumns[k] == r.value ==>
      forall m :: 0 <= m < k ==> ReadColumns[m] in columns
  {
    if "Completed Days" !in columns then Some("Completed Days")
    else if "Required Days" !in columns then Some("Required Days")
    else if "Completed Books" !in columns then Some("Completed Books")
    else if "Book Pages" !in columns then Some("Book Pages")
    else None
  }

  /** A table after filtering and coercion: course cells are text, numeric cells are numbers. */
  predicate Typed(f: Frame) {
    && WellFormed(f)
    && CourseColumn in f.columns
    && (forall i :: 0 <= i < |f.rows| ==> f.rows[i][IndexOf(f.columns, CourseColumn)].Text?)
    && (forall i, j :: 0 <= i < |f.rows| && 0 <= j < |f.columns| && f.columns[j] in NumericColumns ==>
          f.rows[i][j].Number?)
  }

  function NumberAt(f: Frame, i: nat, name: string): real
    requires Typed(f) && i < |f.rows| && name in NumericColumns && name in f.columns
  {
    f.rows[i][IndexOf(f.columns, name)].value
  }

  /**
   * Reading each row by column name, as `row['Required Days']` and
   * `df['Completed Books']` do. A missing column raises KeyError.
   */
  function CourseRows(f: Frame): (r: Result<seq<CourseRow>>)
    requires Typed(f)
    ensures r.Failure? <==> !HasReadColumns(f.columns)
    ensures r.Failure? ==> r.error.MissingColumn? && r.error.name in ReadColumns && r.error.name !in f.columns
    ensures r.Success? ==>
      && |r.value| == |f.rows|
      && forall i :: 0 <= i < |f.rows| ==>
           && r.value[i].course == f.rows[i][IndexOf(f.columns, CourseColumn)].text
           && r.value[i].requiredDays == f.rows[i][IndexOf(f.columns, "Required Days")].value
           && r.value[i].completedDays == f.rows[i][IndexOf(f.columns, "Completed Days")].value
           && r.value[i].completedBooks == f.rows[i][IndexOf(f.columns, "Completed Books")].value
           && r.value[i].bookPages == f.rows[i][IndexOf(f.columns, "Book Pages")].value
  {
    match FirstAbsent(f.columns)
    case Some(name) => Failure(MissingColumn(name))
    case None =>
      Success(seq(|f.rows|, i requires 0 <= i < |f.rows| =>
        CourseRow(
          f.rows[i][IndexOf(f.columns, CourseColumn)].text,
          NumberAt(f, i, "Required Days"),
          NumberAt(f, i, "Completed Days"),
          NumberAt(f, i, "Completed Books"),
          NumberAt(f, i, "Book Pages"))))
  }

  /** Filtering leaves only listed course cells, and coercion does not touch the course column. */
  lemma CoercedFilterIsTyped(kept: Frame, parse: string -> Option<real>)
    requires WellFormed(kept) && CourseColumn in kept.columns
    requires forall i :: 0 <= i < |kept.rows| ==> Listed(kept.rows[i], IndexOf(kept.columns, CourseColumn))
    ensures Typed(CoerceColumns(kept, NumericColumns, parse))
    ensures forall i :: 0 <= i < |kept.rows| ==>
      CoerceColumns(kept, NumericColumns, parse).rows[i][IndexOf(kept.columns, CourseColumn)]
        == kept.rows[i][IndexOf(kept.columns, CourseColumn)]
  {
    assert CourseColumn !in NumericColumns;
  }

  /**
   * `rec` is what the script reads from `row` once line 42 has coerced it:
   * the course text as it stands and each numeric cell as coerced.
   */
  predicate RecordOf(columns: seq<string>, row: seq<Cell>, parse: string -> Option<real>, rec: CourseRow)
    requires |row| == |columns| && CourseColumn in columns && HasReadColumns(columns)
  {
    && row[IndexOf(columns, CourseColumn)] == Text(rec.course)
    && rec.requiredDays == CoerceCell(row[IndexOf(columns, "Required Days")], parse).value
    && rec.completedDays == CoerceCell(row[IndexOf(columns, "Completed Days")], parse).value
    && rec.completedBooks == CoerceCell(row[IndexOf(columns, "Completed Books")], parse).value
    && rec.bookPages == CoerceCell(row[IndexOf(columns, "Book Pages")], parse).value
  }

  /** Lines 39-42 and the reads by column name, on the filtered table. */
  function CoursesAfterFilter(kept: Frame, parse: string -> Option<real>): (r: Result<seq<CourseRow>>)
    requires WellFormed(kept) && CourseColumn in kept.columns
    requires forall i :: 0 <= i < |kept.rows| ==> Listed(kept.rows[i], IndexOf(kept.columns, CourseColumn))
    ensures r.Failure? <==> !HasReadColumns(kept.columns)
    ensures r.Success? ==> |r.value| == |kept.rows| && forall i :: 0 <= i < |r.value| ==> r.value[i].course in Courses
    ensures r.Success? ==> forall i :: 0 <= i < |r.value| ==> RecordOf(kept.columns, kept.rows[i], parse, r.value[i])
  {
    CoercedFilterIsTyped(kept, parse);
    var typed := CoerceColumns(kept, NumericColumns, parse);
    var r := CourseRows(typed);
    assert r.Success? ==> forall i :: 0 <= i < |r.value| ==> RecordOf(kept.columns, kept.rows[i], parse, r.value[i]) by {
      if r.Success? {
        forall i | 0 <= i < |r.value| ensures RecordOf(kept.columns, kept.rows[i], parse, r.value[i]) {
          assert typed.rows[i][IndexOf(kept.columns, CourseColumn)] == kept.rows[i][IndexOf(kept.columns, CourseColumn)];
        }
      }
    }
    r
  }

  /** Everything the page is drawn from. */
  datatype Report = Report(
    courses: seq<CourseRow>,
    statuses: seq<Status>,
    progress: seq<Float>,
    summary: Summary)

  function MakeReport(rows: seq<CourseRow>): Report {
    Report(rows, StatusColumn(rows), ProgressColumn(rows), Summarize(rows))
  }

  /** The data path of the script, stage by stage, as one function of the downloaded table. */
  function Pipeline(raw: Frame, parse: string -> Option<real>): (r: Result<Report>)
    requires WellFormed(raw)
    ensures CleanTable(raw).Failure? ==> r == Failure(CleanTable(raw).error)
    ensures r.Success? ==> r.value == MakeReport(r.value.courses)
  {
    match CleanTable(raw)
    case Failure(e) => Failure(e)
    case Success(clean) =>
      match FilterCurriculum(clean)
      case Failure(e) => Failure(e)
      case Success(kept) =>
        match CoursesAfterFilter(kept, parse)
        case Failure(e) => Failure(e)
        case Success(rows) => Success(MakeReport(rows))
  }

  /** The script's statements in order, rebinding `df` as it goes. */
  method Run(raw: Frame, parse: string -> Option<real>) returns (r: Result<Report>)
    requires WellFormed(raw)
    ensures r == Pipeline(raw, parse)
  {
    var df := DropEmptyColumns(raw);               // line 14
    var promoted := PromoteHeader(df);             // lines 15-16
    if promoted.Failure? {
      return Failure(promoted.error);
    }
    df := StripHeaders(promoted.value);            // line 17
    df := RenameCourseTitle(df);                   // lines 20-21
    var kept := FilterCurriculum(df);              // line 36
    if kept.Failure? {
      return Failure(kept.error);
    }
    df := CoerceNumericColumns(kept.value, parse); // lines 39-42
    CoercedFilterIsTyped(kept.value, parse);
    var rows := CourseRows(df);                    // lines 46, 60-63
    if rows.Failure? {
      return Failure(rows.error);
    }
    var statuses := StatusColumn(rows.value);      // line 53
    var summary := Summarize(rows.value);          // lines 56-73, 112, 124
    var progress := ProgressColumn(rows.value);    // line 90
    r := Success(Report(rows.value, statuses, progress, summary));
  }

  /** The downloaded table needs at least the metadata row and the header row. */
  lemma PipelineNeedsHeaderRow(raw: Frame, parse: string -> Option<real>)
    requires WellFormed(raw) && |raw.rows| <= HeaderRow
    ensures Pipeline(raw, parse) == Failure(MissingHeaderRow)
  {
  }

  /** The figures drawn from a list of course rows agree with the rows they come from. */
  lemma ReportGuarantees(rows: seq<CourseRow>)
    ensures var rep := MakeReport(rows);
      && |rep.statuses| == |rows| && |rep.progress| == |rows|
      && rep.summary.totalCourses == |rows|
      && (forall i :: 0 <= i < |rows| ==>
            rep.statuses[i] == DetermineStatus(rows[i].requiredDays, rows[i].completedDays))
      && rep.summary.completedCourses <= rep.summary.totalCourses
      && rep.summary.completedCourses == CountCompleted(rep.statuses)
      && (rep.summary.completedCoursesPct == NaN <==> rows == [])
      && (forall i :: 0 <= i < |rows| && rep.progress[i].Finite? ==> 0.0 <= rep.progress[i].value <= 1.0)
  {
  }

  /**
   * A successful run reports only curriculum courses, at most one per data
   * row after the header, and its figures are those of the reported rows.
   */
  lemma PipelineCourses(raw: Frame, parse: string -> Option<real>)
    requires WellFormed(raw) && Pipeline(raw, parse).Success?
    ensures var rep := Pipeline(raw, parse).value;
      && rep == MakeReport(rep.courses)
      && |rep.courses| <= |raw.rows| - (HeaderRow + 1)
      && (forall i :: 0 <= i < |rep.courses| ==> rep.courses[i].course in Courses)
  {
    var clean := CleanTable(raw).value;
    var kept := FilterCurriculum(clean).value;
    var c := IndexOf(clean.columns, CourseColumn);
    CoercedFilterIsTyped(kept, parse);
    var typed := CoerceColumns(kept, NumericColumns, parse);
    var rows := CourseRows(typed).value;
    assert Pipeline(raw, parse).value.courses == rows;
    forall i | 0 <= i < |rows| ensures rows[i].course in Courses {
      assert Listed(kept.rows[i], c);
      assert typed.rows[i][c] == kept.rows[i][c];
    }
  }

  /** A listed row of the table before the filter becomes one of the course records. */
  lemma ListedRowRead(clean: Frame, parse: string -> Option<real>, i: nat)
    requires WellFormed(clean) && FilterCurriculum(clean).Success?
    requires CoursesAfterFilter(FilterCurriculum(clean).value, parse).Success?
    requires var c := IndexOf(clean.columns, CourseColumn); i < |clean.rows| && Listed(clean.rows[i], c)
    ensures HasReadColumns(clean.columns)
    ensures var courses := CoursesAfterFilter(FilterCurriculum(clean).value, parse).value;
      exists k :: 0 <= k < |courses| && RecordOf(clean.columns, clean.rows[i], parse, courses[k])
  {
    var c := IndexOf(clean.columns, CourseColumn);
    var kept := FilterCurriculum(clean).value;
    CoercedFilterIsTyped(kept, parse);
    var typed := CoerceColumns(kept, NumericColumns, parse);
    var courses := CoursesAfterFilter(kept, parse).value;
    KeepListedMembers(clean.rows, c, clean.rows[i]);
    var k :| 0 <= k < |kept.rows| && kept.rows[k] == clean.rows[i];
    assert RecordOf(kept.columns, kept.rows[k], parse, courses[k]);
  }

  /** Every listed course row of the cleaned table reaches the report, under its own name and with its own coerced values. */
  lemma PipelineReportsListedRows(raw: Frame, parse: string -> Option<real>)
    requires WellFormed(raw) && Pipeline(raw, parse).Success?
    ensures CleanTable(raw).Success? && CourseColumn in CleanTable(raw).value.columns
    ensures var clean := CleanTable(raw).value;
      var c := IndexOf(clean.columns, CourseColumn);
      var courses := Pipeline(raw, parse).value.courses;
      && HasReadColumns(clean.columns)
      && forall i :: 0 <= i < |clean.rows| && Listed(clean.rows[i], c) ==>
           exists k :: 0 <= k < |courses| && RecordOf(clean.columns, clean.rows[i], parse, courses[k])
  {
    var clean := CleanTable(raw).value;
    var c := IndexOf(clean.columns, CourseColumn);
    forall i | 0 <= i < |clean.rows| && Listed(clean.rows[i], c)
      ensures HasReadColumns(clean.columns)
      ensures var courses := Pipeline(raw, parse).value.courses;
        exists k :: 0 <= k < |courses| && RecordOf(clean.columns, clean.rows[i], parse, courses[k])
    {
      ListedRowRead(clean, parse, i);
    }
    PipelineSucceeds(raw, parse);
  }

  /**
   * A download yields a report exactly when it cleans (a header row, some
   * column with a value, no number in the header) and the cleaned labels include "Course" and the four numeric columns
   * the script reads; otherwise it stops with the first error it meets.
   */
  lemma PipelineSucceeds(raw: Frame, parse: string -> Option<real>)
    requires WellFormed(raw)
    ensures Pipeline(raw, parse).Success? <==>
      && CleanTable(raw).Success?
      && CourseColumn in CleanTable(raw).value.columns
      && HasReadColumns(CleanTable(raw).value.columns)
    ensures CleanTable(raw).Failure? ==> Pipeline(raw, parse) == Failure(CleanTable(raw).error)
    ensures CleanTable(raw).Success? && CourseColumn !in CleanTable(raw).value.columns ==>
      Pipeline(raw, parse) == Failure(MissingColumn(CourseColumn))
    ensures var clean := CleanTable(raw);
      clean.Success? && CourseColumn in clean.value.columns && !HasReadColumns(clean.value.columns) ==>
        Pipeline(raw, parse) == Failure(MissingColumn(FirstAbsent(clean.value.columns).value))
  {
    if CleanTable(raw).Success? && CourseColumn in CleanTable(raw).value.columns {
      var clean := CleanTable(raw).value;
      var kept := FilterCurriculum(clean).value;
      CoercedFilterIsTyped(kept, parse);
      assert CoerceColumns(kept, NumericColumns, parse).columns == clean.columns;
    }
  }
}
