/**
 * The table the script holds in `df`, and the header cleanup of app.py
 * lines 14-21: drop all-empty columns, promote data row 1 to the header,
 * keep the rows after it, strip the labels and rename "Course Title".
 */
module Frames {
  import opened Results
  import opened Whitespace

  /** One cell: a missing value (NaN), a piece of text, or a number. */
  datatype Cell = Missing | Text(text: string) | Number(value: real)

  /** Column labels and the data rows, in order (the positional index is implicit). */
  datatype Frame = Frame(columns: seq<string>, rows: seq<seq<Cell>>)

  predicate WellFormed(f: Frame) {
    forall i :: 0 <= i < |f.rows| ==> |f.rows[i]| == |f.columns|
  }

  /** Position of the column `df[name]` reads. */
  function IndexOf(names: seq<string>, name: string): (k: nat)
    requires name in names
    ensures k < |names| && names[k] == name
    ensures forall j :: 0 <= j < k ==> names[j] != name
  {
    if names[0] == name then 0 else 1 + IndexOf(names[1..], name)
  }

  predicate ColumnIsEmpty(f: Frame, j: nat)
    requires WellFormed(f) && j < |f.columns|
  {
    forall i :: 0 <= i < |f.rows| ==> f.rows[i][j].Missing?
  }

  /** The positions, from `j` on and in order, of the columns that hold some value. */
  function KeptIndices(f: Frame, j: nat): (idx: seq<nat>)
    requires WellFormed(f) && j <= |f.columns|
    ensures |idx| <= |f.columns| - j
    ensures forall k :: 0 <= k < |idx| ==> j <= idx[k] < |f.columns| && !ColumnIsEmpty(f, idx[k])
    decreases |f.columns| - j
  {
    if j == |f.columns| then []
    else if ColumnIsEmpty(f, j) then KeptIndices(f, j + 1)
    else [j] + KeptIndices(f, j + 1)
  }

  /** The kept positions are increasing and include every column that holds a value. */
  lemma {:induction false} KeptIndicesComplete(f: Frame, j: nat)
    requires WellFormed(f) && j <= |f.columns|
    ensures forall k, l :: 0 <= k < l < |KeptIndices(f, j)| ==> KeptIndices(f, j)[k] < KeptIndices(f, j)[l]
    ensures forall c :: j <= c < |f.columns| && !ColumnIsEmpty(f, c) ==> c in KeptIndices(f, j)
    decreases |f.columns| - j
  {
    if j < |f.columns| {
      KeptIndicesComplete(f, j + 1);
    }
  }

  function Project(row: seq<Cell>, idx: seq<nat>): (r: seq<Cell>)
    requires forall k :: 0 <= k < |idx| ==> idx[k] < |row|
  {
    seq(|idx|, k requires 0 <= k < |idx| => row[idx[k]])
  }

  /** The values of a row, in order, with the missing cells left out. */
  function NonMissing(cells: seq<Cell>): (r: seq<Cell>)
    ensures |r| <= |cells|
    ensures forall k :: 0 <= k < |r| ==> !r[k].Missing?
  {
    if cells == [] then []
    else (if cells[0].Missing? then [] else [cells[0]]) + NonMissing(cells[1..])
  }

  /** `df.dropna(how="all", axis=1)` (line 14). */
  function DropEmptyColumns(f: Frame): (g: Frame)
    requires WellFormed(f)
    ensures WellFormed(g) && |g.rows| == |f.rows| && |g.columns| <= |f.columns|
    ensures forall k :: 0 <= k < |g.columns| ==> !ColumnIsEmpty(g, k)
    ensures var idx := KeptIndices(f, 0);
      && |g.columns| == |idx|
      && (forall k :: 0 <= k < |idx| ==> g.columns[k] == f.columns[idx[k]])
      && (forall i :: 0 <= i < |f.rows| ==> g.rows[i] == Project(f.rows[i], idx))
  {
    var idx := KeptIndices(f, 0);
    var g := Frame(seq(|idx|, k requires 0 <= k < |idx| => f.columns[idx[k]]),
                   seq(|f.rows|, i requires 0 <= i < |f.rows| => Project(f.rows[i], idx)));
    assert forall k :: 0 <= k < |g.columns| ==> !ColumnIsEmpty(g, k) by {
      forall k | 0 <= k < |g.columns| ensures !ColumnIsEmpty(g, k) {
        var i :| 0 <= i < |f.rows| && !f.rows[i][idx[k]].Missing?;
        assert g.rows[i][k] == f.rows[i][idx[k]];
      }
    }
    g
  }

  lemma NonMissingHead(cells: seq<Cell>)
    requires cells != []
    ensures NonMissing(cells) == (if cells[0].Missing? then [] else [cells[0]]) + NonMissing(cells[1..])
  {
  }

  lemma ProjectCons(row: seq<Cell>, j: nat, rest: seq<nat>)
    requires j < |row| && forall k :: 0 <= k < |rest| ==> rest[k] < |row|
    ensures Project(row, [j] + rest) == [row[j]] + Project(row, rest)
  {
  }

  lemma {:induction false} ProjectKeptKeepsValues(f: Frame, i: nat, j: nat)
    requires WellFormed(f) && i < |f.rows| && j <= |f.columns|
    ensures NonMissing(Project(f.rows[i], KeptIndices(f, j))) == NonMissing(f.rows[i][j..])
    decreases |f.columns| - j
  {
    var row := f.rows[i];
    if j == |f.columns| {
      assert row[j..] == [];
    } else {
      ProjectKeptKeepsValues(f, i, j + 1);
      var rest := KeptIndices(f, j + 1);
      var tail := NonMissing(row[j + 1..]);
      assert NonMissing(row[j..]) == (if row[j].Missing? then [] else [row[j]]) + tail by {
        NonMissingHead(row[j..]);
        assert row[j..][1..] == row[j + 1..];
      }
      if ColumnIsEmpty(f, j) {
        assert row[j].Missing?;
      } else {
        assert NonMissing(Project(row, [j] + rest)) == (if row[j].Missing? then [] else [row[j]]) + tail by {
          ProjectCons(row, j, rest);
          NonMissingHead([row[j]] + Project(row, rest));
          assert ([row[j]] + Project(row, rest))[1..] == Project(row, rest);
        }
      }
    }
  }

  /** Dropping the all-empty columns loses no value and keeps each row's values in order. */
  lemma DropEmptyColumnsKeepsValues(f: Frame)
    requires WellFormed(f)
    ensures forall i :: 0 <= i < |f.rows| ==> NonMissing(DropEmptyColumns(f).rows[i]) == NonMissing(f.rows[i])
  {
    forall i | 0 <= i < |f.rows|
      ensures NonMissing(DropEmptyColumns(f).rows[i]) == NonMissing(f.rows[i])
    {
      ProjectKeptKeepsValues(f, i, 0);
      assert f.rows[i][0..] == f.rows[i];
    }
  }

  lemma {:induction false} KeptIndicesAll(f: Frame, j: nat)
    requires WellFormed(f) && j <= |f.columns|
    requires forall c :: j <= c < |f.columns| ==> !ColumnIsEmpty(f, c)
    ensures |KeptIndices(f, j)| == |f.columns| - j
    ensures forall k :: 0 <= k < |f.columns| - j ==> KeptIndices(f, j)[k] == j + k
    decreases |f.columns| - j
  {
    if j < |f.columns| {
      KeptIndicesAll(f, j + 1);
      assert !ColumnIsEmpty(f, j);
      assert KeptIndices(f, j) == [j] + KeptIndices(f, j + 1);
    }
  }

  /** A table without all-empty columns passes line 14 unchanged. */
  lemma DropEmptyColumnsNoOp(f: Frame)
    requires WellFormed(f)
    requires forall c :: 0 <= c < |f.columns| ==> !ColumnIsEmpty(f, c)
    ensures DropEmptyColumns(f) == f
  {
    KeptIndicesAll(f, 0);
    var idx := KeptIndices(f, 0);
    var g := DropEmptyColumns(f);
    forall k | 0 <= k < |f.columns| ensures g.columns[k] == f.columns[k] {
      assert idx[k] == k;
    }
    assert g.columns == f.columns;
    forall i | 0 <= i < |f.rows| ensures g.rows[i] == f.rows[i] {
      assert g.rows[i] == Project(f.rows[i], idx);
      forall k | 0 <= k < |idx| ensures g.rows[i][k] == f.rows[i][k] {
        assert idx[k] == k;
      }
    }
    assert g.rows == f.rows;
  }

  /** Data row 1 becomes the header; rows before 2 are metadata (line 15-16). */
  const HeaderRow: nat := 1

  /** A header label: a missing cell becomes "" (`fillna("")`), text is stripped (`.str.strip()`). */
  function HeaderLabel(c: Cell): (name: string)
    requires !c.Number?
    ensures IsClean(name)
    ensures c.Missing? ==> name == ""
    ensures c.Text? ==> name == Strip(c.text)
    ensures c.Text? && IsClean(c.text) ==> name == c.text
  {
    if c.Text? then Strip(c.text) else ""
  }

  /**
   * `df.columns = df.iloc[1].fillna("").str.strip()` and `df = df[2:]`
   * (lines 15-16). Fewer than two rows: `iloc[1]` raises. A header row with
   * no cells is an empty float Series that `.str` refuses at line 15; a
   * number in the header row has no `strip`, and the script stops at line 15 or 17.
   */
  function PromoteHeader(f: Frame): (r: Result<Frame>)
    requires WellFormed(f)
    ensures |f.rows| <= HeaderRow ==> r == Failure(MissingHeaderRow)
    ensures r.Failure? <==>
      || |f.rows| <= HeaderRow
      || |f.columns| == 0
      || exists j :: 0 <= j < |f.columns| && f.rows[HeaderRow][j].Number?
    ensures HeaderRow < |f.rows| && r.Failure? ==> r == Failure(HeaderNotText)
    ensures r.Success? ==>
      && WellFormed(r.value)
      && |r.value.columns| == |f.columns|
      && r.value.rows == f.rows[HeaderRow + 1..]
      && (forall j :: 0 <= j < |f.columns| ==> IsClean(r.value.columns[j]))
      && (forall j :: 0 <= j < |f.columns| ==> r.value.columns[j] == HeaderLabel(f.rows[HeaderRow][j]))
  {
    if |f.rows| <= HeaderRow then Failure(MissingHeaderRow)
    else
      var header := f.rows[HeaderRow];
      if |header| == 0 || exists j :: 0 <= j < |header| && header[j].Number? then Failure(HeaderNotText)
      else Success(Frame(seq(|header|, j requires 0 <= j < |header| => HeaderLabel(header[j])),
                         f.rows[HeaderRow + 1..]))
  }

  /** `df.rename(columns=lambda x: x.strip())` (line 17). */
  function StripHeaders(f: Frame): (g: Frame)
    ensures g.rows == f.rows && |g.columns| == |f.columns|
    ensures forall j :: 0 <= j < |f.columns| ==> g.columns[j] == Strip(f.columns[j])
    ensures forall j :: 0 <= j < |g.columns| ==> IsClean(g.columns[j])
    ensures (forall j :: 0 <= j < |f.columns| ==> IsClean(f.columns[j])) ==> g == f
  {
    Frame(seq(|f.columns|, j requires 0 <= j < |f.columns| => Strip(f.columns[j])), f.rows)
  }

  const CourseTitle := "Course Title"
  const CourseColumn := "Course"

  /** Lines 20-21: every "Course Title" label becomes "Course"; nothing else changes. */
  function RenameCourseTitle(f: Frame): (g: Frame)
    ensures g.rows == f.rows && |g.columns| == |f.columns|
    ensures CourseTitle !in g.columns
    ensures CourseColumn in g.columns <==> CourseColumn in f.columns || CourseTitle in f.columns
    ensures forall j :: 0 <= j < |f.columns| && f.columns[j] != CourseTitle ==> g.columns[j] == f.columns[j]
    ensures forall j :: 0 <= j < |f.columns| && f.columns[j] == CourseTitle ==> g.columns[j] == CourseColumn
  {
    if CourseTitle in f.columns then
      var g := Frame(seq(|f.columns|, j requires 0 <= j < |f.columns| =>
                       if f.columns[j] == CourseTitle then CourseColumn else f.columns[j]),
                     f.rows);
      assert CourseColumn in g.columns by {
        var j := IndexOf(f.columns, CourseTitle);
        assert g.columns[j] == CourseColumn;
      }
      assert CourseColumn in f.columns ==> CourseColumn in g.columns by {
        if CourseColumn in f.columns {
          var j := IndexOf(f.columns, CourseColumn);
          assert g.columns[j] == CourseColumn;
        }
      }
      g
    else f
  }

  /**
   * Line 14 leaves no column exactly when every column is empty, and a number
   * in the header row sits in a column that holds a value, so line 14 keeps it.
   */
  lemma HeaderNumberKept(raw: Frame)
    requires WellFormed(raw)
    ensures |DropEmptyColumns(raw).columns| == 0 <==>
      forall j :: 0 <= j < |raw.columns| ==> ColumnIsEmpty(raw, j)
    ensures var g := DropEmptyColumns(raw);
      HeaderRow < |raw.rows| ==>
        ((exists j :: 0 <= j < |raw.columns| && raw.rows[HeaderRow][j].Number?) <==>
         (exists k :: 0 <= k < |g.columns| && g.rows[HeaderRow][k].Number?))
  {
    var g := DropEmptyColumns(raw);
    var idx := KeptIndices(raw, 0);
    if j :| 0 <= j < |raw.columns| && !ColumnIsEmpty(raw, j) {
      KeptIndicesComplete(raw, 0);
      assert j in idx;
    }
    if HeaderRow < |raw.rows| {
      if j :| 0 <= j < |raw.columns| && raw.rows[HeaderRow][j].Number? {
        assert !ColumnIsEmpty(raw, j);
        KeptIndicesComplete(raw, 0);
        var k :| 0 <= k < |idx| && idx[k] == j;
        assert g.rows[HeaderRow][k] == raw.rows[HeaderRow][j];
      }
      if k :| 0 <= k < |g.columns| && g.rows[HeaderRow][k].Number? {
        assert raw.rows[HeaderRow][idx[k]] == g.rows[HeaderRow][k];
      }
    }
  }

  /** The label line 21 gives a cleaned header label. */
  function CourseLabel(name: string): (r: string)
    ensures r != CourseTitle
    ensures name == CourseTitle ==> r == CourseColumn
    ensures name != CourseTitle ==> r == name
  {
    if name == CourseTitle then CourseColumn else name
  }

  /**
   * Lines 14-21 in sequence. The table fails exactly when it has no header
   * row, every column is empty, or its header row holds a number; otherwise the labels are the
   * stripped header cells of the columns line 14 keeps, with "Course Title"
   * renamed, over the rows after the header.
   */
  function CleanTable(raw: Frame): (r: Result<Frame>)
    requires WellFormed(raw)
    ensures |raw.rows| <= HeaderRow ==> r == Failure(MissingHeaderRow)
    ensures r.Failure? <==>
      || |raw.rows| <= HeaderRow
      || (forall j :: 0 <= j < |raw.columns| ==> ColumnIsEmpty(raw, j))
      || exists j :: 0 <= j < |raw.columns| && raw.rows[HeaderRow][j].Number?
    ensures HeaderRow < |raw.rows| && r.Failure? ==> r == Failure(HeaderNotText)
    ensures r.Success? ==>
      var g := DropEmptyColumns(raw);
      && (forall k :: 0 <= k < |g.columns| ==> !g.rows[HeaderRow][k].Number?)
      && |r.value.columns| == |g.columns|
      && (forall k :: 0 <= k < |g.columns| ==>
            r.value.columns[k] == CourseLabel(HeaderLabel(g.rows[HeaderRow][k])))
      && r.value.rows == g.rows[HeaderRow + 1..]
    ensures r.Success? ==>
      && WellFormed(r.value)
      && |r.value.rows| == |raw.rows| - (HeaderRow + 1)
      && CourseTitle !in r.value.columns
      && (forall j :: 0 <= j < |r.value.columns| ==> IsClean(r.value.columns[j]))
  {
    HeaderNumberKept(raw);
    var promoted := PromoteHeader(DropEmptyColumns(raw));
    if promoted.Failure? then Failure(promoted.error)
    else
      CleanLabelsRenamed(promoted.value);
      Success(RenameCourseTitle(StripHeaders(promoted.value)))
  }

  /** On labels that are already clean, line 17 changes nothing and line 21 renames one label. */
  lemma CleanLabelsRenamed(f: Frame)
    requires forall j :: 0 <= j < |f.columns| ==> IsClean(f.columns[j])
    ensures var g := RenameCourseTitle(StripHeaders(f));
      && g.rows == f.rows && |g.columns| == |f.columns|
      && (forall k :: 0 <= k < |f.columns| ==> g.columns[k] == CourseLabel(f.columns[k]))
      && (forall k :: 0 <= k < |g.columns| ==> IsClean(g.columns[k]))
  {
    var stripped := StripHeaders(f);
    assert stripped == f;
    assert IsClean(CourseColumn);
  }

  /** Each data row keeps its non-missing values, in order, through the cleanup. */
  lemma CleanTableKeepsValues(raw: Frame)
    requires WellFormed(raw) && CleanTable(raw).Success?
    ensures forall i :: 0 <= i < |CleanTable(raw).value.rows| ==>
      NonMissing(CleanTable(raw).value.rows[i]) == NonMissing(raw.rows[i + HeaderRow + 1])
  {
    var g := DropEmptyColumns(raw);
    var rows := CleanTable(raw).value.rows;
    assert rows == g.rows[HeaderRow + 1..];
    forall i | 0 <= i < |rows|
      ensures NonMissing(rows[i]) == NonMissing(raw.rows[i + HeaderRow + 1])
    {
      var row := raw.rows[i + HeaderRow + 1];
      assert rows[i] == g.rows[i + HeaderRow + 1] == Project(row, KeptIndices(raw, 0));
      ProjectKeptKeepsValues(raw, i + HeaderRow + 1, 0);
      assert row[0..] == row;
    }
  }
}
