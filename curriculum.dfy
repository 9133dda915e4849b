/** The curriculum filter of app.py lines 24-36: keep the rows of the ten tracked courses. */
module Curriculum {
  import opened Results
  import opened Frames

  /** `curriculum_courses` (lines 24-35); `isin` only asks for membership. */
  const Courses: set<string> := {
    "Foundations of Strategy",
    "Foundations of Military Theory",
    "Air Power in the Age of Total War",
    "Foundations of Int'l Politics",
    "Air Power in the Age of Limited War",
    "Coercion in Theory and Practice",
    "Irregular Warfare",
    "Information and Cyber Power",
    "Space Power",
    "Technology and Military Innovation"
  }

  /** `isin` on one cell: exact text equality with a listed name; a missing cell or a number never matches. */
  predicate Listed(row: seq<Cell>, c: nat)
    requires c < |row|
    ensures Listed(row, c) <==> exists name :: name in Courses && row[c] == Text(name)
  {
    row[c].Text? && row[c].text in Courses
  }

  predicate HasColumn(rows: seq<seq<Cell>>, c: nat) {
    forall i :: 0 <= i < |rows| ==> c < |rows[i]|
  }

  /** `df[mask]` with the mask of column `c`: the listed rows, in their original order. */
  function KeepListed(rows: seq<seq<Cell>>, c: nat): (r: seq<seq<Cell>>)
    requires HasColumn(rows, c)
    ensures |r| <= |rows|
    ensures HasColumn(r, c)
    ensures forall i :: 0 <= i < |r| ==> Listed(r[i], c)
  {
    if rows == [] then []
    else
      (if Listed(rows[0], c) then [rows[0]] else []) + KeepListed(rows[1..], c)
  }

  /** Filtering distributes over concatenation: the filter keeps the relative order of the rows. */
  lemma {:induction false} KeepListedAppend(a: seq<seq<Cell>>, b: seq<seq<Cell>>, c: nat)
    requires HasColumn(a, c) && HasColumn(b, c)
    ensures HasColumn(a + b, c)
    ensures KeepListed(a + b, c) == KeepListed(a, c) + KeepListed(b, c)
  {
    if a == [] {
      assert a + b == b;
    } else {
      assert (a + b)[1..] == a[1..] + b;
      KeepListedAppend(a[1..], b, c);
    }
  }

  /** `small` is `big` with some rows deleted and none reordered. */
  predicate IsSubsequence<T(==)>(small: seq<T>, big: seq<T>)
    decreases |big|
  {
    if small == [] then true
    else if big == [] then false
    else if small[0] == big[0] then IsSubsequence(small[1..], big[1..])
    else IsSubsequence(small, big[1..])
  }

  lemma {:induction false} KeepListedWidth(rows: seq<seq<Cell>>, c: nat, width: nat)
    requires HasColumn(rows, c)
    requires forall i :: 0 <= i < |rows| ==> |rows[i]| == width
    ensures forall i :: 0 <= i < |KeepListed(rows, c)| ==> |KeepListed(rows, c)[i]| == width
  {
    if rows != [] {
      KeepListedWidth(rows[1..], c, width);
    }
  }

  /** The filter never adds or reorders rows. */
  lemma {:induction false} KeepListedIsSubsequence(rows: seq<seq<Cell>>, c: nat)
    requires HasColumn(rows, c)
    ensures IsSubsequence(KeepListed(rows, c), rows)
  {
    if rows != [] {
      KeepListedIsSubsequence(rows[1..], c);
      var rest := KeepListed(rows[1..], c);
      if Listed(rows[0], c) {
        assert KeepListed(rows, c) == [rows[0]] + rest;
        assert ([rows[0]] + rest)[1..] == rest;
      } else {
        assert KeepListed(rows, c) == rest;
        // rest starts with a listed row, rows with an unlisted one
        assert rest != [] ==> rest[0] != rows[0];
      }
    }
  }

  /** A row survives the filter exactly when it is in the table and listed. */
  lemma {:induction false} KeepListedMembers(rows: seq<seq<Cell>>, c: nat, row: seq<Cell>)
    requires HasColumn(rows, c)
    ensures row in KeepListed(rows, c) <==> row in rows && c < |row| && Listed(row, c)
  {
    if rows != [] {
      KeepListedMembers(rows[1..], c, row);
      assert rows == [rows[0]] + rows[1..];
    }
  }

  /** A table whose every row is listed passes the filter unchanged. */
  lemma {:induction false} KeepListedAllListed(rows: seq<seq<Cell>>, c: nat)
    requires HasColumn(rows, c)
    requires forall i :: 0 <= i < |rows| ==> Listed(rows[i], c)
    ensures KeepListed(rows, c) == rows
  {
    if rows != [] {
      KeepListedAllListed(rows[1..], c);
      assert [rows[0]] + rows[1..] == rows;
    }
  }

  /** Filtering twice is filtering once. */
  lemma KeepListedIdempotent(rows: seq<seq<Cell>>, c: nat)
    requires HasColumn(rows, c)
    ensures KeepListed(KeepListed(rows, c), c) == KeepListed(rows, c)
  {
    KeepListedAllListed(KeepListed(rows, c), c);
  }

  /** Line 36. A table without a "Course" column makes `df['Course']` raise. */
  function FilterCurriculum(f: Frame): (r: Result<Frame>)
    requires WellFormed(f)
    ensures CourseColumn !in f.columns <==> r == Failure(MissingColumn(CourseColumn))
    ensures r.Failure? <==> CourseColumn !in f.columns
    ensures r.Success? ==>
      var c := IndexOf(f.columns, CourseColumn);
      && WellFormed(r.value)
      && r.value.columns == f.columns
      && r.value.rows == KeepListed(f.rows, c)
      && (forall i :: 0 <= i < |r.value.rows| ==> Listed(r.value.rows[i], c))
  {
    if CourseColumn !in f.columns then Failure(MissingColumn(CourseColumn))
    else
      var c := IndexOf(f.columns, CourseColumn);
      KeepListedWidth(f.rows, c, |f.columns|);
      Success(Frame(f.columns, KeepListed(f.rows, c)))
  }

  /** Running the filter on its own output changes nothing. */
  lemma FilterCurriculumIdempotent(f: Frame)
    requires WellFormed(f) && FilterCurriculum(f).Success?
    ensures FilterCurriculum(FilterCurriculum(f).value) == FilterCurriculum(f)
  {
    var c := IndexOf(f.columns, CourseColumn);
    KeepListedIdempotent(f.rows, c);
  }

  /** Course cells are compared exactly: a name with a trailing blank is not kept. */
  lemma UntrimmedNameIsDropped(row: seq<Cell>)
    requires |row| == 1 && row[0] == Text("Space Power ")
    ensures !Listed(row, 0) && KeepListed([row], 0) == []
  {
  }
}
