/** Numeric coercion of app.py lines 39-42. */
module Coercion {
  import opened Results
  import opened Frames

  /** `numeric_cols` (line 39). */
  const NumericColumns: seq<string> := ["Required Days", "Completed Days", "Completed Books", "Book Pages"]

  /**
   * `pd.to_numeric(..., errors='coerce').fillna(0)` on one cell. `parse` stands
   * for pandas' text-to-number conversion: `Some(v)` when the text reads as `v`.
   */
  function CoerceCell(c: Cell, parse: string -> Option<real>): (r: Cell)
    ensures r.Number?
    ensures c.Number? ==> r == c
    ensures c.Text? && parse(c.text).Some? ==> r == Number(parse(c.text).value)
    ensures c.Missing? || (c.Text? && parse(c.text).None?) ==> r == Number(0.0)
  {
    match c
    case Number(_) => c
    case Text(s) => (match parse(s) case Some(v) => Number(v) case None => Number(0.0))
    case Missing => Number(0.0)
  }

  /** The table after every column labelled with one of `names` has been coerced. */
  function CoerceColumns(f: Frame, names: seq<string>, parse: string -> Option<real>): (g: Frame)
    requires WellFormed(f)
    ensures WellFormed(g) && g.columns == f.columns && |g.rows| == |f.rows|
    ensures forall i, j :: 0 <= i < |f.rows| && 0 <= j < |f.columns| && f.columns[j] !in names ==>
      g.rows[i][j] == f.rows[i][j]
    ensures forall i, j :: 0 <= i < |f.rows| && 0 <= j < |f.columns| && f.columns[j] in names ==>
      g.rows[i][j].Number? && g.rows[i][j] == CoerceCell(f.rows[i][j], parse)
  {
    Frame(f.columns,
      seq(|f.rows|, i requires 0 <= i < |f.rows| =>
        seq(|f.columns|, j requires 0 <= j < |f.columns| =>
          if f.columns[j] in names then CoerceCell(f.rows[i][j], parse) else f.rows[i][j])))
  }

  lemma CoerceNothing(f: Frame, parse: string -> Option<real>)
    requires WellFormed(f)
    ensures CoerceColumns(f, [], parse) == f
  {
    var g := CoerceColumns(f, [], parse);
    forall i | 0 <= i < |f.rows| ensures g.rows[i] == f.rows[i] {
    }
  }

  /** Coercing one more column: a second coercion of a cell changes nothing. */
  lemma CoerceOneMore(f: Frame, names: seq<string>, name: string, parse: string -> Option<real>)
    requires WellFormed(f)
    ensures CoerceColumns(CoerceColumns(f, names, parse), [name], parse) == CoerceColumns(f, names + [name], parse)
  {
    var g := CoerceColumns(CoerceColumns(f, names, parse), [name], parse);
    var h := CoerceColumns(f, names + [name], parse);
    forall i | 0 <= i < |f.rows| ensures g.rows[i] == h.rows[i] {
      forall j | 0 <= j < |f.columns| ensures g.rows[i][j] == h.rows[i][j] {
        assert f.columns[j] in names + [name] <==> f.columns[j] in names || f.columns[j] == name;
      }
    }
  }

  /** Naming a column the table lacks changes nothing (the `if col in df.columns` guard). */
  lemma CoerceAbsent(f: Frame, names: seq<string>, name: string, parse: string -> Option<real>)
    requires WellFormed(f) && name !in f.columns
    ensures CoerceColumns(f, names + [name], parse) == CoerceColumns(f, names, parse)
  {
    var g := CoerceColumns(f, names + [name], parse);
    var h := CoerceColumns(f, names, parse);
    forall i | 0 <= i < |f.rows| ensures g.rows[i] == h.rows[i] {
      forall j | 0 <= j < |f.columns| ensures g.rows[i][j] == h.rows[i][j] {
        assert f.columns[j] in names + [name] <==> f.columns[j] in names || f.columns[j] == name;
      }
    }
  }

  /**
   * Lines 39-42: for each numeric column that the table has, replace its
   * cells by their coerced values.
   */
  method CoerceNumericColumns(f: Frame, parse: string -> Option<real>) returns (g: Frame)
    requires WellFormed(f)
    ensures g == CoerceColumns(f, NumericColumns, parse)
  {
    g := f;
    CoerceNothing(f, parse);
    for n := 0 to |NumericColumns|
      invariant g == CoerceColumns(f, NumericColumns[..n], parse)
    {
      var col := NumericColumns[n];
      assert NumericColumns[..n + 1] == NumericColumns[..n] + [col];
      if col in g.columns {
        CoerceOneMore(f, NumericColumns[..n], col, parse);
        g := CoerceColumns(g, [col], parse);
      } else {
        CoerceAbsent(f, NumericColumns[..n], col, parse);
      }
    }
    assert NumericColumns[..|NumericColumns|] == NumericColumns;
  }
}
