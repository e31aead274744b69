/** The content of a pandas DataFrame as the table extractor sees it, and the
    cleaning both table backends apply to it:
    `df.dropna(how='all')` followed by `df.dropna(axis=1, how='all')`
    (pdf_extractor/table_extractor.py, lines 91-92 and 121-122). */
module Frames {
  import opened Common

  /** One cell; `None` is a missing value (pandas' None/NaN). An empty string
      is a present value. */
  type Cell = Option<string>
  type Row = seq<Cell>

  /** Column labels and data rows. */
  datatype Table = Table(header: seq<Cell>, rows: seq<Row>)

  predicate Rectangular(t: Table) {
    forall i :: 0 <= i < |t.rows| ==> |t.rows[i]| == |t.header|
  }

  /** A DataFrame: every row has one cell per column. */
  type Frame = t: Table | Rectangular(t) witness Table([], [])

  /** pandas' `df.empty`: no rows or no columns. */
  predicate IsEmpty(t: Table) {
    |t.rows| == 0 || |t.header| == 0
  }

  predicate AllMissing(r: Row) {
    forall j :: 0 <= j < |r| ==> r[j].None?
  }

  predicate ColumnMissing(f: Frame, j: nat)
    requires j < |f.header|
  {
    forall i :: 0 <= i < |f.rows| ==> f.rows[i][j].None?
  }

  predicate NoMissingRow(f: Frame) {
    forall i :: 0 <= i < |f.rows| ==> !AllMissing(f.rows[i])
  }

  predicate NoMissingColumn(f: Frame) {
    forall j :: 0 <= j < |f.header| ==> !ColumnMissing(f, j)
  }

  /** What every table the extractor returns satisfies. */
  predicate Tidy(f: Frame) {
    !IsEmpty(f) && NoMissingRow(f) && NoMissingColumn(f)
  }

  /** The indices from `from` on whose mark is set, in increasing order. */
  function Positions(marks: seq<bool>, from: nat): (p: seq<nat>)
    requires from <= |marks|
    ensures |p| <= |marks| - from
    ensures forall k :: 0 <= k < |p| ==> from <= p[k] < |marks| && marks[p[k]]
    ensures forall k, l :: 0 <= k < l < |p| ==> p[k] < p[l]
    decreases |marks| - from
  {
    if from == |marks| then []
    else if marks[from] then [from] + Positions(marks, from + 1)
    else Positions(marks, from + 1)
  }

  /** Every index from `from` on whose mark is set is among the positions. */
  lemma {:induction false} PositionsComplete(marks: seq<bool>, from: nat)
    requires from <= |marks|
    ensures forall i :: from <= i < |marks| && marks[i] ==> i in Positions(marks, from)
    decreases |marks| - from
  {
    if from < |marks| {
      PositionsComplete(marks, from + 1);
    }
  }

  /** When every mark from `from` on is set, the positions are all of them. */
  lemma {:induction false} PositionsAllSet(marks: seq<bool>, from: nat)
    requires from <= |marks|
    requires forall i :: from <= i < |marks| ==> marks[i]
    ensures |Positions(marks, from)| == |marks| - from
    ensures forall k :: 0 <= k < |marks| - from ==> Positions(marks, from)[k] == from + k
    decreases |marks| - from
  {
    if from < |marks| {
      PositionsAllSet(marks, from + 1);
      var rest := Positions(marks, from + 1);
      var p := Positions(marks, from);
      assert p == [from] + rest;
      forall k | 0 <= k < |marks| - from
        ensures p[k] == from + k
      {
        if k > 0 {
          assert p[k] == rest[k - 1];
        }
      }
    }
  }

  function Project(r: Row, cols: seq<nat>): (p: Row)
    requires forall k :: 0 <= k < |cols| ==> cols[k] < |r|
    ensures |p| == |cols|
  {
    seq(|cols|, k requires 0 <= k < |cols| => r[cols[k]])
  }

  function RowMarks(f: Frame): (m: seq<bool>)
    ensures |m| == |f.rows|
  {
    seq(|f.rows|, i requires 0 <= i < |f.rows| => !AllMissing(f.rows[i]))
  }

  function ColumnMarks(f: Frame): (m: seq<bool>)
    ensures |m| == |f.header|
  {
    seq(|f.header|, j requires 0 <= j < |f.header| => !ColumnMissing(f, j))
  }

  /** `df.dropna(how='all')`: the rows that are not all missing, in order. */
  function DropMissingRows(f: Frame): Frame {
    var keep := Positions(RowMarks(f), 0);
    Table(f.header, seq(|keep|, k requires 0 <= k < |keep| => f.rows[keep[k]]))
  }

  /** `df.dropna(axis=1, how='all')`: the columns that are not all missing,
      in order, with their labels. */
  function DropMissingColumns(f: Frame): Frame {
    var keep := Positions(ColumnMarks(f), 0);
    Table(Project(f.header, keep),
          seq(|f.rows|, i requires 0 <= i < |f.rows| => Project(f.rows[i], keep)))
  }

  /** The cleaning both backends apply: rows first, then columns. */
  function Clean(f: Frame): Frame {
    DropMissingColumns(DropMissingRows(f))
  }

  /** Dropping all-missing rows does not change which columns are all missing. */
  lemma DropRowsKeepsColumnMarks(f: Frame)
    ensures ColumnMarks(DropMissingRows(f)) == ColumnMarks(f)
  {
    var g := DropMissingRows(f);
    var keep := Positions(RowMarks(f), 0);
    PositionsComplete(RowMarks(f), 0);
    forall j | 0 <= j < |f.header|
      ensures ColumnMissing(g, j) == ColumnMissing(f, j)
    {
      if !ColumnMissing(f, j) {
        var i :| 0 <= i < |f.rows| && f.rows[i][j].Some?;
        assert !AllMissing(f.rows[i]);
        assert i in keep;
        var k :| 0 <= k < |keep| && keep[k] == i;
        assert g.rows[k][j].Some?;
      }
    }
  }

  /** Cleaning keeps exactly the rows with a present cell and the columns with
      a present cell, each in its original order: row k of the result is row
      `rowsKept[k]` of the input restricted to the columns `colsKept`. */
  lemma CleanSelects(f: Frame)
    ensures var rowsKept := Positions(RowMarks(f), 0);
            var colsKept := Positions(ColumnMarks(f), 0);
            var c := Clean(f);
            && c.header == Project(f.header, colsKept)
            && |c.rows| == |rowsKept|
            && (forall k :: 0 <= k < |rowsKept| ==> c.rows[k] == Project(f.rows[rowsKept[k]], colsKept))
            && (forall k, l :: 0 <= k < l < |rowsKept| ==> rowsKept[k] < rowsKept[l])
            && (forall k, l :: 0 <= k < l < |colsKept| ==> colsKept[k] < colsKept[l])
            && (forall i :: 0 <= i < |f.rows| ==> (i in rowsKept <==> !AllMissing(f.rows[i])))
            && (forall j :: 0 <= j < |f.header| ==> (j in colsKept <==> !ColumnMissing(f, j)))
  {
    DropRowsKeepsColumnMarks(f);
    PositionsComplete(RowMarks(f), 0);
    PositionsComplete(ColumnMarks(f), 0);
  }

  /** No row of a cleaned table is all missing. */
  lemma CleanHasNoMissingRow(f: Frame)
    ensures NoMissingRow(Clean(f))
  {
    var g := DropMissingRows(f);
    var c := Clean(f);
    var keep := Positions(ColumnMarks(g), 0);
    PositionsComplete(ColumnMarks(g), 0);
    forall i | 0 <= i < |c.rows|
      ensures !AllMissing(c.rows[i])
    {
      assert !AllMissing(g.rows[i]);
      var j :| 0 <= j < |g.rows[i]| && g.rows[i][j].Some?;
      assert !ColumnMissing(g, j);
      assert j in keep;
      var k :| 0 <= k < |keep| && keep[k] == j;
      assert c.rows[i][k].Some?;
    }
  }

  /** No column of a cleaned table is all missing. */
  lemma CleanHasNoMissingColumn(f: Frame)
    ensures NoMissingColumn(Clean(f))
  {
    var g := DropMissingRows(f);
    var c := Clean(f);
    var keep := Positions(ColumnMarks(g), 0);
    forall k | 0 <= k < |c.header|
      ensures !ColumnMissing(c, k)
    {
      var j := keep[k];
      assert !ColumnMissing(g, j);
      var i :| 0 <= i < |g.rows| && g.rows[i][j].Some?;
      assert c.rows[i][k].Some?;
    }
  }

  /** No row and no column of a cleaned table is all missing. */
  lemma CleanHasNoMissingRowOrColumn(f: Frame)
    ensures NoMissingRow(Clean(f)) && NoMissingColumn(Clean(f))
  {
    CleanHasNoMissingRow(f);
    CleanHasNoMissingColumn(f);
  }

  /** Cleaning never adds rows or columns. */
  lemma CleanShrinks(f: Frame)
    ensures |Clean(f).rows| <= |f.rows| && |Clean(f).header| <= |f.header|
  {
    DropRowsKeepsColumnMarks(f);
  }

  /** A cleaned table is empty exactly when the input has no present cell:
      the "keep it only if not empty" test after cleaning asks whether any
      data cell is present. */
  lemma CleanEmptyIff(f: Frame)
    ensures IsEmpty(Clean(f)) <==> forall i :: 0 <= i < |f.rows| ==> AllMissing(f.rows[i])
  {
    CleanHasNoMissingRowOrColumn(f);
    var c := Clean(f);
    var keep := Positions(RowMarks(f), 0);
    PositionsComplete(RowMarks(f), 0);
    if exists i :: 0 <= i < |f.rows| && !AllMissing(f.rows[i]) {
      var i :| 0 <= i < |f.rows| && !AllMissing(f.rows[i]);
      assert i in keep;
      assert |c.rows| > 0;
      assert !AllMissing(c.rows[0]);
      assert |c.header| > 0;
    }
    if |keep| > 0 {
      assert RowMarks(f)[keep[0]];
      assert !AllMissing(f.rows[keep[0]]);
    }
  }

  /** The test `if not df.empty` before cleaning changes nothing: an empty
      frame cleans to an empty frame. */
  lemma EmptyStaysEmpty(f: Frame)
    requires IsEmpty(f)
    ensures IsEmpty(Clean(f))
  {
    CleanEmptyIff(f);
    if |f.rows| > 0 {
      assert forall i :: 0 <= i < |f.rows| ==> AllMissing(f.rows[i]);
    }
  }

  lemma DropRowsNoop(f: Frame)
    requires NoMissingRow(f)
    ensures DropMissingRows(f) == f
  {
    PositionsAllSet(RowMarks(f), 0);
    assert DropMissingRows(f).rows == f.rows;
  }

  lemma DropColumnsNoop(f: Frame)
    requires NoMissingColumn(f)
    ensures DropMissingColumns(f) == f
  {
    PositionsAllSet(ColumnMarks(f), 0);
    var keep := Positions(ColumnMarks(f), 0);
    assert |keep| == |f.header|;
    forall r: Row | |r| == |f.header|
      ensures Project(r, keep) == r
    {
      forall k | 0 <= k < |keep|
        ensures Project(r, keep)[k] == r[k]
      {
        assert keep[k] == k;
      }
    }
    var g := DropMissingColumns(f);
    assert g.header == f.header;
    forall i | 0 <= i < |f.rows|
      ensures g.rows[i] == f.rows[i]
    {
      assert g.rows[i] == Project(f.rows[i], keep);
    }
    assert g.rows == f.rows;
  }

  /** A table without all-missing rows and columns is left as it is. */
  lemma CleanKeepsTidy(f: Frame)
    requires NoMissingRow(f) && NoMissingColumn(f)
    ensures Clean(f) == f
  {
    DropRowsNoop(f);
    DropColumnsNoop(f);
  }

  /** Cleaning is idempotent. */
  lemma CleanIdempotent(f: Frame)
    ensures Clean(Clean(f)) == Clean(f)
  {
    CleanHasNoMissingRowOrColumn(f);
    CleanKeepsTidy(Clean(f));
  }

  /** A table the extractors keep (non-empty after cleaning) is tidy. */
  lemma KeptCleanIsTidy(f: Frame)
    requires !IsEmpty(Clean(f))
    ensures Tidy(Clean(f))
  {
    CleanHasNoMissingRowOrColumn(f);
  }
}
