/**
 The row filter of `creer_csv_fichier`: which rows of the two-column table
 (weight, best-before date) are written to the CSV file, and with what text.
 */
module Export {
  import opened Wrappers
  import opened Text

  /** A table row: the weight cell and the date cell, None when the cell has no item. */
  datatype Row = Row(weight: Option<string>, expiry: Option<string>)

  /** A missing cell reads as "". */
  function CellText(cell: Option<string>): string {
    cell.GetOr("")
  }

  /** A row is skipped when both of its cells are blank after stripping. */
  predicate IsBlankRow(row: Row) {
    Strip(CellText(row.weight)) == "" && Strip(CellText(row.expiry)) == ""
  }

  /** The two fields written for a row: the cells' text, unstripped. */
  function Fields(row: Row): (fields: seq<string>)
    ensures |fields| == 2
  {
    [CellText(row.weight), CellText(row.expiry)]
  }

  /** The data rows of the CSV file, in table order. */
  function CsvRows(table: seq<Row>): (lines: seq<seq<string>>)
    ensures |lines| <= |table|
    ensures forall line :: line in lines ==> |line| == 2 && !(Strip(line[0]) == "" && Strip(line[1]) == "")
    ensures forall j :: 0 <= j < |table| && !IsBlankRow(table[j]) ==> Fields(table[j]) in lines
  {
    if |table| == 0 then
      []
    else
      var row := table[0];
      var rest := CsvRows(table[1..]);
      assert forall j :: 1 <= j < |table| ==> table[j] == table[1..][j - 1];
      if IsBlankRow(row) then rest else [Fields(row)] + rest
  }

  /** Writing a table in two parts writes the parts' rows one after the other. */
  lemma {:induction false} CsvRowsAppend(a: seq<Row>, b: seq<Row>)
    ensures CsvRows(a + b) == CsvRows(a) + CsvRows(b)
  {
    if |a| == 0 {
      assert a + b == b;
    } else {
      assert (a + b)[0] == a[0];
      assert (a + b)[1..] == a[1..] + b;
      CsvRowsAppend(a[1..], b);
    }
  }

  /** The number of rows written is the number of non-blank rows. */
  function CountNonBlank(table: seq<Row>): nat {
    if |table| == 0 then 0 else (if IsBlankRow(table[0]) then 0 else 1) + CountNonBlank(table[1..])
  }

  lemma {:induction false} CsvRowsCount(table: seq<Row>)
    ensures |CsvRows(table)| == CountNonBlank(table)
  {
    if |table| > 0 {
      CsvRowsCount(table[1..]);
    }
  }

  /** A one-row table writes that row unless it is blank. */
  lemma CsvRowsSingle(row: Row)
    ensures CsvRows([row]) == if IsBlankRow(row) then [] else [Fields(row)]
  {
    assert [row][1..] == [];
  }

  /** A blank row is left out and the rows around it are written as they would be without it. */
  lemma BlankRowSkipped(before: seq<Row>, row: Row, after: seq<Row>)
    requires IsBlankRow(row)
    ensures CsvRows(before + [row] + after) == CsvRows(before) + CsvRows(after)
  {
    CsvRowsSingle(row);
    CsvRowsAppend(before, [row]);
    CsvRowsAppend(before + [row], after);
  }

  /** A non-blank row is written in its place, its cells' text unchanged. */
  lemma RowWrittenInPlace(before: seq<Row>, row: Row, after: seq<Row>)
    requires !IsBlankRow(row)
    ensures CsvRows(before + [row] + after) == CsvRows(before) + [Fields(row)] + CsvRows(after)
  {
    CsvRowsSingle(row);
    CsvRowsAppend(before, [row]);
    CsvRowsAppend(before + [row], after);
  }

  /** A weight with surrounding spaces is written with its spaces; a missing date is written as "". */
  lemma VerbatimExample()
    ensures CsvRows([Row(Some(" 1,5 "), None)]) == [[" 1,5 ", ""]]
  {
    var w := " 1,5 ";
    assert !IsSpace(w[1]);
    StripEmpty(w);
    CsvRowsSingle(Row(Some(" 1,5 "), None));
  }
}
