/** Checking a roster table before it is imported (the `validate` command).

    The check needs the worker column, compares the table's skill columns
    with the configured ones, and parses every cell of every configured
    column the table has; it passes when no such cell is rejected. Columns
    that are missing or extra are reported but do not fail the check. */
module Validate {
  import opened Cells
  import opened Roster

  datatype ValidateError = NoWorkerColumn

  /** What the check found: the configured columns the table lacks, the
      table's columns nobody configured, and the rejected cells, each as
      (row index, column). */
  datatype Report = Report(missing: set<string>, extra: set<string>, invalid: set<(int, string)>)

  /** The table's skill columns: every column but the worker column. */
  function FoundColumns(columns: seq<string>): (f: set<string>)
    ensures forall c :: c in f <==> c in columns && c != WorkerColumn
  {
    (set c | c in columns) - {WorkerColumn}
  }

  /** A cell of row k in column c that the code parser rejects. */
  predicate BadCell(rows: seq<Row>, k: int, c: string)
  {
    0 <= k < |rows| && ParseValue(CellAt(rows[k], c)).Err?
  }

  /** The rejected cells of one column, row by row. */
  method ColumnInvalid(rows: seq<Row>, column: string) returns (bad: set<(int, string)>)
    ensures forall k, c :: (k, c) in bad <==> c == column && BadCell(rows, k, c)
  {
    bad := {};
    var k := 0;
    while k < |rows|
      invariant 0 <= k <= |rows|
      invariant forall i, c :: (i, c) in bad <==> c == column && i < k && BadCell(rows, i, c)
    {
      if ParseValue(CellAt(rows[k], column)).Err? {
        bad := bad + {(k, column)};
      }
      k := k + 1;
    }
  }

  /** The rejected cells of the checked columns, column by column in any
      order. */
  method InvalidCells(rows: seq<Row>, checked: set<string>) returns (bad: set<(int, string)>)
    ensures forall k, c :: (k, c) in bad <==> c in checked && BadCell(rows, k, c)
  {
    bad := {};
    var remaining := checked;
    while remaining != {}
      invariant remaining <= checked
      invariant forall k, c :: (k, c) in bad <==> c in checked && c !in remaining && BadCell(rows, k, c)
      decreases |remaining|
    {
      var column :| column in remaining;
      var found := ColumnInvalid(rows, column);
      bad := bad + found;
      remaining := remaining - {column};
    }
  }

  /** The check: it fails without a worker column; otherwise it reports
      the missing columns (configured, not in the table), the extra ones
      (in the table, not configured) and the rejected cells of the columns
      that are both. */
  method ValidateTable(t: Table, skills: seq<string>, modalities: seq<string>) returns (r: Result<Report, ValidateError>)
    ensures r.Err? <==> WorkerColumn !in t.columns
    ensures r.Ok? ==> r.value.missing == ExpectedColumns(skills, modalities) - FoundColumns(t.columns)
    ensures r.Ok? ==> r.value.extra == FoundColumns(t.columns) - ExpectedColumns(skills, modalities)
    ensures r.Ok? ==> forall k, c :: (k, c) in r.value.invalid <==>
              c in t.columns && c in ExpectedColumns(skills, modalities) && BadCell(t.rows, k, c)
  {
    if WorkerColumn !in t.columns {
      return Err(NoWorkerColumn);
    }
    var expected := ExpectedColumns(skills, modalities);
    var found := FoundColumns(t.columns);
    WorkerNotExpected(skills, modalities);
    var invalid := InvalidCells(t.rows, found * expected);
    r := Ok(Report(expected - found, found - expected, invalid));
  }

  /** The check passes when the table has a worker column and no rejected
      cell. */
  predicate Passed(r: Result<Report, ValidateError>) {
    r.Ok? && r.value.invalid == {}
  }
}
