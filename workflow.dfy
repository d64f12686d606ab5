/** How the commands fit together: a table that passes validation imports
    without a single invalid cell, and a roster exported and imported back
    (replacing the stored one) comes back, when its worker names survive
    the trip, with the same workers and, when also no two slots share a
    column name, slot by slot with the same codes; a stored value that is
    not a skill code comes back as 0. */
module Workflow {
  import opened Cells
  import opened Roster
  import opened Import
  import opened Export
  import opened Validate

  // ---------------------------------------------------------------------
  // Validate, then import

  /** No rejected cell in any configured column the table has means no
      import error, whatever rows the import processes. */
  lemma {:induction false} CleanCellsNoErrors(columns: seq<string>, rows: seq<Row>, names: seq<string>, mode: MergeMode,
                                              existing: RosterMap, skills: seq<string>, modalities: seq<string>, n: nat)
    requires n <= |rows| == |names|
    requires forall k, c :: c in columns && c in ExpectedColumns(skills, modalities) ==> !BadCell(rows, k, c)
    ensures ErrorCount(columns, rows, names, mode, existing, skills, modalities, n) == 0
  {
    if n > 0 {
      CleanCellsNoErrors(columns, rows, names, mode, existing, skills, modalities, n - 1);
      var row := rows[n - 1];
      forall m, s | m in modalities && s in skills
        ensures !SlotInvalid(columns, row, s, m)
      {
        if ColumnName(s, m) in columns {
          assert !BadCell(rows, n - 1, ColumnName(s, m));
        }
      }
      RowErrorsZero(columns, row, skills, modalities);
    }
  }

  /** Validating a table and then importing it: both fail exactly when the
      worker column is missing, and when validation passes the import
      counts no errors. */
  method ValidateThenImport(t: Table, mode: MergeMode, stored: RosterMap, skills: seq<string>, modalities: seq<string>)
    returns (report: Result<Report, ValidateError>, imported: Result<Imported, ImportError>)
    ensures report.Err? <==> imported.Err?
    ensures Passed(report) ==> imported.Ok? && imported.value.stats.errors == 0
  {
    report := ValidateTable(t, skills, modalities);
    imported := ImportTable(t, mode, stored, skills, modalities);
    if Passed(report) {
      CleanCellsNoErrors(t.columns, t.rows, RowNames(t.rows), mode, Existing(mode, stored),
                         skills, modalities, |t.rows|);
    }
  }

  // ---------------------------------------------------------------------
  // Export, then import

  /** The code a stored value comes back as: a skill code is kept, anything
      else is written out, rejected on the way back and read as passive. */
  function Restored(v: int): (r: int)
    ensures IsCode(r)
    ensures IsCode(v) ==> r == v
  {
    if IsCode(v) then v else 0
  }

  /** Worker names the export writes and the import reads back unchanged:
      without surrounding white space, and not blank. */
  predicate ExportableNames(roster: RosterMap) {
    forall w :: w in roster ==> Strip(w) == w && !IsBlankName(w)
  }

  /** Read back, an exported row names its worker as written. */
  lemma ExportedName(roster: RosterMap, skills: seq<string>, modalities: seq<string>, rows: seq<Row>, k: nat)
    requires RowsOfRoster(roster, skills, modalities, rows) && ExportableNames(roster) && k < |rows|
    ensures RowNames(rows)[k] == RowWorker(rows[k])
    ensures Processed(Replace, map[], RowNames(rows)[k])
  {
    assert RowWorker(rows[k]) in roster;
  }

  /** The slot of an exported row reads back as the restored code of the
      worker's entry, and is invalid exactly when that entry holds no code. */
  lemma ExportedSlot(name: string, d: WorkerData, skills: seq<string>, modalities: seq<string>,
                     columns: seq<string>, m: string, s: string)
    requires columns == [WorkerColumn] + SlotColumns(skills, modalities)
    requires DistinctColumns(skills, modalities) && m in modalities && s in skills
    ensures SlotValue(columns, RowOf(name, d, skills, modalities), s, m) == Restored(Lookup(d, m, s))
    ensures SlotInvalid(columns, RowOf(name, d, skills, modalities), s, m) <==> !IsCode(Lookup(d, m, s))
  {
    var c := ColumnName(s, m);
    RowOfExported(name, d, skills, modalities);
    HeaderColumns(skills, modalities, columns, c);
    FormatRoundTrip(Lookup(d, m, s));
    assert CellAt(RowOf(name, d, skills, modalities), c) == Str(FormatValue(Lookup(d, m, s)));
  }

  /** Every worker of the roster is written by the import of its export. */
  lemma ExportedWritten(roster: RosterMap, skills: seq<string>, modalities: seq<string>, rows: seq<Row>, w: string)
    requires RowsOfRoster(roster, skills, modalities, rows) && ExportableNames(roster)
    ensures w in WrittenNames(RowNames(rows), Replace, map[], |rows|) <==> w in roster
  {
    var names := RowNames(rows);
    WrittenNamesMeaning(names, Replace, map[], |rows|, w);
    if w in roster {
      var k :| 0 <= k < |rows| && RowWorker(rows[k]) == w;
      ExportedName(roster, skills, modalities, rows, k);
    }
    if w in WrittenNames(names, Replace, map[], |rows|) {
      var k :| 0 <= k < |rows| && Processed(Replace, map[], names[k]) && names[k] == w;
      ExportedName(roster, skills, modalities, rows, k);
    }
  }

  /** The import of an export holds, for each worker, every slot's
      restored code. */
  lemma ExportedWorker(roster: RosterMap, skills: seq<string>, modalities: seq<string>, t: Table, out: RosterMap,
                       w: string, m: string, s: string)
    requires t.columns == [WorkerColumn] + SlotColumns(skills, modalities)
    requires RowsOfRoster(roster, skills, modalities, t.rows) && ExportableNames(roster)
    requires DistinctColumns(skills, modalities)
    requires ImportedRoster(t.columns, t.rows, RowNames(t.rows), Replace, map[], skills, modalities, |t.rows|, out)
    requires w in roster && m in modalities && s in skills
    ensures w in out && Lookup(out[w], m, s) == Restored(Lookup(roster[w], m, s))
  {
    var rows := t.rows;
    var names := RowNames(rows);
    var k :| 0 <= k < |rows| && RowWorker(rows[k]) == w;
    ExportedName(roster, skills, modalities, rows, k);
    forall j | k < j < |rows|
      ensures !(Processed(Replace, map[], names[j]) && names[j] == names[k])
    {
      ExportedName(roster, skills, modalities, rows, j);
    }
    assert LastWrite(names, Replace, map[], |rows|, k);
    assert out[w] == Hierarchical(WorkerSlots(t.columns, rows[k], skills, modalities));
    ExportedSlot(w, roster[w], skills, modalities, t.columns, m, s);
  }

  /** Every configured cell of an export of codes parses. */
  lemma ExportedCellsParse(roster: RosterMap, skills: seq<string>, modalities: seq<string>, t: Table)
    requires t.columns == [WorkerColumn] + SlotColumns(skills, modalities)
    requires RowsOfRoster(roster, skills, modalities, t.rows)
    requires forall w, m, s :: w in roster && m in modalities && s in skills ==> IsCode(Lookup(roster[w], m, s))
    ensures forall k, c :: c in t.columns && c in ExpectedColumns(skills, modalities) ==> !BadCell(t.rows, k, c)
  {
    forall k, c | c in t.columns && c in ExpectedColumns(skills, modalities)
      ensures !BadCell(t.rows, k, c)
    {
      if 0 <= k < |t.rows| {
        var w := RowWorker(t.rows[k]);
        RowOfExported(w, roster[w], skills, modalities);
        var m, s :| m in modalities && s in skills && c == ColumnName(s, m)
                    && c in t.rows[k] && t.rows[k][c] == Str(FormatValue(Lookup(roster[w], m, s)));
        FormatRoundTrip(Lookup(roster[w], m, s));
      }
    }
  }

  /** With no blank name among n rows, all n count as non-blank. */
  lemma {:induction false} NoBlankCount(names: seq<string>, n: nat)
    requires n <= |names|
    requires forall k :: 0 <= k < n ==> !IsBlankName(names[k])
    ensures NonBlankCount(names, n) == n
  {
    if n > 0 {
      NoBlankCount(names, n - 1);
    }
  }

  /** The import of an export has the same workers as the roster. */
  lemma RoundTripKeys(roster: RosterMap, skills: seq<string>, modalities: seq<string>, rows: seq<Row>, keys: set<string>)
    requires RowsOfRoster(roster, skills, modalities, rows) && ExportableNames(roster)
    requires keys == WrittenNames(RowNames(rows), Replace, map[], |rows|)
    ensures keys == roster.Keys
  {
    forall w
      ensures w in keys <==> w in roster
    {
      ExportedWritten(roster, skills, modalities, rows, w);
    }
  }

  /** An export of a roster whose names survive the trip has no blank row
      name. */
  lemma ExportedNonBlank(roster: RosterMap, skills: seq<string>, modalities: seq<string>, rows: seq<Row>)
    requires RowsOfRoster(roster, skills, modalities, rows) && ExportableNames(roster)
    ensures NonBlankCount(RowNames(rows), |rows|) == |roster|
  {
    var names := RowNames(rows);
    forall k | 0 <= k < |rows|
      ensures !IsBlankName(names[k])
    {
      ExportedName(roster, skills, modalities, rows, k);
    }
    NoBlankCount(names, |rows|);
  }

  /** Exporting a non-empty roster and importing the table back in Replace
      mode: the import succeeds. When the names survive the trip it adds
      every worker once and the imported roster has exactly the same
      workers; when the configuration also names distinct columns, each
      slot holds the restored code of the original entry; when every
      stored value is a skill code, the import counts no errors. */
  method ExportThenImport(roster: RosterMap, skills: seq<string>, modalities: seq<string>)
    returns (t: Table, imported: Result<Imported, ImportError>)
    requires |roster| > 0
    ensures imported.Ok?
    ensures ExportableNames(roster) ==>
              imported.value.stats == Stats(|roster|, 0, 0, imported.value.stats.errors)
    ensures ExportableNames(roster) ==> imported.value.roster.Keys == roster.Keys
    ensures ExportableNames(roster) && DistinctColumns(skills, modalities) ==>
              forall w, m, s :: w in roster && m in modalities && s in skills ==>
                   Lookup(imported.value.roster[w], m, s) == Restored(Lookup(roster[w], m, s))
    ensures (forall w, m, s :: w in roster && m in modalities && s in skills ==> IsCode(Lookup(roster[w], m, s)))
            ==> imported.value.stats.errors == 0
  {
    var exported := ExportTable(roster, skills, modalities);
    t := exported.value;
    imported := ImportTable(t, Replace, map[], skills, modalities);
    if ExportableNames(roster) {
      ExportedNonBlank(roster, skills, modalities, t.rows);
      var out := imported.value.roster;
      RoundTripKeys(roster, skills, modalities, t.rows, out.Keys);
      if DistinctColumns(skills, modalities) {
        forall w, m, s | w in roster && m in modalities && s in skills
          ensures Lookup(out[w], m, s) == Restored(Lookup(roster[w], m, s))
        {
          ExportedWorker(roster, skills, modalities, t, out, w, m, s);
        }
      }
    }
    if (forall w, m, s :: w in roster && m in modalities && s in skills ==> IsCode(Lookup(roster[w], m, s))) {
      ExportedCellsParse(roster, skills, modalities, t);
      CleanCellsNoErrors(t.columns, t.rows, RowNames(t.rows), Replace, map[], skills, modalities, |t.rows|);
    }
  }
}
