/** Writing the stored roster out as a roster table (the `export` command).

    The table has the worker column first, then one column per modality and
    skill, modalities outermost; every worker gets one row, and every slot
    the worker's entry lacks is written as a passive "0". */
module Export {
  import opened Cells
  import opened Roster

  datatype ExportError = EmptyRoster

  // ---------------------------------------------------------------------
  // The header

  /** The columns of one modality, one per skill, in skill order. */
  function ModalityColumns(skills: seq<string>, modality: string): (cs: seq<string>)
    ensures |cs| == |skills|
  {
    if skills == [] then []
    else ModalityColumns(skills[..|skills| - 1], modality) + [ColumnName(skills[|skills| - 1], modality)]
  }

  /** The slot columns, modality by modality. */
  function SlotColumns(skills: seq<string>, modalities: seq<string>): seq<string> {
    if modalities == [] then []
    else SlotColumns(skills, modalities[..|modalities| - 1]) + ModalityColumns(skills, modalities[|modalities| - 1])
  }

  lemma {:induction false} ModalityColumnsIndex(skills: seq<string>, modality: string, j: nat)
    requires j < |skills|
    ensures ModalityColumns(skills, modality)[j] == ColumnName(skills[j], modality)
  {
    var n := |skills| - 1;
    if j < n {
      ModalityColumnsIndex(skills[..n], modality, j);
    }
  }

  lemma {:induction false} ModalityColumnsMembers(skills: seq<string>, modality: string, c: string)
    ensures c in ModalityColumns(skills, modality) <==> exists s :: s in skills && c == ColumnName(s, modality)
  {
    if skills != [] {
      var n := |skills| - 1;
      ModalityColumnsMembers(skills[..n], modality, c);
      assert skills == skills[..n] + [skills[n]];
    }
  }

  /** There are |modalities| * |skills| slot columns. */
  lemma {:induction false} SlotColumnsLength(skills: seq<string>, modalities: seq<string>)
    ensures |SlotColumns(skills, modalities)| == |modalities| * |skills|
  {
    if modalities != [] {
      var n := |modalities| - 1;
      SlotColumnsLength(skills, modalities[..n]);
      assert |modalities| * |skills| == n * |skills| + |skills|;
    }
  }

  lemma MulBelow(i: nat, j: nat, n: nat, k: nat)
    requires i < n && j < k
    ensures 0 <= i * k && i * k + j < n * k
  {
    assert (n - 1 - i) * k >= 0;
    assert n * k == i * k + (n - 1 - i) * k + k;
  }

  /** The column of skill j of modality i sits at slot i * |skills| + j. */
  lemma {:induction false} SlotColumnsIndex(skills: seq<string>, modalities: seq<string>, i: nat, j: nat)
    requires i < |modalities| && j < |skills|
    ensures i * |skills| + j < |SlotColumns(skills, modalities)|
    ensures SlotColumns(skills, modalities)[i * |skills| + j] == ColumnName(skills[j], modalities[i])
  {
    var n := |modalities| - 1;
    var init := modalities[..n];
    SlotColumnsLength(skills, modalities);
    SlotColumnsLength(skills, init);
    MulBelow(i, j, |modalities|, |skills|);
    if i < n {
      SlotColumnsIndex(skills, init, i, j);
      MulBelow(i, j, n, |skills|);
      assert init[i] == modalities[i];
    } else {
      ModalityColumnsIndex(skills, modalities[n], j);
    }
  }

  /** Every slot column is the column of some configured modality and skill. */
  lemma {:induction false} SlotColumnsFrom(skills: seq<string>, modalities: seq<string>, c: string)
    requires c in SlotColumns(skills, modalities)
    ensures exists m, s :: m in modalities && s in skills && c == ColumnName(s, m)
  {
    var n := |modalities| - 1;
    var init := modalities[..n];
    var last := modalities[n];
    assert SlotColumns(skills, modalities) == SlotColumns(skills, init) + ModalityColumns(skills, last);
    if c in SlotColumns(skills, init) {
      SlotColumnsFrom(skills, init, c);
      var m, s :| m in init && s in skills && c == ColumnName(s, m);
      var i :| 0 <= i < n && init[i] == m;
      assert modalities[i] == m;
    } else {
      ModalityColumnsMembers(skills, last, c);
      var s :| s in skills && c == ColumnName(s, last);
      assert last in modalities;
    }
  }

  /** The column of every configured modality and skill is a slot column. */
  lemma SlotColumnsHas(skills: seq<string>, modalities: seq<string>, m: string, s: string)
    requires m in modalities && s in skills
    ensures ColumnName(s, m) in SlotColumns(skills, modalities)
  {
    var i :| 0 <= i < |modalities| && modalities[i] == m;
    var j :| 0 <= j < |skills| && skills[j] == s;
    var slots := SlotColumns(skills, modalities);
    var x := i * |skills| + j;
    assert 0 <= x < |slots| && slots[x] == ColumnName(s, m) by {
      SlotColumnsIndex(skills, modalities, i, j);
      MulBelow(i, j, |modalities|, |skills|);
    }
  }

  /** A slot column is the column of some configured modality and skill,
      and every such column is a slot column. */
  lemma SlotColumnsMembers(skills: seq<string>, modalities: seq<string>, c: string)
    ensures c in SlotColumns(skills, modalities)
        <==> exists m, s :: m in modalities && s in skills && c == ColumnName(s, m)
  {
    if c in SlotColumns(skills, modalities) {
      SlotColumnsFrom(skills, modalities, c);
    }
    if exists m, s :: m in modalities && s in skills && c == ColumnName(s, m) {
      var m, s :| m in modalities && s in skills && c == ColumnName(s, m);
      SlotColumnsHas(skills, modalities, m, s);
    }
  }

  /** The slot columns are exactly the expected columns. */
  lemma SlotColumnsExpected(skills: seq<string>, modalities: seq<string>, c: string)
    ensures c in SlotColumns(skills, modalities) <==> c in ExpectedColumns(skills, modalities)
  {
    SlotColumnsMembers(skills, modalities, c);
  }

  /** Appends one modality's columns, skill by skill. */
  method AppendModalityColumns(columns: seq<string>, skills: seq<string>, modality: string) returns (out: seq<string>)
    ensures out == columns + ModalityColumns(skills, modality)
  {
    out := columns;
    var j := 0;
    while j < |skills|
      invariant 0 <= j <= |skills|
      invariant out == columns + ModalityColumns(skills[..j], modality)
    {
      assert skills[..j + 1][..j] == skills[..j];
      out := out + [ColumnName(skills[j], modality)];
      j := j + 1;
    }
    assert skills[..j] == skills;
  }

  /** The header: the worker column, then `skill_modality` for every
      modality and, within it, every skill. */
  method ExportColumns(skills: seq<string>, modalities: seq<string>) returns (columns: seq<string>)
    ensures columns == [WorkerColumn] + SlotColumns(skills, modalities)
  {
    columns := [WorkerColumn];
    var i := 0;
    while i < |modalities|
      invariant 0 <= i <= |modalities|
      invariant columns == [WorkerColumn] + SlotColumns(skills, modalities[..i])
    {
      columns := AppendModalityColumns(columns, skills, modalities[i]);
      assert modalities[..i + 1][..i] == modalities[..i];
      i := i + 1;
    }
    assert modalities[..i] == modalities;
  }

  /** The header holds 1 + |modalities| * |skills| columns, the worker
      column first. */
  lemma HeaderLength(skills: seq<string>, modalities: seq<string>, columns: seq<string>)
    requires columns == [WorkerColumn] + SlotColumns(skills, modalities)
    ensures |columns| == 1 + |modalities| * |skills| && columns[0] == WorkerColumn
  {
    SlotColumnsLength(skills, modalities);
  }

  /** Skill j of modality i sits at header position 1 + i * |skills| + j. */
  lemma HeaderIndex(skills: seq<string>, modalities: seq<string>, columns: seq<string>, i: nat, j: nat)
    requires columns == [WorkerColumn] + SlotColumns(skills, modalities)
    requires i < |modalities| && j < |skills|
    ensures 1 + i * |skills| + j < |columns| && columns[1 + i * |skills| + j] == ColumnName(skills[j], modalities[i])
  {
    var slots := SlotColumns(skills, modalities);
    var x := i * |skills| + j;
    assert 0 <= x < |slots| && slots[x] == ColumnName(skills[j], modalities[i]) by {
      SlotColumnsIndex(skills, modalities, i, j);
      MulBelow(i, j, |modalities|, |skills|);
    }
    assert columns[1 + x] == slots[x] by {
      assert columns[1..] == slots;
    }
  }

  /** Past the worker column, the header names exactly the expected
      columns. */
  lemma HeaderColumns(skills: seq<string>, modalities: seq<string>, columns: seq<string>, c: string)
    requires columns == [WorkerColumn] + SlotColumns(skills, modalities)
    ensures c in columns <==> c == WorkerColumn || c in ExpectedColumns(skills, modalities)
  {
    SlotColumnsExpected(skills, modalities, c);
  }

  // ---------------------------------------------------------------------
  // One worker's row

  /** The row after writing one modality's slots of entry d, skill by
      skill. */
  function FillModality(row: Row, d: WorkerData, skills: seq<string>, modality: string): Row {
    if skills == [] then row
    else
      var skill := skills[|skills| - 1];
      FillModality(row, d, skills[..|skills| - 1], modality)[ColumnName(skill, modality) := Str(FormatValue(Lookup(d, modality, skill)))]
  }

  /** The row after writing every modality's slots of entry d. */
  function FillRow(row: Row, d: WorkerData, skills: seq<string>, modalities: seq<string>): Row {
    if modalities == [] then row
    else FillModality(FillRow(row, d, skills, modalities[..|modalities| - 1]), d, skills, modalities[|modalities| - 1])
  }

  /** The row export writes for one worker. */
  function RowOf(name: string, d: WorkerData, skills: seq<string>, modalities: seq<string>): Row {
    FillRow(map[WorkerColumn := Str(name)], d, skills, modalities)
  }

  /** Within one modality, a column name determines its skill. */
  lemma SameModalityColumn(s1: string, s2: string, modality: string)
    requires ColumnName(s1, modality) == ColumnName(s2, modality)
    ensures s1 == s2
  {
    var c := ColumnName(s1, modality);
    assert |s1| == |s2|;
    assert s1 == c[..|s1|] && s2 == c[..|s2|];
  }

  /** Writing a modality leaves every cell outside its columns alone. */
  lemma {:induction false} FillModalityKeeps(row: Row, d: WorkerData, skills: seq<string>, modality: string, c: string)
    requires c !in ModalityColumns(skills, modality)
    ensures c in FillModality(row, d, skills, modality) <==> c in row
    ensures c in row ==> FillModality(row, d, skills, modality)[c] == row[c]
  {
    if skills != [] {
      var n := |skills| - 1;
      assert ModalityColumns(skills, modality) == ModalityColumns(skills[..n], modality) + [ColumnName(skills[n], modality)];
      FillModalityKeeps(row, d, skills[..n], modality, c);
    }
  }

  /** Writing a modality gives each of its columns the entry's code for the
      column's skill. */
  lemma {:induction false} FillModalityValue(row: Row, d: WorkerData, skills: seq<string>, modality: string, s: string)
    requires s in skills
    ensures ColumnName(s, modality) in FillModality(row, d, skills, modality)
    ensures FillModality(row, d, skills, modality)[ColumnName(s, modality)] == Str(FormatValue(Lookup(d, modality, s)))
  {
    var n := |skills| - 1;
    if ColumnName(s, modality) == ColumnName(skills[n], modality) {
      SameModalityColumn(s, skills[n], modality);
    } else {
      assert skills == skills[..n] + [skills[n]];
      FillModalityValue(row, d, skills[..n], modality, s);
    }
  }

  /** Writing every modality leaves every cell outside the slot columns
      alone. */
  lemma {:induction false} FillRowKeeps(row: Row, d: WorkerData, skills: seq<string>, modalities: seq<string>, c: string)
    requires c !in SlotColumns(skills, modalities)
    ensures c in FillRow(row, d, skills, modalities) <==> c in row
    ensures c in row ==> FillRow(row, d, skills, modalities)[c] == row[c]
  {
    if modalities != [] {
      var n := |modalities| - 1;
      FillRowKeeps(row, d, skills, modalities[..n], c);
      FillModalityKeeps(FillRow(row, d, skills, modalities[..n]), d, skills, modalities[n], c);
    }
  }

  /** Writing every modality gives each slot column the entry's code for
      some configured slot of that name (the last one written, should two
      slots share a name). */
  lemma {:induction false} FillRowCell(row: Row, d: WorkerData, skills: seq<string>, modalities: seq<string>, c: string)
    requires c in SlotColumns(skills, modalities)
    ensures c in FillRow(row, d, skills, modalities)
    ensures exists m, s :: m in modalities && s in skills && c == ColumnName(s, m)
                           && FillRow(row, d, skills, modalities)[c] == Str(FormatValue(Lookup(d, m, s)))
  {
    var n := |modalities| - 1;
    var init := modalities[..n];
    var last := modalities[n];
    var before := FillRow(row, d, skills, init);
    assert modalities == init + [last];
    if c in ModalityColumns(skills, last) {
      ModalityColumnsMembers(skills, last, c);
      var s :| s in skills && c == ColumnName(s, last);
      FillModalityValue(before, d, skills, last, s);
    } else {
      FillRowCell(row, d, skills, init, c);
      FillModalityKeeps(before, d, skills, last, c);
      var m, s :| m in init && s in skills && c == ColumnName(s, m)
                  && before[c] == Str(FormatValue(Lookup(d, m, s)));
      assert m in modalities;
    }
  }

  /** With distinct column names, writing every modality gives each slot
      column the entry's code for its slot. */
  lemma {:induction false} FillRowValue(row: Row, d: WorkerData, skills: seq<string>, modalities: seq<string>,
                                        m: string, s: string)
    requires m in modalities && s in skills && DistinctColumns(skills, modalities)
    ensures ColumnName(s, m) in FillRow(row, d, skills, modalities)
    ensures FillRow(row, d, skills, modalities)[ColumnName(s, m)] == Str(FormatValue(Lookup(d, m, s)))
  {
    var n := |modalities| - 1;
    var init := modalities[..n];
    var last := modalities[n];
    var before := FillRow(row, d, skills, init);
    if m == last {
      FillModalityValue(before, d, skills, last, s);
    } else {
      assert m in init && DistinctColumns(skills, init) by {
        assert modalities == init + [last];
      }
      FillRowValue(row, d, skills, init, m, s);
      assert ColumnName(s, m) !in ModalityColumns(skills, last) by {
        ModalityColumnsMembers(skills, last, ColumnName(s, m));
      }
      FillModalityKeeps(before, d, skills, last, ColumnName(s, m));
    }
  }

  /** The exported row of one worker: its name in the worker column, one
      cell for every configured slot and no other cell, each cell holding
      the worker's code for a slot of that name, and (when no two slots
      share a column name) every slot holding the worker's code for it. */
  ghost predicate ExportedRow(name: string, d: WorkerData, skills: seq<string>, modalities: seq<string>, row: Row) {
    && WorkerColumn in row && row[WorkerColumn] == Str(name)
    && (forall c :: c in row <==> c == WorkerColumn || c in ExpectedColumns(skills, modalities))
    && (forall c :: c in ExpectedColumns(skills, modalities) ==>
          exists m, s :: m in modalities && s in skills && c == ColumnName(s, m)
                         && c in row && row[c] == Str(FormatValue(Lookup(d, m, s))))
    && (DistinctColumns(skills, modalities) ==>
          forall m, s :: m in modalities && s in skills ==>
            ColumnName(s, m) in row && row[ColumnName(s, m)] == Str(FormatValue(Lookup(d, m, s))))
  }

  lemma NoSlotIsWorker(skills: seq<string>, modalities: seq<string>)
    ensures WorkerColumn !in SlotColumns(skills, modalities)
  {
    SlotColumnsMembers(skills, modalities, WorkerColumn);
    if WorkerColumn in SlotColumns(skills, modalities) {
      var m, s :| m in modalities && s in skills && WorkerColumn == ColumnName(s, m);
      ColumnIsNotWorker(s, m);
    }
  }

  /** The row export writes for a worker is that worker's exported row. */
  lemma RowOfExported(name: string, d: WorkerData, skills: seq<string>, modalities: seq<string>)
    ensures ExportedRow(name, d, skills, modalities, RowOf(name, d, skills, modalities))
  {
    var start := map[WorkerColumn := Str(name)];
    var row := RowOf(name, d, skills, modalities);
    NoSlotIsWorker(skills, modalities);
    FillRowKeeps(start, d, skills, modalities, WorkerColumn);
    forall c ensures c in row <==> c == WorkerColumn || c in ExpectedColumns(skills, modalities) {
      SlotColumnsExpected(skills, modalities, c);
      if c in SlotColumns(skills, modalities) {
        FillRowCell(start, d, skills, modalities, c);
      } else {
        FillRowKeeps(start, d, skills, modalities, c);
      }
    }
    forall c | c in ExpectedColumns(skills, modalities)
      ensures exists m, s :: m in modalities && s in skills && c == ColumnName(s, m)
                             && c in row && row[c] == Str(FormatValue(Lookup(d, m, s)))
    {
      SlotColumnsExpected(skills, modalities, c);
      FillRowCell(start, d, skills, modalities, c);
    }
    if DistinctColumns(skills, modalities) {
      forall m, s | m in modalities && s in skills
        ensures ColumnName(s, m) in row && row[ColumnName(s, m)] == Str(FormatValue(Lookup(d, m, s)))
      {
        FillRowValue(start, d, skills, modalities, m, s);
      }
    }
  }

  /** One modality's slots of entry d written into a row, skill by skill. */
  method ExportModality(start: Row, d: WorkerData, skills: seq<string>, modality: string) returns (row: Row)
    ensures row == FillModality(start, d, skills, modality)
  {
    row := start;
    var j := 0;
    while j < |skills|
      invariant 0 <= j <= |skills|
      invariant row == FillModality(start, d, skills[..j], modality)
    {
      assert skills[..j + 1][..j] == skills[..j];
      row := row[ColumnName(skills[j], modality) := Str(FormatValue(Lookup(d, modality, skills[j])))];
      j := j + 1;
    }
    assert skills[..j] == skills;
  }

  /** One worker's row, slot by slot; a slot the entry lacks reads as 0. */
  method ExportRow(name: string, d: WorkerData, skills: seq<string>, modalities: seq<string>) returns (row: Row)
    ensures row == RowOf(name, d, skills, modalities)
  {
    var start := map[WorkerColumn := Str(name)];
    row := start;
    var i := 0;
    while i < |modalities|
      invariant 0 <= i <= |modalities|
      invariant row == FillRow(start, d, skills, modalities[..i])
    {
      row := ExportModality(row, d, skills, modalities[i]);
      assert modalities[..i + 1][..i] == modalities[..i];
      i := i + 1;
    }
    assert modalities[..i] == modalities;
  }

  // ---------------------------------------------------------------------
  // The table

  /** The worker a row belongs to: the text of its worker cell. */
  function RowWorker(row: Row): string {
    CellText(CellAt(row, WorkerColumn))
  }

  /** The rows of an export of the roster: one row per worker, each that
      worker's RowOf, no worker twice. */
  ghost predicate RowsOfRoster(roster: RosterMap, skills: seq<string>, modalities: seq<string>, rows: seq<Row>) {
    && |rows| == |roster|
    && (forall k :: 0 <= k < |rows| ==>
          RowWorker(rows[k]) in roster
          && rows[k] == RowOf(RowWorker(rows[k]), roster[RowWorker(rows[k])], skills, modalities))
    && (forall k, l :: 0 <= k < l < |rows| ==> RowWorker(rows[k]) != RowWorker(rows[l]))
    && (forall w :: w in roster ==> exists k :: 0 <= k < |rows| && RowWorker(rows[k]) == w)
  }

  /** Loop state of the export: the rows written so far are those of the
      distinct workers in order, and every worker is written or still
      remaining. */
  ghost predicate Listed(roster: RosterMap, skills: seq<string>, modalities: seq<string>,
                         rows: seq<Row>, order: seq<string>, remaining: set<string>)
  {
    remaining <= roster.Keys
    && |rows| == |order| && |rows| + |remaining| == |roster|
    && (forall k :: 0 <= k < |rows| ==>
          RowWorker(rows[k]) == order[k] && order[k] in roster && order[k] !in remaining
          && rows[k] == RowOf(order[k], roster[order[k]], skills, modalities))
    && (forall k, l :: 0 <= k < l < |rows| ==> order[k] != order[l])
    && (forall w :: w in roster ==> w in remaining || w in order)
  }

  lemma ListedStep(roster: RosterMap, skills: seq<string>, modalities: seq<string>,
                   rows: seq<Row>, order: seq<string>, remaining: set<string>, name: string, row: Row)
    requires Listed(roster, skills, modalities, rows, order, remaining)
    requires name in remaining && row == RowOf(name, roster[name], skills, modalities) && RowWorker(row) == name
    ensures Listed(roster, skills, modalities, rows + [row], order + [name], remaining - {name})
  {
  }

  lemma ListedDone(roster: RosterMap, skills: seq<string>, modalities: seq<string>,
                   rows: seq<Row>, order: seq<string>)
    requires Listed(roster, skills, modalities, rows, order, {})
    ensures RowsOfRoster(roster, skills, modalities, rows)
  {
    forall w | w in roster
      ensures exists k :: 0 <= k < |rows| && RowWorker(rows[k]) == w
    {
      var k :| 0 <= k < |order| && order[k] == w;
    }
  }

  /** The rows of the export, one per worker of the roster in the roster's
      own order (any order: the roster is a map). */
  method ExportRows(roster: RosterMap, skills: seq<string>, modalities: seq<string>) returns (rows: seq<Row>)
    ensures RowsOfRoster(roster, skills, modalities, rows)
  {
    rows := [];
    var remaining := roster.Keys;
    ghost var order: seq<string> := [];
    while remaining != {}
      invariant Listed(roster, skills, modalities, rows, order, remaining)
      decreases |remaining|
    {
      var name :| name in remaining;
      var row := ExportRow(name, roster[name], skills, modalities);
      RowOfExported(name, roster[name], skills, modalities);
      ListedStep(roster, skills, modalities, rows, order, remaining, name, row);
      rows := rows + [row];
      order := order + [name];
      remaining := remaining - {name};
    }
    ListedDone(roster, skills, modalities, rows, order);
  }

  /** The export: fails on an empty roster, and otherwise writes the header
      and one row per worker. */
  method ExportTable(roster: RosterMap, skills: seq<string>, modalities: seq<string>)
    returns (r: Result<Table, ExportError>)
    ensures r.Err? <==> |roster| == 0
    ensures r.Ok? ==> r.value.columns == [WorkerColumn] + SlotColumns(skills, modalities)
    ensures r.Ok? ==> RowsOfRoster(roster, skills, modalities, r.value.rows)
  {
    if |roster| == 0 {
      return Err(EmptyRoster);
    }
    var columns := ExportColumns(skills, modalities);
    var rows := ExportRows(roster, skills, modalities);
    r := Ok(Table(columns, rows));
  }
}
