/** Importing a roster table into the stored roster (the `import` command).

    Every non-blank row names a worker; the worker's entry is rebuilt from
    the row with one code for every configured modality and skill. The
    merge mode decides what the import starts from: `Replace` from an empty
    roster, `Merge` and `AddOnly` from the stored one, and `AddOnly` leaves
    workers already stored untouched. */
module Import {
  import opened Cells
  import opened Roster

  datatype MergeMode = Replace | Merge | AddOnly

  /** The counters the import reports. */
  datatype Stats = Stats(added: nat, updated: nat, skipped: nat, errors: nat)

  datatype ImportError = NoWorkerColumn

  datatype Imported = Imported(roster: RosterMap, stats: Stats)

  /** The roster the import starts from, and compares row names against. */
  function Existing(mode: MergeMode, stored: RosterMap): RosterMap {
    if mode == Replace then map[] else stored
  }

  // ---------------------------------------------------------------------
  // One worker's entry, built from one row

  /** True when the row holds a cell for this slot's column that is not a
      skill code: the slot is counted as an error. */
  predicate SlotInvalid(columns: seq<string>, row: Row, skill: string, modality: string) {
    var c := ColumnName(skill, modality);
    c in columns && ParseValue(CellAt(row, c)).Err?
  }

  /** The code stored for one slot of a row's worker. */
  function SlotValue(columns: seq<string>, row: Row, skill: string, modality: string): (v: int)
    ensures IsCode(v)
    ensures ColumnName(skill, modality) !in columns ==> v == 0
    ensures SlotInvalid(columns, row, skill, modality) ==> v == 0
    ensures ColumnName(skill, modality) in columns && !SlotInvalid(columns, row, skill, modality)
      ==> ParseValue(CellAt(row, ColumnName(skill, modality))) == Ok(v)
  {
    var c := ColumnName(skill, modality);
    if c in columns then
      match ParseValue(CellAt(row, c))
      case Ok(code) => code
      case Err(_) => 0
    else 0
  }

  function SkillSlots(columns: seq<string>, row: Row, skills: seq<string>, modality: string): map<string, int> {
    map s | s in skills :: SlotValue(columns, row, s, modality)
  }

  /** The entry a row's worker receives: every configured modality, and in
      each every configured skill, holding a skill code. */
  function WorkerSlots(columns: seq<string>, row: Row, skills: seq<string>, modalities: seq<string>)
    : (d: map<string, map<string, int>>)
    ensures forall m :: m in d <==> m in modalities
    ensures forall m, s :: m in d ==> (s in d[m] <==> s in skills)
    ensures forall m, s :: m in d && s in d[m] ==> IsCode(d[m][s])
  {
    map m | m in modalities :: SkillSlots(columns, row, skills, m)
  }

  /** The number of error slots of one modality. */
  function SkillErrors(columns: seq<string>, row: Row, skills: seq<string>, modality: string): nat {
    if skills == [] then 0
    else
      SkillErrors(columns, row, skills[..|skills| - 1], modality)
      + (if SlotInvalid(columns, row, skills[|skills| - 1], modality) then 1 else 0)
  }

  /** The number of error slots of a row. */
  function RowErrors(columns: seq<string>, row: Row, skills: seq<string>, modalities: seq<string>): nat {
    if modalities == [] then 0
    else
      RowErrors(columns, row, skills, modalities[..|modalities| - 1])
      + SkillErrors(columns, row, skills, modalities[|modalities| - 1])
  }

  lemma {:induction false} SkillErrorsZero(columns: seq<string>, row: Row, skills: seq<string>, modality: string)
    ensures SkillErrors(columns, row, skills, modality) == 0
        <==> forall s :: s in skills ==> !SlotInvalid(columns, row, s, modality)
  {
    if skills != [] {
      var init := skills[..|skills| - 1];
      SkillErrorsZero(columns, row, init, modality);
      assert skills == init + [skills[|skills| - 1]];
    }
  }

  /** A row contributes no errors exactly when every configured slot reads
      as a code. */
  lemma {:induction false} RowErrorsZero(columns: seq<string>, row: Row, skills: seq<string>, modalities: seq<string>)
    ensures RowErrors(columns, row, skills, modalities) == 0
        <==> forall m, s :: m in modalities && s in skills ==> !SlotInvalid(columns, row, s, m)
  {
    if modalities != [] {
      var init := modalities[..|modalities| - 1];
      var last := modalities[|modalities| - 1];
      RowErrorsZero(columns, row, skills, init);
      SkillErrorsZero(columns, row, skills, last);
      assert modalities == init + [last];
    }
  }

  lemma SkillSlotsStep(columns: seq<string>, row: Row, skills: seq<string>, j: nat, modality: string)
    requires j < |skills|
    ensures SkillSlots(columns, row, skills[..j + 1], modality)
         == SkillSlots(columns, row, skills[..j], modality)[skills[j] := SlotValue(columns, row, skills[j], modality)]
    ensures SkillErrors(columns, row, skills[..j + 1], modality)
         == SkillErrors(columns, row, skills[..j], modality)
            + (if SlotInvalid(columns, row, skills[j], modality) then 1 else 0)
  {
    assert skills[..j + 1] == skills[..j] + [skills[j]];
    assert skills[..j + 1][..j] == skills[..j];
  }

  lemma WorkerSlotsStep(columns: seq<string>, row: Row, skills: seq<string>, modalities: seq<string>, i: nat)
    requires i < |modalities|
    ensures WorkerSlots(columns, row, skills, modalities[..i + 1])
         == WorkerSlots(columns, row, skills, modalities[..i])[modalities[i] := SkillSlots(columns, row, skills, modalities[i])]
    ensures RowErrors(columns, row, skills, modalities[..i + 1])
         == RowErrors(columns, row, skills, modalities[..i]) + SkillErrors(columns, row, skills, modalities[i])
  {
    assert modalities[..i + 1] == modalities[..i] + [modalities[i]];
    assert modalities[..i + 1][..i] == modalities[..i];
  }

  /** Builds one worker's entry from a row, slot by slot, counting the cells
      that are not skill codes. */
  method BuildWorkerData(columns: seq<string>, row: Row, skills: seq<string>, modalities: seq<string>)
    returns (data: map<string, map<string, int>>, errors: nat)
    ensures data == WorkerSlots(columns, row, skills, modalities)
    ensures errors == RowErrors(columns, row, skills, modalities)
  {
    data, errors := map[], 0;
    var i := 0;
    while i < |modalities|
      invariant 0 <= i <= |modalities|
      invariant data == WorkerSlots(columns, row, skills, modalities[..i])
      invariant errors == RowErrors(columns, row, skills, modalities[..i])
    {
      var modality := modalities[i];
      var slots: map<string, int> := map[];
      var j := 0;
      while j < |skills|
        invariant 0 <= j <= |skills|
        invariant slots == SkillSlots(columns, row, skills[..j], modality)
        invariant errors == RowErrors(columns, row, skills, modalities[..i])
                            + SkillErrors(columns, row, skills[..j], modality)
      {
        var skill := skills[j];
        var column := ColumnName(skill, modality);
        var value := 0;
        if column in columns {
          match ParseValue(CellAt(row, column)) {
            case Ok(v) =>
              value := v;
            case Err(_) =>
              errors := errors + 1;
          }
        }
        slots := slots[skill := value];
        SkillSlotsStep(columns, row, skills, j, modality);
        j := j + 1;
      }
      assert skills[..j] == skills;
      data := data[modality := slots];
      WorkerSlotsStep(columns, row, skills, modalities, i);
      i := i + 1;
    }
    assert modalities[..i] == modalities;
  }

  // ---------------------------------------------------------------------
  // The whole table

  /** The worker name of every row, in table order. */
  function RowNames(rows: seq<Row>): (names: seq<string>)
    ensures |names| == |rows|
  {
    seq(|rows|, k requires 0 <= k < |rows| => WorkerName(rows[k]))
  }

  /** True when a row with this name is imported: the name is not blank, and
      in AddOnly mode it does not name a worker already stored. */
  predicate Processed(mode: MergeMode, existing: RosterMap, name: string) {
    !IsBlankName(name) && !(mode == AddOnly && name in existing)
  }

  /** The names the first n rows write into the roster. */
  function WrittenNames(names: seq<string>, mode: MergeMode, existing: RosterMap, n: nat): set<string>
    requires n <= |names|
  {
    if n == 0 then {}
    else
      WrittenNames(names, mode, existing, n - 1)
      + (if Processed(mode, existing, names[n - 1]) then {names[n - 1]} else {})
  }

  /** A name is written exactly when one of the rows imports it. */
  lemma {:induction false} WrittenNamesMeaning(names: seq<string>, mode: MergeMode, existing: RosterMap, n: nat, w: string)
    requires n <= |names|
    ensures w in WrittenNames(names, mode, existing, n)
        <==> exists k :: 0 <= k < n && Processed(mode, existing, names[k]) && names[k] == w
  {
    if n > 0 {
      WrittenNamesMeaning(names, mode, existing, n - 1, w);
    }
  }

  /** Row k is the last of the first n rows that writes its worker. */
  predicate LastWrite(names: seq<string>, mode: MergeMode, existing: RosterMap, n: nat, k: nat)
    requires k < n <= |names|
  {
    forall j :: k < j < n ==> !(Processed(mode, existing, names[j]) && names[j] == names[k])
  }

  /** The roster after the first n rows: the starting roster plus the
      written names; a worker no row writes keeps its starting entry, and a
      written worker holds the entry built from the last row naming it. */
  ghost predicate ImportedRoster(columns: seq<string>, rows: seq<Row>, names: seq<string>, mode: MergeMode,
                                 existing: RosterMap, skills: seq<string>, modalities: seq<string>,
                                 n: nat, r: RosterMap)
    requires n <= |rows| == |names|
  {
    && r.Keys == existing.Keys + WrittenNames(names, mode, existing, n)
    && (forall w :: w in existing && w !in WrittenNames(names, mode, existing, n) ==> r[w] == existing[w])
    && (forall k :: 0 <= k < n && Processed(mode, existing, names[k]) && LastWrite(names, mode, existing, n, k)
          ==> names[k] in r && r[names[k]] == Hierarchical(WorkerSlots(columns, rows[k], skills, modalities)))
  }

  /** The number of rows among the first n with a non-blank name. */
  function NonBlankCount(names: seq<string>, n: nat): nat
    requires n <= |names|
  {
    if n == 0 then 0
    else NonBlankCount(names, n - 1) + (if IsBlankName(names[n - 1]) then 0 else 1)
  }

  /** The number of rows among the first n with a non-blank name that the
      starting roster already holds. */
  function KnownCount(names: seq<string>, existing: RosterMap, n: nat): (c: nat)
    requires n <= |names|
    ensures c <= NonBlankCount(names, n)
  {
    if n == 0 then 0
    else
      KnownCount(names, existing, n - 1)
      + (if !IsBlankName(names[n - 1]) && names[n - 1] in existing then 1 else 0)
  }

  /** The number of rows among the first n with a non-blank name the
      starting roster lacks. */
  function NewCount(names: seq<string>, existing: RosterMap, n: nat): nat
    requires n <= |names|
  {
    if n == 0 then 0
    else
      NewCount(names, existing, n - 1)
      + (if !IsBlankName(names[n - 1]) && names[n - 1] !in existing then 1 else 0)
  }

  /** The error slots of the imported rows among the first n. */
  function ErrorCount(columns: seq<string>, rows: seq<Row>, names: seq<string>, mode: MergeMode,
                      existing: RosterMap, skills: seq<string>, modalities: seq<string>, n: nat): nat
    requires n <= |rows| == |names|
  {
    if n == 0 then 0
    else
      ErrorCount(columns, rows, names, mode, existing, skills, modalities, n - 1)
      + (if Processed(mode, existing, names[n - 1]) then RowErrors(columns, rows[n - 1], skills, modalities) else 0)
  }

  /** Against an empty roster no name is known. */
  lemma {:induction false} KnownCountEmpty(names: seq<string>, n: nat)
    requires n <= |names|
    ensures KnownCount(names, map[], n) == 0
  {
    if n > 0 {
      KnownCountEmpty(names, n - 1);
    }
  }

  /** Every non-blank row names either a known or a new worker. */
  lemma {:induction false} KnownOrNew(names: seq<string>, existing: RosterMap, n: nat)
    requires n <= |names|
    ensures KnownCount(names, existing, n) + NewCount(names, existing, n) == NonBlankCount(names, n)
  {
    if n > 0 {
      KnownOrNew(names, existing, n - 1);
    }
  }

  /** A row that is not imported leaves the roster as ImportedRoster
      describes it. */
  lemma ImportedSkip(columns: seq<string>, rows: seq<Row>, names: seq<string>, mode: MergeMode,
                     existing: RosterMap, skills: seq<string>, modalities: seq<string>, n: nat, r: RosterMap)
    requires n < |rows| == |names| && !Processed(mode, existing, names[n])
    requires ImportedRoster(columns, rows, names, mode, existing, skills, modalities, n, r)
    ensures ImportedRoster(columns, rows, names, mode, existing, skills, modalities, n + 1, r)
  {
    forall k | 0 <= k < n + 1 && Processed(mode, existing, names[k]) && LastWrite(names, mode, existing, n + 1, k)
      ensures names[k] in r && r[names[k]] == Hierarchical(WorkerSlots(columns, rows[k], skills, modalities))
    {
      assert LastWrite(names, mode, existing, n, k);
    }
  }

  /** An imported row replaces its worker's entry, keeping the roster as
      ImportedRoster describes it. */
  lemma ImportedWrite(columns: seq<string>, rows: seq<Row>, names: seq<string>, mode: MergeMode,
                      existing: RosterMap, skills: seq<string>, modalities: seq<string>, n: nat, r: RosterMap)
    requires n < |rows| == |names| && Processed(mode, existing, names[n])
    requires ImportedRoster(columns, rows, names, mode, existing, skills, modalities, n, r)
    ensures ImportedRoster(columns, rows, names, mode, existing, skills, modalities, n + 1,
              r[names[n] := Hierarchical(WorkerSlots(columns, rows[n], skills, modalities))])
  {
    var r' := r[names[n] := Hierarchical(WorkerSlots(columns, rows[n], skills, modalities))];
    forall k | 0 <= k < n + 1 && Processed(mode, existing, names[k]) && LastWrite(names, mode, existing, n + 1, k)
      ensures names[k] in r' && r'[names[k]] == Hierarchical(WorkerSlots(columns, rows[k], skills, modalities))
    {
      if k < n {
        assert LastWrite(names, mode, existing, n, k);
      }
    }
  }

  /** In AddOnly mode no row writes a worker the starting roster holds. */
  lemma {:induction false} AddOnlyWritesOnlyNew(names: seq<string>, existing: RosterMap, n: nat)
    requires n <= |names|
    ensures WrittenNames(names, AddOnly, existing, n) !! existing.Keys
  {
    if n > 0 {
      AddOnlyWritesOnlyNew(names, existing, n - 1);
    }
  }

  /** What the import has done so far: the roster it is building and its
      counters. */
  datatype Progress = Progress(roster: RosterMap, stats: Stats)

  /** The effect of one row. A blank name is ignored; in AddOnly mode a
      stored worker is skipped; otherwise the worker's entry is rebuilt from
      the row, counted as an update when the starting roster holds the
      worker and as an addition when it does not. */
  function ImportRow(columns: seq<string>, mode: MergeMode, existing: RosterMap,
                     skills: seq<string>, modalities: seq<string>, p: Progress, name: string, row: Row): Progress
  {
    var s := p.stats;
    if IsBlankName(name) then p
    else if mode == AddOnly && name in existing then Progress(p.roster, s.(skipped := s.skipped + 1))
    else
      Progress(p.roster[name := Hierarchical(WorkerSlots(columns, row, skills, modalities))],
               Stats(if name in existing then s.added else s.added + 1,
                     if name in existing then s.updated + 1 else s.updated,
                     s.skipped,
                     s.errors + RowErrors(columns, row, skills, modalities)))
  }

  /** The progress after the first n rows, taken in order. */
  function ImportRows(columns: seq<string>, rows: seq<Row>, names: seq<string>, mode: MergeMode,
                      existing: RosterMap, skills: seq<string>, modalities: seq<string>, n: nat): Progress
    requires n <= |rows| == |names|
  {
    if n == 0 then Progress(existing, Stats(0, 0, 0, 0))
    else ImportRow(columns, mode, existing, skills, modalities,
                   ImportRows(columns, rows, names, mode, existing, skills, modalities, n - 1),
                   names[n - 1], rows[n - 1])
  }

  /** The roster the rows build is the one ImportedRoster describes. */
  lemma {:induction false} ImportRowsRoster(columns: seq<string>, rows: seq<Row>, names: seq<string>, mode: MergeMode,
                                            existing: RosterMap, skills: seq<string>, modalities: seq<string>, n: nat)
    requires n <= |rows| == |names|
    ensures ImportedRoster(columns, rows, names, mode, existing, skills, modalities, n,
                           ImportRows(columns, rows, names, mode, existing, skills, modalities, n).roster)
  {
    if n > 0 {
      ImportRowsRoster(columns, rows, names, mode, existing, skills, modalities, n - 1);
      var r := ImportRows(columns, rows, names, mode, existing, skills, modalities, n - 1).roster;
      if Processed(mode, existing, names[n - 1]) {
        ImportedWrite(columns, rows, names, mode, existing, skills, modalities, n - 1, r);
      } else {
        ImportedSkip(columns, rows, names, mode, existing, skills, modalities, n - 1, r);
      }
    }
  }

  /** The counters the rows produce: additions count the rows naming a new
      worker, updates (outside AddOnly) and skips (in AddOnly) the rows
      naming a known one, and errors the error slots of imported rows. */
  lemma {:induction false} ImportRowsStats(columns: seq<string>, rows: seq<Row>, names: seq<string>, mode: MergeMode,
                                           existing: RosterMap, skills: seq<string>, modalities: seq<string>, n: nat)
    requires n <= |rows| == |names|
    ensures var s := ImportRows(columns, rows, names, mode, existing, skills, modalities, n).stats;
      && s.added == NewCount(names, existing, n)
      && s.updated == (if mode == AddOnly then 0 else KnownCount(names, existing, n))
      && s.skipped == (if mode == AddOnly then KnownCount(names, existing, n) else 0)
      && s.errors == ErrorCount(columns, rows, names, mode, existing, skills, modalities, n)
  {
    if n > 0 {
      ImportRowsStats(columns, rows, names, mode, existing, skills, modalities, n - 1);
    }
  }

  /** Takes the rows in order, each with its worker name, rebuilding the
      entry of every worker a row imports and keeping the counters. */
  method ImportAll(columns: seq<string>, rows: seq<Row>, names: seq<string>, mode: MergeMode,
                   existing: RosterMap, skills: seq<string>, modalities: seq<string>)
    returns (p: Progress)
    requires |names| == |rows|
    ensures p == ImportRows(columns, rows, names, mode, existing, skills, modalities, |rows|)
  {
    var roster := existing;
    var added, updated, skipped, errors := 0, 0, 0, 0;
    var i := 0;
    while i < |rows|
      invariant 0 <= i <= |rows|
      invariant Progress(roster, Stats(added, updated, skipped, errors))
                == ImportRows(columns, rows, names, mode, existing, skills, modalities, i)
    {
      var row := rows[i];
      var name := names[i];
      ghost var before := Progress(roster, Stats(added, updated, skipped, errors));
      if IsBlankName(name) {
      } else if mode == AddOnly && name in existing {
        skipped := skipped + 1;
      } else {
        var isUpdate := name in existing;
        var data, rowErrors := BuildWorkerData(columns, row, skills, modalities);
        roster := roster[name := Hierarchical(data)];
        errors := errors + rowErrors;
        if isUpdate {
          updated := updated + 1;
        } else {
          added := added + 1;
        }
      }
      assert Progress(roster, Stats(added, updated, skipped, errors))
          == ImportRow(columns, mode, existing, skills, modalities, before, name, row);
      i := i + 1;
    }
    p := Progress(roster, Stats(added, updated, skipped, errors));
  }

  /** The import: reads every row of the table into the roster it starts
      from, as the merge mode says, and counts what it did. */
  method ImportTable(t: Table, mode: MergeMode, stored: RosterMap, skills: seq<string>, modalities: seq<string>)
    returns (r: Result<Imported, ImportError>)
    ensures r.Err? <==> WorkerColumn !in t.columns
    ensures r.Ok? ==> ImportedRoster(t.columns, t.rows, RowNames(t.rows), mode, Existing(mode, stored),
                                     skills, modalities, |t.rows|, r.value.roster)
    ensures r.Ok? && mode == Replace ==> r.value.roster.Keys == WrittenNames(RowNames(t.rows), mode, map[], |t.rows|)
    ensures r.Ok? && mode != Replace ==> stored.Keys <= r.value.roster.Keys
    ensures r.Ok? && mode == AddOnly ==> forall w :: w in stored ==> r.value.roster[w] == stored[w]
    ensures r.Ok? ==> r.value.stats.added + r.value.stats.updated + r.value.stats.skipped
                      == NonBlankCount(RowNames(t.rows), |t.rows|)
    ensures r.Ok? ==> r.value.stats.skipped
                      == (if mode == AddOnly then KnownCount(RowNames(t.rows), stored, |t.rows|) else 0)
    ensures r.Ok? ==> r.value.stats.updated
                      == (if mode == AddOnly then 0 else KnownCount(RowNames(t.rows), Existing(mode, stored), |t.rows|))
    ensures r.Ok? && mode == Replace ==> r.value.stats.updated == 0
                                         && r.value.stats.added == NonBlankCount(RowNames(t.rows), |t.rows|)
    ensures r.Ok? ==> r.value.stats.errors
                      == ErrorCount(t.columns, t.rows, RowNames(t.rows), mode, Existing(mode, stored),
                                    skills, modalities, |t.rows|)
  {
    if WorkerColumn !in t.columns {
      return Err(NoWorkerColumn);
    }
    var existing := Existing(mode, stored);
    var names := RowNames(t.rows);
    var p := ImportAll(t.columns, t.rows, names, mode, existing, skills, modalities);
    ImportRowsRoster(t.columns, t.rows, names, mode, existing, skills, modalities, |t.rows|);
    ImportRowsStats(t.columns, t.rows, names, mode, existing, skills, modalities, |t.rows|);
    if mode == Replace {
      KnownCountEmpty(names, |t.rows|);
    }
    if mode == AddOnly {
      AddOnlyWritesOnlyNew(names, existing, |t.rows|);
    }
    KnownOrNew(names, existing, |t.rows|);
    r := Ok(Imported(p.roster, p.stats));
  }
}
