/** The worker skill roster and the roster table, as the import, export and
    validation commands share them. */
module Roster {
  import opened Cells

  /** One worker's skill codes. The stored roster holds each worker either
      hierarchically, modality -> skill -> code, or flat, "skill_modality"
      -> code. */
  datatype WorkerData =
    | Hierarchical(modalities: map<string, map<string, int>>)
    | Flat(columns: map<string, int>)

  /** The roster: worker name -> skill codes. */
  type RosterMap = map<string, WorkerData>

  /** A row of a roster table, keyed by column name. A column a row has no
      entry for reads as an empty cell, as a short line of a CSV file does. */
  type Row = map<string, Cell>

  /** A roster table: its column names in file order, and its rows. */
  datatype Table = Table(columns: seq<string>, rows: seq<Row>)

  const WorkerColumn: string := "Worker"

  /** The name of the column that holds one skill of one modality. */
  function ColumnName(skill: string, modality: string): string {
    skill + "_" + modality
  }

  /** A skill column is never mistaken for the worker column: its name holds
      an underscore and "Worker" does not. */
  lemma ColumnIsNotWorker(skill: string, modality: string)
    ensures ColumnName(skill, modality) != WorkerColumn
  {
    var c := ColumnName(skill, modality);
    assert c[|skill|] == '_';
  }

  /** Every skill column of the configured skills and modalities. */
  function ExpectedColumns(skills: seq<string>, modalities: seq<string>): (e: set<string>)
    ensures forall m, s :: m in modalities && s in skills ==> ColumnName(s, m) in e
    ensures forall c :: c in e ==> exists m, s :: m in modalities && s in skills && c == ColumnName(s, m)
  {
    set m, s | m in modalities && s in skills :: ColumnName(s, m)
  }

  /** The worker column is never one of the expected skill columns. */
  lemma WorkerNotExpected(skills: seq<string>, modalities: seq<string>)
    ensures WorkerColumn !in ExpectedColumns(skills, modalities)
  {
    if WorkerColumn in ExpectedColumns(skills, modalities) {
      var m, s :| m in modalities && s in skills && WorkerColumn == ColumnName(s, m);
      ColumnIsNotWorker(s, m);
    }
  }

  /** Distinct (skill, modality) pairs of the configuration name distinct
      columns. */
  predicate DistinctColumns(skills: seq<string>, modalities: seq<string>) {
    forall m1, s1, m2, s2 ::
      m1 in modalities && s1 in skills && m2 in modalities && s2 in skills
      && ColumnName(s1, m1) == ColumnName(s2, m2)
      ==> m1 == m2 && s1 == s2
  }

  function CellAt(row: Row, column: string): Cell {
    if column in row then row[column] else Missing
  }

  /** str() of a cell: an empty cell prints as "nan". */
  function CellText(c: Cell): string {
    match c
    case Missing => "nan"
    case Num(n) => FormatInt(n)
    case Str(s) => s
  }

  /** The worker name a row carries: its worker cell as text, trimmed. */
  function WorkerName(row: Row): (name: string)
    ensures name == [] || (!IsSpace(name[0]) && !IsSpace(name[|name| - 1]))
  {
    StripShape(CellText(CellAt(row, WorkerColumn)));
    Strip(CellText(CellAt(row, WorkerColumn)))
  }

  /** A row with this name is not a worker and is ignored. */
  predicate IsBlankName(name: string) {
    name == "" || name == "nan"
  }

  /** A row whose worker cell is empty (NaN) or only whitespace has a blank
      worker name. */
  lemma BlankWorkerCell(row: Row)
    requires CellAt(row, WorkerColumn).Missing?
             || (CellAt(row, WorkerColumn).Str? && AllSpace(CellAt(row, WorkerColumn).s))
    ensures IsBlankName(WorkerName(row))
  {
    var cell := CellAt(row, WorkerColumn);
    if cell.Missing? {
      assert Strip("nan") == "nan";
    } else {
      StripLeftAllSpace(cell.s);
    }
  }

  /** The code a worker's entry holds for one skill of one modality, 0 when
      the entry has none. */
  function Lookup(d: WorkerData, modality: string, skill: string): int {
    match d
    case Hierarchical(mods) =>
      if modality in mods && skill in mods[modality] then mods[modality][skill] else 0
    case Flat(cols) =>
      var c := ColumnName(skill, modality);
      if c in cols then cols[c] else 0
  }
}
