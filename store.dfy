/**
 * The data folder as an object: `load_table` and `save_table` (app.py:71-150) and the
 * two update operations built on them (app.py:176-289), written as the step-by-step
 * code they are and proved equal to the functions of Tables and Updates.
 */
module Store {
  import opened Wrappers
  import opened Text
  import opened Sequences
  import opened Ordering
  import opened ListCells
  import opened Tables
  import opened Membership
  import opened Records
  import opened Updates

  /**
   * `set(cell.split(',') if cell else [])`, `update`, `",".join(sorted(...))` and the
   * growth of the set (app.py:200-204): the merge as the source computes it.
   */
  method MergeCell(cell: string, ids: seq<string>) returns (m: Merged)
    ensures m == MergeList(cell, ids)
  {
    var current := Entries(cell);
    var initial := |current|;
    GrowthCard(current, Elems(ids));
    current := current + Elems(ids);
    var sorted := SortSet(current);
    ElemsConcat(ParseList(cell), ids);
    SortedListingUnique(sorted, SortedUnique(ParseList(cell) + ids));
    m := Merged(Join(",", sorted), |current| - initial);
  }

  /** Restamping the records of one more ID is restamping the records of the longer list. */
  lemma RestampStep(rows: seq<Row>, ids: seq<string>, id: string, s: Stamp)
    ensures Restamp(Restamp(rows, ids, s), [id], s) == Restamp(rows, ids + [id], s)
  {
    var once := Restamp(rows, ids, s);
    forall k | 0 <= k < |rows| ensures Restamp(once, [id], s)[k] == Restamp(rows, ids + [id], s)[k] {
      var r := rows[k];
      if Cell(r, StandardId) in ids && Cell(r, EventIdColumn) == s.event && Cell(r, StandardId) == id {
        RestampedAgain(r, s);
      }
    }
  }

  lemma RestampedAgain(r: Row, s: Stamp)
    ensures Restamped(Restamped(r, s), s) == Restamped(r, s)
  {
  }

  /** An ID without a record at the event has nothing to restamp. */
  lemma RestampAbsent(rows: seq<Row>, ids: seq<string>, id: string, s: Stamp)
    requires !HasRecord(rows, id, s.event)
    ensures Restamp(rows, ids + [id], s) == Restamp(rows, ids, s)
  {
    forall k | 0 <= k < |rows| ensures Restamp(rows, ids + [id], s)[k] == Restamp(rows, ids, s)[k] {
      assert !IsRecordOf(rows[k], id, s.event);
    }
  }

  /** Restamping changes no Standard ID and no Event ID, so the same records are found. */
  lemma HasRecordRestamp(rows: seq<Row>, ids: seq<string>, id: string, s: Stamp)
    ensures HasRecord(Restamp(rows, ids, s), id, s.event) == HasRecord(rows, id, s.event)
  {
    var t := Restamp(rows, ids, s);
    if HasRecord(rows, id, s.event) {
      var k :| 0 <= k < |rows| && IsRecordOf(rows[k], id, s.event);
      assert IsRecordOf(t[k], id, s.event);
    }
    if HasRecord(t, id, s.event) {
      var k :| 0 <= k < |t| && IsRecordOf(t[k], id, s.event);
      assert IsRecordOf(rows[k], id, s.event);
    }
  }

  /** Once the collected records fail, the whole list fails the same way. */
  lemma {:induction false} NewRecordsFailureStays(rows: seq<Row>, employees: seq<Row>, ids: seq<string>, n: nat, s: Stamp)
    requires n <= |ids| && NewRecords(rows, employees, ids[..n], s).Err?
    ensures NewRecords(rows, employees, ids, s) == NewRecords(rows, employees, ids[..n], s)
    decreases |ids| - n
  {
    if n < |ids| {
      var m := |ids| - 1;
      assert ids[..m][..n] == ids[..n];
      NewRecordsFailureStays(rows, employees, ids[..m], n, s);
      assert ids[..m] == ids[..|ids| - 1];
    } else {
      assert ids[..n] == ids;
    }
  }

  /**
   * The loop of app.py:214-243: for each ID look up its email (an ID without an
   * employee row stops the update), then restamp its records at the event in place,
   * or collect a new record when it has none; the new records are appended at the end.
   */
  method RecordParticipants(participants: Frame, employees: seq<Row>, ids: seq<string>, s: Stamp)
    returns (r: Result<Frame, Failure>)
    ensures r == EditParticipants(participants, employees, ids, s)
  {
    var rows := participants.rows;
    var collected: seq<Row> := [];
    for k := 0 to |ids|
      invariant rows == Restamp(participants.rows, ids[..k], s)
      invariant NewRecords(participants.rows, employees, ids[..k], s) == Ok(collected)
    {
      var id := ids[k];
      PrefixSnoc(ids, k);
      var email := EmailOf(employees, id);
      if email.Err? {
        NewRecordsFailureStays(participants.rows, employees, ids, k + 1, s);
        return Err(email.error);
      }
      NewRecordsStep(participants.rows, employees, ids, k, s, collected, email.value);
      HasRecordRestamp(participants.rows, ids[..k], id, s);
      if HasRecord(rows, id, s.event) {
        RestampStep(participants.rows, ids[..k], id, s);
        rows := Restamp(rows, [id], s);
      } else {
        RestampAbsent(participants.rows, ids[..k], id, s);
        collected := collected + [NewRecord(id, email.value, s)];
      }
    }
    assert ids[..|ids|] == ids;
    r := Ok(Frame(participants.columns, rows + collected));
  }

  /** One more ID: the new records of the longer prefix from those of the shorter one. */
  lemma NewRecordsStep(rows: seq<Row>, employees: seq<Row>, ids: seq<string>, k: nat, s: Stamp,
                       recs: seq<Row>, email: string)
    requires k < |ids| && NewRecords(rows, employees, ids[..k], s) == Ok(recs)
    requires EmailOf(employees, ids[k]) == Ok(email)
    ensures NewRecords(rows, employees, ids[..k + 1], s)
      == Ok(if HasRecord(rows, ids[k], s.event) then recs else recs + [NewRecord(ids[k], email, s)])
  {
    assert ids[..k + 1][..k] == ids[..k];
  }

  /**
   * The columns load_table keeps (app.py:76, 100-102): the canonical ones, and for
   * employees each further column of the file, in file order, once.
   */
  method KeptColumns(key: TableKey, df: Frame) returns (cols: seq<string>)
    ensures cols == Kept(key, df)
  {
    cols := Canonical(key);
    if key == Employees {
      cols := AppendColumns(cols, df.columns);
    }
  }

  /** The loop of app.py:100-102: each column not listed yet is appended, in order. */
  method AppendColumns(start: seq<string>, columns: seq<string>) returns (cols: seq<string>)
    ensures cols == AppendNew(start, columns)
  {
    cols := start;
    for j := 0 to |columns|
      invariant cols == AppendNew(start, columns[..j])
    {
      assert columns[..j + 1][..j] == columns[..j];
      if columns[j] !in cols {
        cols := cols + [columns[j]];
      }
    }
    assert columns[..|columns|] == columns;
  }

  /** The loop of app.py:128-130: every kept column the frame lacks is added, empty. */
  method FillMissing(df: Frame, cols: seq<string>) returns (g: Frame)
    ensures g == AddMissing(df, cols)
  {
    g := df;
    for j := 0 to |cols|
      invariant g == AddMissing(df, cols[..j])
    {
      assert cols[..j + 1][..j] == cols[..j];
      if cols[j] !in g.columns {
        g := AddColumn(g, cols[j]);
      }
    }
    assert cols[..|cols|] == cols;
  }

  /** The files of the data folder, one frame per table that has a file. */
  class TableStore {
    var disk: Disk

    constructor(files: Disk)
      ensures disk == files
    {
      disk := files;
    }

    /**
     * load_table (app.py:71-138): prepare the file's frame, extend the kept columns
     * with the file's own for employees, add the missing ones empty and select them in
     * order; a missing table gets a header-only file and an empty frame.
     */
    method LoadTable(key: TableKey) returns (f: Frame)
      modifies this
      ensures f == Updates.Load(old(disk), key)
      ensures disk == Touch(old(disk), key)
    {
      var cols, df;
      if key in disk {
        df := Prepared(key, disk[key]);
        cols := KeptColumns(key, df);
      } else {
        cols := Canonical(key);
        df := Frame(cols, []);
        disk := disk[key := Created(key)];
      }
      var g := FillMissing(df, cols);
      f := Select(g, cols);
    }

    /** save_table (app.py:141-150): employees get the file's name for Email back. */
    method SaveTable(key: TableKey, f: Frame)
      modifies this
      ensures disk == old(disk)[key := Saved(key, f)]
    {
      var toSave := f;
      if key == Employees && Email in f.columns {
        toSave := RenameColumn(f, Email, WorkEmail);
      }
      disk := disk[key := toSave];
    }

    /**
     * update_event_participation (app.py:176-252), step by step; the new files and the
     * result are those of EventUpdate.
     */
    method UpdateEventParticipation(eventId: string, ids: seq<string>, registered: bool,
                                    participated: bool, now: string) returns (r: Result<Counts, Failure>)
      modifies this
      ensures Outcome(disk, r) == EventUpdate(old(disk), eventId, ids, registered, participated, now)
    {
      if NothingToDo(eventId, ids, registered, participated) {
        return Ok(Counts(0, 0));
      }
      var events := LoadTable(Events);
      var employees := LoadTable(Employees);
      var participants := LoadTable(Participants);
      TouchKeepsLoads(old(disk), Events, Employees);
      TouchKeepsLoads(old(disk), Events, Participants);
      TouchKeepsLoads(Touch(old(disk), Events), Employees, Participants);
      var found := FirstRowWith(events.rows, EventIdColumn, eventId);
      if found.None? {
        return Ok(Counts(0, 0));
      }
      var i := found.value;
      var row := events.rows[i];
      var stamp := Stamp(eventId, Cell(row, NameColumn), Cell(row, DateColumn), StatusText(registered, participated), now);
      var registeredAdded, participatedAdded := 0, 0;
      if registered {
        var m := MergeCell(Cell(row, Registrations), ids);
        row := row[Registrations := m.cell];
        registeredAdded := m.added;
      }
      if participated {
        var m := MergeCell(Cell(row, ParticipantsColumn), ids);
        row := row[ParticipantsColumn := m.cell];
        participatedAdded := m.added;
      }
      events := events.(rows := events.rows[i := row]);
      var edited := RecordParticipants(participants, employees.rows, ids, stamp);
      if edited.Err? {
        return Err(edited.error);
      }
      SaveTable(Events, events);
      SaveTable(Participants, edited.value);
      r := Ok(Counts(registeredAdded, participatedAdded));
    }

    /**
     * update_cohort_membership (app.py:255-289), step by step; the new files and the
     * counts are those of CohortUpdate.
     */
    method UpdateCohortMembership(name: string, ids: seq<string>, nominated: bool, participant: bool)
      returns (added: Counts)
      modifies this
      ensures Outcome(disk, Ok(added)) == CohortUpdate(old(disk), name, ids, nominated, participant)
    {
      if NothingToDo(name, ids, nominated, participant) {
        return Counts(0, 0);
      }
      var cohorts := LoadTable(Cohorts);
      var found := FirstRowWith(cohorts.rows, NameColumn, name);
      if found.None? {
        return Counts(0, 0);
      }
      var i := found.value;
      var row := cohorts.rows[i];
      var nominatedAdded, participantsAdded := 0, 0;
      if nominated {
        var m := MergeCell(Cell(row, Nominated), ids);
        row := row[Nominated := m.cell];
        nominatedAdded := m.added;
      }
      if participant {
        var m := MergeCell(Cell(row, ParticipantsColumn), ids);
        row := row[ParticipantsColumn := m.cell];
        participantsAdded := m.added;
      }
      cohorts := cohorts.(rows := cohorts.rows[i := row]);
      SaveTable(Cohorts, cohorts);
      added := Counts(nominatedAdded, participantsAdded);
    }
  }
}
