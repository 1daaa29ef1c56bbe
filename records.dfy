/**
 * The participants table's part of an event update (app.py:214-247): every listed
 * employee gets a record of the event, new or restamped.
 */
module Records {
  import opened Wrappers
  import opened Text
  import opened Sequences
  import opened Tables
  import opened Membership

  const EventIdColumn: string := "Event ID"
  const StatusColumn: string := "Status"
  const UpdatedColumn: string := "Last Updated"

  /** What every record written by one update carries besides the employee. */
  datatype Stamp = Stamp(event: string, name: string, date: string, status: string, time: string)

  /** `", ".join(status)` for the two flags (app.py:217-221). */
  function StatusText(registered: bool, participated: bool): (t: string)
    ensures registered && participated ==> t == "Registered, Participated"
    ensures registered && !participated ==> t == "Registered"
    ensures !registered && participated ==> t == "Participated"
    ensures !registered && !participated ==> t == ""
  {
    var parts := (if registered then ["Registered"] else []) + (if participated then ["Participated"] else []);
    assert registered && participated ==> Join(", ", parts) == "Registered, Participated" by {
      if registered && participated {
        assert parts == ["Registered", "Participated"] && parts[1..] == ["Participated"];
        assert Join(", ", parts) == parts[0] + ", " + Join(", ", parts[1..]);
      }
    }
    Join(", ", parts)
  }

  predicate IsRecordOf(r: Row, id: string, event: string) {
    Cell(r, StandardId) == id && Cell(r, EventIdColumn) == event
  }

  /** The record carries the stamp's status and time. */
  predicate Stamped(r: Row, s: Stamp) {
    StatusColumn in r && r[StatusColumn] == s.status && UpdatedColumn in r && r[UpdatedColumn] == s.time
  }

  /** A record of one of the IDs at the event. */
  predicate Listed(r: Row, ids: seq<string>, event: string) {
    Cell(r, StandardId) in ids && Cell(r, EventIdColumn) == event
  }

  /** Every record of one of the IDs at the stamp's event carries the stamp. */
  predicate AllStamped(rows: seq<Row>, ids: seq<string>, s: Stamp) {
    forall k :: 0 <= k < |rows| && Listed(rows[k], ids, s.event) ==> Stamped(rows[k], s)
  }

  /** The filter of app.py:224-227 is not empty. */
  predicate HasRecord(rows: seq<Row>, id: string, event: string) {
    exists k :: 0 <= k < |rows| && IsRecordOf(rows[k], id, event)
  }

  /** The new record of app.py:231-239. */
  function NewRecord(id: string, email: string, s: Stamp): (r: Row)
    ensures r.Keys == Elems(Canonical(Participants))
    ensures IsRecordOf(r, id, s.event) && Cell(r, Email) == email
    ensures Cell(r, StatusColumn) == s.status && Cell(r, UpdatedColumn) == s.time
    ensures Stamped(r, s)
  {
    map[StandardId := id, Email := email, EventIdColumn := s.event, "Event Name" := s.name,
        "Event Date" := s.date, StatusColumn := s.status, UpdatedColumn := s.time]
  }

  /** An existing record with the update's status and time (app.py:242-243). */
  function Restamped(r: Row, s: Stamp): (t: Row)
    ensures Cell(t, StatusColumn) == s.status && Cell(t, UpdatedColumn) == s.time
    ensures Cell(t, StandardId) == Cell(r, StandardId) && Cell(t, EventIdColumn) == Cell(r, EventIdColumn)
    ensures t.Keys == r.Keys + {StatusColumn, UpdatedColumn}
    ensures Stamped(t, s)
  {
    r[StatusColumn := s.status][UpdatedColumn := s.time]
  }

  /**
   * The assignments of app.py:242-243 for every listed ID: each record of one of the
   * IDs at this event gets the stamp's status and time, and nothing else changes.
   */
  function Restamp(rows: seq<Row>, ids: seq<string>, s: Stamp): (r: seq<Row>)
    ensures |r| == |rows|
    ensures AllStamped(r, ids, s)
    ensures forall k :: 0 <= k < |rows| && !Listed(rows[k], ids, s.event) ==> r[k] == rows[k]
    ensures forall k, c :: 0 <= k < |rows| && c != StatusColumn && c != UpdatedColumn ==> Cell(r[k], c) == Cell(rows[k], c)
  {
    seq(|rows|, k requires 0 <= k < |rows| =>
      if Listed(rows[k], ids, s.event) then Restamped(rows[k], s) else rows[k])
  }

  /** The rows with Last Updated set to `time` on every record of one of the IDs at the event. */
  function Retime(rows: seq<Row>, ids: seq<string>, event: string, time: string): (r: seq<Row>)
    ensures |r| == |rows|
    ensures forall k :: 0 <= k < |rows| && !Listed(rows[k], ids, event) ==> r[k] == rows[k]
    ensures forall k :: 0 <= k < |rows| && Listed(rows[k], ids, event) ==> Cell(r[k], UpdatedColumn) == time
    ensures forall k, c :: 0 <= k < |rows| && c != UpdatedColumn ==> Cell(r[k], c) == Cell(rows[k], c)
  {
    seq(|rows|, k requires 0 <= k < |rows| =>
      if Listed(rows[k], ids, event) then rows[k][UpdatedColumn := time] else rows[k])
  }

  /**
   * `employees_df.loc[employees_df["Standard ID"] == id, "Email"].iloc[0]` (app.py:216):
   * the Email of the first employee row with the ID, an IndexError when there is none.
   */
  function EmailOf(employees: seq<Row>, id: string): (r: Result<string, Failure>)
    ensures r.Err? <==> forall j :: 0 <= j < |employees| ==> Cell(employees[j], StandardId) != id
    ensures r.Err? ==> r.error == NoEmployeeRow(id)
    ensures r.Ok? ==> exists j :: (0 <= j < |employees|
      && Cell(employees[j], StandardId) == id && r.value == Cell(employees[j], Email))
  {
    match FirstRowWith(employees, StandardId, id)
    case None => Err(NoEmployeeRow(id))
    case Some(j) => Ok(Cell(employees[j], Email))
  }

  /** The email EmailOf finds, or "" when there is none. */
  function EmailFor(employees: seq<Row>, id: string): string {
    match FirstRowWith(employees, StandardId, id)
    case None => ""
    case Some(j) => Cell(employees[j], Email)
  }

  /** The IDs, one per occurrence and in order, that have no record at the event yet. */
  function Lacking(rows: seq<Row>, ids: seq<string>, event: string): (r: seq<string>)
    ensures forall x :: x in r <==> x in ids && !HasRecord(rows, x, event)
    decreases |ids|
  {
    if ids == [] then []
    else
      var init, id := ids[..|ids| - 1], ids[|ids| - 1];
      assert ids == init + [id];
      Lacking(rows, init, event) + (if HasRecord(rows, id, event) then [] else [id])
  }

  /** Every listed ID has an employee row. */
  predicate AllKnown(employees: seq<Row>, ids: seq<string>) {
    forall k :: 0 <= k < |ids| ==> EmailOf(employees, ids[k]).Ok?
  }

  /**
   * The records the loop of app.py:214-243 collects: for each ID in order, its email
   * is looked up first (the first ID without an employee row stops everything), and a
   * new record is made when the ID has no record at the event.
   */
  function NewRecords(rows: seq<Row>, employees: seq<Row>, ids: seq<string>, s: Stamp): (r: Result<seq<Row>, Failure>)
    ensures r.Ok? <==> AllKnown(employees, ids)
    ensures r.Err? ==> r.error.NoEmployeeRow?
    decreases |ids|
  {
    if ids == [] then Ok([])
    else
      var n := |ids| - 1;
      var init, id := ids[..n], ids[n];
      assert ids == init + [id];
      match NewRecords(rows, employees, init, s)
      case Err(e) => Err(e)
      case Ok(recs) =>
        match EmailOf(employees, id)
        case Err(e) => Err(e)
        case Ok(email) => Ok(if HasRecord(rows, id, s.event) then recs else recs + [NewRecord(id, email, s)])
  }

  /** Which ID stops the update does not depend on the stamp. */
  lemma {:induction false} NewRecordsErrorStampFree(rows: seq<Row>, employees: seq<Row>, ids: seq<string>, s: Stamp, s2: Stamp)
    requires NewRecords(rows, employees, ids, s).Err?
    ensures NewRecords(rows, employees, ids, s2) == NewRecords(rows, employees, ids, s)
    decreases |ids|
  {
    var n := |ids| - 1;
    var init := ids[..n];
    if NewRecords(rows, employees, init, s).Err? {
      NewRecordsErrorStampFree(rows, employees, init, s, s2);
    } else {
      assert NewRecords(rows, employees, init, s2).Ok?;
    }
  }

  /** The update stops at the first listed ID that has no employee row. */
  lemma {:induction false} NewRecordsFailure(rows: seq<Row>, employees: seq<Row>, ids: seq<string>, s: Stamp)
    requires NewRecords(rows, employees, ids, s).Err?
    ensures exists k :: (0 <= k < |ids| && NewRecords(rows, employees, ids, s).error == NoEmployeeRow(ids[k])
      && EmailOf(employees, ids[k]).Err? && AllKnown(employees, ids[..k]))
    decreases |ids|
  {
    var n := |ids| - 1;
    var init, id := ids[..n], ids[n];
    assert ids == init + [id];
    if NewRecords(rows, employees, init, s).Err? {
      NewRecordsFailure(rows, employees, init, s);
      var k :| 0 <= k < |init| && NewRecords(rows, employees, init, s).error == NoEmployeeRow(init[k])
        && EmailOf(employees, init[k]).Err? && AllKnown(employees, init[..k]);
      assert init[..k] == ids[..k];
    } else {
      assert ids[..n] == init;
    }
  }

  /**
   * The new records are, in order, one per listing of an ID lacking a record, each
   * carrying that ID's email and the stamp.
   */
  lemma {:induction false} NewRecordsAre(rows: seq<Row>, employees: seq<Row>, ids: seq<string>, s: Stamp)
    requires NewRecords(rows, employees, ids, s).Ok?
    ensures var recs, lacking := NewRecords(rows, employees, ids, s).value, Lacking(rows, ids, s.event);
      && |recs| == |lacking|
      && forall k :: 0 <= k < |recs| ==> recs[k] == NewRecord(lacking[k], EmailFor(employees, lacking[k]), s)
    decreases |ids|
  {
    if ids != [] {
      var n := |ids| - 1;
      var init, id := ids[..n], ids[n];
      NewRecordsAre(rows, employees, init, s);
      assert EmailOf(employees, id) == Ok(EmailFor(employees, id));
      var tail := if HasRecord(rows, id, s.event) then [] else [id];
      RecordsExtend(NewRecords(rows, employees, init, s).value, Lacking(rows, init, s.event),
                    NewRecords(rows, employees, ids, s).value, tail, id, employees, s);
    }
  }

  lemma RecordsExtend(recs0: seq<Row>, lacking0: seq<string>, recs: seq<Row>, tail: seq<string>,
                      id: string, employees: seq<Row>, s: Stamp)
    requires |recs0| == |lacking0|
    requires forall k :: 0 <= k < |recs0| ==> recs0[k] == NewRecord(lacking0[k], EmailFor(employees, lacking0[k]), s)
    requires (tail == [] && recs == recs0) || (tail == [id] && recs == recs0 + [NewRecord(id, EmailFor(employees, id), s)])
    ensures var lacking := lacking0 + tail;
      && |recs| == |lacking|
      && forall k :: 0 <= k < |recs| ==> recs[k] == NewRecord(lacking[k], EmailFor(employees, lacking[k]), s)
  {
  }

  /** Distinct IDs give distinct IDs lacking a record. */
  lemma {:induction false} LackingDistinct(rows: seq<Row>, ids: seq<string>, event: string)
    requires Distinct(ids)
    ensures Distinct(Lacking(rows, ids, event))
    decreases |ids|
  {
    if ids != [] {
      var init, id := ids[..|ids| - 1], ids[|ids| - 1];
      assert Distinct(init);
      LackingDistinct(rows, init, event);
      assert id !in init;
    }
  }

  /**
   * With distinct IDs, an ID that had no record at the event gets exactly one new
   * record: one new row carries it, and no second one does.
   */
  lemma NewRecordsOnce(rows: seq<Row>, employees: seq<Row>, ids: seq<string>, s: Stamp, id: string)
    requires Distinct(ids) && NewRecords(rows, employees, ids, s).Ok?
    requires id in ids && !HasRecord(rows, id, s.event)
    ensures var recs := NewRecords(rows, employees, ids, s).value;
      && (exists k :: 0 <= k < |recs| && IsRecordOf(recs[k], id, s.event))
      && forall k1, k2 ::
           (0 <= k1 < |recs| && 0 <= k2 < |recs| && Cell(recs[k1], StandardId) == id && Cell(recs[k2], StandardId) == id) ==> k1 == k2
  {
    var recs := NewRecords(rows, employees, ids, s).value;
    NewRecordsAre(rows, employees, ids, s);
    LackingDistinct(rows, ids, s.event);
    var lacking := Lacking(rows, ids, s.event);
    assert id in lacking;
    var j :| 0 <= j < |lacking| && lacking[j] == id;
    assert IsRecordOf(recs[j], id, s.event);
  }

  /**
   * The participants table after the update: the old rows, restamped where they are
   * records of the IDs at this event, then the new records (app.py:242-247).
   */
  function EditParticipants(participants: Frame, employees: seq<Row>, ids: seq<string>, s: Stamp): (r: Result<Frame, Failure>)
    ensures r.Ok? <==> AllKnown(employees, ids)
    ensures r.Err? ==> r.error.NoEmployeeRow?
    ensures r.Ok? ==> r.value.columns == participants.columns
  {
    match NewRecords(participants.rows, employees, ids, s)
    case Err(e) => Err(e)
    case Ok(recs) => Ok(Frame(participants.columns, Restamp(participants.rows, ids, s) + recs))
  }

  /**
   * After the update every listed employee has a record of the event, and every
   * record of the employee at the event carries the update's status and time.
   */
  lemma EveryIdRecorded(participants: Frame, employees: seq<Row>, ids: seq<string>, s: Stamp, id: string)
    requires EditParticipants(participants, employees, ids, s).Ok? && id in ids
    ensures var rows := EditParticipants(participants, employees, ids, s).value.rows;
      exists k :: 0 <= k < |rows| && IsRecordOf(rows[k], id, s.event)
        && Cell(rows[k], StatusColumn) == s.status && Cell(rows[k], UpdatedColumn) == s.time
    ensures var rows := EditParticipants(participants, employees, ids, s).value.rows;
      forall k :: 0 <= k < |rows| && IsRecordOf(rows[k], id, s.event) ==>
        Cell(rows[k], StatusColumn) == s.status && Cell(rows[k], UpdatedColumn) == s.time
  {
    SomeRecordStamped(participants, employees, ids, s, id);
    EditParticipantsStamped(participants, employees, ids, s);
    var rows := EditParticipants(participants, employees, ids, s).value.rows;
    forall k | 0 <= k < |rows| && IsRecordOf(rows[k], id, s.event)
      ensures Cell(rows[k], StatusColumn) == s.status && Cell(rows[k], UpdatedColumn) == s.time
    {
      assert Listed(rows[k], ids, s.event);
    }
  }

  lemma SomeRecordStamped(participants: Frame, employees: seq<Row>, ids: seq<string>, s: Stamp, id: string)
    requires EditParticipants(participants, employees, ids, s).Ok? && id in ids
    ensures var rows := EditParticipants(participants, employees, ids, s).value.rows;
      exists k :: 0 <= k < |rows| && IsRecordOf(rows[k], id, s.event)
        && Cell(rows[k], StatusColumn) == s.status && Cell(rows[k], UpdatedColumn) == s.time
  {
    var old_rows := participants.rows;
    var recs := NewRecords(old_rows, employees, ids, s).value;
    var restamped := Restamp(old_rows, ids, s);
    var rows := restamped + recs;
    assert EditParticipants(participants, employees, ids, s).value.rows == rows;
    NewRecordsAre(old_rows, employees, ids, s);
    if HasRecord(old_rows, id, s.event) {
      var k :| 0 <= k < |old_rows| && IsRecordOf(old_rows[k], id, s.event);
      assert IsRecordOf(rows[k], id, s.event);
      assert Cell(rows[k], StatusColumn) == s.status && Cell(rows[k], UpdatedColumn) == s.time;
    } else {
      var lacking := Lacking(old_rows, ids, s.event);
      assert id in lacking;
      var j :| 0 <= j < |lacking| && lacking[j] == id;
      var k := |restamped| + j;
      assert IsRecordOf(rows[k], id, s.event);
      assert Cell(rows[k], StatusColumn) == s.status && Cell(rows[k], UpdatedColumn) == s.time;
    }
  }

  /**
   * After the update every record of a listed employee at the event carries the
   * update's status and time: the restamped old ones and the new ones alike.
   */
  lemma EditParticipantsStamped(participants: Frame, employees: seq<Row>, ids: seq<string>, s: Stamp)
    requires EditParticipants(participants, employees, ids, s).Ok?
    ensures AllStamped(EditParticipants(participants, employees, ids, s).value.rows, ids, s)
  {
    var old_rows := participants.rows;
    var recs := NewRecords(old_rows, employees, ids, s).value;
    var restamped := Restamp(old_rows, ids, s);
    var rows := restamped + recs;
    assert EditParticipants(participants, employees, ids, s).value.rows == rows;
    NewRecordsAre(old_rows, employees, ids, s);
    var lacking := Lacking(old_rows, ids, s.event);
    forall k | 0 <= k < |rows| && Listed(rows[k], ids, s.event) ensures Stamped(rows[k], s) {
      if k < |restamped| {
        assert rows[k] == restamped[k];
      } else {
        var j := k - |restamped|;
        assert rows[k] == recs[j];
        assert recs[j] == NewRecord(lacking[j], EmailFor(employees, lacking[j]), s);
      }
    }
  }

  /**
   * The old rows are still there, in place: a row that is not a record of a listed
   * ID at this event is untouched, and a restamped one differs only in Status and
   * Last Updated. Each ID lacking a record gets exactly one new record per listing.
   */
  lemma OldRowsKept(participants: Frame, employees: seq<Row>, ids: seq<string>, s: Stamp)
    requires EditParticipants(participants, employees, ids, s).Ok?
    ensures var rows := EditParticipants(participants, employees, ids, s).value.rows;
      && |rows| == |participants.rows| + |Lacking(participants.rows, ids, s.event)|
      && forall k :: 0 <= k < |participants.rows| ==>
           (forall c :: c != StatusColumn && c != UpdatedColumn ==> Cell(rows[k], c) == Cell(participants.rows[k], c))
           && (rows[k] != participants.rows[k] ==>
                 Cell(participants.rows[k], StandardId) in ids && Cell(participants.rows[k], EventIdColumn) == s.event)
  {
    NewRecordsAre(participants.rows, employees, ids, s);
  }

  lemma NewRecordsNone(rows: seq<Row>, employees: seq<Row>, ids: seq<string>, s: Stamp)
    requires AllKnown(employees, ids)
    requires forall k :: 0 <= k < |ids| ==> HasRecord(rows, ids[k], s.event)
    ensures NewRecords(rows, employees, ids, s) == Ok([])
  {
    NewRecordsAre(rows, employees, ids, s);
    var lacking := Lacking(rows, ids, s.event);
    assert forall x :: x !in lacking;
  }

  /** Restamped rows, and new records, stay records of the same ID and event. */
  lemma RecordsStay(participants: Frame, employees: seq<Row>, ids: seq<string>, s: Stamp, id: string)
    requires EditParticipants(participants, employees, ids, s).Ok? && id in ids
    ensures HasRecord(EditParticipants(participants, employees, ids, s).value.rows, id, s.event)
  {
    EveryIdRecorded(participants, employees, ids, s, id);
  }

  /**
   * A second run with the same IDs and flags at time `time` finds a record for every
   * ID and adds none. It sets Last Updated to `time` on every record of the IDs at the
   * event and changes nothing else, so only a run at the same time leaves the table as
   * it is.
   */
  lemma EditParticipantsIdempotent(participants: Frame, employees: seq<Row>, ids: seq<string>, s: Stamp, time: string)
    requires EditParticipants(participants, employees, ids, s).Ok?
    ensures var p := EditParticipants(participants, employees, ids, s).value;
      EditParticipants(p, employees, ids, s.(time := time)) == Ok(Frame(p.columns, Retime(p.rows, ids, s.event, time)))
    ensures var p := EditParticipants(participants, employees, ids, s).value;
      time == s.time ==> EditParticipants(p, employees, ids, s) == Ok(p)
  {
    var p := EditParticipants(participants, employees, ids, s).value;
    var s2 := s.(time := time);
    forall k | 0 <= k < |ids| ensures HasRecord(p.rows, ids[k], s2.event) {
      RecordsStay(participants, employees, ids, s, ids[k]);
    }
    NewRecordsNone(p.rows, employees, ids, s2);
    EditParticipantsStamped(participants, employees, ids, s);
    RestampStamped(p.rows, ids, s, time);
    assert Restamp(p.rows, ids, s2) + [] == Restamp(p.rows, ids, s2);
    RetimeSame(p.rows, ids, s);
  }

  /** On stamped records, restamping with another time only sets Last Updated. */
  lemma RestampStamped(rows: seq<Row>, ids: seq<string>, s: Stamp, time: string)
    requires AllStamped(rows, ids, s)
    ensures Restamp(rows, ids, s.(time := time)) == Retime(rows, ids, s.event, time)
  {
    var s2 := s.(time := time);
    forall k | 0 <= k < |rows| ensures Restamp(rows, ids, s2)[k] == Retime(rows, ids, s.event, time)[k] {
      if Listed(rows[k], ids, s.event) {
        assert rows[k][StatusColumn := s.status] == rows[k];
      }
    }
  }

  /** Setting the time stamped records already carry changes nothing. */
  lemma RetimeSame(rows: seq<Row>, ids: seq<string>, s: Stamp)
    requires AllStamped(rows, ids, s)
    ensures Retime(rows, ids, s.event, s.time) == rows
  {
    forall k | 0 <= k < |rows| ensures Retime(rows, ids, s.event, s.time)[k] == rows[k] {
      if Listed(rows[k], ids, s.event) {
        assert rows[k][UpdatedColumn := s.time] == rows[k];
      }
    }
  }

  /**
   * So a second run at another time rewrites the table: the records of the IDs carry
   * the new time.
   */
  lemma RerunRestamps(participants: Frame, employees: seq<Row>, ids: seq<string>, s: Stamp, time: string)
    requires EditParticipants(participants, employees, ids, s).Ok?
    requires ids != [] && time != s.time
    ensures var p := EditParticipants(participants, employees, ids, s).value;
      EditParticipants(p, employees, ids, s.(time := time)) != Ok(p)
  {
    var p := EditParticipants(participants, employees, ids, s).value;
    EditParticipantsIdempotent(participants, employees, ids, s, time);
    EveryIdRecorded(participants, employees, ids, s, ids[0]);
    var k :| 0 <= k < |p.rows| && IsRecordOf(p.rows[k], ids[0], s.event) && Cell(p.rows[k], UpdatedColumn) == s.time;
    var q := Retime(p.rows, ids, s.event, time);
    assert Listed(p.rows[k], ids, s.event);
    assert Cell(q[k], UpdatedColumn) == time;
  }

  /** The update keeps the participants table in the shape a load gives it. */
  lemma EditParticipantsShape(participants: Frame, employees: seq<Row>, ids: seq<string>, s: Stamp)
    requires LoadedShape(Participants, participants)
    requires EditParticipants(participants, employees, ids, s).Ok?
    ensures LoadedShape(Participants, EditParticipants(participants, employees, ids, s).value)
  {
    var old_rows := participants.rows;
    var recs := NewRecords(old_rows, employees, ids, s).value;
    var p := EditParticipants(participants, employees, ids, s).value;
    NewRecordsAre(old_rows, employees, ids, s);
    forall k | 0 <= k < |p.rows| ensures p.rows[k].Keys == Elems(p.columns) {
      if k < |old_rows| {
        assert old_rows[k].Keys == Elems(participants.columns);
      } else {
        assert p.rows[k] == recs[k - |old_rows|];
      }
    }
  }
}
