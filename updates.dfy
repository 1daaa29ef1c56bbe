/**
 * The two update operations over the stored tables (app.py:176-252, 255-289): mark
 * employees on an event (and record them as its participants) or on a cohort. The
 * store is a map from table to the file's frame; a table without a file is absent.
 */
module Updates {
  import opened Wrappers
  import opened Sequences
  import opened ListCells
  import opened Tables
  import opened Membership
  import opened Records

  type Disk = map<TableKey, Frame>

  const Registrations: string := "Registrations"
  const ParticipantsColumn: string := "Participants"
  const Nominated: string := "Nominated"
  const NameColumn: string := "Name"
  const DateColumn: string := "Date"

  function Stored(disk: Disk, key: TableKey): Option<Frame> {
    if key in disk then Some(disk[key]) else None
  }

  /** What `load_table` returns for the table as stored. */
  function Load(disk: Disk, key: TableKey): (f: Frame)
    ensures LoadedShape(key, f)
    ensures key !in disk ==> f == Frame(Canonical(key), [])
  {
    LoadedInShape(key, Stored(disk, key));
    Loaded(key, Stored(disk, key))
  }

  /** The file `load_table` leaves behind: a header-only file for a missing table. */
  function Touch(disk: Disk, key: TableKey): (d: Disk)
    ensures d.Keys == disk.Keys + {key}
    ensures forall k :: k in disk ==> d[k] == disk[k]
    ensures key !in disk ==> d[key] == Created(key)
  {
    if key in disk then disk else disk[key := Created(key)]
  }

  /** Creating a missing table's file does not change what any load returns. */
  lemma TouchKeepsLoads(disk: Disk, key: TableKey, k: TableKey)
    ensures Load(Touch(disk, key), k) == Load(disk, k)
  {
    if k == key && key !in disk {
      CreatedLoadsEmpty(key);
    }
  }

  /** Saving a table in load shape and loading it again gives it back. */
  lemma LoadAfterSave(disk: Disk, key: TableKey, f: Frame)
    requires LoadedShape(key, f)
    ensures Load(disk[key := Saved(key, f)], key) == f
  {
    SaveLoadRoundTrip(key, f);
  }

  /** The early return of app.py:178-179 and 257-258. */
  predicate NothingToDo(name: string, ids: seq<string>, markFirst: bool, markSecond: bool) {
    name == [] || ids == [] || (!markFirst && !markSecond)
  }

  /** The new disk and the two counts, or the failure that stopped the update. */
  datatype Outcome = Outcome(disk: Disk, result: Result<Counts, Failure>)

  datatype EventEdit = EventEdit(events: Frame, participants: Frame, counts: Counts)

  /**
   * The in-memory part of update_event_participation (app.py:186-247): no edit when no
   * event has the ID, otherwise the edited events and participants tables.
   */
  function EditEvent(events: Frame, employees: Frame, participants: Frame, eventId: string,
                     ids: seq<string>, registered: bool, participated: bool, now: string): (r: Result<Option<EventEdit>, Failure>)
    ensures r == Ok(None) <==> FirstRowWith(events.rows, EventIdColumn, eventId).None?
    ensures r.Err? <==> FirstRowWith(events.rows, EventIdColumn, eventId).Some? && !AllKnown(employees.rows, ids)
    ensures r.Err? ==> r.error.NoEmployeeRow?
    ensures r.Ok? && r.value.Some? ==>
      && r.value.value.events.columns == events.columns && |r.value.value.events.rows| == |events.rows|
      && r.value.value.participants.columns == participants.columns
  {
    match FirstRowWith(events.rows, EventIdColumn, eventId)
    case None => Ok(None)
    case Some(i) =>
      var e := EditRow(events, i, Registrations, ParticipantsColumn, ids, registered, participated);
      var row := events.rows[i];
      var stamp := Stamp(eventId, Cell(row, NameColumn), Cell(row, DateColumn), StatusText(registered, participated), now);
      match EditParticipants(participants, employees.rows, ids, stamp)
      case Err(f) => Err(f)
      case Ok(p) => Ok(Some(EventEdit(e.frame, p, e.counts)))
  }

  /** The three loads of app.py:181-183, with the files they create. */
  function TouchEventTables(disk: Disk): (d: Disk)
    ensures d.Keys == disk.Keys + {Events, Employees, Participants}
  {
    Touch(Touch(Touch(disk, Events), Employees), Participants)
  }

  /**
   * update_event_participation (app.py:176-252): the events and participants tables
   * are written only when the event exists and every ID has an employee row.
   */
  function EventUpdate(disk: Disk, eventId: string, ids: seq<string>, registered: bool,
                       participated: bool, now: string): (o: Outcome)
    ensures NothingToDo(eventId, ids, registered, participated) ==> o == Outcome(disk, Ok(Counts(0, 0)))
    ensures !NothingToDo(eventId, ids, registered, participated) ==>
      o.disk.Keys == disk.Keys + {Events, Employees, Participants}
    ensures o.result.Err? ==> o.result.error.NoEmployeeRow?
  {
    if NothingToDo(eventId, ids, registered, participated) then Outcome(disk, Ok(Counts(0, 0)))
    else
      var touched := TouchEventTables(disk);
      var r := EditEvent(Load(disk, Events), Load(disk, Employees), Load(disk, Participants), eventId, ids, registered, participated, now);
      ApplyKeys(touched, r);
      Apply(touched, r)
  }

  /** Saving an edit into a store that has the events and participants files adds no file. */
  lemma ApplyKeys(touched: Disk, r: Result<Option<EventEdit>, Failure>)
    requires Events in touched && Participants in touched
    ensures Apply(touched, r).disk.Keys == touched.Keys
  {
  }

  /**
   * The end of update_event_participation once the tables are loaded: a failure or a
   * missing event writes nothing, an edit is saved (app.py:187-189, 249-250).
   */
  function Apply(touched: Disk, r: Result<Option<EventEdit>, Failure>): (o: Outcome)
    ensures r.Err? ==> o == Outcome(touched, Err(r.error))
    ensures r == Ok(None) ==> o == Outcome(touched, Ok(Counts(0, 0)))
    ensures r.Ok? && r.value.Some? ==>
      o == Outcome(Commit(touched, r.value.value.events, r.value.value.participants), Ok(r.value.value.counts))
  {
    match r
    case Err(f) => Outcome(touched, Err(f))
    case Ok(None) => Outcome(touched, Ok(Counts(0, 0)))
    case Ok(Some(edit)) => Outcome(Commit(touched, edit.events, edit.participants), Ok(edit.counts))
  }

  /** The two saves of app.py:249-250. */
  function Commit(disk: Disk, events: Frame, participants: Frame): (d: Disk)
    ensures d.Keys == disk.Keys + {Events, Participants}
    ensures forall k :: k in disk && k != Events && k != Participants ==> d[k] == disk[k]
  {
    disk[Events := Saved(Events, events)][Participants := Saved(Participants, participants)]
  }

  /** Saving an edit leaves the loads of every other table alone. */
  lemma CommitElsewhere(disk: Disk, events: Frame, participants: Frame, k: TableKey)
    requires k != Events && k != Participants
    ensures Load(Commit(disk, events, participants), k) == Load(disk, k)
  {
    assert Stored(Commit(disk, events, participants), k) == Stored(disk, k);
  }

  /** The saved edit loads back as it was made. */
  lemma CommitLoads(disk: Disk, events: Frame, participants: Frame)
    requires LoadedShape(Events, events) && LoadedShape(Participants, participants)
    ensures Load(Commit(disk, events, participants), Events) == events
    ensures Load(Commit(disk, events, participants), Participants) == participants
  {
    var d1 := disk[Events := Saved(Events, events)];
    LoadAfterSave(disk, Events, events);
    LoadAfterSave(d1, Participants, participants);
    assert Stored(Commit(disk, events, participants), Events) == Stored(d1, Events);
  }

  /** Saving the same tables twice is saving them once. */
  lemma CommitAgain(disk: Disk, events: Frame, participants: Frame)
    ensures Commit(Commit(disk, events, participants), events, participants) == Commit(disk, events, participants)
  {
  }

  /** Loading tables that all have files creates nothing. */
  lemma TouchPresent(disk: Disk)
    requires Events in disk && Employees in disk && Participants in disk
    ensures TouchEventTables(disk) == disk
  {
  }

  /**
   * A saved edit loads back as it was made, with its counts as the result.
   */
  lemma ApplySaved(touched: Disk, r: Result<Option<EventEdit>, Failure>)
    requires r.Ok? && r.value.Some?
    requires LoadedShape(Events, r.value.value.events) && LoadedShape(Participants, r.value.value.participants)
    ensures Load(Apply(touched, r).disk, Events) == r.value.value.events
    ensures Load(Apply(touched, r).disk, Participants) == r.value.value.participants
    ensures Apply(touched, r).result == Ok(r.value.value.counts)
  {
    CommitLoads(touched, r.value.value.events, r.value.value.participants);
  }

  lemma TouchEventTablesKeepsLoads(disk: Disk, k: TableKey)
    ensures Load(TouchEventTables(disk), k) == Load(disk, k)
  {
    TouchKeepsLoads(disk, Events, k);
    TouchKeepsLoads(Touch(disk, Events), Employees, k);
    TouchKeepsLoads(Touch(Touch(disk, Events), Employees), Participants, k);
  }

  /**
   * An update that fails, finds no event or has nothing to do changes no table as
   * a load sees it; any update leaves every table but events and participants alone.
   */
  lemma EventUpdateWrites(disk: Disk, eventId: string, ids: seq<string>, registered: bool,
                          participated: bool, now: string, k: TableKey)
    ensures var o := EventUpdate(disk, eventId, ids, registered, participated, now);
      && (k != Events && k != Participants ==> Load(o.disk, k) == Load(disk, k))
      && (o.result.Err? || !FoundEvent(disk, eventId) ==> Load(o.disk, k) == Load(disk, k))
  {
    TouchEventTablesKeepsLoads(disk, k);
    if !NothingToDo(eventId, ids, registered, participated) {
      var r := EditEvent(Load(disk, Events), Load(disk, Employees), Load(disk, Participants), eventId, ids, registered, participated, now);
      if r.Ok? && r.value.Some? {
        assert FoundEvent(disk, eventId);
        if k != Events && k != Participants {
          CommitElsewhere(TouchEventTables(disk), r.value.value.events, r.value.value.participants, k);
        }
      }
    }
  }

  predicate FoundEvent(disk: Disk, eventId: string) {
    FirstRowWith(Load(disk, Events).rows, EventIdColumn, eventId).Some?
  }

  /**
   * The edit of one event, seen through the saved and reloaded tables: the event's
   * Registrations and Participants hold the old entries plus the IDs when marked, the
   * counts are how much each grew, and every other row and cell is kept.
   */
  lemma EditEventEffect(events: Frame, employees: Frame, participants: Frame, eventId: string,
                        ids: seq<string>, registered: bool, participated: bool, now: string, i: nat)
    requires ids != [] && PlainIds(ids)
    requires FirstRowWith(events.rows, EventIdColumn, eventId) == Some(i)
    requires EditEvent(events, employees, participants, eventId, ids, registered, participated, now).Ok?
    ensures var r := EditEvent(events, employees, participants, eventId, ids, registered, participated, now).value;
      && r.Some?
      && var edit := r.value;
      && edit.events.columns == events.columns && |edit.events.rows| == |events.rows|
      && (forall j :: 0 <= j < |events.rows| && j != i ==> edit.events.rows[j] == events.rows[j])
      && Marked(events.rows[i], edit.events.rows[i], Registrations, ids, registered, edit.counts.first)
      && Marked(events.rows[i], edit.events.rows[i], ParticipantsColumn, ids, participated, edit.counts.second)
      && (forall c :: c != Registrations && c != ParticipantsColumn ==> Cell(edit.events.rows[i], c) == Cell(events.rows[i], c))
  {
    EditRowEffect(events, i, Registrations, ParticipantsColumn, ids, registered, participated);
  }

  /**
   * After an update whose result is Ok, the saved tables load back as the edit made
   * them, and every listed employee has a participant record of the event with the
   * update's status and time.
   */
  lemma EventUpdateSaved(disk: Disk, eventId: string, ids: seq<string>, registered: bool,
                         participated: bool, now: string, id: string)
    requires !NothingToDo(eventId, ids, registered, participated)
    requires EventUpdate(disk, eventId, ids, registered, participated, now).result.Ok?
    requires FoundEvent(disk, eventId) && id in ids
    ensures var edit := EditEvent(Load(disk, Events), Load(disk, Employees), Load(disk, Participants),
                                  eventId, ids, registered, participated, now).value.value;
      var o := EventUpdate(disk, eventId, ids, registered, participated, now);
      && Load(o.disk, Events) == edit.events
      && Load(o.disk, Participants) == edit.participants
      && o.result == Ok(edit.counts)
      && (exists k :: (0 <= k < |edit.participants.rows| && IsRecordOf(edit.participants.rows[k], id, eventId)
           && Cell(edit.participants.rows[k], StatusColumn) == StatusText(registered, participated)
           && Cell(edit.participants.rows[k], UpdatedColumn) == now))
      && forall k :: 0 <= k < |edit.participants.rows| && IsRecordOf(edit.participants.rows[k], id, eventId) ==>
           Cell(edit.participants.rows[k], StatusColumn) == StatusText(registered, participated)
           && Cell(edit.participants.rows[k], UpdatedColumn) == now
  {
    var events, employees, participants := Load(disk, Events), Load(disk, Employees), Load(disk, Participants);
    var r := EditEvent(events, employees, participants, eventId, ids, registered, participated, now);
    EditedShapes(events, employees, participants, eventId, ids, registered, participated, now);
    ApplySaved(TouchEventTables(disk), r);
    EditEventRecords(events, employees, participants, eventId, ids, registered, participated, now, id);
  }

  /**
   * An edit holds a participant record of the event for each ID, and every record of
   * the ID at the event carries the edit's status and time.
   */
  lemma EditEventRecords(events: Frame, employees: Frame, participants: Frame, eventId: string,
                         ids: seq<string>, registered: bool, participated: bool, now: string, id: string)
    requires EditEvent(events, employees, participants, eventId, ids, registered, participated, now).Ok?
    requires EditEvent(events, employees, participants, eventId, ids, registered, participated, now).value.Some?
    requires id in ids
    ensures var p := EditEvent(events, employees, participants, eventId, ids, registered, participated, now).value.value.participants;
      && (exists k :: (0 <= k < |p.rows| && IsRecordOf(p.rows[k], id, eventId)
           && Cell(p.rows[k], StatusColumn) == StatusText(registered, participated)
           && Cell(p.rows[k], UpdatedColumn) == now))
      && forall k :: 0 <= k < |p.rows| && IsRecordOf(p.rows[k], id, eventId) ==>
           Cell(p.rows[k], StatusColumn) == StatusText(registered, participated)
           && Cell(p.rows[k], UpdatedColumn) == now
  {
    var i := FirstRowWith(events.rows, EventIdColumn, eventId).value;
    var row := events.rows[i];
    var stamp := Stamp(eventId, Cell(row, NameColumn), Cell(row, DateColumn), StatusText(registered, participated), now);
    EveryIdRecorded(participants, employees.rows, ids, stamp, id);
  }

  /** The events table's two list columns are columns of it, apart from its other columns. */
  lemma EventColumns()
    ensures Registrations in Canonical(Events) && ParticipantsColumn in Canonical(Events)
    ensures Registrations != ParticipantsColumn
    ensures EventIdColumn != Registrations && EventIdColumn != ParticipantsColumn
    ensures NameColumn != Registrations && NameColumn != ParticipantsColumn
    ensures DateColumn != Registrations && DateColumn != ParticipantsColumn
  {
    assert Canonical(Events)[5] == Registrations && Canonical(Events)[6] == ParticipantsColumn;
  }

  /** The edited tables keep the shape a load gives them. */
  lemma EditedShapes(events: Frame, employees: Frame, participants: Frame, eventId: string,
                     ids: seq<string>, registered: bool, participated: bool, now: string)
    requires LoadedShape(Events, events) && LoadedShape(Participants, participants)
    requires EditEvent(events, employees, participants, eventId, ids, registered, participated, now).Ok?
    requires EditEvent(events, employees, participants, eventId, ids, registered, participated, now).value.Some?
    ensures var edit := EditEvent(events, employees, participants, eventId, ids, registered, participated, now).value.value;
      LoadedShape(Events, edit.events) && LoadedShape(Participants, edit.participants)
  {
    var i := FirstRowWith(events.rows, EventIdColumn, eventId).value;
    var row := events.rows[i];
    var stamp := Stamp(eventId, Cell(row, NameColumn), Cell(row, DateColumn), StatusText(registered, participated), now);
    EditRowWellFormed(events, i, Registrations, ParticipantsColumn, ids, registered, participated);
    EditParticipantsShape(participants, employees.rows, ids, stamp);
  }

  /**
   * Editing the edited tables again with the same IDs and flags, at time now2, adds no
   * ID and no record: it only sets Last Updated to now2 on the IDs' records at the
   * event, so at the same time it changes nothing.
   */
  lemma EditEventIdempotent(events: Frame, employees: Frame, participants: Frame, eventId: string,
                            ids: seq<string>, registered: bool, participated: bool, now: string, now2: string)
    requires ids != [] && PlainIds(ids)
    requires LoadedShape(Events, events)
    requires EditEvent(events, employees, participants, eventId, ids, registered, participated, now).Ok?
    requires EditEvent(events, employees, participants, eventId, ids, registered, participated, now).value.Some?
    ensures var edit := EditEvent(events, employees, participants, eventId, ids, registered, participated, now).value.value;
      EditEvent(edit.events, employees, edit.participants, eventId, ids, registered, participated, now2)
        == Ok(Some(EventEdit(edit.events, Frame(edit.participants.columns, Retime(edit.participants.rows, ids, eventId, now2)), Counts(0, 0))))
    ensures var edit := EditEvent(events, employees, participants, eventId, ids, registered, participated, now).value.value;
      now2 == now ==>
        EditEvent(edit.events, employees, edit.participants, eventId, ids, registered, participated, now2)
          == Ok(Some(EventEdit(edit.events, edit.participants, Counts(0, 0))))
  {
    var i := FirstRowWith(events.rows, EventIdColumn, eventId).value;
    var row := events.rows[i];
    var stamp := Stamp(eventId, Cell(row, NameColumn), Cell(row, DateColumn), StatusText(registered, participated), now);
    var e := EditRow(events, i, Registrations, ParticipantsColumn, ids, registered, participated);
    var p := EditParticipants(participants, employees.rows, ids, stamp).value;
    assert EditEvent(events, employees, participants, eventId, ids, registered, participated, now)
      == Ok(Some(EventEdit(e.frame, p, e.counts)));
    EventColumns();
    EditRowAgain(events, i, EventIdColumn, eventId, Registrations, ParticipantsColumn, ids, registered, participated);
    EditParticipantsIdempotent(participants, employees.rows, ids, stamp, now2);
    var p2 := Frame(p.columns, Retime(p.rows, ids, eventId, now2));
    EditEventFixed(e.frame, employees, p, eventId, ids, registered, participated, now2, i, stamp.(time := now2), p2);
  }

  /**
   * An edit whose row edit changes nothing and whose participants edit gives p2 leaves
   * the events table as it is and counts nothing.
   */
  lemma EditEventFixed(events: Frame, employees: Frame, participants: Frame, eventId: string,
                       ids: seq<string>, registered: bool, participated: bool, now: string, i: nat, stamp: Stamp, p2: Frame)
    requires FirstRowWith(events.rows, EventIdColumn, eventId) == Some(i)
    requires stamp == Stamp(eventId, Cell(events.rows[i], NameColumn), Cell(events.rows[i], DateColumn),
      StatusText(registered, participated), now)
    requires EditRow(events, i, Registrations, ParticipantsColumn, ids, registered, participated) == RowEdit(events, Counts(0, 0))
    requires EditParticipants(participants, employees.rows, ids, stamp) == Ok(p2)
    ensures EditEvent(events, employees, participants, eventId, ids, registered, participated, now)
      == Ok(Some(EventEdit(events, p2, Counts(0, 0))))
  {
  }

  /**
   * Running the same event update a second time, at time now2, reports nothing added,
   * or the same failure. When the first run saved an edit, the second one only sets
   * Last Updated to now2 on the IDs' participant records of the event; otherwise it
   * leaves the store as it is. At the same time it always leaves the store as it is.
   */
  lemma EventUpdateIdempotent(disk: Disk, eventId: string, ids: seq<string>, registered: bool,
                              participated: bool, now: string, now2: string)
    requires PlainIds(ids)
    ensures var o := EventUpdate(disk, eventId, ids, registered, participated, now);
      var o2 := EventUpdate(o.disk, eventId, ids, registered, participated, now2);
      && (o.result.Ok? ==> o2.result == Ok(Counts(0, 0)))
      && (o.result.Err? ==> o2.result == o.result)
      && (Saving(disk, eventId, ids, registered, participated, now) ==>
            var p := Load(o.disk, Participants);
            o2.disk == o.disk[Participants := Frame(p.columns, Retime(p.rows, ids, eventId, now2))])
      && (!Saving(disk, eventId, ids, registered, participated, now) ==> o2.disk == o.disk)
      && (now2 == now ==> o2.disk == o.disk)
  {
    if !NothingToDo(eventId, ids, registered, participated) {
      var r := EditEvent(Load(disk, Events), Load(disk, Employees), Load(disk, Participants),
                         eventId, ids, registered, participated, now);
      if r.Ok? && r.value.Some? {
        EventRerunSaved(disk, eventId, ids, registered, participated, now, now2);
      } else {
        EventRerunUnsaved(disk, eventId, ids, registered, participated, now, now2);
      }
    }
  }

  /** The second run after a run that saved an edit. */
  lemma EventRerunSaved(disk: Disk, eventId: string, ids: seq<string>, registered: bool,
                        participated: bool, now: string, now2: string)
    requires PlainIds(ids) && !NothingToDo(eventId, ids, registered, participated)
    requires var r := EditEvent(Load(disk, Events), Load(disk, Employees), Load(disk, Participants),
                                eventId, ids, registered, participated, now);
      r.Ok? && r.value.Some?
    ensures var o := EventUpdate(disk, eventId, ids, registered, participated, now);
      var o2 := EventUpdate(o.disk, eventId, ids, registered, participated, now2);
      var p := Load(o.disk, Participants);
      && o2.result == Ok(Counts(0, 0))
      && o2.disk == o.disk[Participants := Frame(p.columns, Retime(p.rows, ids, eventId, now2))]
      && (now2 == now ==> o2.disk == o.disk)
  {
    var events, employees, participants := Load(disk, Events), Load(disk, Employees), Load(disk, Participants);
    var edit := EditEvent(events, employees, participants, eventId, ids, registered, participated, now).value.value;
    var touched := TouchEventTables(disk);
    FirstRunSaved(disk, eventId, ids, registered, participated, now);
    TouchEventTablesKeepsLoads(disk, Employees);
    EditedShapes(events, employees, participants, eventId, ids, registered, participated, now);
    EditEventIdempotent(events, employees, participants, eventId, ids, registered, participated, now, now2);
    var p2 := Frame(edit.participants.columns, Retime(edit.participants.rows, ids, eventId, now2));
    SecondEventRun(touched, employees, edit.events, edit.participants, eventId, ids, registered, participated, now2, p2);
    CommitLoads(touched, edit.events, edit.participants);
    if now2 == now {
      CommitAgain(touched, edit.events, edit.participants);
    }
  }

  /** A run whose edit succeeds saves the edited tables into the store with every table's file. */
  lemma FirstRunSaved(disk: Disk, eventId: string, ids: seq<string>, registered: bool, participated: bool, now: string)
    requires !NothingToDo(eventId, ids, registered, participated)
    requires var r := EditEvent(Load(disk, Events), Load(disk, Employees), Load(disk, Participants),
                                eventId, ids, registered, participated, now);
      r.Ok? && r.value.Some?
    ensures var edit := EditEvent(Load(disk, Events), Load(disk, Employees), Load(disk, Participants),
                                  eventId, ids, registered, participated, now).value.value;
      var o := EventUpdate(disk, eventId, ids, registered, participated, now);
      o.disk == Commit(TouchEventTables(disk), edit.events, edit.participants) && o.result == Ok(edit.counts)
  {
  }

  /** The second run after a run that failed or found no event. */
  lemma EventRerunUnsaved(disk: Disk, eventId: string, ids: seq<string>, registered: bool,
                          participated: bool, now: string, now2: string)
    requires !NothingToDo(eventId, ids, registered, participated)
    requires var r := EditEvent(Load(disk, Events), Load(disk, Employees), Load(disk, Participants),
                                eventId, ids, registered, participated, now);
      !(r.Ok? && r.value.Some?)
    ensures var o := EventUpdate(disk, eventId, ids, registered, participated, now);
      EventUpdate(o.disk, eventId, ids, registered, participated, now2) == o
  {
    var events, employees, participants := Load(disk, Events), Load(disk, Employees), Load(disk, Participants);
    var r := EditEvent(events, employees, participants, eventId, ids, registered, participated, now);
    var touched := TouchEventTables(disk);
    TouchEventTablesKeepsLoads(disk, Events);
    TouchEventTablesKeepsLoads(disk, Employees);
    TouchEventTablesKeepsLoads(disk, Participants);
    TouchPresent(touched);
    if r.Err? {
      var i := FirstRowWith(events.rows, EventIdColumn, eventId).value;
      var row := events.rows[i];
      var stamp := Stamp(eventId, Cell(row, NameColumn), Cell(row, DateColumn), StatusText(registered, participated), now);
      NewRecordsErrorStampFree(participants.rows, employees.rows, ids, stamp, stamp.(time := now2));
    }
  }

  /** The first run of an update saves an edit: there is something to do, the event exists and every ID is known. */
  predicate Saving(disk: Disk, eventId: string, ids: seq<string>, registered: bool, participated: bool, now: string) {
    !NothingToDo(eventId, ids, registered, participated) && FoundEvent(disk, eventId)
    && EventUpdate(disk, eventId, ids, registered, participated, now).result.Ok?
  }

  /**
   * A store holding an edit's saved tables, edited again into the same events table
   * and participants p2, ends up with p2 saved and nothing added.
   */
  lemma SecondEventRun(touched: Disk, employees: Frame, events: Frame, participants: Frame, eventId: string,
                       ids: seq<string>, registered: bool, participated: bool, now: string, p2: Frame)
    requires !NothingToDo(eventId, ids, registered, participated)
    requires Events in touched && Employees in touched && Participants in touched
    requires Load(touched, Employees) == employees
    requires LoadedShape(Events, events) && LoadedShape(Participants, participants)
    requires EditEvent(events, employees, participants, eventId, ids, registered, participated, now)
      == Ok(Some(EventEdit(events, p2, Counts(0, 0))))
    ensures var d := Commit(touched, events, participants);
      EventUpdate(d, eventId, ids, registered, participated, now) == Outcome(d[Participants := p2], Ok(Counts(0, 0)))
  {
    var d := Commit(touched, events, participants);
    CommitLoads(touched, events, participants);
    CommitElsewhere(touched, events, participants, Employees);
    TouchPresent(d);
    CommitOver(d, events, p2);
  }

  /** Saving an events table the store already holds only writes the participants. */
  lemma CommitOver(d: Disk, events: Frame, participants: Frame)
    requires Events in d && d[Events] == Saved(Events, events)
    ensures Commit(d, events, participants) == d[Participants := participants]
  {
    assert d[Events := Saved(Events, events)] == d;
  }

  /**
   * The in-memory part of update_cohort_membership (app.py:263-285): no edit when no
   * cohort has the name, otherwise the cohort row edited.
   */
  function EditCohort(cohorts: Frame, name: string, ids: seq<string>, nominated: bool, participant: bool): (r: Option<RowEdit>)
    ensures r.None? <==> FirstRowWith(cohorts.rows, NameColumn, name).None?
    ensures r.Some? ==> r.value.frame.columns == cohorts.columns && |r.value.frame.rows| == |cohorts.rows|
  {
    match FirstRowWith(cohorts.rows, NameColumn, name)
    case None => None
    case Some(i) => Some(EditRow(cohorts, i, Nominated, ParticipantsColumn, ids, nominated, participant))
  }

  /** update_cohort_membership (app.py:255-289): only the cohorts table is written. */
  function CohortUpdate(disk: Disk, name: string, ids: seq<string>, nominated: bool, participant: bool): (o: Outcome)
    ensures NothingToDo(name, ids, nominated, participant) ==> o == Outcome(disk, Ok(Counts(0, 0)))
    ensures !NothingToDo(name, ids, nominated, participant) ==> o.disk.Keys == disk.Keys + {Cohorts}
    ensures o.result.Ok?
  {
    if NothingToDo(name, ids, nominated, participant) then Outcome(disk, Ok(Counts(0, 0)))
    else
      var touched := Touch(disk, Cohorts);
      match EditCohort(Load(disk, Cohorts), name, ids, nominated, participant)
      case None => Outcome(touched, Ok(Counts(0, 0)))
      case Some(e) =>
        RewriteKeys(touched, Cohorts, Saved(Cohorts, e.frame));
        Outcome(touched[Cohorts := Saved(Cohorts, e.frame)], Ok(e.counts))
  }

  /** Writing a table that has a file adds no table. */
  lemma RewriteKeys(d: Disk, key: TableKey, f: Frame)
    requires key in d
    ensures d[key := f].Keys == d.Keys
  {
  }

  /**
   * After a cohort update the reloaded cohort row holds the old entries plus the IDs
   * in each marked column, the counts are the growth, and the rest is kept.
   */
  lemma CohortUpdateEffect(disk: Disk, name: string, ids: seq<string>, nominated: bool, participant: bool, i: nat)
    requires !NothingToDo(name, ids, nominated, participant) && PlainIds(ids)
    requires FirstRowWith(Load(disk, Cohorts).rows, NameColumn, name) == Some(i)
    ensures var before := Load(disk, Cohorts);
      var o := CohortUpdate(disk, name, ids, nominated, participant);
      var after := Load(o.disk, Cohorts);
      && after.columns == before.columns && |after.rows| == |before.rows|
      && (forall j :: 0 <= j < |before.rows| && j != i ==> after.rows[j] == before.rows[j])
      && Marked(before.rows[i], after.rows[i], Nominated, ids, nominated, o.result.value.first)
      && Marked(before.rows[i], after.rows[i], ParticipantsColumn, ids, participant, o.result.value.second)
      && (forall c :: c != Nominated && c != ParticipantsColumn ==> Cell(after.rows[i], c) == Cell(before.rows[i], c))
  {
    var cohorts := Load(disk, Cohorts);
    CohortSaved(disk, name, ids, nominated, participant, i);
    EditRowEffect(cohorts, i, Nominated, ParticipantsColumn, ids, nominated, participant);
  }

  /** The cohort update saves the edited cohorts table and reports the edit's counts. */
  lemma CohortSaved(disk: Disk, name: string, ids: seq<string>, nominated: bool, participant: bool, i: nat)
    requires !NothingToDo(name, ids, nominated, participant)
    requires FirstRowWith(Load(disk, Cohorts).rows, NameColumn, name) == Some(i)
    ensures var e := EditRow(Load(disk, Cohorts), i, Nominated, ParticipantsColumn, ids, nominated, participant);
      var o := CohortUpdate(disk, name, ids, nominated, participant);
      Load(o.disk, Cohorts) == e.frame && o.result == Ok(e.counts)
  {
    var cohorts := Load(disk, Cohorts);
    var e := EditRow(cohorts, i, Nominated, ParticipantsColumn, ids, nominated, participant);
    assert EditCohort(cohorts, name, ids, nominated, participant) == Some(e);
    EditRowWellFormed(cohorts, i, Nominated, ParticipantsColumn, ids, nominated, participant);
    LoadAfterSave(Touch(disk, Cohorts), Cohorts, e.frame);
  }

  /**
   * A cohort update changes no table but the cohorts table as a load sees it, and
   * that one only when a cohort has the name.
   */
  lemma CohortUpdateWrites(disk: Disk, name: string, ids: seq<string>, nominated: bool, participant: bool, k: TableKey)
    ensures var o := CohortUpdate(disk, name, ids, nominated, participant);
      && (k != Cohorts ==> Load(o.disk, k) == Load(disk, k))
      && (FirstRowWith(Load(disk, Cohorts).rows, NameColumn, name).None? ==> Load(o.disk, k) == Load(disk, k))
  {
    TouchKeepsLoads(disk, Cohorts, k);
    if !NothingToDo(name, ids, nominated, participant) {
      match EditCohort(Load(disk, Cohorts), name, ids, nominated, participant)
      case None =>
      case Some(e) =>
        if k != Cohorts {
          OtherTableKept(Touch(disk, Cohorts), Cohorts, Saved(Cohorts, e.frame), k);
        }
    }
  }

  /** Writing one table's file does not change what loading another table returns. */
  lemma OtherTableKept(disk: Disk, key: TableKey, f: Frame, k: TableKey)
    requires k != key
    ensures Load(disk[key := f], k) == Load(disk, k)
  {
    assert Stored(disk[key := f], k) == Stored(disk, k);
  }

  /** Running the same cohort update twice is the same as running it once. */
  lemma CohortUpdateIdempotent(disk: Disk, name: string, ids: seq<string>, nominated: bool, participant: bool)
    requires PlainIds(ids)
    ensures var o := CohortUpdate(disk, name, ids, nominated, participant);
      CohortUpdate(o.disk, name, ids, nominated, participant) == Outcome(o.disk, Ok(Counts(0, 0)))
  {
    if !NothingToDo(name, ids, nominated, participant) {
      var cohorts := Load(disk, Cohorts);
      var touched := Touch(disk, Cohorts);
      TouchKeepsLoads(disk, Cohorts, Cohorts);
      var r := EditCohort(cohorts, name, ids, nominated, participant);
      if r.Some? {
        var e := r.value;
        EditCohortIdempotent(cohorts, name, ids, nominated, participant);
        var d := touched[Cohorts := Saved(Cohorts, e.frame)];
        LoadAfterSave(touched, Cohorts, e.frame);
        CohortRerun(d, name, ids, nominated, participant);
      } else {
        CohortRerun(touched, name, ids, nominated, participant);
      }
    }
  }

  /** A cohort update that finds nothing to add writes back the file as it is. */
  lemma CohortRerun(d: Disk, name: string, ids: seq<string>, nominated: bool, participant: bool)
    requires !NothingToDo(name, ids, nominated, participant) && Cohorts in d
    requires var r := EditCohort(Load(d, Cohorts), name, ids, nominated, participant);
      r.None? || (r.value.counts == Counts(0, 0) && d[Cohorts] == Saved(Cohorts, r.value.frame))
    ensures CohortUpdate(d, name, ids, nominated, participant) == Outcome(d, Ok(Counts(0, 0)))
  {
    assert Touch(d, Cohorts) == d;
    var r := EditCohort(Load(d, Cohorts), name, ids, nominated, participant);
    if r.Some? {
      RewriteSame(d, Cohorts, Saved(Cohorts, r.value.frame));
    }
  }

  /** Writing a file with the contents it already has leaves the store as it is. */
  lemma RewriteSame(d: Disk, key: TableKey, f: Frame)
    requires key in d && d[key] == f
    ensures d[key := f] == d
  {
  }

  /** Editing the edited cohorts table again with the same arguments changes nothing. */
  lemma EditCohortIdempotent(cohorts: Frame, name: string, ids: seq<string>, nominated: bool, participant: bool)
    requires ids != [] && PlainIds(ids)
    requires LoadedShape(Cohorts, cohorts)
    requires EditCohort(cohorts, name, ids, nominated, participant).Some?
    ensures var e := EditCohort(cohorts, name, ids, nominated, participant).value;
      && LoadedShape(Cohorts, e.frame)
      && EditCohort(e.frame, name, ids, nominated, participant) == Some(RowEdit(e.frame, Counts(0, 0)))
  {
    var i := FirstRowWith(cohorts.rows, NameColumn, name).value;
    EditRowWellFormed(cohorts, i, Nominated, ParticipantsColumn, ids, nominated, participant);
    EditRowAgain(cohorts, i, NameColumn, name, Nominated, ParticipantsColumn, ids, nominated, participant);
  }
}
