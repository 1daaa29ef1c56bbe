/**
 * The tables as the store holds them (app.py:20-46, 71-150): each logical table is a
 * frame of named columns and string-valued rows; loading a file fixes up its columns
 * and saving undoes the one rename loading applies.
 */
module Tables {
  import opened Wrappers
  import opened Sequences

  datatype TableKey = Employees | Workshops | Cohorts | Events | Participants

  /**
   * The exceptions the core raises, as values: a KeyError for a missing column, the
   * IndexError of `.iloc[0]` on an ID with no employee row, an email held by several
   * employee rows (a Series where one ID is expected), and int() of a non-number.
   */
  datatype Failure =
    | MissingColumn(column: string)
    | NoEmployeeRow(id: string)
    | AmbiguousEmail(email: string)
    | NotANumber(text: string)

  const StandardId: string := "Standard ID"
  const Email: string := "Email"
  /** The employees file's own name for the Email column (app.py:16). */
  const WorkEmail: string := "Work Email Address"

  /** The canonical columns of each table, in order (app.py:21-46). */
  function Canonical(key: TableKey): (cols: seq<string>)
    ensures Distinct(cols) && |cols| >= 2
    ensures WorkEmail !in cols
  {
    match key
    case Employees => [StandardId, Email]
    case Workshops => ["Workshop #", "Series", "Skill", "Goal", "Instances", "Registered", "Participated"]
    case Cohorts => ["Name", "Date Started", "Nominated", "Participants"]
    case Events => ["Event ID", "Name", "Date", "Category", "Workshop", "Registrations", "Participants"]
    case Participants => [StandardId, Email, "Event ID", "Event Name", "Event Date", "Status", "Last Updated"]
  }

  type Row = map<string, string>

  /** The text of a row's cell; "" for a column the row lacks. */
  function Cell(r: Row, column: string): string {
    if column in r then r[column] else ""
  }

  datatype Frame = Frame(columns: seq<string>, rows: seq<Row>)

  /** No column name repeats and every row holds exactly the frame's columns. */
  predicate WellFormed(f: Frame) {
    Distinct(f.columns) && forall i :: 0 <= i < |f.rows| ==> f.rows[i].Keys == Elems(f.columns)
  }

  /** `df[column] = ""` for a column the frame lacks: a new last column of empty cells. */
  function AddColumn(f: Frame, column: string): (g: Frame)
    requires column !in f.columns
    ensures g.columns == f.columns + [column] && |g.rows| == |f.rows|
    ensures forall i, c :: 0 <= i < |g.rows| ==> Cell(g.rows[i], c) == if c == column then "" else Cell(f.rows[i], c)
  {
    Frame(f.columns + [column], seq(|f.rows|, i requires 0 <= i < |f.rows| => f.rows[i][column := ""]))
  }

  /** The column list with `from` renamed to `to`; a column already called `to` gives way. */
  function RenameIn(cols: seq<string>, from: string, to: string): (r: seq<string>)
    requires from != to
    ensures from !in r
    ensures forall c :: c in r <==> (c in cols && c != from && c != to) || (c == to && from in cols)
  {
    if cols == [] then []
    else (if cols[0] == to then [] else [if cols[0] == from then to else cols[0]]) + RenameIn(cols[1..], from, to)
  }

  function RenameKey(r: Row, from: string, to: string): Row {
    if from in r then (r - {from})[to := r[from]] else r
  }

  /** `df.rename(columns={from: to})`: nothing happens when the frame has no column `from`. */
  function RenameColumn(f: Frame, from: string, to: string): (g: Frame)
    requires from != to
    ensures |g.rows| == |f.rows|
  {
    if from !in f.columns then f
    else Frame(RenameIn(f.columns, from, to), seq(|f.rows|, i requires 0 <= i < |f.rows| => RenameKey(f.rows[i], from, to)))
  }

  /** `df[cols]`: the frame restricted to the given columns, in their order. */
  function Select(f: Frame, cols: seq<string>): (g: Frame)
    ensures g.columns == cols && |g.rows| == |f.rows|
    ensures forall i :: 0 <= i < |g.rows| ==> g.rows[i].Keys == Elems(cols)
    ensures forall i, c :: 0 <= i < |g.rows| && c in cols ==> c in g.rows[i] && g.rows[i][c] == Cell(f.rows[i], c)
  {
    Frame(cols, seq(|f.rows|, i requires 0 <= i < |f.rows| => map c | c in cols :: Cell(f.rows[i], c)))
  }

  /**
   * The loop of app.py:100-102: append each column not listed yet, in order.
   */
  function AppendNew(acc: seq<string>, cols: seq<string>): (r: seq<string>)
    ensures acc <= r
    ensures forall c :: c in r <==> c in acc || c in cols
    ensures Distinct(acc) ==> Distinct(r)
    decreases |cols|
  {
    if cols == [] then acc
    else
      var a := AppendNew(acc, cols[..|cols| - 1]);
      var c := cols[|cols| - 1];
      assert forall x :: x in cols <==> x in cols[..|cols| - 1] || x == c by {
        assert cols == cols[..|cols| - 1] + [c];
      }
      if c in a then a else a + [c]
  }

  /** The loop of app.py:128-130: add each listed column the frame lacks, as empty cells. */
  function AddMissing(f: Frame, cols: seq<string>): (g: Frame)
    ensures f.columns <= g.columns && |g.rows| == |f.rows|
    ensures forall c :: c in g.columns <==> c in f.columns || c in cols
    ensures (forall c :: c in cols ==> c in f.columns) ==> g == f
    decreases |cols|
  {
    if cols == [] then f
    else
      var g := AddMissing(f, cols[..|cols| - 1]);
      var c := cols[|cols| - 1];
      assert forall x :: x in cols <==> x in cols[..|cols| - 1] || x == c by {
        assert cols == cols[..|cols| - 1] + [c];
      }
      if c in g.columns then g else AddColumn(g, c)
  }

  /** Each cell after adding the missing columns: the frame's own, or "" in an added column. */
  lemma {:induction false} AddMissingCell(f: Frame, cols: seq<string>, i: int, c: string)
    requires 0 <= i < |f.rows| && c in AddMissing(f, cols).columns
    ensures Cell(AddMissing(f, cols).rows[i], c) == if c in f.columns then Cell(f.rows[i], c) else ""
    decreases |cols|
  {
    if cols != [] {
      var init, last := cols[..|cols| - 1], cols[|cols| - 1];
      var g := AddMissing(f, init);
      if c in g.columns {
        AddMissingCell(f, init, i, c);
      }
    }
  }

  /** The employees file after the rename of app.py:89-90, before anything is added. */
  function Source(key: TableKey, raw: Frame): Frame {
    if key == Employees then RenameColumn(raw, WorkEmail, Email) else raw
  }

  /** app.py:87-96: rename, then make sure both core employee columns exist. */
  function EmployeeFrame(raw: Frame): (df: Frame)
    ensures StandardId in df.columns && Email in df.columns && WorkEmail !in df.columns
    ensures var src := Source(Employees, raw);
      && |df.rows| == |raw.rows|
      && (forall c :: c in df.columns <==> c in src.columns || c == StandardId || c == Email)
      && (forall i, c :: 0 <= i < |df.rows| && c in df.columns ==>
            Cell(df.rows[i], c) == if c in src.columns then Cell(src.rows[i], c) else "")
  {
    var df := RenameColumn(raw, WorkEmail, Email);
    var df := if StandardId in df.columns then df else AddColumn(df, StandardId);
    if Email in df.columns then df else AddColumn(df, Email)
  }

  /** A file's frame once its columns are named as the store names them. */
  function Prepared(key: TableKey, raw: Frame): Frame {
    if key == Employees then EmployeeFrame(raw) else raw
  }

  /**
   * The columns a loaded table keeps: the canonical ones, and for employees every
   * further column of the file as well (app.py:98-102).
   */
  function Kept(key: TableKey, df: Frame): seq<string> {
    if key == Employees then AppendNew(Canonical(key), df.columns) else Canonical(key)
  }

  /** The table `load_table` returns for a file's contents, or for a missing file (app.py:71-138). */
  function Loaded(key: TableKey, file: Option<Frame>): (r: Frame)
    ensures file.None? ==> r == Frame(Canonical(key), [])
    ensures file.Some? ==> |r.rows| == |file.value.rows|
    ensures Canonical(key) <= r.columns
    ensures key != Employees ==> r.columns == Canonical(key)
  {
    match file
    case None => Frame(Canonical(key), [])
    case Some(raw) =>
      var df := Prepared(key, raw);
      var cols := Kept(key, df);
      Select(AddMissing(df, cols), cols)
  }

  /** What `save_table` writes (app.py:141-150): employees get their file's name for Email back. */
  function Saved(key: TableKey, f: Frame): (r: Frame)
    ensures |r.rows| == |f.rows|
    ensures key != Employees ==> r == f
    ensures key == Employees && Email in f.columns ==> WorkEmail in r.columns && Email !in r.columns
    ensures key == Employees && Email !in f.columns ==> r == f
  {
    if key == Employees && Email in f.columns then RenameColumn(f, Email, WorkEmail) else f
  }

  /** The header-only file `load_table` writes for a missing table (app.py:110-124). */
  function Created(key: TableKey): (r: Frame)
    ensures r.rows == []
    ensures key != Employees ==> r.columns == Canonical(key)
    ensures key == Employees ==> r.columns == [StandardId, WorkEmail]
  {
    assert key == Employees ==> RenameIn([Email], Email, WorkEmail) == [WorkEmail] by {
      assert [Email][1..] == [];
    }
    Saved(key, Frame(Canonical(key), []))
  }

  /** The shape every loaded table has. */
  predicate LoadedShape(key: TableKey, f: Frame) {
    && WellFormed(f)
    && (key != Employees ==> f.columns == Canonical(key))
    && (key == Employees ==> |f.columns| >= 2 && f.columns[..2] == Canonical(Employees) && WorkEmail !in f.columns)
  }

  /** `[c for c in cols if c not in drop]`, kept in order. */
  function Without(cols: seq<string>, drop: set<string>): (r: seq<string>)
    ensures forall c :: c in r <==> c in cols && c !in drop
    decreases |cols|
  {
    if cols == [] then []
    else
      var c := cols[|cols| - 1];
      assert cols == cols[..|cols| - 1] + [c];
      Without(cols[..|cols| - 1], drop) + (if c in drop then [] else [c])
  }

  /** Every loaded table has its canonical columns first, no repeated column, full rows. */
  lemma LoadedInShape(key: TableKey, file: Option<Frame>)
    ensures LoadedShape(key, Loaded(key, file))
  {
    match file
    case None =>
    case Some(raw) =>
      var df := Prepared(key, raw);
      var cols := Kept(key, df);
      var f := Select(AddMissing(df, cols), cols);
      assert Distinct(cols);
      if key == Employees {
        assert Canonical(key) <= cols;
        assert WorkEmail !in df.columns;
      }
  }

  /**
   * Each loaded cell is the file's cell under the same column (after the employees
   * rename), or "" for a column the file does not have; no row is added or lost.
   */
  lemma LoadedCell(key: TableKey, raw: Frame, i: int, c: string)
    requires 0 <= i < |raw.rows| && c in Loaded(key, Some(raw)).columns
    ensures i < |Loaded(key, Some(raw)).rows|
    ensures Loaded(key, Some(raw)).rows[i][c]
      == if c in Source(key, raw).columns then Cell(Source(key, raw).rows[i], c) else ""
  {
    var df := Prepared(key, raw);
    assert |df.rows| == |raw.rows|;
    FilledCell(df, Kept(key, df), i, c);
    if key == Employees {
      var src := Source(key, raw);
      assert c in src.columns ==> c in df.columns;
    }
  }

  /** A cell of `df[cols]` once the missing columns of cols were added to df. */
  lemma FilledCell(df: Frame, cols: seq<string>, i: int, c: string)
    requires 0 <= i < |df.rows| && c in cols
    ensures var f := Select(AddMissing(df, cols), cols);
      i < |f.rows| && f.rows[i][c] == if c in df.columns then Cell(df.rows[i], c) else ""
  {
    var g := AddMissing(df, cols);
    AddMissingCell(df, cols, i, c);
  }

  lemma WithoutSnoc(cols: seq<string>, c: string, drop: set<string>)
    ensures Without(cols + [c], drop) == Without(cols, drop) + (if c in drop then [] else [c])
  {
    assert (cols + [c])[..|cols|] == cols;
  }

  lemma AppendNewSnoc(acc: seq<string>, cols: seq<string>, c: string)
    ensures AppendNew(acc, cols + [c])
      == if c in AppendNew(acc, cols) then AppendNew(acc, cols) else AppendNew(acc, cols) + [c]
  {
    assert (cols + [c])[..|cols|] == cols;
  }

  lemma ExtendCase(acc: seq<string>, d: seq<string>, c: string)
    ensures (if c in acc + d then acc + d else acc + d + [c])
      == acc + (if c in acc || c in d then d else d + [c])
  {
  }

  lemma {:induction false} AppendNewIsDedup(acc: seq<string>, cols: seq<string>)
    ensures AppendNew(acc, cols) == acc + Dedup(Without(cols, Elems(acc)))
    decreases |cols|
  {
    if cols == [] {
      assert acc + [] == acc;
    } else {
      var n := |cols| - 1;
      var p, c := cols[..n], cols[n];
      assert cols == p + [c];
      var w := Without(p, Elems(acc));
      AppendNewIsDedup(acc, p);
      AppendNewSnoc(acc, p, c);
      WithoutSnoc(p, c, Elems(acc));
      DedupSnoc(w, c);
      ExtendCase(acc, Dedup(w), c);
      assert c in Elems(acc) <==> c in acc;
      if c in acc {
        assert w + [] == w;
      }
    }
  }

  /**
   * The employees table's columns: Standard ID, Email, then the file's other columns in
   * file order, each once (app.py:87-102, 138).
   */
  lemma EmployeeColumns(raw: Frame)
    ensures Loaded(Employees, Some(raw)).columns
      == Canonical(Employees) + Dedup(Without(Source(Employees, raw).columns, {StandardId, Email}))
  {
    var core := {StandardId, Email};
    assert Elems(Canonical(Employees)) == core;
    var src := Source(Employees, raw);
    var d1 := if StandardId in src.columns then src else AddColumn(src, StandardId);
    var d2 := if Email in d1.columns then d1 else AddColumn(d1, Email);
    assert d2 == EmployeeFrame(raw);
    assert Without(d1.columns, core) == Without(src.columns, core) by {
      if StandardId !in src.columns { assert (src.columns + [StandardId])[..|src.columns|] == src.columns; }
    }
    assert Without(d2.columns, core) == Without(d1.columns, core) by {
      if Email !in d1.columns { assert (d1.columns + [Email])[..|d1.columns|] == d1.columns; }
    }
    AppendNewIsDedup(Canonical(Employees), d2.columns);
  }

  lemma {:induction false} AppendNewKnown(acc: seq<string>, cols: seq<string>)
    requires forall c :: c in cols ==> c in acc
    ensures AppendNew(acc, cols) == acc
    decreases |cols|
  {
    if cols != [] {
      AppendNewKnown(acc, cols[..|cols| - 1]);
    }
  }

  lemma {:induction false} AppendNewOfExtension(acc: seq<string>, cols: seq<string>)
    requires acc <= cols && Distinct(cols)
    ensures AppendNew(acc, cols) == cols
    decreases |cols|
  {
    if |cols| == |acc| {
      assert acc == cols;
      AppendNewKnown(acc, cols);
    } else {
      var p := cols[..|cols| - 1];
      AppendNewOfExtension(acc, p);
      assert cols == p + [cols[|cols| - 1]];
    }
  }

  lemma SelectAll(f: Frame)
    requires WellFormed(f)
    ensures Select(f, f.columns) == f
  {
    var g := Select(f, f.columns);
    forall i | 0 <= i < |f.rows| ensures g.rows[i] == f.rows[i] {
      assert g.rows[i].Keys == f.rows[i].Keys;
    }
  }

  lemma {:induction false} RenameInBack(cols: seq<string>, a: string, b: string)
    requires a != b && b !in cols
    ensures RenameIn(RenameIn(cols, a, b), b, a) == cols
  {
    if cols != [] {
      RenameInBack(cols[1..], a, b);
      var once := RenameIn(cols, a, b);
      assert once[1..] == RenameIn(cols[1..], a, b);
      assert cols == [cols[0]] + cols[1..];
    }
  }

  lemma RenameKeyBack(r: Row, a: string, b: string)
    requires a != b && a in r && b !in r
    ensures RenameKey(RenameKey(r, a, b), b, a) == r
  {
    var once := RenameKey(r, a, b);
    assert once == (r - {a})[b := r[a]];
    var twice := (once - {b})[a := r[a]];
    assert RenameKey(once, b, a) == twice;
    assert twice.Keys == r.Keys;
  }

  /** Renaming a column and renaming it back restores the frame. */
  lemma RenameBack(f: Frame, a: string, b: string)
    requires a != b && a in f.columns && b !in f.columns
    requires WellFormed(f)
    ensures RenameColumn(RenameColumn(f, a, b), b, a) == f
  {
    var g := RenameColumn(f, a, b);
    assert b in g.columns;
    RenameInBack(f.columns, a, b);
    var h := RenameColumn(g, b, a);
    assert |h.rows| == |f.rows|;
    forall i | 0 <= i < |f.rows| ensures h.rows[i] == f.rows[i] {
      var r := f.rows[i];
      assert r.Keys == Elems(f.columns);
      RenameKeyBack(r, a, b);
      assert g.rows[i] == RenameKey(r, a, b);
    }
  }

  /**
   * Saving a loaded table and loading it again gives the same table: the Email rename
   * of save_table undoes the one of load_table (app.py:87-90, 147-148).
   */
  lemma SaveLoadRoundTrip(key: TableKey, f: Frame)
    requires LoadedShape(key, f)
    ensures Loaded(key, Some(Saved(key, f))) == f
  {
    if key == Employees {
      assert f.columns == f.columns[..2] + f.columns[2..];
      assert Email in f.columns;
      RenameBack(f, Email, WorkEmail);
      var saved := Saved(key, f);
      assert EmployeeFrame(saved) == f;
      AppendNewOfExtension(Canonical(Employees), f.columns);
    }
    SelectAll(f);
  }

  /** The header-only file written for a missing table loads as the empty table. */
  lemma CreatedLoadsEmpty(key: TableKey)
    ensures Loaded(key, Some(Created(key))) == Loaded(key, None)
  {
    SaveLoadRoundTrip(key, Frame(Canonical(key), []));
  }
}
