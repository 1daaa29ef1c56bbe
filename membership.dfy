/**
 * Marking IDs on one row of a table (app.py:176-252, 255-289): find the row whose key
 * column holds a value, then add the IDs to one or both of its list-valued columns.
 */
module Membership {
  import opened Wrappers
  import opened Sequences
  import opened Ordering
  import opened ListCells
  import opened Tables

  /** How many IDs each of the two list columns gained. */
  datatype Counts = Counts(first: nat, second: nat)

  /**
   * The first row whose cell under column equals value: `df.index[df[column] == value]`
   * followed by `[0]`, or none at all.
   */
  function FirstRowWith(rows: seq<Row>, column: string, value: string): (r: Option<nat>)
    ensures r.Some? ==> r.value < |rows| && Cell(rows[r.value], column) == value
    ensures r.Some? ==> forall j :: 0 <= j < r.value ==> Cell(rows[j], column) != value
    ensures r.None? <==> forall j :: 0 <= j < |rows| ==> Cell(rows[j], column) != value
  {
    if rows == [] then None
    else if Cell(rows[0], column) == value then Some(0)
    else
      match FirstRowWith(rows[1..], column, value)
      case None => None
      case Some(k) => Some(k + 1)
  }

  /** One flag of the update: merge the IDs into the row's list column, or leave it. */
  function Mark(row: Row, column: string, ids: seq<string>, flag: bool): (r: (Row, nat))
    ensures !flag ==> r == (row, 0)
    ensures forall c :: c != column ==> Cell(r.0, c) == Cell(row, c)
    ensures flag ==> column in r.0 && ListCellOf(r.0[column], Entries(Cell(row, column)) + Elems(ids))
    ensures flag ==> r.1 == |Elems(ids) - Entries(Cell(row, column))|
  {
    if !flag then (row, 0)
    else
      var m := MergeList(Cell(row, column), ids);
      (row[column := m.cell], m.added)
  }

  datatype RowEdit = RowEdit(frame: Frame, counts: Counts)

  /**
   * Row i with the IDs merged into column `first` when markFirst holds and into
   * column `second` when markSecond holds, and how much each list grew.
   */
  function EditRow(f: Frame, i: nat, first: string, second: string, ids: seq<string>,
                   markFirst: bool, markSecond: bool): (e: RowEdit)
    requires i < |f.rows|
    ensures e.frame.columns == f.columns && |e.frame.rows| == |f.rows|
    ensures forall j :: 0 <= j < |f.rows| && j != i ==> e.frame.rows[j] == f.rows[j]
  {
    var (row1, a) := Mark(f.rows[i], first, ids, markFirst);
    var (row2, b) := Mark(row1, second, ids, markSecond);
    RowEdit(f.(rows := f.rows[i := row2]), Counts(a, b))
  }

  /** A list column after one flag of the update, for plain IDs. */
  ghost predicate Marked(before: Row, after: Row, column: string, ids: seq<string>, flag: bool, added: nat) {
    && (flag ==> StrictlySorted(ParseList(Cell(after, column))))
    && (flag ==> Entries(Cell(after, column)) == Entries(Cell(before, column)) + Elems(ids))
    && (flag ==> added == |Entries(Cell(after, column))| - |Entries(Cell(before, column))|)
    && (!flag ==> Cell(after, column) == Cell(before, column) && added == 0)
  }

  lemma MarkEffect(row: Row, column: string, ids: seq<string>, flag: bool)
    requires ids != [] && PlainIds(ids)
    ensures var (after, added) := Mark(row, column, ids, flag);
      && Marked(row, after, column, ids, flag, added)
      && forall c :: c != column ==> Cell(after, c) == Cell(row, c)
  {
    if flag {
      MergeReadBack(Cell(row, column), ids);
    }
  }

  /**
   * The edited row lists, under each marked column, its old entries together with the
   * IDs, ascending and each once, and the counts are the growth of those sets; an
   * unmarked column and every other cell and row stay as they were.
   */
  lemma EditRowEffect(f: Frame, i: nat, first: string, second: string, ids: seq<string>,
                      markFirst: bool, markSecond: bool)
    requires i < |f.rows| && first != second
    requires ids != [] && PlainIds(ids)
    ensures var e := EditRow(f, i, first, second, ids, markFirst, markSecond);
      && Marked(f.rows[i], e.frame.rows[i], first, ids, markFirst, e.counts.first)
      && Marked(f.rows[i], e.frame.rows[i], second, ids, markSecond, e.counts.second)
      && forall c :: c != first && c != second ==> Cell(e.frame.rows[i], c) == Cell(f.rows[i], c)
  {
    var row := f.rows[i];
    var (row1, a) := Mark(row, first, ids, markFirst);
    MarkEffect(row, first, ids, markFirst);
    MarkEffect(row1, second, ids, markSecond);
  }

  /** Editing keeps every row's columns when both list columns are columns of the frame. */
  lemma EditRowWellFormed(f: Frame, i: nat, first: string, second: string, ids: seq<string>,
                          markFirst: bool, markSecond: bool)
    requires i < |f.rows| && WellFormed(f)
    requires first in f.columns && second in f.columns
    ensures WellFormed(EditRow(f, i, first, second, ids, markFirst, markSecond).frame)
  {
    var row := f.rows[i];
    assert row.Keys == Elems(f.columns);
  }

  lemma MarkIdempotent(row: Row, column: string, ids: seq<string>, flag: bool)
    requires ids != [] && PlainIds(ids) && column in row
    ensures Mark(Mark(row, column, ids, flag).0, column, ids, flag) == (Mark(row, column, ids, flag).0, 0)
  {
    if flag {
      var m := MergeList(Cell(row, column), ids);
      MergeIdempotent(Cell(row, column), ids);
      MarkMerged(row[column := m.cell], column, ids);
    }
  }

  /** A cell that merging leaves as it is makes marking leave the row as it is. */
  lemma MarkMerged(row: Row, column: string, ids: seq<string>)
    requires column in row && MergeList(row[column], ids) == Merged(row[column], 0)
    ensures Mark(row, column, ids, true) == (row, 0)
  {
    assert row[column := row[column]] == row;
  }

  /** Marking one column again after marking the other gives back the same row. */
  lemma MarkAgain(row: Row, column: string, other: string, ids: seq<string>, flag: bool, otherFlag: bool)
    requires ids != [] && PlainIds(ids) && column in row && column != other
    ensures var once := Mark(row, column, ids, flag).0;
      var both := Mark(once, other, ids, otherFlag).0;
      Mark(both, column, ids, flag) == (both, 0)
  {
    var once := Mark(row, column, ids, flag).0;
    var both := Mark(once, other, ids, otherFlag).0;
    MarkIdempotent(row, column, ids, flag);
    assert column in both && Cell(both, column) == Cell(once, column);
    MarkSameCell(once, both, column, ids, flag);
  }

  /** Marking a row that marking leaves alone also leaves alone a row with the same cell. */
  lemma MarkSameCell(r1: Row, r2: Row, column: string, ids: seq<string>, flag: bool)
    requires column in r1 && column in r2 && r1[column] == r2[column]
    requires Mark(r1, column, ids, flag) == (r1, 0)
    ensures Mark(r2, column, ids, flag) == (r2, 0)
  {
    if flag {
      var m := MergeList(Cell(r1, column), ids);
      assert r1[column := m.cell][column] == m.cell;
      assert r2[column := m.cell] == r2;
    }
  }

  /**
   * Repeating an edit with the same IDs and flags changes nothing more and counts
   * nothing new.
   */
  lemma EditRowIdempotent(f: Frame, i: nat, first: string, second: string, ids: seq<string>,
                          markFirst: bool, markSecond: bool)
    requires i < |f.rows| && first != second
    requires ids != [] && PlainIds(ids)
    requires first in f.rows[i] && second in f.rows[i]
    ensures var e := EditRow(f, i, first, second, ids, markFirst, markSecond);
      EditRow(e.frame, i, first, second, ids, markFirst, markSecond) == RowEdit(e.frame, Counts(0, 0))
  {
    var row := f.rows[i];
    var row1 := Mark(row, first, ids, markFirst).0;
    var row2 := Mark(row1, second, ids, markSecond).0;
    var e := EditRow(f, i, first, second, ids, markFirst, markSecond);
    assert e.frame.rows[i] == row2;
    MarkAgain(row, first, second, ids, markFirst, markSecond);
    assert Mark(row2, first, ids, markFirst) == (row2, 0);
    assert second in row1;
    MarkIdempotent(row1, second, ids, markSecond);
    assert Mark(row2, second, ids, markSecond) == (row2, 0);
    assert e.frame.rows[i := row2] == e.frame.rows;
  }

  /** Rows that agree on a column have the same first row with a value there. */
  lemma {:induction false} FirstRowWithSame(rows1: seq<Row>, rows2: seq<Row>, column: string, value: string)
    requires |rows1| == |rows2|
    requires forall j :: 0 <= j < |rows1| ==> Cell(rows1[j], column) == Cell(rows2[j], column)
    ensures FirstRowWith(rows1, column, value) == FirstRowWith(rows2, column, value)
  {
    if rows1 != [] {
      var tail1, tail2 := rows1[1..], rows2[1..];
      forall j | 0 <= j < |tail1| ensures Cell(tail1[j], column) == Cell(tail2[j], column) {
        assert Cell(rows1[j + 1], column) == Cell(rows2[j + 1], column);
      }
      FirstRowWithSame(tail1, tail2, column, value);
      assert Cell(rows1[0], column) == Cell(rows2[0], column);
    }
  }

  /**
   * Editing row i, the first row keyed by value, leaves it the first such row, and
   * editing it again changes nothing and counts nothing.
   */
  lemma EditRowAgain(f: Frame, i: nat, key: string, value: string, first: string, second: string,
                     ids: seq<string>, markFirst: bool, markSecond: bool)
    requires ids != [] && PlainIds(ids) && WellFormed(f)
    requires key != first && key != second && first != second
    requires first in f.columns && second in f.columns
    requires FirstRowWith(f.rows, key, value) == Some(i)
    ensures var e := EditRow(f, i, first, second, ids, markFirst, markSecond);
      && FirstRowWith(e.frame.rows, key, value) == Some(i)
      && EditRow(e.frame, i, first, second, ids, markFirst, markSecond) == RowEdit(e.frame, Counts(0, 0))
      && forall c :: c != first && c != second ==> Cell(e.frame.rows[i], c) == Cell(f.rows[i], c)
  {
    var e := EditRow(f, i, first, second, ids, markFirst, markSecond);
    EditRowEffect(f, i, first, second, ids, markFirst, markSecond);
    forall j | 0 <= j < |f.rows| ensures Cell(e.frame.rows[j], key) == Cell(f.rows[j], key) {
    }
    FirstRowWithSame(e.frame.rows, f.rows, key, value);
    assert f.rows[i].Keys == Elems(f.columns);
    EditRowIdempotent(f, i, first, second, ids, markFirst, markSecond);
  }
}
