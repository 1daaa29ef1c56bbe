/**
 * List-valued cells: a set of Standard IDs kept in one cell as a comma-joined,
 * sorted list (an event's Registrations and Participants, a cohort's Nominated and
 * Participants).
 */
module ListCells {
  import opened Text
  import opened Sequences
  import opened Ordering

  /** `cell.split(',') if cell else []` (app.py:200): the cell's entries, as listed. */
  function ParseList(cell: string): (items: seq<string>)
    ensures items == [] <==> cell == []
    ensures forall i :: 0 <= i < |items| ==> ',' !in items[i]
    ensures Join(",", items) == cell
  {
    if cell == [] then [] else Split(cell, ',')
  }

  /** The set a cell stands for. */
  function Entries(cell: string): set<string> {
    Elems(ParseList(cell))
  }

  /** The cell text is the comma-join of the entries in ascending order, each once. */
  ghost predicate ListCellOf(cell: string, entries: set<string>) {
    exists r :: StrictlySorted(r) && Elems(r) == entries && cell == Join(",", r)
  }

  /** A set has exactly one cell text. */
  lemma ListCellOfUnique(c1: string, c2: string, entries: set<string>)
    requires ListCellOf(c1, entries) && ListCellOf(c2, entries)
    ensures c1 == c2
  {
    var r1 :| StrictlySorted(r1) && Elems(r1) == entries && c1 == Join(",", r1);
    var r2 :| StrictlySorted(r2) && Elems(r2) == entries && c2 == Join(",", r2);
    SortedListingUnique(r1, r2);
  }

  /** IDs that survive a round trip through a cell: non-empty and free of commas. */
  predicate PlainIds(ids: seq<string>) {
    forall i :: 0 <= i < |ids| ==> ids[i] != [] && ',' !in ids[i]
  }

  /**
   * Reading a written cell back gives the same entries, ascending and without
   * repetitions, unless the only entry is the empty string (written as "", read as none).
   */
  lemma ReadBack(cell: string, entries: set<string>)
    requires ListCellOf(cell, entries)
    requires forall x :: x in entries ==> ',' !in x
    requires entries != {[]}
    ensures ParseList(cell) == SortedUnique(ParseList(cell))
    ensures StrictlySorted(ParseList(cell)) && Entries(cell) == entries
  {
    var r :| StrictlySorted(r) && Elems(r) == entries && cell == Join(",", r);
    if r != [] {
      assert r[0] in entries;
      if |r| == 1 {
        assert Elems(r) == {r[0]};
      }
      assert cell != [];
      SplitOfJoin(r, ',');
    }
    SortedListingUnique(ParseList(cell), SortedUnique(ParseList(cell)));
  }

  datatype Merged = Merged(cell: string, added: nat)

  /**
   * One flag's update of a list cell (app.py:200-204, 207-211, 274-278, 281-285): read
   * the cell as a set, add the IDs, write the sorted join back, and report how much
   * the set grew.
   */
  function MergeList(cell: string, ids: seq<string>): (m: Merged)
    ensures ListCellOf(m.cell, Entries(cell) + Elems(ids))
    ensures m.added == |Elems(ids) - Entries(cell)|
    ensures m.added <= |Elems(ids)|
  {
    var before := Entries(cell);
    var after := SortedUnique(ParseList(cell) + ids);
    ElemsConcat(ParseList(cell), ids);
    GrowthCard(before, Elems(ids));
    Merged(Join(",", after), |before + Elems(ids)| - |before|)
  }

  /**
   * After a merge the cell lists every old entry and every given ID, ascending and
   * without repetitions, and the count is the new set size minus the old one.
   */
  lemma MergeReadBack(cell: string, ids: seq<string>)
    requires ids != [] && PlainIds(ids)
    ensures var m := MergeList(cell, ids);
      && StrictlySorted(ParseList(m.cell))
      && Entries(m.cell) == Entries(cell) + Elems(ids)
      && m.added == |Entries(m.cell)| - |Entries(cell)|
  {
    var m := MergeList(cell, ids);
    var entries := Entries(cell) + Elems(ids);
    assert ids[0] in entries;
    ReadBack(m.cell, entries);
    GrowthCard(Entries(cell), Elems(ids));
  }

  /** Adding b to a grows it by the elements of b not already in a. */
  lemma GrowthCard(a: set<string>, b: set<string>)
    ensures |a + b| == |a| + |b - a|
  {
    assert a + b == a + (b - a);
    assert a !! (b - a);
  }

  /** Repeating a merge with the same IDs adds nothing and leaves the cell as it is. */
  lemma MergeIdempotent(cell: string, ids: seq<string>)
    requires ids != [] && PlainIds(ids)
    ensures var m := MergeList(cell, ids); MergeList(m.cell, ids) == Merged(m.cell, 0)
  {
    var m := MergeList(cell, ids);
    var entries := Entries(cell) + Elems(ids);
    assert ids[0] in entries;
    ReadBack(m.cell, entries);
    var m2 := MergeList(m.cell, ids);
    assert Entries(m.cell) + Elems(ids) == entries;
    ListCellOfUnique(m2.cell, m.cell, entries);
    assert Elems(ids) - Entries(m.cell) == {};
  }

  /**
   * The restriction of MergeIdempotent is needed. An empty ID is written as an empty
   * cell, and an empty cell reads back as no entries. So merging the empty ID into an
   * empty cell leaves the cell empty and counts the ID as new again on every run.
   */
  lemma EmptyIdRecounted()
    ensures MergeList("", [""]) == Merged("", 1)
  {
    var m := MergeList("", [""]);
    assert Entries("") == {};
    assert Elems([""]) == {""};
    var r :| StrictlySorted(r) && Elems(r) == {""} && m.cell == Join(",", r);
    SortedListingUnique(r, [""]);
  }

  /**
   * The same holds for an ID holding a comma. It is written into the cell whole, but
   * reads back as two entries, so the next merge counts it as new again.
   */
  lemma CommaIdRecounted()
    ensures MergeList("", ["a,b"]) == Merged("a,b", 1)
    ensures MergeList("a,b", ["a,b"]).added == 1
  {
    CommaIdWritten();
    CommaIdEntries();
    assert Elems(["a,b"]) - Entries("a,b") == {"a,b"};
  }

  lemma CommaIdWritten()
    ensures MergeList("", ["a,b"]) == Merged("a,b", 1)
  {
    var m := MergeList("", ["a,b"]);
    assert Entries("") == {};
    assert Elems(["a,b"]) == {"a,b"};
    var r :| StrictlySorted(r) && Elems(r) == {"a,b"} && m.cell == Join(",", r);
    SortedListingUnique(r, ["a,b"]);
  }

  lemma CommaIdEntries()
    ensures Entries("a,b") == {"a", "b"}
  {
    assert Split("a,b", ',') == ["a", "b"] by {
      assert "a,b" == "a" + [','] + "b";
      SplitAfterPiece("a", "b", ',');
      SplitWithoutSeparator("b", ',');
    }
  }
}
