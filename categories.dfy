/**
 * The special roles of an employee (app.py:756-779): a `;`-separated list held in the
 * employees table's Categories cell, read for the first row with the employee's ID and
 * written to every row with it.
 */
module Categories {
  import opened Wrappers
  import opened Text
  import opened Sequences
  import opened Tables
  import opened Membership

  const CategoriesColumn: string := "Categories"

  /** `categories_master` (app.py:768): the roles the picker offers. */
  const Master: seq<string> := ["Working Group Lead", "Train-the-Trainer Candidate", "AInfluencer", "Offering Support"]

  /** Roles that can be written and read back: none empty, none holding the separator. */
  predicate Plain(roles: seq<string>) {
    forall i :: 0 <= i < |roles| ==> roles[i] != [] && ';' !in roles[i]
  }

  lemma MasterPlain()
    ensures Plain(Master)
  {
    assert Master[0] == "Working Group Lead" && Master[1] == "Train-the-Trainer Candidate";
    assert Master[2] == "AInfluencer" && Master[3] == "Offering Support";
  }

  /** `[c for c in current.split(";") if c]` (app.py:771). */
  function RolesOf(cell: string): (r: seq<string>)
    ensures Plain(r)
  {
    var parts := Split(cell, ';');
    var r := DropEmpty(parts);
    assert forall i :: 0 <= i < |r| ==> r[i] in parts;
    r
  }

  /** `";".join(new_cats)` (app.py:775). */
  function FormatRoles(roles: seq<string>): (r: string)
    ensures roles == [] ==> r == []
    ensures roles != [] ==> roles[0] <= r
    ensures Plain(roles) ==> (r == [] <==> roles == [])
  {
    assert |roles| > 1 ==> Join(";", roles) == roles[0] + (";" + Join(";", roles[1..]));
    Join(";", roles)
  }

  /** Writing plain roles and reading them back gives the same roles, in the same order. */
  lemma RolesRoundTrip(roles: seq<string>)
    requires Plain(roles)
    ensures RolesOf(FormatRoles(roles)) == roles
  {
    if roles == [] {
      SplitWithoutSeparator([], ';');
    } else {
      SplitOfJoin(roles, ';');
    }
  }

  /**
   * The roles shown as already assigned (app.py:769-771): those of the first row with
   * the ID, none when no row has it.
   */
  function CurrentRoles(f: Frame, id: string): (r: seq<string>)
    ensures Plain(r)
    ensures (forall i :: 0 <= i < |f.rows| ==> Cell(f.rows[i], StandardId) != id) ==> r == []
  {
    match FirstRowWith(f.rows, StandardId, id)
    case None => []
    case Some(i) => RolesOf(Cell(f.rows[i], CategoriesColumn))
  }

  /**
   * `df.loc[df["Standard ID"] == employee_id, "Categories"] = ";".join(new_cats)`
   * (app.py:775): every row with the ID gets the joined roles, every other cell stays.
   */
  function AssignRoles(f: Frame, id: string, roles: seq<string>): (g: Frame)
    ensures g.columns == f.columns && |g.rows| == |f.rows|
    ensures forall i, c :: 0 <= i < |g.rows| ==>
      Cell(g.rows[i], c) == if c == CategoriesColumn && Cell(f.rows[i], StandardId) == id then FormatRoles(roles) else Cell(f.rows[i], c)
  {
    Frame(f.columns, seq(|f.rows|, i requires 0 <= i < |f.rows| =>
      if Cell(f.rows[i], StandardId) == id then f.rows[i][CategoriesColumn := FormatRoles(roles)] else f.rows[i]))
  }

  /** With a Categories column, assigning keeps the table well formed. */
  lemma AssignRolesWellFormed(f: Frame, id: string, roles: seq<string>)
    requires WellFormed(f) && CategoriesColumn in f.columns
    ensures WellFormed(AssignRoles(f, id, roles))
  {
    var g := AssignRoles(f, id, roles);
    forall i | 0 <= i < |g.rows| ensures g.rows[i].Keys == Elems(g.columns) {
      assert CategoriesColumn in f.rows[i].Keys;
    }
  }

  /** After assigning plain roles to an employee who has a row, they are the employee's current roles. */
  lemma AssignThenCurrent(f: Frame, id: string, roles: seq<string>)
    requires Plain(roles)
    requires exists i :: 0 <= i < |f.rows| && Cell(f.rows[i], StandardId) == id
    ensures CurrentRoles(AssignRoles(f, id, roles), id) == roles
  {
    var g := AssignRoles(f, id, roles);
    assert forall i :: 0 <= i < |f.rows| ==> Cell(g.rows[i], StandardId) == Cell(f.rows[i], StandardId);
    var k := FirstRowWith(f.rows, StandardId, id).value;
    FirstRowWithSame(f.rows, g.rows, StandardId, id);
    assert Cell(g.rows[k], CategoriesColumn) == FormatRoles(roles);
    RolesRoundTrip(roles);
  }

  /** Assigning the same roles twice is assigning them once. */
  lemma AssignRolesIdempotent(f: Frame, id: string, roles: seq<string>)
    ensures AssignRoles(AssignRoles(f, id, roles), id, roles) == AssignRoles(f, id, roles)
  {
    var g := AssignRoles(f, id, roles);
    var h := AssignRoles(g, id, roles);
    forall i | 0 <= i < |h.rows| ensures h.rows[i] == g.rows[i] {
      assert Cell(g.rows[i], StandardId) == Cell(f.rows[i], StandardId);
    }
  }
}
