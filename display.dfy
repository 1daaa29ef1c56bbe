/**
 * Small rules of the table pages: which columns are shown and in what order
 * (app.py:453-478), which rows a page shows (app.py:486-495), and the check a new
 * cohort's name passes before its row is added (app.py:622-641).
 */
module Display {
  import opened Wrappers
  import opened Sequences
  import opened Ordering
  import opened Tables
  import opened Membership
  import opened Updates

  /** `optional_columns` (app.py:461): the columns other than Standard ID and Email, in order. */
  function Optional(cols: seq<string>): (r: seq<string>)
    ensures forall x :: x in r <==> x in cols && x != StandardId && x != Email
    decreases |cols|
  {
    if cols == [] then []
    else (if cols[0] != StandardId && cols[0] != Email then [cols[0]] else []) + Optional(cols[1..])
  }

  /**
   * The displayed columns (app.py:453-478): the canonical ones for most tables; for
   * employees, Standard ID and Email together with the chosen optional columns, put in
   * the order of the sort key `(x != "Standard ID", x != "Email", x)` with each once.
   */
  function DisplayColumns(key: TableKey, chosen: seq<string>): (r: seq<string>)
    ensures key != Employees ==> r == Canonical(key)
    ensures key == Employees ==> |r| >= 2 && r[..2] == [StandardId, Email]
  {
    if key != Employees then Canonical(key)
    else [StandardId, Email] + SortedUnique(Optional(Canonical(Employees) + chosen))
  }

  /**
   * For employees, the displayed columns start with Standard ID then Email, hold each
   * chosen column and nothing else, each once, and the rest is in ascending order.
   */
  lemma EmployeeColumnsOrder(chosen: seq<string>)
    ensures var r := DisplayColumns(Employees, chosen);
      && |r| >= 2 && r[0] == StandardId && r[1] == Email
      && StrictlySorted(r[2..])
      && Distinct(r)
      && (forall x :: x in r <==> x == StandardId || x == Email || x in chosen)
  {
    var rest := SortedUnique(Optional(Canonical(Employees) + chosen));
    var r := DisplayColumns(Employees, chosen);
    assert r[2..] == rest;
    SortedIsDistinct(rest);
    forall x ensures x in rest <==> x in Optional(Canonical(Employees) + chosen) {
      assert x in rest <==> x in Elems(rest);
      assert x in Optional(Canonical(Employees) + chosen) <==> x in Elems(Optional(Canonical(Employees) + chosen));
    }
    forall i, j | 0 <= i < j < |r| ensures r[i] != r[j] {
      if i >= 2 {
        assert r[i] == rest[i - 2] && r[j] == rest[j - 2];
      } else {
        assert r[j] in rest || j == 1;
      }
    }
  }

  /** The sort key orders the employees' columns one way only. */
  lemma EmployeeColumnsUnique(chosen: seq<string>, s: seq<string>)
    requires |s| >= 2 && s[0] == StandardId && s[1] == Email
    requires StrictlySorted(s[2..]) && Distinct(s)
    requires forall x :: x in s <==> x == StandardId || x == Email || x in chosen
    ensures s == DisplayColumns(Employees, chosen)
  {
    var r := DisplayColumns(Employees, chosen);
    EmployeeColumnsOrder(chosen);
    AfterFirstTwo(s);
    AfterFirstTwo(r);
    assert Elems(s[2..]) == Elems(r[2..]);
    SortedListingUnique(s[2..], r[2..]);
    assert s == s[..2] + s[2..] && r == r[..2] + r[2..];
  }

  /** Without repeats, what follows the first two columns is every other column. */
  lemma AfterFirstTwo(s: seq<string>)
    requires |s| >= 2 && Distinct(s)
    ensures forall x :: x in Elems(s[2..]) <==> x in s && x != s[0] && x != s[1]
  {
    forall x ensures x in s[2..] <==> x in s && x != s[0] && x != s[1] {
      assert s == s[..2] + s[2..];
      if x in s[2..] {
        var k :| 0 <= k < |s[2..]| && s[2..][k] == x;
        assert s[k + 2] == x;
      }
    }
  }

  /** `total_pages` (app.py:488): whole pages, and one more for a partial last page. */
  /** The pages just cover the rows: all but the last page are full, and none is empty. */
  function TotalPages(n: nat, size: nat): (t: nat)
    requires size > 0
    ensures n == 0 <==> t == 0
    ensures n <= t * size
    ensures t > 0 ==> (t - 1) * size < n
  {
    var q, m := n / size, n % size;
    assert n == q * size + m;
    assert m > 0 ==> (q + 1) * size == q * size + size;
    assert m == 0 && q > 0 ==> (q - 1) * size == q * size - size;
    q + (if m > 0 then 1 else 0)
  }

  /** `start_idx` and `end_idx` of a page (app.py:490-491). */
  datatype Bounds = Bounds(start: nat, end: nat)

  function PageBounds(page: nat, size: nat): (b: Bounds)
    requires page >= 1
    ensures b.end == b.start + size
  {
    Bounds((page - 1) * size, (page - 1) * size + size)
  }

  /**
   * Every row index lies on exactly one page: page `i / size + 1`, which is one of the
   * pages the page picker offers.
   */
  lemma PageOfRow(n: nat, size: nat, i: nat)
    requires size > 0 && i < n
    ensures var p := i / size + 1;
      && 1 <= p <= TotalPages(n, size)
      && PageBounds(p, size).start <= i < PageBounds(p, size).end
      && forall q :: q >= 1 && PageBounds(q, size).start <= i < PageBounds(q, size).end ==> q == p
  {
    var p := i / size + 1;
    assert i == (p - 1) * size + i % size;
    MulCancel(p - 1, TotalPages(n, size), size);
    forall q | q >= 1 && PageBounds(q, size).start <= i < PageBounds(q, size).end ensures q == p {
      PageUnique(i, size, q - 1, p - 1);
    }
  }

  /** Multiplying by a positive size keeps strict order, so it can be cancelled. */
  lemma MulCancel(a: nat, b: nat, size: nat)
    requires size > 0 && a * size < b * size
    ensures a < b
  {
  }

  /** Two pages whose row ranges share an index are the same page. */
  lemma PageUnique(i: nat, size: nat, a: nat, b: nat)
    requires size > 0
    requires a * size <= i < a * size + size
    requires b * size <= i < b * size + size
    ensures a == b
  {
    assert (a + 1) * size == a * size + size && (b + 1) * size == b * size + size;
    MulCancel(a, b + 1, size);
    MulCancel(b, a + 1, size);
  }

  /** Every page the picker offers starts inside the table. */
  lemma PageStartInside(n: nat, size: nat, page: nat)
    requires size > 0 && 1 <= page <= TotalPages(n, size)
    ensures PageBounds(page, size).start < n
  {
    var t := TotalPages(n, size);
    MulMono(page - 1, t - 1, size);
  }

  /** Multiplying by a size keeps order. */
  lemma MulMono(a: nat, b: nat, size: nat)
    requires a <= b
    ensures a * size <= b * size
  {
    assert b * size == a * size + (b - a) * size;
  }

  /**
   * The rows the page shows (app.py:486-495): all of them up to 1000 rows, otherwise
   * `iloc[start_idx:end_idx]` of the chosen page, the end clamped to the table.
   */
  function Shown(rows: seq<Row>, size: nat, page: nat): (r: seq<Row>)
    requires 100 <= size <= 1000
    requires |rows| > 1000 ==> 1 <= page <= TotalPages(|rows|, size)
    ensures |rows| <= 1000 ==> r == rows
    ensures |rows| > 1000 ==> 1 <= |r| <= size
    ensures |rows| > 1000 ==> var start := PageBounds(page, size).start;
      start + |r| <= |rows| && r == rows[start..start + |r|]
  {
    if |rows| <= 1000 then rows
    else
      var b := PageBounds(page, size);
      PageStartInside(|rows|, size, page);
      var e := if b.end < |rows| then b.end else |rows|;
      assert b.start < e <= b.start + size;
      rows[b.start..e]
  }

  /**
   * The caption's numbers `start_idx + 1` and `min(end_idx, len)` (app.py:493) name
   * the first and last row shown, counting from one; a page is never empty.
   */
  lemma ShownCaption(rows: seq<Row>, size: nat, page: nat)
    requires 100 <= size <= 1000
    requires |rows| > 1000 && 1 <= page <= TotalPages(|rows|, size)
    ensures var b, r := PageBounds(page, size), Shown(rows, size, page);
      var last := if b.end < |rows| then b.end else |rows|;
      && 1 <= |r| <= size
      && last - (b.start + 1) + 1 == |r|
      && forall k :: 0 <= k < |r| ==> r[k] == rows[b.start + k]
  {
    PageStartInside(|rows|, size, page);
  }

  const DateStarted: string := "Date Started"

  /** What submitting the new-cohort form does (app.py:622-641). */
  datatype CohortForm =
    | EmptyName                 // "Cohort Name cannot be empty."
    | Duplicate(name: string)   // "Cohort with name ... already exists."
    | NewCohort(row: Row)       // the row kept for appending to the table

  /**
   * The new-cohort check: an empty name is refused, a name some cohort row already
   * has is refused, any other name gives the new row with empty member lists.
   */
  function CheckNewCohort(cohorts: seq<Row>, name: string, started: string): (r: CohortForm)
    ensures r == EmptyName <==> name == []
    ensures r.Duplicate? <==> name != [] && exists i :: 0 <= i < |cohorts| && Cell(cohorts[i], NameColumn) == name
    ensures r.NewCohort? ==> r.row.Keys == Elems(Canonical(Cohorts))
    ensures r.NewCohort? ==> (Cell(r.row, NameColumn) == name && Cell(r.row, DateStarted) == started
      && Cell(r.row, Nominated) == "" && Cell(r.row, ParticipantsColumn) == "")
  {
    if name == [] then EmptyName
    else if FirstRowWith(cohorts, NameColumn, name).Some? then Duplicate(name)
    else NewCohort(map[NameColumn := name, DateStarted := started, Nominated := "", ParticipantsColumn := ""])
  }

  /** No two cohort rows share a name. */
  predicate UniqueNames(rows: seq<Row>) {
    forall i, j :: 0 <= i < j < |rows| ==> Cell(rows[i], NameColumn) != Cell(rows[j], NameColumn)
  }

  /**
   * Appending the row the check allows keeps the names unique, and the membership
   * update then finds the new cohort in the appended row.
   */
  lemma NewCohortAppended(cohorts: seq<Row>, name: string, started: string)
    requires UniqueNames(cohorts)
    requires CheckNewCohort(cohorts, name, started).NewCohort?
    ensures var rows := cohorts + [CheckNewCohort(cohorts, name, started).row];
      UniqueNames(rows) && FirstRowWith(rows, NameColumn, name) == Some(|cohorts|)
  {
    var rows := cohorts + [CheckNewCohort(cohorts, name, started).row];
    assert Cell(rows[|cohorts|], NameColumn) == name;
    forall i | 0 <= i < |cohorts| ensures Cell(rows[i], NameColumn) != name {
      assert rows[i] == cohorts[i];
    }
    forall i, j | 0 <= i < j < |rows| ensures Cell(rows[i], NameColumn) != Cell(rows[j], NameColumn) {
      if j < |cohorts| {
        assert rows[i] == cohorts[i] && rows[j] == cohorts[j];
      }
    }
  }
}
