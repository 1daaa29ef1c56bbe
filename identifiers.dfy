/**
 * Turning pasted text into Standard IDs: get_employee_ids_from_input (app.py:153-173),
 * _parse_employee_identifiers and the final step of employee_selector
 * (ui_components.py:7-42, 45-128). A token with '@' is looked up as an email, any
 * other token as a Standard ID.
 */
module Identifiers {
  import opened Wrappers
  import opened Text
  import opened Sequences
  import opened Ordering
  import opened Tables
  import opened Membership

  function StripEach(parts: seq<string>): seq<string> {
    seq(|parts|, i requires 0 <= i < |parts| => Strip(parts[i]))
  }

  /**
   * `[item.strip() for item in text.strip().split('\n') if item.strip()]`
   * (app.py:155, ui_components.py:12).
   */
  function Tokens(text: string): (r: seq<string>)
    ensures forall i :: 0 <= i < |r| ==> r[i] != []
  {
    DropEmpty(StripEach(Split(Strip(text), '\n')))
  }

  lemma StripTwice(s: string)
    ensures Strip(Strip(s)) == Strip(s)
  {
    StripUnchanged(Strip(s));
  }

  /** Every token is non-empty, holds no line break and has no whitespace at either end. */
  lemma TokensClean(text: string)
    ensures forall i :: 0 <= i < |Tokens(text)| ==>
      Tokens(text)[i] != [] && '\n' !in Tokens(text)[i] && Strip(Tokens(text)[i]) == Tokens(text)[i]
  {
    var parts := Split(Strip(text), '\n');
    var stripped := StripEach(parts);
    var tokens := DropEmpty(stripped);
    forall i | 0 <= i < |tokens| ensures tokens[i] != [] && '\n' !in tokens[i] && Strip(tokens[i]) == tokens[i] {
      var x := tokens[i];
      assert x in stripped;
      var j :| 0 <= j < |stripped| && stripped[j] == x;
      assert '\n' !in parts[j];
      StripTwice(parts[j]);
    }
  }

  /** Text that is blank after stripping gives no tokens (ui_components.py:12-14). */
  lemma BlankTextNoTokens(text: string)
    requires forall k :: 0 <= k < |text| ==> IsSpace(text[k])
    ensures Tokens(text) == []
  {
    SplitWithoutSeparator([], '\n');
    assert StripEach([[]]) == [[]];
  }

  /** What looking an email up in the Email→Standard ID series finds. */
  datatype Lookup = Absent | Unique(id: string) | Several

  /**
   * `email_to_id[email]` (app.py:159, 164-165) and `email_to_id.get(email)`
   * (ui_components.py:16, 23): the Standard ID of the only row with the email, nothing,
   * or a series of several values when the email is on more than one row.
   */
  function LookupEmail(rows: seq<Row>, email: string): (l: Lookup)
    ensures l == Absent <==> forall j :: 0 <= j < |rows| ==> Cell(rows[j], Email) != email
    ensures l.Unique? ==> exists j :: 0 <= j < |rows| && Cell(rows[j], Email) == email && Cell(rows[j], StandardId) == l.id
  {
    match FirstRowWith(rows, Email, email)
    case None => Absent
    case Some(j) =>
      match FirstRowWith(rows[j + 1..], Email, email)
      case None => Unique(Cell(rows[j], StandardId))
      case Some(_) => Several
  }

  /**
   * No row holds the email, exactly one does and its Standard ID is the answer, or at
   * least two do.
   */
  lemma LookupEmailMeaning(rows: seq<Row>, email: string)
    ensures var l := LookupEmail(rows, email);
      && (l == Absent <==> forall j :: 0 <= j < |rows| ==> Cell(rows[j], Email) != email)
      && (l.Unique? ==> exists j :: (0 <= j < |rows| && Cell(rows[j], Email) == email
           && Cell(rows[j], StandardId) == l.id
           && forall k :: 0 <= k < |rows| && k != j ==> Cell(rows[k], Email) != email))
      && (l == Several ==> exists j, k :: (0 <= j < k < |rows|
           && Cell(rows[j], Email) == email && Cell(rows[k], Email) == email))
  {
    match FirstRowWith(rows, Email, email)
    case None =>
    case Some(j) =>
      var rest := rows[j + 1..];
      match FirstRowWith(rest, Email, email)
      case None =>
        forall k | j < k < |rows| ensures Cell(rows[k], Email) != email {
          assert rows[k] == rest[k - j - 1];
        }
      case Some(k) =>
        assert rows[j + 1 + k] == rest[k];
  }

  /** Row j is the only row whose Email is `email`. */
  predicate OnlyHolder(rows: seq<Row>, email: string, j: int) {
    0 <= j < |rows| && Cell(rows[j], Email) == email && forall k :: 0 <= k < |rows| && k != j ==> Cell(rows[k], Email) != email
  }

  /** Whether a Standard ID is the ID of some row: `identifier in id_set`. */
  predicate Known(rows: seq<Row>, id: string) {
    exists j :: 0 <= j < |rows| && Cell(rows[j], StandardId) == id
  }

  /**
   * The two ways a token is checked: the app's (both columns are there, any ID an email
   * maps to counts), and the selector's (a column may be missing, and an email whose
   * Standard ID is empty does not count).
   */
  datatype Rules = AppRules | SelectorRules(hasEmail: bool, hasId: bool)

  /**
   * One token: the Standard ID it names, none when it belongs to the invalid list, or
   * the failure of an email held by several employees (app.py:162-172,
   * ui_components.py:21-32).
   */
  function ResolveToken(rules: Rules, rows: seq<Row>, token: string): (r: Result<Option<string>, Failure>)
    ensures r.Err? ==> '@' in token && r.error == AmbiguousEmail(token)
    ensures token != [] && rules.SelectorRules? && r.Ok? && r.value.Some? ==> r.value.value != []
  {
    if '@' in token then
      if rules.SelectorRules? && !rules.hasEmail then Ok(None)
      else
        match LookupEmail(rows, token)
        case Absent => Ok(None)
        case Several => Err(AmbiguousEmail(token))
        case Unique(id) => if rules.SelectorRules? && id == [] then Ok(None) else Ok(Some(id))
    else if (rules.AppRules? || rules.hasId) && FirstRowWith(rows, StandardId, token).Some? then Ok(Some(token))
    else Ok(None)
  }

  /**
   * A token fails only as an email held by several employees; an email names the ID
   * of the employee row holding it, any other token names itself and only when it is
   * a known ID; the selector never accepts an empty ID. Conversely a known ID names
   * itself when IDs are checked, an email held by exactly one row names that row's ID
   * (for the selector, when the ID is not empty), and an email held by no row, or one
   * the selector cannot look up, names nothing.
   */
  lemma ResolveTokenMeaning(rules: Rules, rows: seq<Row>, token: string)
    requires token != []
    ensures var r := ResolveToken(rules, rows, token);
      && (r.Err? <==> '@' in token && (rules.SelectorRules? ==> rules.hasEmail) && LookupEmail(rows, token) == Several)
      && (r.Err? ==> r.error == AmbiguousEmail(token))
      && (r.Ok? && r.value.Some? && '@' in token ==>
           exists j :: 0 <= j < |rows| && Cell(rows[j], Email) == token && Cell(rows[j], StandardId) == r.value.value)
      && (r.Ok? && r.value.Some? && '@' !in token ==> r.value.value == token && Known(rows, token))
      && (r.Ok? && r.value.Some? && rules.SelectorRules? ==> r.value.value != [])
      && ('@' !in token ==> r == if (rules.AppRules? || rules.hasId) && Known(rows, token) then Ok(Some(token)) else Ok(None))
      && (forall j :: '@' in token && (rules.AppRules? || rules.hasEmail) && OnlyHolder(rows, token, j) ==>
            r == if rules.SelectorRules? && Cell(rows[j], StandardId) == [] then Ok(None) else Ok(Some(Cell(rows[j], StandardId))))
      && ('@' in token && (LookupEmail(rows, token) == Absent || (rules.SelectorRules? && !rules.hasEmail)) ==> r == Ok(None))
  {
    LookupEmailMeaning(rows, token);
    forall j | '@' in token && (rules.AppRules? || rules.hasEmail) && OnlyHolder(rows, token, j)
      ensures LookupEmail(rows, token) == Unique(Cell(rows[j], StandardId))
    {
      SoleHolder(rows, token, j);
    }
    if '@' !in token && (rules.AppRules? || rules.hasId) {
      match FirstRowWith(rows, StandardId, token)
      case None =>
      case Some(j) => assert Cell(rows[j], StandardId) == token;
    }
  }

  /** The lookup of an email held by exactly one row gives that row's ID. */
  lemma SoleHolder(rows: seq<Row>, email: string, j: int)
    requires OnlyHolder(rows, email, j)
    ensures LookupEmail(rows, email) == Unique(Cell(rows[j], StandardId))
  {
    LookupEmailMeaning(rows, email);
    var l := LookupEmail(rows, email);
    assert l.Unique?;
    var i :| 0 <= i < |rows| && Cell(rows[i], Email) == email && Cell(rows[i], StandardId) == l.id;
    assert i == j;
  }

  /** How each token is resolved; the loop below does not depend on the rules' details. */
  type Resolver = string -> Result<Option<string>, Failure>

  function Resolve(rules: Rules, rows: seq<Row>): Resolver {
    token => ResolveToken(rules, rows, token)
  }

  /** The IDs found, one per valid token and in order, and the tokens that found none. */
  datatype Resolution = Resolution(valid: seq<string>, invalid: seq<string>)

  /** The loop over the tokens (app.py:162-172, ui_components.py:21-32), stopping at a failure. */
  function ResolveAll(resolve: Resolver, tokens: seq<string>): (r: Result<Resolution, Failure>)
    ensures r.Ok? ==> |r.value.valid| + |r.value.invalid| == |tokens|
    decreases |tokens|
  {
    if tokens == [] then Ok(Resolution([], []))
    else
      var n := |tokens| - 1;
      var init, token := tokens[..n], tokens[n];
      match ResolveAll(resolve, init)
      case Err(e) => Err(e)
      case Ok(res) =>
        match resolve(token)
        case Err(e) => Err(e)
        case Ok(None) => Ok(Resolution(res.valid, res.invalid + [token]))
        case Ok(Some(id)) => Ok(Resolution(res.valid + [id], res.invalid))
  }

  /**
   * Each token goes to exactly one side: the invalid list holds exactly the tokens that
   * name no employee, and the valid list exactly the IDs the other tokens name.
   */
  lemma {:induction false} ResolveAllSides(resolve: Resolver, tokens: seq<string>)
    requires ResolveAll(resolve, tokens).Ok?
    ensures var res := ResolveAll(resolve, tokens).value;
      && (forall t :: t in res.invalid <==> t in tokens && resolve(t) == Ok(None))
      && (forall x :: x in res.valid <==> exists t :: t in tokens && resolve(t) == Ok(Some(x)))
    decreases |tokens|
  {
    if tokens != [] {
      var n := |tokens| - 1;
      var init, token := tokens[..n], tokens[n];
      var prev := ResolveAll(resolve, init).value;
      var res := ResolveAll(resolve, tokens).value;
      ResolveAllSides(resolve, init);
      LastSplit(tokens);
      match resolve(token)
      case Ok(None) =>
        assert res == Resolution(prev.valid, prev.invalid + [token]);
      case Ok(Some(id)) =>
        assert res == Resolution(prev.valid + [id], prev.invalid);
    }
  }

  /** Every valid ID is the Standard ID of some employee row, and never empty for the selector. */
  lemma ResolvedAreKnown(rules: Rules, rows: seq<Row>, tokens: seq<string>)
    requires ResolveAll(Resolve(rules, rows), tokens).Ok?
    requires forall i :: 0 <= i < |tokens| ==> tokens[i] != []
    ensures forall x :: x in ResolveAll(Resolve(rules, rows), tokens).value.valid ==>
      Known(rows, x) && (rules.SelectorRules? ==> x != [])
  {
    ResolveAllSides(Resolve(rules, rows), tokens);
    forall x | x in ResolveAll(Resolve(rules, rows), tokens).value.valid ensures Known(rows, x) && (rules.SelectorRules? ==> x != []) {
      var t :| t in tokens && ResolveToken(rules, rows, t) == Ok(Some(x));
      ResolveTokenMeaning(rules, rows, t);
      if '@' in t {
        var j :| 0 <= j < |rows| && Cell(rows[j], Email) == t && Cell(rows[j], StandardId) == x;
      }
    }
  }

  /** The invalid tokens keep their input order: they are the unresolved tokens, in order. */
  lemma {:induction false} InvalidInOrder(resolve: Resolver, tokens: seq<string>)
    requires ResolveAll(resolve, tokens).Ok?
    ensures ResolveAll(resolve, tokens).value.invalid == Unresolved(resolve, tokens)
    decreases |tokens|
  {
    if tokens != [] {
      InvalidInOrder(resolve, tokens[..|tokens| - 1]);
    }
  }

  /** The tokens that name no employee, in order (a filter independent of the loop). */
  function Unresolved(resolve: Resolver, tokens: seq<string>): (r: seq<string>)
    ensures forall t :: t in r ==> t in tokens
    ensures |r| <= |tokens|
    decreases |tokens|
  {
    if tokens == [] then []
    else
      var n := |tokens| - 1;
      assert tokens == tokens[..n] + [tokens[n]];
      Unresolved(resolve, tokens[..n]) + (if resolve(tokens[n]) == Ok(None) then [tokens[n]] else [])
  }

  /**
   * get_employee_ids_from_input (app.py:153-173): both columns must exist, then the
   * valid IDs come back sorted and each once, the invalid tokens in input order.
   */
  function EmployeeIdsFromInput(text: string, employees: Frame): (r: Result<Resolution, Failure>)
    ensures Email !in employees.columns ==> r == Err(MissingColumn(Email))
    ensures Email in employees.columns && StandardId !in employees.columns ==> r == Err(MissingColumn(StandardId))
    ensures r.Ok? ==> StrictlySorted(r.value.valid)
  {
    if Email !in employees.columns then Err(MissingColumn(Email))
    else if StandardId !in employees.columns then Err(MissingColumn(StandardId))
    else
      match ResolveAll(Resolve(AppRules, employees.rows), Tokens(text))
      case Err(e) => Err(e)
      case Ok(res) => Ok(Resolution(SortedUnique(res.valid), res.invalid))
  }

  /**
   * The app's valid IDs are exactly the IDs its tokens name, each of them the Standard
   * ID of an employee row; its invalid tokens are the unresolved ones, in input order.
   */
  lemma EmployeeIdsMeaning(text: string, employees: Frame)
    requires EmployeeIdsFromInput(text, employees).Ok?
    ensures var tokens, res := Tokens(text), EmployeeIdsFromInput(text, employees).value;
      && (forall x :: x in res.valid <==> exists t :: t in tokens && ResolveToken(AppRules, employees.rows, t) == Ok(Some(x)))
      && (forall x :: x in res.valid ==> Known(employees.rows, x))
      && res.invalid == Unresolved(Resolve(AppRules, employees.rows), tokens)
  {
    var tokens, resolve := Tokens(text), Resolve(AppRules, employees.rows);
    TokensClean(text);
    ResolveAllSides(resolve, tokens);
    ResolvedAreKnown(AppRules, employees.rows, tokens);
    InvalidInOrder(resolve, tokens);
    SortedMembers(ResolveAll(resolve, tokens).value.valid);
  }

  lemma SortedMembers(xs: seq<string>)
    ensures forall x :: x in SortedUnique(xs) <==> x in xs
  {
    forall x ensures x in SortedUnique(xs) <==> x in xs {
      assert x in SortedUnique(xs) <==> x in Elems(SortedUnique(xs));
      assert x in xs <==> x in Elems(xs);
    }
  }

  /**
   * The body of both loops for one token (app.py:162-172, ui_components.py:21-32): an
   * email is looked up, when the Email column is there; anything else is checked
   * against the Standard IDs, when that column is there.
   */
  method CheckToken(rules: Rules, rows: seq<Row>, token: string) returns (t: Result<Option<string>, Failure>)
    ensures t == Resolve(rules, rows)(token)
  {
    t := Ok(None);
    if '@' in token {
      if rules.AppRules? || rules.hasEmail {
        match LookupEmail(rows, token)
        case Absent =>
        case Several =>
          t := Err(AmbiguousEmail(token));
        case Unique(id) =>
          if rules.AppRules? || id != [] {
            t := Ok(Some(id));
          }
      }
    } else if (rules.AppRules? || rules.hasId) && FirstRowWith(rows, StandardId, token).Some? {
      t := Ok(Some(token));
    }
  }

  /**
   * The app's loop itself (app.py:162-172): a set of valid IDs and a list of invalid
   * tokens; an email held by several employees stops it.
   */
  method CollectAppIds(rows: seq<Row>, tokens: seq<string>) returns (r: Result<(set<string>, seq<string>), Failure>)
    ensures var res := ResolveAll(Resolve(AppRules, rows), tokens);
      && (r.Err? <==> res.Err?)
      && (r.Err? ==> r.error == res.error)
      && (r.Ok? ==> (forall x :: x in r.value.0 <==> x in res.value.valid) && r.value.1 == res.value.invalid)
  {
    var validIds: set<string> := {};
    var invalid: seq<string> := [];
    ghost var listed: seq<string> := [];
    ghost var resolve := Resolve(AppRules, rows);
    for i := 0 to |tokens|
      invariant ResolveAll(resolve, tokens[..i]) == Ok(Resolution(listed, invalid))
      invariant forall x :: x in validIds <==> x in listed
    {
      var token := tokens[i];
      var t := CheckToken(AppRules, rows, token);
      ResolveAllStep(resolve, tokens, i, Resolution(listed, invalid), t);
      if t.Err? {
        ResolveAllStops(resolve, tokens, i + 1);
        return Err(t.error);
      }
      var found := t.value;
      if found.Some? {
        validIds := validIds + {found.value};
        listed := listed + [found.value];
      } else {
        invalid := invalid + [token];
      }
    }
    assert tokens[..|tokens|] == tokens;
    r := Ok((validIds, invalid));
  }

  /** get_employee_ids_from_input as written: the column checks, the loop, `sorted(list(valid_ids))`. */
  method GetEmployeeIdsFromInput(text: string, employees: Frame) returns (r: Result<Resolution, Failure>)
    ensures r == EmployeeIdsFromInput(text, employees)
  {
    if Email !in employees.columns {
      return Err(MissingColumn(Email));
    }
    if StandardId !in employees.columns {
      return Err(MissingColumn(StandardId));
    }
    var tokens := Tokens(text);
    var collected := CollectAppIds(employees.rows, tokens);
    if collected.Err? {
      return Err(collected.error);
    }
    var sorted := SortSet(collected.value.0);
    SortedListingUnique(sorted, SortedUnique(ResolveAll(Resolve(AppRules, employees.rows), tokens).value.valid));
    r := Ok(Resolution(sorted, collected.value.1));
  }

  /** One more token: the resolution of the longer prefix from that of the shorter one. */
  lemma ResolveAllStep(resolve: Resolver, tokens: seq<string>, i: nat, prev: Resolution, t: Result<Option<string>, Failure>)
    requires i < |tokens| && ResolveAll(resolve, tokens[..i]) == Ok(prev)
    requires resolve(tokens[i]) == t
    ensures ResolveAll(resolve, tokens[..i + 1]) ==
      match t
      case Err(e) => Err(e)
      case Ok(None) => Ok(Resolution(prev.valid, prev.invalid + [tokens[i]]))
      case Ok(Some(id)) => Ok(Resolution(prev.valid + [id], prev.invalid))
  {
    assert tokens[..i + 1][..i] == tokens[..i];
  }

  /** Once a prefix of the tokens fails, the whole loop fails the same way. */
  lemma {:induction false} ResolveAllStops(resolve: Resolver, tokens: seq<string>, n: nat)
    requires n <= |tokens| && ResolveAll(resolve, tokens[..n]).Err?
    ensures ResolveAll(resolve, tokens) == ResolveAll(resolve, tokens[..n])
    decreases |tokens| - n
  {
    if n < |tokens| {
      var m := |tokens| - 1;
      assert tokens[..m][..n] == tokens[..n];
      ResolveAllStops(resolve, tokens[..m], n);
    } else {
      assert tokens[..n] == tokens;
    }
  }

  /**
   * _parse_employee_identifiers (ui_components.py:7-42): blank text gives nothing; a
   * missing column disables its kind of token, except that an Email column without a
   * Standard ID column fails; the valid IDs come back each once, in order of first
   * appearance.
   */
  function ParseIdentifiers(text: string, employees: Frame): (r: Result<Resolution, Failure>)
    ensures r.Ok? ==> Distinct(r.value.valid)
  {
    var tokens := Tokens(text);
    if tokens == [] then Ok(Resolution([], []))
    else
      var hasEmail, hasId := Email in employees.columns, StandardId in employees.columns;
      if hasEmail && !hasId then Err(MissingColumn(StandardId))
      else
        match ResolveAll(Resolve(SelectorRules(hasEmail, hasId), employees.rows), tokens)
        case Err(e) => Err(e)
        case Ok(res) => Ok(Resolution(Dedup(res.valid), res.invalid))
  }

  /**
   * No tokens give nothing, whatever the columns; otherwise an Email column without a
   * Standard ID column fails.
   */
  lemma ParseIdentifiersEdges(text: string, employees: Frame)
    ensures Tokens(text) == [] ==> ParseIdentifiers(text, employees) == Ok(Resolution([], []))
    ensures Tokens(text) != [] && Email in employees.columns && StandardId !in employees.columns ==>
      ParseIdentifiers(text, employees) == Err(MissingColumn(StandardId))
  {
  }

  /**
   * The selector's valid IDs are exactly the IDs its tokens name, none of them empty
   * and each the Standard ID of an employee row, in order of first appearance.
   */
  lemma ParseIdentifiersMeaning(text: string, employees: Frame)
    requires Tokens(text) != [] && ParseIdentifiers(text, employees).Ok?
    ensures var tokens, res := Tokens(text), ParseIdentifiers(text, employees).value;
      var rules := SelectorRules(Email in employees.columns, StandardId in employees.columns);
      && (forall x :: x in res.valid <==> exists t :: t in tokens && ResolveToken(rules, employees.rows, t) == Ok(Some(x)))
      && (forall x :: x in res.valid ==> x != [] && Known(employees.rows, x))
      && res.invalid == Unresolved(Resolve(rules, employees.rows), tokens)
      && var found := ResolveAll(Resolve(rules, employees.rows), tokens).value.valid;
         forall i, j :: 0 <= i < j < |res.valid| ==> FirstIndex(found, res.valid[i]) < FirstIndex(found, res.valid[j])
  {
    var tokens := Tokens(text);
    var rules := SelectorRules(Email in employees.columns, StandardId in employees.columns);
    DedupOrder(ResolveAll(Resolve(rules, employees.rows), tokens).value.valid);
    TokensClean(text);
    ResolveAllSides(Resolve(rules, employees.rows), tokens);
    ResolvedAreKnown(rules, employees.rows, tokens);
    InvalidInOrder(Resolve(rules, employees.rows), tokens);
  }

  /** The selector's loop over the tokens (ui_components.py:21-32), valid IDs in order. */
  method CollectSelectorIds(hasEmail: bool, hasId: bool, rows: seq<Row>, tokens: seq<string>)
    returns (r: Result<Resolution, Failure>)
    ensures r == ResolveAll(Resolve(SelectorRules(hasEmail, hasId), rows), tokens)
  {
    ghost var resolve := Resolve(SelectorRules(hasEmail, hasId), rows);
    var validIds: seq<string> := [];
    var invalid: seq<string> := [];
    for i := 0 to |tokens|
      invariant ResolveAll(resolve, tokens[..i]) == Ok(Resolution(validIds, invalid))
    {
      var token := tokens[i];
      var t := CheckToken(SelectorRules(hasEmail, hasId), rows, token);
      ResolveAllStep(resolve, tokens, i, Resolution(validIds, invalid), t);
      if t.Err? {
        ResolveAllStops(resolve, tokens, i + 1);
        return Err(t.error);
      }
      var found := t.value;
      if found.Some? {
        validIds := validIds + [found.value];
      } else {
        invalid := invalid + [token];
      }
    }
    assert tokens[..|tokens|] == tokens;
    r := Ok(Resolution(validIds, invalid));
  }

  /**
   * _parse_employee_identifiers as written: the early return, the column check, the
   * loop, then the seen-set loop that keeps each ID once (ui_components.py:34-42).
   */
  method ParseEmployeeIdentifiers(text: string, employees: Frame) returns (r: Result<Resolution, Failure>)
    ensures r == ParseIdentifiers(text, employees)
  {
    var tokens := Tokens(text);
    if tokens == [] {
      return Ok(Resolution([], []));
    }
    var hasEmail, hasId := Email in employees.columns, StandardId in employees.columns;
    if hasEmail && !hasId {
      return Err(MissingColumn(StandardId));
    }
    var collected := CollectSelectorIds(hasEmail, hasId, employees.rows, tokens);
    if collected.Err? {
      return collected;
    }
    var unique := DedupInOrder(collected.value.valid);
    r := Ok(Resolution(unique, collected.value.invalid));
  }

  /** `f"{row['Standard ID']} - {row['Email']}"` (ui_components.py:81-83). */
  function OptionText(row: Row): string {
    Cell(row, StandardId) + " - " + Cell(row, Email)
  }

  /**
   * `opt.split(" - ")[0]` gives back the Standard ID of an option when the ID holds no
   * '-' (ui_components.py:90).
   */
  lemma OptionId(row: Row)
    requires '-' !in Cell(row, StandardId)
    ensures BeforeFirst(OptionText(row), " - ") == Cell(row, StandardId)
  {
    var id, s := Cell(row, StandardId), OptionText(row);
    var r := BeforeFirst(s, " - ");
    forall i | 0 <= i < |id| ensures !OccursAt(s, " - ", i) {
      NoEarlySeparator(id, Cell(row, Email), i);
    }
    assert OccursAt(s, " - ", |id|) by {
      assert s[|id|..|id| + 3] == " - ";
    }
    assert |r| == |id|;
    assert s[..|id|] == id;
  }

  /** " - " cannot start inside an ID without '-'. */
  lemma NoEarlySeparator(id: string, email: string, i: nat)
    requires '-' !in id && i < |id|
    ensures !OccursAt(id + " - " + email, " - ", i)
  {
    var s := id + " - " + email;
    if i + 1 < |id| {
      assert s[i + 1] == id[i + 1];
    } else {
      assert s[i + 1] == ' ';
    }
    if i + 3 <= |s| {
      assert s[i..i + 3][1] == s[i + 1];
    }
  }

  /**
   * The IDs employee_selector gathers before its final deduplication: those parsed from
   * the pasted text, those of the selected options, and those parsed from the uploaded
   * file; a failure while parsing the file is caught and contributes nothing, one while
   * parsing the pasted text is not (ui_components.py:63-115).
   */
  function Collected(employees: Frame, pasted: string, selected: seq<string>, uploaded: Option<string>): (r: Result<seq<string>, Failure>)
    ensures r.Err? <==> pasted != [] && ParseIdentifiers(pasted, employees).Err?
    ensures r.Ok? ==> forall x :: x in SelectedIds(selected) ==> x in r.value
    ensures r.Ok? && pasted == [] && uploaded.None? ==> r.value == SelectedIds(selected)
  {
    match PastedIds(employees, pasted)
    case Err(e) => Err(e)
    case Ok(ids) => Ok(ids + SelectedIds(selected) + UploadedIds(employees, uploaded))
  }

  /** The IDs parsed from the pasted text, none when it is empty (ui_components.py:63-70). */
  function PastedIds(employees: Frame, pasted: string): (r: Result<seq<string>, Failure>)
    ensures pasted == [] ==> r == Ok([])
    ensures r.Err? <==> pasted != [] && ParseIdentifiers(pasted, employees).Err?
    ensures r.Ok? ==> Distinct(r.value)
  {
    if pasted == [] then Ok([])
    else match ParseIdentifiers(pasted, employees)
      case Err(e) => Err(e)
      case Ok(res) => Ok(res.valid)
  }

  /** `[opt.split(" - ")[0] for opt in selected_options]` (ui_components.py:88-91). */
  function SelectedIds(selected: seq<string>): (r: seq<string>)
    ensures |r| == |selected|
  {
    seq(|selected|, i requires 0 <= i < |selected| => BeforeFirst(selected[i], " - "))
  }

  /** The IDs parsed from the uploaded file; a parse failure is caught (ui_components.py:96-113). */
  function UploadedIds(employees: Frame, uploaded: Option<string>): (r: seq<string>)
    ensures uploaded.None? ==> r == []
    ensures Distinct(r)
    ensures uploaded.Some? && ParseIdentifiers(uploaded.value, employees).Err? ==> r == []
  {
    match uploaded
    case None => []
    case Some(content) =>
      match ParseIdentifiers(content, employees)
      case Err(_) => []
      case Ok(res) => res.valid
  }

  /** An empty table, in rows or in columns: `employees_df.empty`. */
  predicate EmptyTable(f: Frame) {
    |f.rows| == 0 || |f.columns| == 0
  }

  /**
   * employee_selector (ui_components.py:45-128): nothing for an empty table, otherwise
   * the gathered IDs each once, in order of first appearance.
   */
  function Selection(employees: Frame, pasted: string, selected: seq<string>, uploaded: Option<string>): (r: Result<seq<string>, Failure>)
    ensures EmptyTable(employees) ==> r == Ok([])
    ensures r.Ok? ==> Distinct(r.value)
    ensures r.Ok? && !EmptyTable(employees) ==> (Collected(employees, pasted, selected, uploaded).Ok? &&
      forall x :: x in r.value <==> x in Collected(employees, pasted, selected, uploaded).value)
  {
    if EmptyTable(employees) then Ok([])
    else
      match Collected(employees, pasted, selected, uploaded)
      case Err(e) => Err(e)
      case Ok(ids) => Ok(Dedup(ids))
  }

  /** The selection keeps the order in which the IDs were first gathered. */
  lemma SelectionOrder(employees: Frame, pasted: string, selected: seq<string>, uploaded: Option<string>)
    requires !EmptyTable(employees)
    requires Selection(employees, pasted, selected, uploaded).Ok?
    ensures var ids := Collected(employees, pasted, selected, uploaded).value;
      var r := Selection(employees, pasted, selected, uploaded).value;
      forall i, j :: 0 <= i < j < |r| ==> FirstIndex(ids, r[i]) < FirstIndex(ids, r[j])
  {
    DedupOrder(Collected(employees, pasted, selected, uploaded).value);
  }

  lemma PastedOk(employees: Frame, pasted: string, ids: seq<string>)
    requires pasted != [] && ParseIdentifiers(pasted, employees).Ok? && ParseIdentifiers(pasted, employees).value.valid == ids
    ensures PastedIds(employees, pasted) == Ok(ids)
  {
  }

  lemma UploadedOk(employees: Frame, content: string, ids: seq<string>)
    requires ids == if ParseIdentifiers(content, employees).Ok? then ParseIdentifiers(content, employees).value.valid else []
    ensures UploadedIds(employees, Some(content)) == ids
  {
  }

  /** employee_selector as written: gather from the three sources, then the seen-set loop. */
  method EmployeeSelector(employees: Frame, pasted: string, selected: seq<string>, uploaded: Option<string>)
    returns (r: Result<seq<string>, Failure>)
    ensures r == Selection(employees, pasted, selected, uploaded)
  {
    if EmptyTable(employees) {
      return Ok([]);
    }
    var collected: seq<string> := [];
    if pasted != [] {
      var parsed := ParseEmployeeIdentifiers(pasted, employees);
      if parsed.Err? {
        return Err(parsed.error);
      }
      collected := parsed.value.valid;
    }
    assert PastedIds(employees, pasted) == Ok(collected) by {
      if pasted != [] {
        PastedOk(employees, pasted, collected);
      }
    }
    var fromSelect := seq(|selected|, i requires 0 <= i < |selected| => BeforeFirst(selected[i], " - "));
    collected := collected + fromSelect;
    var fromUpload: seq<string> := [];
    if uploaded.Some? {
      var parsed := ParseEmployeeIdentifiers(uploaded.value, employees);
      if parsed.Ok? {
        fromUpload := parsed.value.valid;
      }
    }
    assert UploadedIds(employees, uploaded) == fromUpload by {
      if uploaded.Some? {
        UploadedOk(employees, uploaded.value, fromUpload);
      }
    }
    collected := collected + fromUpload;
    var unique := DedupInOrder(collected);
    r := Ok(unique);
  }
}
