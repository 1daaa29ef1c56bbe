/**
 * The Event ID a new event gets (app.py:551-557): a one-letter prefix for the category,
 * the date as YYYYMMDD, a dash, and a number one past the largest number already used
 * after that stem, written with at least two digits.
 */
module EventIds {
  import opened Wrappers
  import opened Text
  import opened Tables

  /** `prefix_map` (app.py:551): the categories with a letter of their own. */
  const PrefixMap: map<string, string> := map["Workshop" := "W", "Demo" := "D", "Meeting" := "M", "Conference" := "C"]

  /**
   * `prefix_map.get(event_category, "E")` (app.py:551-552): one letter, the initial of
   * the category for the four mapped ones, and E exactly for every other category.
   */
  function Prefix(category: string): (p: string)
    ensures |p| == 1 && '-' !in p
    ensures category in PrefixMap ==> |category| >= 1 && p == category[..1]
    ensures p == "E" <==> category !in PrefixMap
  {
    if category in PrefixMap then PrefixMap[category] else "E"
  }

  /** `f"{prefix}{date_str}-"`: what every ID of the category and day starts with. */
  function Stem(category: string, date: string): (s: string)
    ensures |s| == |date| + 2 && s[..1] == Prefix(category)
    ensures s[1..|s| - 1] == date && s[|s| - 1] == '-'
  {
    Prefix(category) + date + "-"
  }

  predicate IsDigit(c: char) {
    '0' <= c <= '9'
  }

  /** A non-empty run of decimal digits. */
  predicate AllDigits(s: string) {
    s != [] && forall i :: 0 <= i < |s| ==> IsDigit(s[i])
  }

  /** The number a run of digits writes, most significant digit first. */
  function Value(s: string): nat
    requires forall i :: 0 <= i < |s| ==> IsDigit(s[i])
    decreases |s|
  {
    if s == [] then 0
    else
      assert IsDigit(s[|s| - 1]);
      Value(s[..|s| - 1]) * 10 + (s[|s| - 1] as int - '0' as int)
  }

  /** `int(s)` on a suffix: a run of digits gives the number it writes, anything else fails. */
  function ParseInt(s: string): (r: Result<nat, Failure>)
    ensures r.Ok? <==> AllDigits(s)
    ensures r.Ok? ==> r.value == Value(s)
    ensures r.Err? ==> r.error == NotANumber(s)
  {
    if AllDigits(s) then Ok(Value(s)) else Err(NotANumber(s))
  }

  /** The character of one decimal digit. */
  function DigitChar(d: nat): (c: char)
    requires d < 10
    ensures IsDigit(c) && c as int - '0' as int == d
  {
    ('0' as int + d) as char
  }

  /** The decimal digits of n, with no leading zero. */
  function Decimal(n: nat): (s: string)
    ensures AllDigits(s)
    ensures n >= 10 ==> |s| >= 2
    ensures n > 0 ==> s[0] != '0'
    decreases n
  {
    if n < 10 then [DigitChar(n)]
    else Decimal(n / 10) + [DigitChar(n % 10)]
  }

  /** `f"{n:02d}"`: the decimal digits of n, with a leading zero when there is only one. */
  function Pad2(n: nat): (s: string)
    ensures AllDigits(s) && |s| >= 2
    ensures '-' !in s
  {
    if n < 10 then ['0', DigitChar(n)] else Decimal(n)
  }

  /** Reading the digits of n back gives n. */
  lemma {:induction false} DecimalValue(n: nat)
    ensures Value(Decimal(n)) == n
    decreases n
  {
    var s := Decimal(n);
    if n >= 10 {
      DecimalValue(n / 10);
      assert s[..|s| - 1] == Decimal(n / 10);
    } else {
      assert s[..|s| - 1] == [];
    }
  }

  /** A leading zero does not change the number. */
  lemma {:induction false} LeadingZero(s: string)
    requires forall i :: 0 <= i < |s| ==> IsDigit(s[i])
    ensures Value(['0'] + s) == Value(s)
    decreases |s|
  {
    var t := ['0'] + s;
    if s == [] {
      assert t[..|t| - 1] == [];
    } else {
      LeadingZero(s[..|s| - 1]);
      assert t[..|t| - 1] == ['0'] + s[..|s| - 1];
    }
  }

  /** `int(f"{n:02d}") == n`: the padded number parses back to itself. */
  lemma Pad2RoundTrip(n: nat)
    ensures ParseInt(Pad2(n)) == Ok(n)
  {
    if n < 10 {
      DecimalValue(n);
      LeadingZero([DigitChar(n)]);
      assert Pad2(n) == ['0'] + [DigitChar(n)];
    } else {
      DecimalValue(n);
    }
  }

  /** `str.split("-").str[-1].astype(int)` on one existing ID. */
  function SuffixOf(id: string): (r: Result<nat, Failure>)
    ensures r.Ok? <==> AllDigits(AfterLast(id, '-'))
    ensures r.Ok? ==> r.value == Value(AfterLast(id, '-'))
    ensures r.Err? ==> r.error == NotANumber(AfterLast(id, '-'))
  {
    ParseInt(AfterLast(id, '-'))
  }

  /**
   * The numbers after the stem, one per existing ID that starts with it, in table
   * order; the first such ID whose last piece is not a number makes the whole step fail
   * (app.py:555-556).
   */
  function Suffixes(ids: seq<string>, stem: string): (r: Result<seq<nat>, Failure>)
    ensures r.Ok? ==> |r.value| <= |ids|
    ensures r.Err? ==> r.error.NotANumber?
    decreases |ids|
  {
    if ids == [] then Ok([])
    else
      var init, id := ids[..|ids| - 1], ids[|ids| - 1];
      match Suffixes(init, stem)
      case Err(e) => Err(e)
      case Ok(ns) =>
        if !(stem <= id) then Ok(ns)
        else
          match SuffixOf(id)
          case Err(e) => Err(e)
          case Ok(n) => Ok(ns + [n])
  }

  /**
   * Suffixes fails exactly when some ID with the stem has a last piece that is not a
   * number; otherwise it holds the number of every such ID and nothing else.
   */
  lemma {:induction false} SuffixesMeaning(ids: seq<string>, stem: string)
    ensures var r := Suffixes(ids, stem);
      && (r.Err? <==> exists id :: id in ids && stem <= id && SuffixOf(id).Err?)
      && (r.Ok? ==> forall id :: id in ids && stem <= id ==> SuffixOf(id).Ok? && SuffixOf(id).value in r.value)
      && (r.Ok? ==> forall n :: n in r.value ==> exists id :: id in ids && stem <= id && SuffixOf(id) == Ok(n))
    decreases |ids|
  {
    if ids != [] {
      var init, id := ids[..|ids| - 1], ids[|ids| - 1];
      assert ids == init + [id];
      SuffixesMeaning(init, stem);
    }
  }

  /** With no ID starting with the stem there are no numbers. */
  lemma {:induction false} SuffixesNone(ids: seq<string>, stem: string)
    requires forall id :: id in ids ==> !(stem <= id)
    ensures Suffixes(ids, stem) == Ok([])
    decreases |ids|
  {
    if ids != [] {
      var init, last := ids[..|ids| - 1], ids[|ids| - 1];
      assert last in ids;
      forall id | id in init ensures !(stem <= id) {
        assert id in ids;
      }
      SuffixesNone(init, stem);
    }
  }

  /** The largest of a non-empty list of numbers: `.max()`. */
  function MaxOf(ns: seq<nat>): (m: nat)
    requires ns != []
    ensures m in ns
    ensures forall n :: n in ns ==> n <= m
  {
    if |ns| == 1 then ns[0]
    else
      var rest := MaxOf(ns[1..]);
      assert forall n :: n in ns ==> n == ns[0] || n in ns[1..];
      if ns[0] >= rest then ns[0] else rest
  }

  /**
   * `next_seq` (app.py:555-556): 1 when no ID has the stem, otherwise one past the
   * largest number used.
   */
  function NextNumber(ns: seq<nat>): (k: nat)
    ensures ns == [] ==> k == 1
    ensures ns != [] ==> k - 1 in ns
    ensures forall n :: n in ns ==> n < k
  {
    if ns == [] then 1 else MaxOf(ns) + 1
  }

  /**
   * The new event's ID (app.py:551-557): the stem followed by the next number, padded
   * to two digits, or the failure of an existing suffix that is not a number.
   */
  function NextEventId(existing: seq<string>, category: string, date: string): (r: Result<string, Failure>)
    ensures r.Ok? ==> Stem(category, date) <= r.value
    ensures r.Ok? ==> var digits := r.value[|Stem(category, date)|..]; AllDigits(digits) && |digits| >= 2
  {
    var stem := Stem(category, date);
    match Suffixes(existing, stem)
    case Err(e) => Err(e)
    case Ok(ns) => Ok(stem + Pad2(NextNumber(ns)))
  }

  /** The new ID's last piece is the next number, and it parses back to it. */
  lemma NextEventIdSuffix(existing: seq<string>, category: string, date: string)
    requires Suffixes(existing, Stem(category, date)).Ok?
    ensures var k := NextNumber(Suffixes(existing, Stem(category, date)).value);
      SuffixOf(NextEventId(existing, category, date).value) == Ok(k)
  {
    var k := NextNumber(Suffixes(existing, Stem(category, date)).value);
    AfterLastOf(Prefix(category) + date, Pad2(k), '-');
    assert Stem(category, date) + Pad2(k) == Prefix(category) + date + ['-'] + Pad2(k);
    Pad2RoundTrip(k);
  }

  /** The new ID fails only when an existing ID with the stem has a suffix that is not a number. */
  lemma NextEventIdFails(existing: seq<string>, category: string, date: string)
    ensures NextEventId(existing, category, date).Err? <==>
      exists id :: id in existing && Stem(category, date) <= id && SuffixOf(id).Err?
  {
    SuffixesMeaning(existing, Stem(category, date));
  }

  /**
   * The new ID's number is 1 when no existing ID has the stem, and above the number of
   * every existing ID that has it.
   */
  lemma NextEventIdNumber(existing: seq<string>, category: string, date: string)
    requires NextEventId(existing, category, date).Ok?
    ensures var stem, r := Stem(category, date), NextEventId(existing, category, date).value;
      && SuffixOf(r).Ok?
      && ((forall id :: id in existing ==> !(stem <= id)) ==> SuffixOf(r) == Ok(1))
      && (forall id :: id in existing && stem <= id ==> SuffixOf(id).Ok? && SuffixOf(id).value < SuffixOf(r).value)
  {
    var stem := Stem(category, date);
    SuffixesMeaning(existing, stem);
    NextEventIdSuffix(existing, category, date);
    if forall id :: id in existing ==> !(stem <= id) {
      SuffixesNone(existing, stem);
    }
  }

  /** When some existing ID has the stem, the new number is one past the largest of theirs. */
  lemma NextEventIdAfterLargest(existing: seq<string>, category: string, date: string)
    requires NextEventId(existing, category, date).Ok?
    requires exists id :: id in existing && Stem(category, date) <= id
    ensures var stem, r := Stem(category, date), NextEventId(existing, category, date).value;
      SuffixOf(r).Ok? && exists id :: id in existing && stem <= id && SuffixOf(id) == Ok(SuffixOf(r).value - 1)
  {
    var stem := Stem(category, date);
    var s := Suffixes(existing, stem);
    SuffixesMeaning(existing, stem);
    NextEventIdSuffix(existing, category, date);
    var id :| id in existing && stem <= id;
    assert SuffixOf(id).value in s.value;
    var m := NextNumber(s.value) - 1;
    assert m in s.value;
    var w :| w in existing && stem <= w && SuffixOf(w) == Ok(m);
  }

  /** The new ID is not the ID of any existing event. */
  lemma NextEventIdFresh(existing: seq<string>, category: string, date: string)
    requires NextEventId(existing, category, date).Ok?
    ensures NextEventId(existing, category, date).value !in existing
  {
    var stem, r := Stem(category, date), NextEventId(existing, category, date).value;
    NextEventIdNumber(existing, category, date);
    forall id | id in existing ensures id != r {
      if stem <= id {
        assert SuffixOf(id) != SuffixOf(r);
      } else {
        assert stem <= r;
      }
    }
  }
}
