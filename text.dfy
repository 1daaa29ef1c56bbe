/**
 * The Python string operations the tracker relies on: str.strip, str.split on a
 * one-character separator, str.join, str.startswith and taking the first piece of
 * a split on a longer separator.
 */
module Text {

  /** str.isspace for one character: Python's Unicode whitespace set. */
  predicate IsSpace(c: char) {
    ('\t' <= c <= '\r') || ('\U{1c}' <= c <= ' ') || c == '\U{85}' || c == '\U{a0}'
    || c == '\U{1680}' || ('\U{2000}' <= c <= '\U{200a}') || c == '\U{2028}' || c == '\U{2029}'
    || c == '\U{202f}' || c == '\U{205f}' || c == '\U{3000}'
  }

  /** str.lstrip(): the suffix left after dropping leading whitespace. */
  function TrimStart(s: string): (r: string)
    ensures |r| <= |s| && r == s[|s| - |r|..]
    ensures forall k :: 0 <= k < |s| - |r| ==> IsSpace(s[k])
    ensures r != [] ==> !IsSpace(r[0])
  {
    if s != [] && IsSpace(s[0]) then TrimStart(s[1..]) else s
  }

  /** str.rstrip(): the prefix left after dropping trailing whitespace. */
  function TrimEnd(s: string): (r: string)
    ensures |r| <= |s| && r == s[..|r|]
    ensures forall k :: |r| <= k < |s| ==> IsSpace(s[k])
    ensures r != [] ==> !IsSpace(r[|r| - 1])
  {
    if s != [] && IsSpace(s[|s| - 1]) then TrimEnd(s[..|s| - 1]) else s
  }

  /** Every character of s from position i up to position j is whitespace. */
  predicate SpaceBetween(s: string, i: nat, j: nat)
    requires i <= j <= |s|
  {
    forall k :: i <= k < j ==> IsSpace(s[k])
  }

  /**
   * str.strip(): the slice of the text left between its leading and its trailing
   * whitespace. It neither starts nor ends with whitespace, so it is the longest such
   * slice, and it is empty exactly when the input is blank.
   */
  function Strip(s: string): (r: string)
    ensures InnerSlice(s, r)
    ensures Trimmed(r)
    ensures r == [] <==> SpaceBetween(s, 0, |s|)
    ensures forall c :: c in r ==> c in s
  {
    StripBlank(s);
    StripSlice(s);
    StripEnds(s);
    StripWithin(s);
    TrimEnd(TrimStart(s))
  }

  /** Neither end of the text is whitespace. */
  predicate Trimmed(r: string) {
    r == [] || (!IsSpace(r[0]) && !IsSpace(r[|r| - 1]))
  }

  lemma StripEnds(s: string)
    ensures Trimmed(TrimEnd(TrimStart(s)))
  {
    var t := TrimStart(s);
    var r := TrimEnd(t);
    if r != [] {
      assert r[0] == t[0];
    }
  }

  lemma StripWithin(s: string)
    ensures forall c :: c in TrimEnd(TrimStart(s)) ==> c in s
  {
    var t := TrimStart(s);
    var r := TrimEnd(t);
    forall c | c in r ensures c in s {
      var k :| 0 <= k < |r| && r[k] == c;
      assert r[k] == t[k] == s[|s| - |t| + k];
    }
  }

  /** r is a slice of s with only whitespace before it and after it. */
  predicate InnerSlice(s: string, r: string) {
    exists i, j :: (0 <= i <= j <= |s| && r == s[i..j] && SpaceBetween(s, 0, i) && SpaceBetween(s, j, |s|))
  }

  lemma StripSlice(s: string)
    ensures InnerSlice(s, TrimEnd(TrimStart(s)))
  {
    var i, j := StripBounds(s);
    assert TrimEnd(TrimStart(s)) == s[i..j];
  }

  /** Where the stripped text starts and ends in s. */
  lemma StripBounds(s: string) returns (i: nat, j: nat)
    ensures i <= j <= |s| && TrimEnd(TrimStart(s)) == s[i..j]
    ensures SpaceBetween(s, 0, i) && SpaceBetween(s, j, |s|)
  {
    var t := TrimStart(s);
    i := |s| - |t|;
    var r := TrimEnd(t);
    j := i + |r|;
    SliceOfSuffix(s, t, r, i);
    TrailingSpace(s, t, i, |r|);
  }

  lemma SliceOfSuffix(s: string, t: string, r: string, i: nat)
    requires i <= |s| && t == s[i..] && |r| <= |t| && r == t[..|r|]
    ensures r == s[i..i + |r|]
  {
  }

  lemma TrailingSpace(s: string, t: string, i: nat, n: nat)
    requires i <= |s| && t == s[i..] && n <= |t|
    requires forall k :: n <= k < |t| ==> IsSpace(t[k])
    ensures SpaceBetween(s, i + n, |s|)
  {
    forall k | i + n <= k < |s| ensures IsSpace(s[k]) {
      assert s[k] == t[k - i];
    }
  }

  lemma StripBlank(s: string)
    ensures TrimEnd(TrimStart(s)) == [] <==> SpaceBetween(s, 0, |s|)
  {
    var t := TrimStart(s);
    if t == [] {
      assert forall k :: 0 <= k < |s| ==> IsSpace(s[k]);
    } else {
      assert t[0] == s[|s| - |t|];
      assert !IsSpace(s[|s| - |t|]);
    }
  }

  /** Text that Strip leaves as it is. */
  lemma StripUnchanged(s: string)
    requires Trimmed(s)
    ensures Strip(s) == s
  {
    assert TrimStart(s) == s;
  }

  /** str.join: the parts with the separator between consecutive parts. */
  function Join(sep: string, parts: seq<string>): string {
    if parts == [] then []
    else if |parts| == 1 then parts[0]
    else parts[0] + sep + Join(sep, parts[1..])
  }

  /**
   * str.split with a one-character separator: at least one piece, no piece holds
   * the separator, and joining the pieces gives the text back.
   */
  function Split(s: string, sep: char): (parts: seq<string>)
    ensures |parts| >= 1
    ensures forall i :: 0 <= i < |parts| ==> sep !in parts[i]
    ensures Join([sep], parts) == s
  {
    if s == [] then [[]]
    else
      var rest := Split(s[1..], sep);
      if s[0] == sep then
        assert ([[]] + rest)[1..] == rest;
        [[]] + rest
      else
        JoinExtendsFirst(sep, s[0], rest);
        [[s[0]] + rest[0]] + rest[1..]
  }

  lemma JoinExtendsFirst(sep: char, c: char, parts: seq<string>)
    requires |parts| >= 1
    ensures Join([sep], [[c] + parts[0]] + parts[1..]) == [c] + Join([sep], parts)
  {
    var q := [[c] + parts[0]] + parts[1..];
    if |parts| > 1 {
      assert q[1..] == parts[1..];
    }
  }

  lemma {:induction false} SplitWithoutSeparator(s: string, sep: char)
    requires sep !in s
    ensures Split(s, sep) == [s]
  {
    if s != [] {
      SplitWithoutSeparator(s[1..], sep);
    }
  }

  lemma {:induction false} SplitAfterPiece(a: string, b: string, sep: char)
    requires sep !in a
    ensures Split(a + [sep] + b, sep) == [a] + Split(b, sep)
  {
    if a == [] {
      assert a + [sep] + b == [sep] + b;
      assert ([sep] + b)[1..] == b;
    } else {
      var s := a + [sep] + b;
      assert s[1..] == a[1..] + [sep] + b;
      SplitAfterPiece(a[1..], b, sep);
      var rest := Split(s[1..], sep);
      assert rest[0] == a[1..] && rest[1..] == Split(b, sep);
      assert s[0] == a[0] && s[0] != sep;
      assert Split(s, sep) == [[a[0]] + rest[0]] + rest[1..];
      assert [a[0]] + a[1..] == a;
    }
  }

  /** Splitting a join gives the parts back when no part holds the separator. */
  lemma {:induction false} SplitOfJoin(parts: seq<string>, sep: char)
    requires parts != []
    requires forall i :: 0 <= i < |parts| ==> sep !in parts[i]
    ensures Split(Join([sep], parts), sep) == parts
  {
    if |parts| == 1 {
      SplitWithoutSeparator(parts[0], sep);
    } else {
      SplitOfJoin(parts[1..], sep);
      SplitAfterPiece(parts[0], Join([sep], parts[1..]), sep);
      assert parts == [parts[0]] + parts[1..];
    }
  }

  /** s.split(sep)[-1]: the text after the last separator (all of s when it has none). */
  function AfterLast(s: string, sep: char): (r: string)
    ensures sep !in r
  {
    var parts := Split(s, sep);
    parts[|parts| - 1]
  }

  /** The piece after the last separator is what followed it. */
  lemma {:induction false} AfterLastOf(a: string, b: string, sep: char)
    requires sep !in b
    ensures |Split(a + [sep] + b, sep)| >= 2
    ensures AfterLast(a + [sep] + b, sep) == b
  {
    var s := a + [sep] + b;
    if a == [] {
      assert s == [sep] + b && s[1..] == b;
      SplitWithoutSeparator(b, sep);
    } else {
      assert s[1..] == a[1..] + [sep] + b;
      AfterLastOf(a[1..], b, sep);
    }
  }

  /** The separator text starts at index i of s. */
  predicate OccursAt(s: string, sep: string, i: nat) {
    i + |sep| <= |s| && s[i..i + |sep|] == sep
  }

  /** s.split(sep)[0] for a non-empty separator: the text before its first occurrence. */
  function BeforeFirst(s: string, sep: string): (r: string)
    requires sep != []
    ensures r <= s
    ensures forall i :: 0 <= i < |r| ==> !OccursAt(s, sep, i)
    ensures r == s || OccursAt(s, sep, |r|)
  {
    if |s| < |sep| then s
    else if s[..|sep|] == sep then []
    else
      var r' := BeforeFirst(s[1..], sep);
      assert forall i :: 0 < i <= |r'| + 1 ==> (OccursAt(s, sep, i) <==> OccursAt(s[1..], sep, i - 1)) by {
        forall i | 0 < i <= |r'| + 1 ensures OccursAt(s, sep, i) <==> OccursAt(s[1..], sep, i - 1) {
          OccursShift(s, sep, i);
        }
      }
      [s[0]] + r'
  }

  /** Past the first character, the separator occurs in s where it occurs in s[1..], one later. */
  lemma OccursShift(s: string, sep: string, i: nat)
    requires 0 < i <= |s|
    ensures OccursAt(s, sep, i) <==> OccursAt(s[1..], sep, i - 1)
  {
    if i + |sep| <= |s| {
      assert s[i..i + |sep|] == s[1..][i - 1..i - 1 + |sep|];
    }
  }
}
