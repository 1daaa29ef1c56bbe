/** Sequences of strings: their element sets, duplicate-freedom and order-preserving deduplication. */
module Sequences {

  function Elems(xs: seq<string>): set<string> {
    set x | x in xs
  }

  predicate Distinct(xs: seq<string>) {
    forall i, j :: 0 <= i < j < |xs| ==> xs[i] != xs[j]
  }

  /** A duplicate-free sequence has as many elements as its set. */
  lemma {:induction false} DistinctCard(xs: seq<string>)
    requires Distinct(xs)
    ensures |Elems(xs)| == |xs|
  {
    if xs != [] {
      var init := xs[..|xs| - 1];
      DistinctCard(init);
      assert Elems(xs) == Elems(init) + {xs[|xs| - 1]};
      assert xs[|xs| - 1] !in Elems(init);
    }
  }

  lemma ElemsConcat(xs: seq<string>, ys: seq<string>)
    ensures Elems(xs + ys) == Elems(xs) + Elems(ys)
  {
  }

  /** The members of a non-empty list: those before its last element, and that element. */
  lemma LastSplit(xs: seq<string>)
    requires xs != []
    ensures forall x :: x in xs <==> x in xs[..|xs| - 1] || x == xs[|xs| - 1]
  {
    assert xs == xs[..|xs| - 1] + [xs[|xs| - 1]];
  }

  /** A prefix one longer is the shorter prefix and the next element. */
  lemma PrefixSnoc(xs: seq<string>, k: nat)
    requires k < |xs|
    ensures xs[..k + 1] == xs[..k] + [xs[k]]
  {
  }

  /** The position of the first occurrence of x. */
  function FirstIndex(xs: seq<string>, x: string): (k: nat)
    requires x in xs
    ensures k < |xs| && xs[k] == x
    ensures forall j :: 0 <= j < k ==> xs[j] != x
  {
    if xs[0] == x then 0 else 1 + FirstIndex(xs[1..], x)
  }

  lemma FirstIndexInPrefix(xs: seq<string>, n: nat, x: string)
    requires n <= |xs| && x in xs[..n]
    ensures x in xs && FirstIndex(xs, x) == FirstIndex(xs[..n], x)
  {
    var a, b := FirstIndex(xs, x), FirstIndex(xs[..n], x);
    assert xs[b] == x;
    assert a <= b;
    assert xs[..n][a] == x;
  }

  /**
   * The elements of xs, each once, in order of first appearance: the seen-set loop
   * of ui_components.py:35-40 and 118-123 as a function.
   */
  function Dedup(xs: seq<string>): (r: seq<string>)
    ensures Distinct(r)
    ensures forall x :: x in r <==> x in xs
    ensures |r| <= |xs|
  {
    if xs == [] then []
    else
      var d := Dedup(xs[..|xs| - 1]);
      var x := xs[|xs| - 1];
      assert xs == xs[..|xs| - 1] + [x];
      if x in d then d else d + [x]
  }

  /** Deduplicating one more element: it is kept exactly when it is new. */
  lemma DedupSnoc(xs: seq<string>, x: string)
    ensures Dedup(xs + [x]) == if x in Dedup(xs) then Dedup(xs) else Dedup(xs) + [x]
  {
    assert (xs + [x])[..|xs|] == xs;
  }

  /** Dedup keeps the order in which elements first appear. */
  lemma {:induction false} DedupOrder(xs: seq<string>)
    ensures forall i, j :: 0 <= i < j < |Dedup(xs)| ==> FirstIndex(xs, Dedup(xs)[i]) < FirstIndex(xs, Dedup(xs)[j])
  {
    if xs != [] {
      var n := |xs| - 1;
      var init := xs[..n];
      var d := Dedup(init);
      var x := xs[n];
      DedupOrder(init);
      assert xs[..n] == init;
      forall y | y in d ensures FirstIndex(xs, y) == FirstIndex(init, y) && FirstIndex(xs, y) < n {
        FirstIndexInPrefix(xs, n, y);
      }
      if x !in d {
        assert x !in init;
        assert FirstIndex(xs, x) == n;
      }
    }
  }

  /** A duplicate-free sequence is its own deduplication. */
  lemma {:induction false} DedupDistinct(xs: seq<string>)
    requires Distinct(xs)
    ensures Dedup(xs) == xs
  {
    if xs != [] {
      var init := xs[..|xs| - 1];
      DedupDistinct(init);
      assert xs[|xs| - 1] !in init;
      assert init + [xs[|xs| - 1]] == xs;
    }
  }

  /**
   * The seen-set loop itself: walk the input once, keeping the elements not seen before.
   */
  method DedupInOrder(xs: seq<string>) returns (r: seq<string>)
    ensures r == Dedup(xs)
  {
    var seen: set<string> := {};
    r := [];
    for i := 0 to |xs|
      invariant r == Dedup(xs[..i])
      invariant seen == Elems(r)
    {
      assert xs[..i + 1][..i] == xs[..i];
      if xs[i] !in seen {
        seen := seen + {xs[i]};
        r := r + [xs[i]];
      }
    }
    assert xs[..|xs|] == xs;
  }

  /** The items that are not the empty string, in order (Python's `if item` filter). */
  function DropEmpty(xs: seq<string>): (r: seq<string>)
    ensures forall i :: 0 <= i < |r| ==> r[i] != []
    ensures forall x :: x in r <==> x in xs && x != []
    ensures (forall i :: 0 <= i < |xs| ==> xs[i] != []) ==> r == xs
  {
    if xs == [] then []
    else
      assert xs == [xs[0]] + xs[1..];
      (if xs[0] == [] then [] else [xs[0]]) + DropEmpty(xs[1..])
  }

  /**
   * r lists items of xs at the increasing positions idx, and idx takes every position
   * whose item is not empty.
   */
  ghost predicate NonEmptyInOrder(xs: seq<string>, r: seq<string>, idx: seq<nat>) {
    && |idx| == |r|
    && (forall k :: 0 <= k < |idx| ==> idx[k] < |xs| && r[k] == xs[idx[k]])
    && (forall k1, k2 :: 0 <= k1 < k2 < |idx| ==> idx[k1] < idx[k2])
    && (forall i :: 0 <= i < |xs| && xs[i] != [] ==> i in idx)
  }

  /**
   * DropEmpty keeps the non-empty items in their input order, repeats included: an
   * increasing choice of input positions lists the result, and it takes every position
   * whose item is not empty.
   */
  lemma {:induction false} DropEmptyInOrder(xs: seq<string>) returns (idx: seq<nat>)
    ensures NonEmptyInOrder(xs, DropEmpty(xs), idx)
    decreases |xs|
  {
    if xs == [] {
      idx := [];
    } else {
      var rest := DropEmptyInOrder(xs[1..]);
      assert xs == [xs[0]] + xs[1..];
      idx := InOrderCons(xs[0], xs[1..], DropEmpty(xs[1..]), rest);
    }
  }

  /** One more item in front: the positions shift by one, and the item's own is added when it is kept. */
  lemma InOrderCons(x: string, tail: seq<string>, d: seq<string>, rest: seq<nat>) returns (idx: seq<nat>)
    requires NonEmptyInOrder(tail, d, rest)
    ensures NonEmptyInOrder([x] + tail, (if x == [] then [] else [x]) + d, idx)
  {
    var shifted := seq(|rest|, k requires 0 <= k < |rest| => rest[k] + 1);
    InOrderShift(x, tail, d, rest, shifted);
    if x == [] {
      idx := shifted;
      assert [] + d == d;
    } else {
      idx := [0] + shifted;
      InOrderKeep(x, tail, d, shifted);
    }
  }

  /** Past a first element, the positions of the rest move up by one. */
  lemma InOrderShift(x: string, tail: seq<string>, d: seq<string>, rest: seq<nat>, shifted: seq<nat>)
    requires NonEmptyInOrder(tail, d, rest)
    requires |shifted| == |rest| && forall k :: 0 <= k < |rest| ==> shifted[k] == rest[k] + 1
    ensures |shifted| == |d|
    ensures forall k :: 0 <= k < |shifted| ==> 0 < shifted[k] < |[x] + tail| && d[k] == ([x] + tail)[shifted[k]]
    ensures forall k1, k2 :: 0 <= k1 < k2 < |shifted| ==> shifted[k1] < shifted[k2]
    ensures forall i :: 0 < i < |[x] + tail| && ([x] + tail)[i] != [] ==> i in shifted
  {
    var xs := [x] + tail;
    forall k | 0 <= k < |shifted| ensures 0 < shifted[k] < |xs| && d[k] == xs[shifted[k]] {
      assert xs[rest[k] + 1] == tail[rest[k]];
    }
    forall i | 0 < i < |xs| && xs[i] != [] ensures i in shifted {
      assert xs[i] == tail[i - 1];
      var k :| 0 <= k < |rest| && rest[k] == i - 1;
      assert shifted[k] == i;
    }
  }

  /** A non-empty first element takes position 0 in front of the shifted positions. */
  lemma InOrderKeep(x: string, tail: seq<string>, d: seq<string>, shifted: seq<nat>)
    requires x != [] && |shifted| == |d|
    requires forall k :: 0 <= k < |shifted| ==> 0 < shifted[k] < |[x] + tail| && d[k] == ([x] + tail)[shifted[k]]
    requires forall k1, k2 :: 0 <= k1 < k2 < |shifted| ==> shifted[k1] < shifted[k2]
    requires forall i :: 0 < i < |[x] + tail| && ([x] + tail)[i] != [] ==> i in shifted
    ensures NonEmptyInOrder([x] + tail, [x] + d, [0] + shifted)
  {
    var idx, r, xs := [0] + shifted, [x] + d, [x] + tail;
    forall k | 0 <= k < |idx| ensures idx[k] < |xs| && r[k] == xs[idx[k]] {
      if k > 0 {
        assert idx[k] == shifted[k - 1] && r[k] == d[k - 1];
      }
    }
    forall k1, k2 | 0 <= k1 < k2 < |idx| ensures idx[k1] < idx[k2] {
      if k1 > 0 {
        assert idx[k1] == shifted[k1 - 1] && idx[k2] == shifted[k2 - 1];
      }
    }
  }
}
