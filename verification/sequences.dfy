/** Generic sequence operations: `Array.prototype.filter`, and the de-duplication
    `Array.from(new Set(xs))`, which keeps each value at its first occurrence. */
module Sequences {

  /** `Array.prototype.filter`: keeps, in order, the elements that satisfy `keep`. */
  function Filter<T>(keep: T -> bool, s: seq<T>): (r: seq<T>)
    ensures |r| <= |s|
    ensures forall k :: 0 <= k < |r| ==> r[k] in s && keep(r[k])
  {
    if |s| == 0 then []
    else (if keep(s[0]) then [s[0]] else []) + Filter(keep, s[1..])
  }

  /** Filtering a concatenation filters each half in turn, so order is kept. */
  lemma {:induction false} FilterConcat<T>(keep: T -> bool, a: seq<T>, b: seq<T>)
    ensures Filter(keep, a + b) == Filter(keep, a) + Filter(keep, b)
  {
    if |a| == 0 {
      assert a + b == b;
    } else {
      assert (a + b)[1..] == a[1..] + b;
      FilterConcat(keep, a[1..], b);
    }
  }

  /** When every element is kept the filter is the identity. */
  lemma {:induction false} FilterKeepsAll<T>(keep: T -> bool, s: seq<T>)
    requires forall k :: 0 <= k < |s| ==> keep(s[k])
    ensures Filter(keep, s) == s
  {
    if |s| > 0 {
      FilterKeepsAll(keep, s[1..]);
    }
  }

  /** The filter is empty exactly when no element is kept. */
  lemma {:induction false} FilterEmptyIff<T>(keep: T -> bool, s: seq<T>)
    ensures Filter(keep, s) == [] <==> forall k :: 0 <= k < |s| ==> !keep(s[k])
  {
    if |s| > 0 {
      FilterEmptyIff(keep, s[1..]);
      assert forall k :: 1 <= k < |s| ==> s[k] == s[1..][k - 1];
    }
  }

  predicate NoDuplicates<T(==)>(s: seq<T>) {
    forall i, j :: 0 <= i < j < |s| ==> s[i] != s[j]
  }

  /** Insertion order of a JavaScript `Set` built from `xs`: each value once,
      at the position of its first occurrence. */
  function Distinct<T(==)>(xs: seq<T>): (r: seq<T>)
    ensures NoDuplicates(r)
    ensures forall k :: 0 <= k < |r| ==> r[k] in xs
    ensures forall k :: 0 <= k < |xs| ==> xs[k] in r
  {
    if |xs| == 0 then []
    else
      var d := Distinct(xs[..|xs| - 1]);
      assert xs == xs[..|xs| - 1] + [xs[|xs| - 1]];
      if xs[|xs| - 1] in d then d else d + [xs[|xs| - 1]]
  }

  /** Appending values never reorders what is already in the set: the
      distinct values of a prefix are a prefix of the distinct values of the whole. */
  lemma {:induction false} DistinctPrefix<T>(xs: seq<T>, ys: seq<T>)
    ensures Distinct(xs) <= Distinct(xs + ys)
    decreases |ys|
  {
    if |ys| == 0 {
      assert xs + ys == xs;
    } else {
      var ys' := ys[..|ys| - 1];
      DistinctPrefix(xs, ys');
      assert (xs + ys)[..|xs + ys| - 1] == xs + ys';
    }
  }

  /** First-occurrence order: if `xs[j]` occurs for the first time at `j`, every
      value occurring before `j` precedes it in the de-duplicated sequence. */
  lemma DistinctFirstOccurrenceOrder<T>(xs: seq<T>, i: nat, j: nat)
    requires i < j < |xs|
    requires xs[j] !in xs[..j]
    ensures forall a, b ::
              0 <= a < |Distinct(xs)| && 0 <= b < |Distinct(xs)| &&
              Distinct(xs)[a] == xs[i] && Distinct(xs)[b] == xs[j]
              ==> a < b
  {
    var r := Distinct(xs);
    var p := Distinct(xs[..j]);
    DistinctPrefix(xs[..j], xs[j..]);
    assert xs[..j] + xs[j..] == xs;
    assert xs[i] in xs[..j];
    forall a, b | 0 <= a < |r| && 0 <= b < |r| && r[a] == xs[i] && r[b] == xs[j]
      ensures a < b
    {
      var a' :| 0 <= a' < |p| && p[a'] == xs[i];
      assert r[a'] == xs[i];
      if b < |p| {
        assert false;
      }
    }
  }

  /** The imperative de-duplication: one pass, remembering what has been seen
      in a set, exactly as `new Set(xs)` followed by `Array.from` does. */
  method Dedupe<T(==)>(xs: seq<T>) returns (r: seq<T>)
    ensures r == Distinct(xs)
  {
    var seen: set<T> := {};
    r := [];
    for i := 0 to |xs|
      invariant r == Distinct(xs[..i])
      invariant seen == set x | x in r
    {
      assert xs[..i + 1][..i] == xs[..i];
      if xs[i] !in seen {
        seen := seen + {xs[i]};
        r := r + [xs[i]];
      }
    }
    assert xs[..|xs|] == xs;
  }
}
