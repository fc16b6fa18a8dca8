/** The sequence operations the queries are built from: first match, filter, pairwise properties. */
module Sequences {
  import opened Wrappers

  /** The index of the first element of `s` satisfying `p`, as a query's `.first()` finds it. */
  function FirstIndex<T>(s: seq<T>, p: T -> bool): (r: Option<nat>)
    ensures r.Some? ==> r.value < |s| && p(s[r.value])
    ensures r.Some? ==> forall j :: 0 <= j < r.value ==> !p(s[j])
    ensures r.None? <==> forall j :: 0 <= j < |s| ==> !p(s[j])
  {
    if s == [] then None
    else if p(s[0]) then Some(0)
    else match FirstIndex(s[1..], p)
      case None => None
      case Some(i) => Some(i + 1)
  }

  /** The elements of `s` satisfying `p`, in their original order: a `WHERE` clause. */
  function Filter<T(!new)>(s: seq<T>, p: T -> bool): (r: seq<T>)
    ensures |r| <= |s|
    ensures forall x :: x in r <==> x in s && p(x)
  {
    if s == [] then []
    else if p(s[0]) then [s[0]] + Filter(s[1..], p)
    else Filter(s[1..], p)
  }

  /** Filtering keeps every matching element with its multiplicity and drops every other one. */
  lemma {:induction false} FilterMultiset<T(!new)>(s: seq<T>, p: T -> bool, x: T)
    ensures multiset(Filter(s, p))[x] == if p(x) then multiset(s)[x] else 0
  {
    if s != [] {
      FilterMultiset(s[1..], p, x);
      assert s == [s[0]] + s[1..];
    }
  }

  /** Filtering a concatenation filters each part. */
  lemma {:induction false} FilterConcat<T(!new)>(a: seq<T>, b: seq<T>, p: T -> bool)
    ensures Filter(a + b, p) == Filter(a, p) + Filter(b, p)
  {
    if a == [] {
      assert a + b == b;
    } else {
      assert (a + b)[0] == a[0] && (a + b)[1..] == a[1..] + b;
      FilterConcat(a[1..], b, p);
    }
  }

  /** `rel` holds of every pair of elements taken in sequence order. */
  predicate Pairwise<T>(s: seq<T>, rel: (T, T) -> bool) {
    forall i, j :: 0 <= i < j < |s| ==> rel(s[i], s[j])
  }

  /** Filtering keeps the order of what it keeps, so it preserves any pairwise property. */
  lemma {:induction false} FilterPairwise<T(!new)>(s: seq<T>, p: T -> bool, rel: (T, T) -> bool)
    requires Pairwise(s, rel)
    ensures Pairwise(Filter(s, p), rel)
  {
    if s != [] {
      FilterPairwise(s[1..], p, rel);
      if p(s[0]) {
        var r := Filter(s, p);
        var t := Filter(s[1..], p);
        assert r == [s[0]] + t;
        forall i, j | 0 <= i < j < |r| ensures rel(r[i], r[j]) {
          if i == 0 {
            assert r[j] in t;
            assert r[j] in s[1..];
            var k :| 0 <= k < |s[1..]| && s[1..][k] == r[j];
            assert s[k + 1] == r[j];
          } else {
            assert r[i] == t[i - 1] && r[j] == t[j - 1];
          }
        }
      }
    }
  }

  predicate NoDuplicates<T(==)>(s: seq<T>) {
    forall i, j :: 0 <= i < j < |s| ==> s[i] != s[j]
  }

  /** A duplicate-free sequence whose every element is `x` holds `x` at most once. */
  lemma NoDuplicatesOfOne<T>(s: seq<T>, x: T)
    requires NoDuplicates(s)
    requires forall y :: y in s ==> y == x
    ensures |s| <= 1
  {
    if 1 < |s| {
      FirstTwoDiffer(s);
      assert false;
    }
  }

  lemma FirstTwoDiffer<T>(s: seq<T>)
    requires NoDuplicates(s) && 1 < |s|
    ensures s[0] in s && s[1] in s && s[0] != s[1]
  {
  }

  /** The elements of `s`, each kept once, at its last occurrence: a `DISTINCT`. */
  function Distinct<T(==,!new)>(s: seq<T>): (r: seq<T>)
    ensures NoDuplicates(r)
    ensures forall x :: x in r <==> x in s
  {
    if s == [] then []
    else
      var rest := Distinct(s[1..]);
      if s[0] in rest then rest else [s[0]] + rest
  }

  /** `f` applied to every element, in order: a list comprehension. */
  function Map<T, U>(s: seq<T>, f: T -> U): (r: seq<U>)
    ensures |r| == |s|
    ensures forall i :: 0 <= i < |s| ==> r[i] == f(s[i])
  {
    if s == [] then [] else [f(s[0])] + Map(s[1..], f)
  }
}

/** How pairwise properties behave under the three table edits: append, replace and remove. */
module SequenceEdits {
  import opened Sequences

  lemma AppendPairwise<T>(s: seq<T>, x: T, rel: (T, T) -> bool)
    requires Pairwise(s, rel)
    requires forall i :: 0 <= i < |s| ==> rel(s[i], x)
    ensures Pairwise(s + [x], rel)
  {
    var t := s + [x];
    forall i, j | 0 <= i < j < |t| ensures rel(t[i], t[j]) {
      if j < |s| {
        assert t[i] == s[i] && t[j] == s[j];
      } else {
        assert t[i] == s[i] && t[j] == x;
      }
    }
  }

  lemma RemovePairwise<T>(s: seq<T>, k: nat, rel: (T, T) -> bool)
    requires k < |s| && Pairwise(s, rel)
    ensures Pairwise(s[..k] + s[k + 1..], rel)
  {
    var t := s[..k] + s[k + 1..];
    forall i, j | 0 <= i < j < |t| ensures rel(t[i], t[j]) {
      var i', j' := if i < k then i else i + 1, if j < k then j else j + 1;
      assert t[i] == s[i'] && t[j] == s[j'];
    }
  }

  /** Replacing one element by one that relates to the others as the old one did keeps the property. */
  lemma ReplacePairwise<T>(s: seq<T>, k: nat, x: T, rel: (T, T) -> bool)
    requires k < |s| && Pairwise(s, rel)
    requires forall i :: 0 <= i < k ==> rel(s[i], x)
    requires forall j :: k < j < |s| ==> rel(x, s[j])
    ensures Pairwise(s[k := x], rel)
  {
  }
}
