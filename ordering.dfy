/** `ORDER BY` over entry rows: the three orders the queries use, and a sort that produces them. */
module Ordering {
  import opened Dates
  import opened Models

  /** `created_at ASC`; `entry_date ASC, created_at ASC`; `entry_date DESC`. */
  datatype Order = CreatedAsc | DateThenCreatedAsc | DateDesc

  /** `a` may come before `b` in order `o`. Rows equal on the sort key may come in either order. */
  predicate InOrder(a: Entry, b: Entry, o: Order) {
    match o
    case CreatedAsc => a.createdAt <= b.createdAt
    case DateThenCreatedAsc => Before(a.entryDate, b.entryDate) || (a.entryDate == b.entryDate && a.createdAt <= b.createdAt)
    case DateDesc => NotAfter(b.entryDate, a.entryDate)
  }

  lemma InOrderTotal(a: Entry, b: Entry, o: Order)
    ensures InOrder(a, b, o) || InOrder(b, a, o)
  {
    OrderIsTotal(a.entryDate, b.entryDate);
  }

  lemma InOrderTransitive(a: Entry, b: Entry, c: Entry, o: Order)
    requires InOrder(a, b, o) && InOrder(b, c, o)
    ensures InOrder(a, c, o)
  {
    OrderIsTransitive(a.entryDate, b.entryDate, c.entryDate);
    OrderIsTransitive(c.entryDate, b.entryDate, a.entryDate);
  }

  predicate Sorted(s: seq<Entry>, o: Order) {
    forall i, j :: 0 <= i < j < |s| ==> InOrder(s[i], s[j], o)
  }

  /** `x` placed into the sorted `s` before the first row it may precede. */
  function Insert(x: Entry, s: seq<Entry>, o: Order): (r: seq<Entry>)
    requires Sorted(s, o)
    ensures Sorted(r, o)
    ensures multiset(r) == multiset(s) + multiset{x}
  {
    if s == [] then [x]
    else if InOrder(x, s[0], o) then
      assert forall j :: 0 < j < |s| ==> InOrder(x, s[j], o) by {
        forall j | 0 < j < |s| ensures InOrder(x, s[j], o) { InOrderTransitive(x, s[0], s[j], o); }
      }
      [x] + s
    else
      InOrderTotal(x, s[0], o);
      assert s == [s[0]] + s[1..];
      var t := Insert(x, s[1..], o);
      assert forall y :: y in t ==> InOrder(s[0], y, o) by {
        forall y | y in t ensures InOrder(s[0], y, o) {
          assert y in multiset(t);
          if y != x {
            assert y in multiset(s[1..]);
            assert y in s[1..];
          }
        }
      }
      [s[0]] + t
  }

  /** The rows of `s`, rearranged into order `o`. */
  function Sort(s: seq<Entry>, o: Order): (r: seq<Entry>)
    ensures Sorted(r, o)
    ensures multiset(r) == multiset(s)
  {
    if s == [] then []
    else
      assert s == [s[0]] + s[1..];
      Insert(s[0], Sort(s[1..], o), o)
  }
}
