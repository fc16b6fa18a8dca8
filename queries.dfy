/** The four read-only entry endpoints, as functions of the `entries` table and the caller's id. Each
    filters on the owner first, so no query ever returns another user's row. */
module Queries {
  import opened Wrappers
  import opened Sequences
  import opened Dates
  import opened Models
  import opened Ordering

  predicate Listed(e: Entry, caller: nat, entryDate: Option<Date>) {
    e.userId == caller && (entryDate.Some? ==> e.entryDate == entryDate.value)
  }

  predicate InRange(e: Entry, caller: nat, start: Date, end: Date) {
    e.userId == caller && NotAfter(start, e.entryDate) && NotAfter(e.entryDate, end)
  }

  predicate Anniversary(e: Entry, caller: nat, today: Date) {
    e.userId == caller && e.entryDate.month == today.month && e.entryDate.day == today.day && e.entryDate != today
  }

  predicate InMonth(e: Entry, caller: nat, month: int, year: int) {
    e.userId == caller && e.entryDate.month == month && e.entryDate.year == year
  }

  /** The rows of `rows` satisfying `p`, each as often as there, arranged in order `o`. */
  function SelectSorted(rows: seq<Entry>, p: Entry -> bool, o: Order): (r: seq<Entry>)
    ensures forall e :: e in r <==> e in rows && p(e)
    ensures forall e :: multiset(r)[e] == if p(e) then multiset(rows)[e] else 0
    ensures Sorted(r, o)
  {
    var r := Sort(Filter(rows, p), o);
    assert forall e :: multiset(r)[e] == if p(e) then multiset(rows)[e] else 0 by {
      forall e ensures multiset(r)[e] == if p(e) then multiset(rows)[e] else 0 {
        FilterMultiset(rows, p, e);
      }
    }
    r
  }

  /** `GET /api/entries`: the caller's entries, only those dated `entryDate` when one is given,
      oldest first. */
  function GetEntries(rows: seq<Entry>, caller: nat, entryDate: Option<Date>): (r: seq<Entry>)
    ensures forall e :: e in r <==> e in rows && e.userId == caller && (entryDate.Some? ==> e.entryDate == entryDate.value)
    ensures forall e :: multiset(r)[e] == if Listed(e, caller, entryDate) then multiset(rows)[e] else 0
    ensures Sorted(r, CreatedAsc)
  {
    SelectSorted(rows, e => Listed(e, caller, entryDate), CreatedAsc)
  }

  /** `GET /api/entries/range`: the caller's entries dated from `start` to `end` inclusive, by date
      and then oldest first. */
  function GetEntriesRange(rows: seq<Entry>, caller: nat, start: Date, end: Date): (r: seq<Entry>)
    ensures forall e :: e in r <==> e in rows && e.userId == caller && NotAfter(start, e.entryDate) && NotAfter(e.entryDate, end)
    ensures forall e :: multiset(r)[e] == if InRange(e, caller, start, end) then multiset(rows)[e] else 0
    ensures Sorted(r, DateThenCreatedAsc)
  {
    SelectSorted(rows, e => InRange(e, caller, start, end), DateThenCreatedAsc)
  }

  /** `GET /api/entries/on-this-day`: the caller's entries sharing today's month and day but not dated
      today itself, latest date first. Later years are not excluded. */
  function OnThisDay(rows: seq<Entry>, caller: nat, today: Date): (r: seq<Entry>)
    ensures forall e :: e in r <==> e in rows && e.userId == caller && e.entryDate.month == today.month
                                    && e.entryDate.day == today.day && e.entryDate != today
    ensures forall e :: multiset(r)[e] == if Anniversary(e, caller, today) then multiset(rows)[e] else 0
    ensures Sorted(r, DateDesc)
  {
    SelectSorted(rows, e => Anniversary(e, caller, today), DateDesc)
  }

  /** No dates repeat among the renderings of distinct dates. */
  lemma {:induction false} RenderingKeepsDistinct(ds: seq<Date>)
    requires NoDuplicates(ds)
    ensures NoDuplicates(Map(ds, IsoFormat))
  {
    var ss := Map(ds, IsoFormat);
    forall i, j | 0 <= i < j < |ss| ensures ss[i] != ss[j] {
      IsoFormatInjective(ds[i], ds[j]);
    }
  }

  /** The distinct dates of the caller's entries in `month` of `year`. */
  function MonthDates(rows: seq<Entry>, caller: nat, month: int, year: int): (ds: seq<Date>)
    ensures NoDuplicates(ds)
    ensures forall d :: d in ds <==> exists e :: e in rows && InMonth(e, caller, month, year) && e.entryDate == d
  {
    var matching := Filter(rows, e => InMonth(e, caller, month, year));
    var ds := Distinct(Map(matching, (e: Entry) => e.entryDate));
    assert forall d :: d in ds ==> exists e :: e in rows && InMonth(e, caller, month, year) && e.entryDate == d by {
      forall d | d in ds ensures exists e :: e in rows && InMonth(e, caller, month, year) && e.entryDate == d {
        var k :| 0 <= k < |matching| && matching[k].entryDate == d;
        assert matching[k] in matching;
      }
    }
    assert forall e :: e in rows && InMonth(e, caller, month, year) ==> e.entryDate in ds by {
      forall e | e in rows && InMonth(e, caller, month, year) ensures e.entryDate in ds {
        assert e in matching;
        var k :| 0 <= k < |matching| && matching[k] == e;
        assert e.entryDate == Map(matching, (e: Entry) => e.entryDate)[k];
      }
    }
    ds
  }

  /** `GET /api/entries/dates-with-entries`: each date in `month` of `year` on which the caller has an
      entry, once, as `YYYY-MM-DD`, in no promised order. A month outside 1..12 is refused. */
  function DatesWithEntries(rows: seq<Entry>, caller: nat, month: int, year: int): (r: Result<seq<string>>)
    ensures r.Err? <==> !(1 <= month <= 12)
    ensures r.Err? ==> r.error == Validation
    ensures r.Ok? ==> NoDuplicates(r.value)
    ensures r.Ok? ==> forall s :: s in r.value ==>
      exists e :: e in rows && InMonth(e, caller, month, year) && s == IsoFormat(e.entryDate)
    ensures r.Ok? ==> forall e :: e in rows && InMonth(e, caller, month, year) ==> IsoFormat(e.entryDate) in r.value
  {
    if !(1 <= month <= 12) then Err(Validation)
    else
      var ds := MonthDates(rows, caller, month, year);
      RenderingKeepsDistinct(ds);
      RenderingSound(rows, caller, month, year, ds);
      RenderingComplete(rows, caller, month, year, ds);
      Ok(Map(ds, IsoFormat))
  }

  lemma RenderingSound(rows: seq<Entry>, caller: nat, month: int, year: int, ds: seq<Date>)
    requires forall d :: d in ds ==> exists e :: e in rows && InMonth(e, caller, month, year) && e.entryDate == d
    ensures forall s :: s in Map(ds, IsoFormat) ==>
      exists e :: e in rows && InMonth(e, caller, month, year) && s == IsoFormat(e.entryDate)
  {
    var strings := Map(ds, IsoFormat);
    forall s | s in strings ensures exists e :: e in rows && InMonth(e, caller, month, year) && s == IsoFormat(e.entryDate) {
      var i :| 0 <= i < |ds| && strings[i] == s;
      assert ds[i] in ds;
    }
  }

  lemma RenderingComplete(rows: seq<Entry>, caller: nat, month: int, year: int, ds: seq<Date>)
    requires forall e :: e in rows && InMonth(e, caller, month, year) ==> e.entryDate in ds
    ensures forall e :: e in rows && InMonth(e, caller, month, year) ==> IsoFormat(e.entryDate) in Map(ds, IsoFormat)
  {
    var strings := Map(ds, IsoFormat);
    forall e | e in rows && InMonth(e, caller, month, year) ensures IsoFormat(e.entryDate) in strings {
      var i :| 0 <= i < |ds| && ds[i] == e.entryDate;
      assert strings[i] == IsoFormat(e.entryDate);
    }
  }
}

/** Properties of the queries that relate them to each other and to the table's invariants. */
module QueryProperties {
  import opened Wrappers
  import opened Sequences
  import opened Dates
  import opened Models
  import opened Ordering
  import opened Queries

  /** An inverted range selects nothing. */
  lemma InvertedRangeIsEmpty(rows: seq<Entry>, caller: nat, start: Date, end: Date)
    requires Before(end, start)
    ensures GetEntriesRange(rows, caller, start, end) == []
  {
    var r := GetEntriesRange(rows, caller, start, end);
    if r != [] {
      assert r[0] in r;
      OrderIsTransitive(start, r[0].entryDate, end);
      OrderIsTotal(start, end);
      assert false;
    }
  }

  /** A one-day range lists the same rows as the exact-date listing, as a multiset. */
  lemma OneDayRangeMatchesListing(rows: seq<Entry>, caller: nat, d: Date)
    ensures multiset(GetEntriesRange(rows, caller, d, d)) == multiset(GetEntries(rows, caller, Some(d)))
  {
    var a, b := GetEntriesRange(rows, caller, d, d), GetEntries(rows, caller, Some(d));
    forall e ensures multiset(a)[e] == multiset(b)[e] {
      assert InRange(e, caller, d, d) <==> Listed(e, caller, Some(d)) by {
        OrderIsTotal(d, e.entryDate);
      }
    }
    assert multiset(a) == multiset(b);
  }

  /** No query shows one user another user's entry. */
  lemma ForeignEntriesInvisible(rows: seq<Entry>, caller: nat, e: Entry, entryDate: Option<Date>, start: Date, end: Date, today: Date)
    requires e.userId != caller
    ensures e !in GetEntries(rows, caller, entryDate)
    ensures e !in GetEntriesRange(rows, caller, start, end)
    ensures e !in OnThisDay(rows, caller, today)
  {
  }

  /** Every string of `dates-with-entries` is ten characters long and parses back to a date of one
      of the caller's entries in the requested month. */
  lemma DatesParseBack(rows: seq<Entry>, caller: nat, month: int, year: int, s: string)
    requires DatesWithEntries(rows, caller, month, year).Ok?
    requires s in DatesWithEntries(rows, caller, month, year).value
    ensures |s| == 10 && ParseIso(s).Some?
    ensures exists e :: e in rows && InMonth(e, caller, month, year) && ParseIso(s) == Some(e.entryDate)
  {
    var e :| e in rows && InMonth(e, caller, month, year) && s == IsoFormat(e.entryDate);
    ParseOfFormat(e.entryDate);
  }

  /** A sequence sorted by `created_at` that holds the same rows as one whose `created_at` strictly
      increases is that sequence: on distinct keys the order is fixed. */
  lemma {:induction false} StrictOrderIsUnique(a: seq<Entry>, b: seq<Entry>)
    requires Sorted(a, CreatedAsc) && Pairwise(b, CreatedEarlier)
    requires multiset(a) == multiset(b)
    ensures a == b
  {
    if a != [] {
      SameHeads(a, b);
      SameTails(a, b);
      StrictOrderIsUnique(a[1..], b[1..]);
      assert a == [a[0]] + a[1..] && b == [b[0]] + b[1..];
    }
  }

  lemma SameTails(a: seq<Entry>, b: seq<Entry>)
    requires a != [] && b != [] && a[0] == b[0] && multiset(a) == multiset(b)
    requires Sorted(a, CreatedAsc) && Pairwise(b, CreatedEarlier)
    ensures multiset(a[1..]) == multiset(b[1..])
    ensures Sorted(a[1..], CreatedAsc) && Pairwise(b[1..], CreatedEarlier)
  {
    assert a == [a[0]] + a[1..] && b == [b[0]] + b[1..];
    assert multiset(a[1..]) == multiset(a) - multiset{a[0]};
    assert multiset(b[1..]) == multiset(b) - multiset{b[0]};
  }

  lemma SameHeads(a: seq<Entry>, b: seq<Entry>)
    requires Sorted(a, CreatedAsc) && Pairwise(b, CreatedEarlier)
    requires multiset(a) == multiset(b) && a != []
    ensures b != [] && a[0] == b[0]
  {
    assert a[0] in multiset(b);
    var j :| 0 <= j < |b| && b[j] == a[0];
    assert b[0] in multiset(a);
    var i :| 0 <= i < |a| && a[i] == b[0];
    if j > 0 {
      assert InOrder(a[0], a[i], CreatedAsc) || i == 0;
      assert CreatedEarlier(b[0], b[j]);
    }
  }

  /** Because rows are stored in creation order, `GET /api/entries` lists them in table order. */
  lemma ListingFollowsTableOrder(rows: seq<Entry>, caller: nat, entryDate: Option<Date>)
    requires Pairwise(rows, CreatedEarlier)
    ensures GetEntries(rows, caller, entryDate) == Filter(rows, e => Listed(e, caller, entryDate))
  {
    var p := e => Listed(e, caller, entryDate);
    var r, f := GetEntries(rows, caller, entryDate), Filter(rows, p);
    FilterPairwise(rows, p, CreatedEarlier);
    forall e ensures multiset(r)[e] == multiset(f)[e] {
      FilterMultiset(rows, p, e);
    }
    assert multiset(r) == multiset(f);
    StrictOrderIsUnique(r, f);
  }
}
