/** Consequences of the handlers' contracts across several calls, and worked examples of the
    handlers on concrete inputs. */
module Scenarios {
  import opened Wrappers
  import opened Sequences
  import opened Dates
  import opened Models
  import opened Schemas
  import opened Ordering
  import opened Queries
  import opened QueryProperties
  import opened Auth
  import opened Journal

  /** With entry ids unique, an entry of one user is `NotFound` for every other user. */
  lemma ForeignEntryNotFound(entries: seq<Entry>, e: Entry, caller: nat)
    requires Pairwise(entries, DifferentEntryIds)
    requires e in entries && e.userId != caller
    ensures OwnedIndex(entries, e.id, caller).None?
  {
    var k :| 0 <= k < |entries| && entries[k] == e;
    forall f | f in entries && f.id == e.id ensures f.userId != caller {
      var l :| 0 <= l < |entries| && entries[l] == f;
      IdIdentifiesEntry(entries, k, l);
    }
  }

  lemma IdIdentifiesEntry(entries: seq<Entry>, k: nat, l: nat)
    requires Pairwise(entries, DifferentEntryIds)
    requires k < |entries| && l < |entries| && entries[k].id == entries[l].id
    ensures k == l
  {
  }

  /** A newly created entry is listed for its date, after every earlier entry of that date. */
  lemma CreatedEntryListedLast(rows: seq<Entry>, e: Entry)
    requires Pairwise(rows + [e], CreatedEarlier)
    ensures GetEntries(rows + [e], e.userId, Some(e.entryDate)) == GetEntries(rows, e.userId, Some(e.entryDate)) + [e]
  {
    var owner, d := e.userId, Some(e.entryDate);
    var p := (x: Entry) => Listed(x, owner, d);
    assert Pairwise(rows, CreatedEarlier) by {
      forall i, j | 0 <= i < j < |rows| ensures CreatedEarlier(rows[i], rows[j]) {
        assert rows[i] == (rows + [e])[i] && rows[j] == (rows + [e])[j];
      }
    }
    ListingFollowsTableOrder(rows + [e], owner, d);
    ListingFollowsTableOrder(rows, owner, d);
    FilterConcat(rows, [e], p);
    assert Filter([e], p) == [e];
  }

  /** Updating only the mood leaves the content and the completion flag as they were. */
  lemma MoodOnlyUpdateKeepsTheRest(e: Entry, mood: string, now: Timestamp)
    ensures ApplyUpdate(e, EntryUpdate(mood := Some(mood)), now).content == e.content
    ensures ApplyUpdate(e, EntryUpdate(mood := Some(mood)), now).isCompleted == e.isCompleted
    ensures ApplyUpdate(e, EntryUpdate(mood := Some(mood)), now).mood == Some(mood)
  {
  }

  /** An update that supplies nothing changes nothing, not even `updatedAt`. */
  lemma EmptyUpdateChangesNothing(e: Entry, now: Timestamp)
    ensures ApplyUpdate(e, EmptyUpdate, now) == e
  {
  }

  function SampleEntry(id: nat, owner: nat, d: Date, at: Timestamp): (e: Entry) {
    NewEntry(owner, EntryCreate("text", entryDate := d), id, at)
  }

  /** With today 2024-06-15, an entry of 2023-06-15 is recalled, one of 2024-06-15 is not, and one of
      2025-06-15 is, since only today's own date is excluded. */
  lemma OnThisDaySample()
    ensures var today := CalendarDate(2024, 6, 15);
            var past := SampleEntry(1, 7, CalendarDate(2023, 6, 15), 0);
            var present := SampleEntry(2, 7, CalendarDate(2024, 6, 15), 1);
            var future := SampleEntry(3, 7, CalendarDate(2025, 6, 15), 2);
            var r := OnThisDay([past, present, future], 7, today);
            past in r && present !in r && future in r
  {
  }

  lemma IsoSample()
    ensures IsoFormat(CalendarDate(2024, 6, 1)) == "2024-06-01"
  {
    assert Pad4(2024) == "2024";
    assert Pad2(6) == "06" && Pad2(1) == "01";
  }

  /** Two entries on 2024-06-01 give the single date string "2024-06-01" for June 2024. */
  lemma DatesWithEntriesSample()
    ensures var a := SampleEntry(1, 7, CalendarDate(2024, 6, 1), 0);
            var b := SampleEntry(2, 7, CalendarDate(2024, 6, 1), 1);
            DatesWithEntries([a, b], 7, 6, 2024) == Ok(["2024-06-01"])
  {
    var d := CalendarDate(2024, 6, 1);
    var a := SampleEntry(1, 7, d, 0);
    var b := SampleEntry(2, 7, d, 1);
    var rows := [a, b];
    var r := DatesWithEntries(rows, 7, 6, 2024);
    var iso := IsoFormat(d);
    IsoSample();
    assert forall e :: e in rows ==> e.entryDate == d;
    assert r.Ok?;
    var ss := r.value;
    assert InMonth(a, 7, 6, 2024);
    assert iso in ss;
    assert forall s :: s in ss ==> s == iso;
    NoDuplicatesOfOne(ss, iso);
    assert ss == [iso];
  }
}

/** A session against one database, as a client of the handlers' contracts only. */
module Session {
  import opened Wrappers
  import opened Dates
  import opened Models
  import opened Schemas
  import opened Auth
  import opened Journal

  method RegisterAndLogin() {
    var db := new Database();
    var tokenFor := (id: nat) => "token";
    var verify := (password: string, hash: string) => hash == "h:" + password;

    var ra := db.Register(UserRegister("a@example.org", "A", "pw-a"), "h:pw-a", tokenFor);
    assert ra.Ok? && db.users[0].email == "a@example.org";
    var again := db.Register(UserRegister("a@example.org", "A2", "other"), "h:other", tokenFor);
    assert again == Err(Conflict);

    var users := db.users;
    assert users[0].passwordHash == "h:pw-a";
    assert Login(users, UserLogin("a@example.org", "pw-a"), verify, tokenFor).Ok? by {
      LoginWithUniqueEmails(users, UserLogin("a@example.org", "pw-a"), verify, tokenFor, 0);
    }
    assert Login(users, UserLogin("a@example.org", "pw-b"), verify, tokenFor) == Err(Unauthenticated) by {
      LoginWithUniqueEmails(users, UserLogin("a@example.org", "pw-b"), verify, tokenFor, 0);
      assert ("h:" + "pw-b")[5] != "h:pw-a"[5];
    }
  }

  /** Another user can neither update nor delete an entry; both are reported as `NotFound`. */
  method ForeignWrites(db: Database, alice: nat, bob: nat)
    requires db.Valid() && IsUserId(db.users, alice) && alice != bob
    modifies db
  {
    var created := db.CreateEntry(alice, EntryCreate("task", entryDate := CalendarDate(2024, 6, 15)));
    assert !created.isCompleted;
    var id := created.id;

    var stolen := db.UpdateEntry(bob, id, EntryUpdate(content := Some("mine now")));
    assert stolen == Err(NotFound);
    var gone := db.DeleteEntry(bob, id);
    assert gone == Err(NotFound);
  }

  /** The owner can complete an entry; once the owner's account is deleted, so is the entry. */
  method OwnerWrites(db: Database, alice: nat)
    requires db.Valid() && IsUserId(db.users, alice)
    modifies db
  {
    var created := db.CreateEntry(alice, EntryCreate("task", entryDate := CalendarDate(2024, 6, 15)));
    var id := created.id;

    var done := db.UpdateEntry(alice, id, EntryUpdate(isCompleted := Some(true)));
    assert done.Ok? && done.value.isCompleted && done.value.content.None?;
    db.DeleteUser(alice);
    assert OwnedIndex(db.entries, id, alice).None?;
  }
}
