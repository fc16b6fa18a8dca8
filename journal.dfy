/** The state-changing handlers: registration and the entry writes, on one in-memory database holding
    both tables. Each handler is one atomic step. The logical clock ticks on every register, create and
    successful update, the writes that stamp a time; deletes stamp nothing and leave it. */
module Journal {
  import opened Wrappers
  import opened Sequences
  import opened SequenceEdits
  import opened Dates
  import opened Models
  import opened Schemas
  import opened Auth

  /** The row `POST /api/entries` inserts: owned by the caller, everything else from the request,
      a null `isCompleted` stored as false, both timestamps the current time. */
  function NewEntry(caller: nat, data: EntryCreate, id: nat, now: Timestamp): (e: Entry)
    ensures e.id == id && e.userId == caller && e.createdAt == now && e.updatedAt == now
    ensures e.isCompleted <==> data.isCompleted == Some(true)
    ensures data.isCompleted.Some? ==> e.isCompleted == data.isCompleted.value
    ensures data.isCompleted.None? ==> e.isCompleted == DefaultIsCompleted
    ensures e.entryType == data.entryType && e.entryDate == data.entryDate && e.content == data.content
            && e.mediaBase64 == data.mediaBase64 && e.mediaMime == data.mediaMime && e.mood == data.mood
  {
    Entry(id, caller, data.entryType, data.content, data.mediaBase64, data.mediaMime,
          data.isCompleted == Some(true), data.mood, data.entryDate, now, now)
  }

  /** A create request sending only the required fields stores the request's defaults: not
      completed, and null content, media and mood. */
  lemma MinimalCreateStoresDefaults(caller: nat, entryType: string, entryDate: Date, id: nat, now: Timestamp)
    ensures var e := NewEntry(caller, EntryCreate(entryType, entryDate := entryDate), id, now);
            && e.isCompleted == DefaultIsCompleted
            && e.content.None? && e.mediaBase64.None? && e.mediaMime.None? && e.mood.None?
            && e.entryType == entryType && e.entryDate == entryDate
  {
  }

  /** A row replaced by one with the same id and creation time keeps ids unique and rows in
      creation order. */
  lemma ReplaceKeepsKeys(entries: seq<Entry>, k: nat, e: Entry)
    requires Pairwise(entries, DifferentEntryIds) && Pairwise(entries, CreatedEarlier)
    requires k < |entries| && e.id == entries[k].id && e.createdAt == entries[k].createdAt
    ensures Pairwise(entries[k := e], DifferentEntryIds) && Pairwise(entries[k := e], CreatedEarlier)
  {
    forall i | 0 <= i < k ensures DifferentEntryIds(entries[i], e) && CreatedEarlier(entries[i], e) {
      assert DifferentEntryIds(entries[i], entries[k]) && CreatedEarlier(entries[i], entries[k]);
    }
    forall j | k < j < |entries| ensures DifferentEntryIds(e, entries[j]) && CreatedEarlier(e, entries[j]) {
      assert DifferentEntryIds(entries[k], entries[j]) && CreatedEarlier(entries[k], entries[j]);
    }
    ReplacePairwise(entries, k, e, DifferentEntryIds);
    ReplacePairwise(entries, k, e, CreatedEarlier);
  }

  /** The partial update of `PUT /api/entries/{id}`: each of `content`, `isCompleted` and `mood` that
      the request supplies replaces the stored value; an absent one leaves it. `updatedAt` moves to
      `now` only when some value actually changes, since no UPDATE is issued otherwise. */
  function ApplyUpdate(e: Entry, data: EntryUpdate, now: Timestamp): (r: Entry)
    ensures r.id == e.id && r.userId == e.userId && r.entryType == e.entryType && r.entryDate == e.entryDate
            && r.mediaBase64 == e.mediaBase64 && r.mediaMime == e.mediaMime && r.createdAt == e.createdAt
    ensures data.content.Some? ==> r.content == data.content
    ensures data.content.None? ==> r.content == e.content
    ensures data.isCompleted.Some? ==> r.isCompleted == data.isCompleted.value
    ensures data.isCompleted.None? ==> r.isCompleted == e.isCompleted
    ensures data.mood.Some? ==> r.mood == data.mood
    ensures data.mood.None? ==> r.mood == e.mood
    ensures e.content.Some? ==> r.content.Some?
    ensures e.mood.Some? ==> r.mood.Some?
    ensures r == e || r.updatedAt == now
    ensures r != e <==> (r.content, r.isCompleted, r.mood) != (e.content, e.isCompleted, e.mood)
  {
    var changed := e.(
      content := if data.content.Some? then data.content else e.content,
      isCompleted := if data.isCompleted.Some? then data.isCompleted.value else e.isCompleted,
      mood := if data.mood.Some? then data.mood else e.mood);
    if changed == e then e else changed.(updatedAt := now)
  }

  /** Applying the same update twice is applying it once. */
  lemma ApplyUpdateIdempotent(e: Entry, data: EntryUpdate, now: Timestamp, later: Timestamp)
    ensures ApplyUpdate(ApplyUpdate(e, data, now), data, later) == ApplyUpdate(e, data, now)
  {
  }

  /** The position of the row with id `entryId` that belongs to `caller`, if there is one. */
  function OwnedIndex(entries: seq<Entry>, entryId: int, caller: nat): (k: Option<nat>)
    ensures k.Some? ==> k.value < |entries| && entries[k.value].id == entryId && entries[k.value].userId == caller
    ensures k.None? <==> forall e :: e in entries ==> !(e.id == entryId && e.userId == caller)
  {
    FirstIndex(entries, (e: Entry) => e.id == entryId && e.userId == caller)
  }

  class Database {
    var users: seq<User>
    var entries: seq<Entry>
    var nextUserId: nat
    var nextEntryId: nat
    var clock: Timestamp

    ghost predicate Valid()
      reads this
    {
      TablesValid(users, entries, nextUserId, nextEntryId, clock)
    }

    constructor ()
      ensures Valid()
      ensures users == [] && entries == []
    {
      users, entries := [], [];
      nextUserId, nextEntryId, clock := 1, 1, 0;
    }

    /** `POST /api/auth/register`: `Conflict` if the email is taken; otherwise a new user with a
        fresh id, signed in at once. `passwordHash` is the salted hash of `data.password`. */
    method Register(data: UserRegister, passwordHash: string, tokenFor: nat -> string) returns (r: Result<TokenResponse>)
      requires Valid()
      modifies this
      ensures Valid()
      ensures EmailTaken(old(users), data.email) ==> r == Err(Conflict) && unchanged(this)
      ensures !EmailTaken(old(users), data.email) ==>
        var u := User(old(nextUserId), data.email, data.name, passwordHash, old(clock));
        && users == old(users) + [u]
        && r == Ok(NewTokenResponse(tokenFor(u.id), u))
        && entries == old(entries) && nextEntryId == old(nextEntryId)
        && nextUserId == old(nextUserId) + 1 && clock == old(clock) + 1
    {
      if FirstIndex(users, (u: User) => u.email == data.email).Some? {
        return Err(Conflict);
      }
      var u := User(nextUserId, data.email, data.name, passwordHash, clock);
      AppendPairwise(users, u, DifferentEmails);
      AppendPairwise(users, u, DifferentUserIds);
      var us := users + [u];
      forall k | 0 <= k < |entries| ensures IsUserId(us, entries[k].userId) {
        assert IsUserId(users, entries[k].userId);
        var i :| 0 <= i < |users| && users[i].id == entries[k].userId;
        assert us[i] == users[i];
      }
      users := us;
      nextUserId, clock := nextUserId + 1, clock + 1;
      r := Ok(NewTokenResponse(tokenFor(u.id), u));
    }

    /** `POST /api/entries`, for the signed-in user `caller`. */
    method CreateEntry(caller: nat, data: EntryCreate) returns (r: EntryResponse)
      requires Valid() && IsUserId(users, caller)
      modifies this
      ensures Valid()
      ensures entries == old(entries) + [NewEntry(caller, data, old(nextEntryId), old(clock))]
      ensures r == ToEntryResponse(NewEntry(caller, data, old(nextEntryId), old(clock)))
      ensures users == old(users) && nextUserId == old(nextUserId)
      ensures nextEntryId == old(nextEntryId) + 1 && clock == old(clock) + 1
    {
      var e := NewEntry(caller, data, nextEntryId, clock);
      AppendPairwise(entries, e, DifferentEntryIds);
      AppendPairwise(entries, e, CreatedEarlier);
      entries := entries + [e];
      nextEntryId, clock := nextEntryId + 1, clock + 1;
      r := ToEntryResponse(e);
    }

    /** `PUT /api/entries/{entryId}`: `NotFound` unless `caller` owns an entry with that id;
        otherwise that one row takes the update and every other row stays as it was. */
    method UpdateEntry(caller: nat, entryId: int, data: EntryUpdate) returns (r: Result<EntryResponse>)
      requires Valid()
      modifies this
      ensures Valid()
      ensures OwnedIndex(old(entries), entryId, caller).None? ==> r == Err(NotFound) && unchanged(this)
      ensures OwnedIndex(old(entries), entryId, caller).Some? ==>
        var k := OwnedIndex(old(entries), entryId, caller).value;
        && entries == old(entries)[k := ApplyUpdate(old(entries)[k], data, old(clock))]
        && r == Ok(ToEntryResponse(entries[k]))
        && clock == old(clock) + 1
        && users == old(users) && nextUserId == old(nextUserId) && nextEntryId == old(nextEntryId)
    {
      var found := OwnedIndex(entries, entryId, caller);
      if found.None? {
        return Err(NotFound);
      }
      var k := found.value;
      var e := ApplyUpdate(entries[k], data, clock);
      ReplaceKeepsKeys(entries, k, e);
      entries := entries[k := e];
      clock := clock + 1;
      r := Ok(ToEntryResponse(e));
    }

    /** `DELETE /api/entries/{entryId}`: `NotFound` unless `caller` owns an entry with that id;
        otherwise exactly that row goes and the rest keep their values and order. */
    method DeleteEntry(caller: nat, entryId: int) returns (r: Result<DeleteResponse>)
      requires Valid()
      modifies this
      ensures Valid()
      ensures OwnedIndex(old(entries), entryId, caller).None? ==> r == Err(NotFound) && unchanged(this)
      ensures OwnedIndex(old(entries), entryId, caller).Some? ==>
        var k := OwnedIndex(old(entries), entryId, caller).value;
        && entries == old(entries)[..k] + old(entries)[k + 1..]
        && r == Ok(DeleteResponse(true))
        && users == old(users) && nextUserId == old(nextUserId) && nextEntryId == old(nextEntryId)
        && clock == old(clock)
    {
      var found := OwnedIndex(entries, entryId, caller);
      if found.None? {
        return Err(NotFound);
      }
      var k := found.value;
      RemovePairwise(entries, k, DifferentEntryIds);
      RemovePairwise(entries, k, CreatedEarlier);
      entries := entries[..k] + entries[k + 1..];
      r := Ok(DeleteResponse(true));
    }

    /** Removing a user, which the `User.entries` cascade extends to every entry of theirs. */
    method DeleteUser(userId: nat)
      requires Valid()
      modifies this
      ensures Valid()
      ensures users == Filter(old(users), (u: User) => u.id != userId)
      ensures entries == Filter(old(entries), (e: Entry) => e.userId != userId)
      ensures forall e :: e in entries ==> e.userId != userId
      ensures nextUserId == old(nextUserId) && nextEntryId == old(nextEntryId) && clock == old(clock)
    {
      var keepUser := (u: User) => u.id != userId;
      var keepEntry := (e: Entry) => e.userId != userId;
      var us, es := Filter(users, keepUser), Filter(entries, keepEntry);
      FilterPairwise(users, keepUser, DifferentEmails);
      FilterPairwise(users, keepUser, DifferentUserIds);
      FilterPairwise(entries, keepEntry, DifferentEntryIds);
      FilterPairwise(entries, keepEntry, CreatedEarlier);
      forall k | 0 <= k < |es| ensures IsUserId(us, es[k].userId) {
        assert es[k] in entries;
        var l :| 0 <= l < |entries| && entries[l] == es[k];
        var i :| 0 <= i < |users| && users[i].id == es[k].userId;
        assert users[i] in us;
        var i' :| 0 <= i' < |us| && us[i'] == users[i];
      }
      forall i | 0 <= i < |us| ensures us[i].id < nextUserId && us[i].createdAt < clock {
        assert us[i] in users;
      }
      forall k | 0 <= k < |es| ensures es[k].id < nextEntryId && es[k].createdAt <= es[k].updatedAt < clock {
        assert es[k] in entries;
      }
      users, entries := us, es;
    }
  }
}
