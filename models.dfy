/** The two tables, `users` and `entries`, as rows, and the integrity constraints the schema declares. */
module Models {
  import opened Wrappers
  import opened Dates
  import opened Sequences

  /** Timestamps are a logical clock, ticking on each write that stamps a time (register, create, update). */
  type Timestamp = nat

  /** A row of `users`. Every column is required. */
  datatype User = User(
    id: nat,
    email: string,
    name: string,
    passwordHash: string,
    createdAt: Timestamp)

  /** A row of `entries`. `entryType` is any string (text, image, voice, video, task and gratitude are
      conventional, not enforced); `content`, the media pair and `mood` may be NULL. */
  datatype Entry = Entry(
    id: nat,
    userId: nat,
    entryType: string,
    content: Option<string>,
    mediaBase64: Option<string>,
    mediaMime: Option<string>,
    isCompleted: bool,
    mood: Option<string>,
    entryDate: Date,
    createdAt: Timestamp,
    updatedAt: Timestamp)

  /** What a new entry stores for `is_completed` when the request leaves it out (the request's
      default is false) or sends null (the create handler maps null to false with `or False`). */
  const DefaultIsCompleted: bool := false

  predicate DifferentEmails(a: User, b: User) {
    a.email != b.email
  }

  predicate DifferentUserIds(a: User, b: User) {
    a.id != b.id
  }

  predicate DifferentEntryIds(a: Entry, b: Entry) {
    a.id != b.id
  }

  /** Insertion order: a row added later carries a later `created_at`. */
  predicate CreatedEarlier(a: Entry, b: Entry) {
    a.createdAt < b.createdAt
  }

  predicate IsUserId(users: seq<User>, id: nat) {
    exists i :: 0 <= i < |users| && users[i].id == id
  }

  /** The foreign key `entries.user_id -> users.id`: no entry without its owner. */
  predicate EntriesOwned(users: seq<User>, entries: seq<Entry>) {
    forall k :: 0 <= k < |entries| ==> IsUserId(users, entries[k].userId)
  }

  /** Every id and timestamp predates the next one to be issued; `updated_at` never precedes `created_at`. */
  predicate ClockConsistent(users: seq<User>, entries: seq<Entry>, nextUserId: nat, nextEntryId: nat, clock: Timestamp) {
    && (forall i :: 0 <= i < |users| ==> users[i].id < nextUserId && users[i].createdAt < clock)
    && (forall k :: 0 <= k < |entries| ==>
          entries[k].id < nextEntryId && entries[k].createdAt <= entries[k].updatedAt < clock)
  }

  /** All the constraints of the two tables together: unique emails and ids, the foreign key,
      rows in insertion order, consistent timestamps. */
  predicate TablesValid(users: seq<User>, entries: seq<Entry>, nextUserId: nat, nextEntryId: nat, clock: Timestamp) {
    && Pairwise(users, DifferentEmails)
    && Pairwise(users, DifferentUserIds)
    && Pairwise(entries, DifferentEntryIds)
    && Pairwise(entries, CreatedEarlier)
    && EntriesOwned(users, entries)
    && ClockConsistent(users, entries, nextUserId, nextEntryId, clock)
  }
}
