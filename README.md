# Journal entry store — a Dafny model

This project models the core of a personal journaling web service. Users register and log in. Each
user keeps dated journal entries (text, media, tasks, mood tags) and reads them back by exact date,
by date range, "on this day" in other years, or as the set of dates that have entries in a month.
The model covers the request handlers' decision logic over the two tables, `users` and `entries`:

- **Dates** (`dates.dfy`): Python `date` values as a subset type of valid proleptic Gregorian dates
  (years 1 to 9999). Chronological order, and `isoformat()` as a `YYYY-MM-DD` rendering with a
  parser. The round trip is proved in both directions.
- **Rows and table constraints** (`models.dfy`): `User` and `Entry` with their required and nullable
  columns, and `TablesValid`. That predicate says emails and ids are unique, every entry's `user_id`
  names an existing user, rows are stored in creation order, and every timestamp and id comes before
  the next one to be issued.
- **Request and response bodies** (`schemas.dfy`): with their defaults (`is_completed` false,
  `token_type` "bearer"). The conversions from rows are proved to hide the password hash and to carry
  an entry's columns losslessly.
- **The read endpoints** (`queries.dfy`): pure functions of the `entries` table and the caller's id.
  Each SQL `WHERE` is a filter and each `ORDER BY` is a sort, specified by "sorted, and a permutation
  of exactly the matching rows". `DISTINCT` keeps each value once.
- **Login** (`auth.dfy`): a pure function of the `users` table.
- **The writes** (`journal.dfy`): the `Database` class holds both tables as `seq` fields, plus id
  counters and a logical clock. Its methods `Register`, `CreateEntry`, `UpdateEntry`, `DeleteEntry`
  and `DeleteUser` (the cascade) keep `TablesValid` and state the whole new state in terms of the
  old one.
- **Sequence helpers** (`sequences.dfy`): `Sequences` holds first match, filter, map, distinct and
  pairwise relations over sequences. `SequenceEdits` proves that appending, removing and replacing
  an element keep a pairwise relation.
- **Multi-call consequences and worked examples** (`scenarios.dfy`): `Scenarios` holds lemmas over
  several queries and worked examples of on-this-day, `isoformat()` and dates-with-entries on
  concrete rows. `Session` holds client sessions as methods over `Database`.

Inputs that the service takes from its environment are parameters here. The current date ("today")
is passed in. The salted password hash is passed to `Register`. Password verification is passed to
`Login` as `verify(password, hash)`, and token issuance as `tokenFor(userId)`. The authenticated
caller is a plain user id. Timestamps are a logical clock. It ticks on every register, create and
successful update, the writes that stamp a time. Deletes stamp nothing and leave it.

Two behaviours of the code are worth stating plainly:

- On this day returns entries from every other year with today's month and day, later years
  included. The only date filter besides month and day is `entry_date != today`
  (app/main.py:121), so an entry dated on today's month and day of a later year is returned too
  (`Scenarios.OnThisDaySample`).
- `updated_at` is declared with `onupdate` (app/models.py:32), which fires only when an UPDATE is
  issued. No UPDATE is issued when no value changes, so an update that supplies nothing, or only
  the values already stored, leaves `updated_at` as it was (`Journal.ApplyUpdate`).

## Model

| member | source | states |
|---|---|---|
| `Sequences.FirstIndex` | app/main.py:156 | The first row satisfying the query's filter, and `None` exactly when no row does (`.first()`). |
| `Sequences.FilterMultiset` | app/main.py:87-89 | A `WHERE` keeps every matching row as often as it occurs and drops every other row. |
| `Dates.IsoFormat` | app/main.py:146 | `isoformat()` yields ten characters: four digits, `-`, two digits, `-`, two digits. |
| `Dates.ParseOfFormat` | app/main.py:146 | Every rendered date parses back to the same date. |
| `Dates.FormatOfParse` | app/main.py:146 | Every string that parses is exactly the rendering of the date it parses to. |
| `Dates.IsoFormatInjective` | app/main.py:143-146 | Two dates render to the same string if and only if they are the same date. |
| `Schemas.UserResponseIsPublicColumns` | app/main.py:44-58 | Two users give the same response if and only if they agree on id, email, name and creation time: the response keeps each of those and depends on nothing else, the password hash included. |
| `Schemas.UserResponseHidesPassword` | app/schemas.py:18-22 | The user response depends on nothing but id, email, name and creation time, so it never reveals the password hash. |
| `Schemas.EntryResponseIsLossless` | app/schemas.py:51-62 | The entry response has exactly the entry's columns: converting a row to a response and back gives the row, and the reverse holds too. |
| `Schemas.ToEntryResponse` | app/main.py:78 | Converting a row to a response (here and at app/main.py:90, 106, 126 and 167) loses nothing: the row can be recovered from the response. |
| `Schemas.ToEntryResponseInjective` | app/schemas.py:51-62 | Distinct rows give distinct responses. |
| `Sequences.Distinct` | app/main.py:143 | `DISTINCT` keeps exactly the values that occur, each once. |
| `Sequences.Map` | app/main.py:146 | A list comprehension (here `isoformat()` of each date, and `model_validate` of each row at app/main.py:90, 106 and 126) keeps the length, and converts each element at its own position. |
| `Ordering.Insert` | app/main.py:90 | Inserting into a sorted list keeps it sorted and adds exactly that row. |
| `Ordering.Sort` | app/main.py:103 | `ORDER BY` gives a sorted permutation of its input. Rows that tie on the key come in no promised order. |
| `Queries.SelectSorted` | app/main.py:100-105 | Filter then sort: exactly the matching rows, with their multiplicities, in the requested order. |
| `Queries.GetEntries` | app/main.py:87-90 | Exactly the caller's entries, or exactly those on the given date if one is given, sorted by `created_at` ascending. |
| `Queries.GetEntriesRange` | app/main.py:100-106 | Exactly the caller's entries with `start <= entry_date <= end`, sorted by `(entry_date, created_at)` ascending. |
| `Queries.OnThisDay` | app/main.py:114-126 | Exactly the caller's entries with today's month and day whose date is not today, sorted by `entry_date` descending. |
| `Queries.MonthDates` | app/main.py:136-145 | The distinct `entry_date`s of the caller's entries in that month and year, each once. |
| `Queries.DatesWithEntries` | app/main.py:131-146 | A month outside 1..12 is a validation error. Otherwise: no duplicates, every string renders a date of the caller's in that month and year, and every such date appears. |
| `Queries.RenderingKeepsDistinct` | app/main.py:143-146 | Rendering distinct dates gives distinct strings. |
| `QueryProperties.InvertedRangeIsEmpty` | app/main.py:102 | When `start` is after `end`, the range query returns nothing. |
| `QueryProperties.OneDayRangeMatchesListing` | app/main.py:87-105 | A range from `d` to `d` holds the same rows as the listing for date `d`. |
| `QueryProperties.ForeignEntriesInvisible` | app/main.py:87-118 | No read query returns an entry owned by another user. |
| `QueryProperties.DatesParseBack` | app/main.py:136-146 | Each returned string has ten characters and parses to the date of one of the caller's entries in that month. |
| `QueryProperties.StrictOrderIsUnique` | app/main.py:90 | When `created_at` values are distinct, sorting by `created_at` fixes the order completely. |
| `QueryProperties.ListingFollowsTableOrder` | app/main.py:87-90 | When `created_at` strictly increases in table order, as the model's clock makes it, the listing is the table's own order, filtered. |
| `Auth.Login` | app/main.py:47-53 | An error is always `Unauthenticated`. Success happens exactly when the first user with that email exists and the password verifies against that user's hash. The answer is then the token response of that first matching user, with `token_type` "bearer" and the token issued for that user's id. |
| `Auth.LoginWithUniqueEmails` | app/main.py:49-50 | With unique emails, login succeeds if and only if the password verifies for the user who has that email. |
| `Journal.NewEntry` | app/main.py:65-74 | The new row is owned by the caller, with the given id and the current time in both timestamps. `is_completed` is true only when sent as true, so null becomes false. Every other field is copied from the request. |
| `Journal.MinimalCreateStoresDefaults` | app/schemas.py:35-42 | A create body sending only `entry_type` and `entry_date` stores the request's defaults (app/schemas.py:37-41): `is_completed` false, and null content, media and mood. The handler passes every field explicitly (app/main.py:65-74), so the column's own `default=False` is never used. |
| `Journal.ApplyUpdate` | app/main.py:159-164 | Each supplied field among `content`, `is_completed` and `mood` replaces the stored value; absent fields keep theirs, and no field goes back to null. Kind, date, media, owner, id and `created_at` are untouched. `updated_at` moves only when a value changes. |
| `Journal.ApplyUpdateIdempotent` | app/main.py:159-166 | Applying the same update twice is the same as applying it once. |
| `Journal.OwnedIndex` | app/main.py:156 | The position of the row with that id owned by the caller, and `None` exactly when no such row exists. |
| `Journal.Database.Register` | app/main.py:31-44 | If the email is taken: `Conflict`, and nothing changes. Otherwise exactly one user is appended, with a fresh id and the given hash, the result is that user's token response, and emails stay pairwise distinct. |
| `Journal.Database.CreateEntry` | app/main.py:63-78 | Exactly one row is appended, `NewEntry` built with a fresh id, and the response is that row. Users are unchanged and the table constraints still hold. |
| `Journal.Database.UpdateEntry` | app/main.py:149-167 | Unless the caller owns an entry with that id: `NotFound`, and nothing changes. Otherwise only that row changes, to `ApplyUpdate` of it, and the response is the new row. |
| `Journal.Database.DeleteEntry` | app/main.py:170-181 | Unless the caller owns an entry with that id: `NotFound`, and nothing changes. Otherwise exactly that row is removed, the rest keep their values and order, and the result is `{ok: true}`. |
| `Journal.Database.DeleteUser` | app/models.py:16 | Removing a user removes every entry of theirs (the cascade), so the foreign key still holds. |
| `Scenarios.IdIdentifiesEntry` | app/models.py:22 | With entry ids unique, an id names one row. |
| `Scenarios.ForeignEntryNotFound` | app/main.py:156-158 | Another user's entry is `NotFound` for everyone but its owner. |
| `Scenarios.CreatedEntryListedLast` | app/main.py:63-90 | When `created_at` strictly increases through the table and the new entry's is the latest, the new entry is listed for its date after every earlier entry of that date. |
| `Scenarios.MoodOnlyUpdateKeepsTheRest` | app/main.py:159-164 | Updating only `mood` leaves `content` and `is_completed` as they were. |
| `Scenarios.EmptyUpdateChangesNothing` | app/models.py:32 | An update that supplies nothing leaves the row unchanged, `updated_at` included. |
| `Scenarios.OnThisDaySample` | app/main.py:114-122 | With today 2024-06-15, entries dated 2023-06-15 and 2025-06-15 are returned and one dated 2024-06-15 is not. |
| `Scenarios.IsoSample` | app/main.py:146 | 2024-06-01 renders as "2024-06-01". |
| `Scenarios.DatesWithEntriesSample` | app/main.py:136-146 | Two entries on 2024-06-01 give exactly `["2024-06-01"]` for June 2024. |

## Left out

- Password hashing, password verification, token signing and expiry, and resolving a token to the
  current user (`hash_password`, `verify_password`, `create_access_token`, `get_current_user`):
  app/auth.py is not part of this model. The hash is a parameter of `Register`, verification
  and token issuance are function parameters, and the authenticated caller is a plain user id.
- `GET /api/auth/me` (app/main.py:56-58) only converts the current user with
  `Schemas.ToUserResponse`. Finding that user is `get_current_user`'s job, which is not modelled.
- The clock: `date.today()` (app/main.py:114) is the `today` parameter, and `func.now()` is a
  logical counter. Real timestamps can tie. The model's ordering contracts still promise no order
  among rows with equal sort keys.
- Table creation, static-file mounting and the catch-all front-end route (app/main.py:20,
  app/main.py:25-26, app/main.py:186-188). These are file and database bootstrapping I/O.
- Session mechanics and concurrency: `add`, `commit`, `refresh`, transactions, and
  last-writer-wins between concurrent requests. Each handler is one atomic step.
- Request parsing and validation done by the framework: `EmailStr` checks and normalisation,
  required-field and type checks (422s), and path and query parsing. Only the 1..12 bound on
  `month` is kept, as `Validation`.
- `String(n)` length limits: no handler checks them, and the database may or may not enforce them.
- Base64 media: it is an opaque string and is never decoded.
- The `users.created_at` and `entries.*_at` time zones: timestamps are plain naturals.
- `Journal.Database.Register`: ids come from a counter and are never reused. The database only
  guarantees that a new id differs from every id currently in the table, so the model promises more
  freshness than the database does.
- `Journal.Database.CreateEntry`: entry ids come from a counter and are never reused, likewise. The
  database only guarantees that a new id differs from every id currently in the table.
- `QueryProperties.ListingFollowsTableOrder` and `Scenarios.CreatedEntryListedLast` rely on
  `created_at` being strictly increasing in table order. The model's clock guarantees this.
  `func.now()` in the database does not: two rows can share a timestamp, and then `ORDER BY
  created_at` promises no order between them.
- `Journal.Database.UpdateEntry`: the clock ticks on every successful update, even when no column
  changes and `updated_at` stays as it was.
- The `is_completed` column is nullable in the table declaration, but no handler ever writes NULL
  to it. The model stores a plain boolean.
- The read endpoints return rows. The source's list comprehension converts them one by one with
  `Schemas.ToEntryResponse` (`Sequences.Map` states that pointwise conversion), which loses nothing.
- `.first()` without `ORDER BY` (app/main.py:33, 49, 156, 176) may return any matching row; the
  model takes the first in table order (`Sequences.FirstIndex`). This changes nothing here, since
  emails (app/models.py:11) and ids are unique, so each of those queries matches at most one row.
- The service worker (static/sw.js): browser caching and network I/O only.
