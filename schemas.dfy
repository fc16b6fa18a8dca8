/** The request and response bodies of the HTTP API, with their defaults, and the conversions from rows. */
module Schemas {
  import opened Wrappers
  import opened Dates
  import opened Models

  // ---------------------------------------------------------------------------
  // Auth

  datatype UserRegister = UserRegister(email: string, name: string, password: string)

  datatype UserLogin = UserLogin(email: string, password: string)

  /** A user as the API shows it: no password field at all. */
  datatype UserResponse = UserResponse(id: nat, email: string, name: string, createdAt: Timestamp)

  const DefaultTokenType: string := "bearer"

  /** `tokenType` defaults to "bearer". */
  datatype TokenResponse = TokenResponse(accessToken: string, tokenType: string := DefaultTokenType, user: UserResponse)

  // ---------------------------------------------------------------------------
  // Entries

  /** Only `entryType` and `entryDate` are required. The other fields default to null, except
      `isCompleted`, which defaults to false and may still be sent as null. */
  datatype EntryCreate = EntryCreate(
    entryType: string,
    content: Option<string> := None,
    mediaBase64: Option<string> := None,
    mediaMime: Option<string> := None,
    isCompleted: Option<bool> := Some(false),
    mood: Option<string> := None,
    entryDate: Date)

  /** The only fields a client can change after creation; each defaults to absent, meaning "leave it". */
  datatype EntryUpdate = EntryUpdate(
    content: Option<string> := None,
    isCompleted: Option<bool> := None,
    mood: Option<string> := None)

  /** An entry as the API shows it: every column, with a non-null `isCompleted`. */
  datatype EntryResponse = EntryResponse(
    id: nat,
    userId: nat,
    entryType: string,
    content: Option<string>,
    mediaBase64: Option<string>,
    mediaMime: Option<string>,
    isCompleted: bool,
    mood: Option<string>,
    entryDate: Date,
    createdAt: Timestamp,
    updatedAt: Timestamp)

  datatype DeleteResponse = DeleteResponse(ok: bool)

  /** An `EntryUpdate` body that sends nothing. */
  const EmptyUpdate: EntryUpdate := EntryUpdate()

  // ---------------------------------------------------------------------------
  // Conversions (`model_validate` from the ORM row)

  function ToUserResponse(u: User): (r: UserResponse) {
    UserResponse(u.id, u.email, u.name, u.createdAt)
  }

  /** The user response is a function of everything but the password hash. */
  lemma UserResponseHidesPassword(u: User, v: User)
    requires u.id == v.id && u.email == v.email && u.name == v.name && u.createdAt == v.createdAt
    ensures ToUserResponse(u) == ToUserResponse(v)
  {
  }

  /** Two users give the same response exactly when they agree on every column but the password
      hash: the response keeps each of those columns and nothing else. */
  lemma UserResponseIsPublicColumns(u: User, v: User)
    ensures ToUserResponse(u) == ToUserResponse(v) <==>
            (u.id, u.email, u.name, u.createdAt) == (v.id, v.email, v.name, v.createdAt)
  {
  }

  /** The body of a successful register or login, with the default token type. */
  function NewTokenResponse(token: string, u: User): (r: TokenResponse) {
    TokenResponse(token, user := ToUserResponse(u))
  }

  function ToEntryResponse(e: Entry): (r: EntryResponse)
    ensures FromEntryResponse(r) == e
  {
    EntryResponse(e.id, e.userId, e.entryType, e.content, e.mediaBase64, e.mediaMime,
                  e.isCompleted, e.mood, e.entryDate, e.createdAt, e.updatedAt)
  }

  function FromEntryResponse(r: EntryResponse): (e: Entry) {
    Entry(r.id, r.userId, r.entryType, r.content, r.mediaBase64, r.mediaMime,
          r.isCompleted, r.mood, r.entryDate, r.createdAt, r.updatedAt)
  }

  /** The entry response carries exactly the entry's columns: it loses nothing and adds nothing. */
  lemma EntryResponseIsLossless(e: Entry, r: EntryResponse)
    ensures FromEntryResponse(ToEntryResponse(e)) == e
    ensures ToEntryResponse(FromEntryResponse(r)) == r
  {
  }

  /** Hence distinct rows give distinct responses. */
  lemma ToEntryResponseInjective(e: Entry, f: Entry)
    ensures ToEntryResponse(e) == ToEntryResponse(f) <==> e == f
  {
    EntryResponseIsLossless(e, ToEntryResponse(e));
    EntryResponseIsLossless(f, ToEntryResponse(f));
  }
}
