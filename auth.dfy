/** Registration's uniqueness test and the login decision, over the `users` table. Password checking
    and token signing are supplied by the caller: `verify(password, hash)` and `tokenFor(userId)`. */
module Auth {
  import opened Wrappers
  import opened Sequences
  import opened Models
  import opened Schemas

  /** Whether some user already has `email` (compared exactly, as stored). */
  predicate EmailTaken(users: seq<User>, email: string) {
    exists i :: 0 <= i < |users| && users[i].email == email
  }

  /** `POST /api/auth/login`: the first user with the email, if the password verifies against that
      user's hash; `Unauthenticated` otherwise, without saying which check failed. */
  function Login(users: seq<User>, data: UserLogin, verify: (string, string) -> bool, tokenFor: nat -> string)
    : (r: Result<TokenResponse>)
    ensures r.Err? ==> r.error == Unauthenticated
    ensures !EmailTaken(users, data.email) ==> r.Err?
    ensures r.Ok? <==> exists i :: 0 <= i < |users| && users[i].email == data.email
                                   && (forall j :: 0 <= j < i ==> users[j].email != data.email)
                                   && verify(data.password, users[i].passwordHash)
    ensures r.Ok? ==> exists i :: 0 <= i < |users| && users[i].email == data.email
                                  && (forall j :: 0 <= j < i ==> users[j].email != data.email)
                                  && r.value == NewTokenResponse(tokenFor(users[i].id), users[i])
    ensures r.Ok? ==> r.value.tokenType == DefaultTokenType && r.value.accessToken == tokenFor(r.value.user.id)
  {
    match FirstIndex(users, (u: User) => u.email == data.email)
    case None => Err(Unauthenticated)
    case Some(i) =>
      if !verify(data.password, users[i].passwordHash) then Err(Unauthenticated)
      else Ok(NewTokenResponse(tokenFor(users[i].id), users[i]))
  }

  /** With emails unique, login succeeds exactly when some user has the email and the password
      verifies against that user's hash, and it answers as that user. */
  lemma LoginWithUniqueEmails(users: seq<User>, data: UserLogin, verify: (string, string) -> bool, tokenFor: nat -> string, i: nat)
    requires Pairwise(users, DifferentEmails)
    requires i < |users| && users[i].email == data.email
    ensures Login(users, data, verify, tokenFor).Ok? <==> verify(data.password, users[i].passwordHash)
    ensures Login(users, data, verify, tokenFor).Ok? ==>
      Login(users, data, verify, tokenFor).value == NewTokenResponse(tokenFor(users[i].id), users[i])
  {
    forall j | 0 <= j < |users| && j != i ensures users[j].email != data.email {
      if j < i { assert DifferentEmails(users[j], users[i]); } else { assert DifferentEmails(users[i], users[j]); }
    }
  }
}
