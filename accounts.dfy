/**
 * The `users` table and the routes that touch it: registration
 * (/api/auth/register), the theme setting (/api/theme) and the share token
 * (/api/share/token). The table is a map from the integer primary key to a
 * row; session handling is reduced to an optional user id.
 */
module Accounts {
  import opened Wrappers

  type UserId = nat

  /** One row of `users`. `shareToken` is the nullable, UNIQUE share_token column. */
  datatype User = User(
    username: string,
    passwordHash: string,
    theme: string,
    isAdmin: bool,
    shareToken: Option<string>)

  const DefaultTheme: string := "pokemon"
  const Themes: seq<string> := ["pokemon", "dark", "white"]

  const MinUsernameLength: nat := 3
  const MinPasswordLength: nat := 6

  const StatusOk: nat := 200
  const StatusBadRequest: nat := 400
  const StatusUnauthorized: nat := 401
  const StatusServerError: nat := 500

  /** Python truthiness of a JSON string field: absent, null and "" are all false. */
  predicate Present(s: Option<string>) {
    s.Some? && s.value != ""
  }

  // ---------------------------------------------------------------------------
  // Registration
  // ---------------------------------------------------------------------------

  /** Why `register` answers 400 before touching the database. */
  datatype RegisterError = MissingCredentials | UsernameTooShort | PasswordTooShort

  /** The three guards of `register`, in the order the route checks them. */
  function ValidateRegistration(username: Option<string>, password: Option<string>): (r: Option<RegisterError>)
    ensures r.None? <==>
      Present(username) && Present(password) && |username.value| >= MinUsernameLength && |password.value| >= MinPasswordLength
    ensures r == Some(MissingCredentials) <==> !Present(username) || !Present(password)
    ensures r == Some(UsernameTooShort) <==>
      Present(username) && Present(password) && |username.value| < MinUsernameLength
    ensures r == Some(PasswordTooShort) <==>
      Present(username) && Present(password) && |username.value| >= MinUsernameLength && |password.value| < MinPasswordLength
  {
    if !Present(username) || !Present(password) then Some(MissingCredentials)
    else if |username.value| < MinUsernameLength then Some(UsernameTooShort)
    else if |password.value| < MinPasswordLength then Some(PasswordTooShort)
    else None
  }

  /** The UNIQUE constraint on `username`. */
  predicate UsernameTaken(users: map<UserId, User>, name: string) {
    exists id :: id in users && users[id].username == name
  }

  /**
   * Every id is below the AUTOINCREMENT counter, and no two rows share a
   * username or a (non-NULL) share token: the two UNIQUE columns.
   */
  ghost predicate UsersValid(users: map<UserId, User>, nextUserId: UserId) {
    && (forall id :: id in users ==> id < nextUserId)
    && (forall a, b :: a in users && b in users && users[a].username == users[b].username ==> a == b)
    && TokensUnique(users)
  }

  /** The UNIQUE constraint on share_token: no two rows hold the same non-NULL token. */
  ghost predicate TokensUnique(users: map<UserId, User>) {
    forall a, b :: a in users && b in users && users[a].shareToken.Some? && users[a].shareToken == users[b].shareToken ==> a == b
  }

  datatype Registered = Registered(status: nat, users: map<UserId, User>, nextUserId: UserId)

  /**
   * `register`: validation, then the INSERT, which the UNIQUE constraint
   * rejects (400) when the name is taken. `hash` stands for SHA-256.
   */
  function Register(users: map<UserId, User>, nextUserId: UserId, username: Option<string>,
                    password: Option<string>, hash: string -> string): (r: Registered)
    requires UsersValid(users, nextUserId)
    ensures r.status == StatusOk <==>
      ValidateRegistration(username, password).None? && !UsernameTaken(users, username.value)
    ensures r.status != StatusOk ==> r.status == StatusBadRequest && r.users == users && r.nextUserId == nextUserId
    ensures r.status == StatusOk ==>
      && nextUserId !in users
      && r.users == users[nextUserId := User(username.value, hash(password.value), DefaultTheme, false, None)]
      && r.nextUserId == nextUserId + 1
  {
    if ValidateRegistration(username, password).Some? then Registered(StatusBadRequest, users, nextUserId)
    else if UsernameTaken(users, username.value) then Registered(StatusBadRequest, users, nextUserId)
    else
      var row := User(username.value, hash(password.value), DefaultTheme, false, None);
      Registered(StatusOk, users[nextUserId := row], nextUserId + 1)
  }

  /** Registering keeps usernames and share tokens unique and ids below the counter. */
  lemma RegisterKeepsUsersValid(users: map<UserId, User>, nextUserId: UserId, username: Option<string>,
                                password: Option<string>, hash: string -> string)
    requires UsersValid(users, nextUserId)
    ensures var r := Register(users, nextUserId, username, password, hash);
      UsersValid(r.users, r.nextUserId)
  {
  }

  // ---------------------------------------------------------------------------
  // Theme
  // ---------------------------------------------------------------------------

  /** The allow-list of `update_theme`; a missing `theme` field is rejected too. */
  predicate ThemeAllowed(theme: Option<string>) {
    theme.Some? && theme.value in Themes
  }

  datatype ThemeUpdate = ThemeUpdate(status: nat, users: map<UserId, User>)

  /**
   * `update_theme`: 401 without a session, 400 for a theme outside the
   * allow-list, else the UPDATE, which changes nothing when the session's
   * user row is gone but still answers 200.
   */
  function UpdateTheme(users: map<UserId, User>, session: Option<UserId>, theme: Option<string>): (r: ThemeUpdate)
    ensures r.status == StatusOk <==> session.Some? && ThemeAllowed(theme)
    ensures session.None? ==> r.status == StatusUnauthorized
    ensures session.Some? && !ThemeAllowed(theme) ==> r.status == StatusBadRequest
    ensures r.status != StatusOk ==> r.users == users
    ensures r.users.Keys == users.Keys
    ensures forall id :: id in users && (session != Some(id) || r.status != StatusOk) ==> r.users[id] == users[id]
    ensures r.status == StatusOk && session.value in users ==>
      r.users[session.value] == users[session.value].(theme := theme.value)
  {
    if session.None? then ThemeUpdate(StatusUnauthorized, users)
    else if !ThemeAllowed(theme) then ThemeUpdate(StatusBadRequest, users)
    else if session.value in users then
      ThemeUpdate(StatusOk, users[session.value := users[session.value].(theme := theme.value)])
    else ThemeUpdate(StatusOk, users)
  }

  // ---------------------------------------------------------------------------
  // Share token
  // ---------------------------------------------------------------------------

  /** Some row other than `id` already holds `token` (the UNIQUE constraint on share_token). */
  predicate TokenHeldByOther(users: map<UserId, User>, id: UserId, token: string) {
    exists other :: other in users && other != id && users[other].shareToken == Some(token)
  }

  /** The token a row holds, if it is truthy (not NULL and not ""). */
  function StoredToken(users: map<UserId, User>, id: UserId): Option<string> {
    if id in users && Present(users[id].shareToken) then users[id].shareToken else None
  }

  datatype TokenReply = TokenReply(status: nat, token: Option<string>, users: map<UserId, User>)

  /**
   * `get_share_token`: return the stored token when there is one; otherwise
   * UPDATE the row with `candidate` (the uuid4 the route generates) and return it. When the
   * row is gone the UPDATE touches nothing and `candidate` is still returned; when
   * another row already holds `candidate` the UNIQUE constraint raises (500).
   */
  function GetShareToken(users: map<UserId, User>, session: Option<UserId>, candidate: string): (r: TokenReply)
    ensures session.None? ==> r.status == StatusUnauthorized && r.token.None? && r.users == users
    ensures session.Some? && StoredToken(users, session.value).Some? ==>
      r == TokenReply(StatusOk, StoredToken(users, session.value), users)
    ensures session.Some? && StoredToken(users, session.value).None? && session.value in users ==>
      if TokenHeldByOther(users, session.value, candidate) then r.status == StatusServerError && r.users == users
      else r == TokenReply(StatusOk, Some(candidate), users[session.value := users[session.value].(shareToken := Some(candidate))])
    ensures session.Some? && session.value !in users ==> r == TokenReply(StatusOk, Some(candidate), users)
  {
    if session.None? then TokenReply(StatusUnauthorized, None, users)
    else
      var id := session.value;
      match StoredToken(users, id)
      case Some(t) => TokenReply(StatusOk, Some(t), users)
      case None =>
        if id !in users then TokenReply(StatusOk, Some(candidate), users)
        else if TokenHeldByOther(users, id, candidate) then TokenReply(StatusServerError, None, users)
        else TokenReply(StatusOk, Some(candidate), users[id := users[id].(shareToken := Some(candidate))])
  }

  /**
   * Get-or-create is idempotent: once a call has succeeded for an existing
   * user, a second call (with any other candidate) returns the same
   * token and writes nothing.
   */
  lemma ShareTokenIdempotent(users: map<UserId, User>, id: UserId, candidate1: string, candidate2: string)
    requires id in users
    requires candidate1 != ""
    requires GetShareToken(users, Some(id), candidate1).status == StatusOk
    ensures var first := GetShareToken(users, Some(id), candidate1);
      GetShareToken(first.users, Some(id), candidate2) == TokenReply(StatusOk, first.token, first.users)
  {
    var first := GetShareToken(users, Some(id), candidate1);
    assert id in first.users && StoredToken(first.users, id) == first.token;
  }

  /** Changing the theme keeps every constraint of the table. */
  lemma UpdateThemeKeepsUsersValid(users: map<UserId, User>, nextUserId: UserId, session: Option<UserId>,
                                   theme: Option<string>)
    requires UsersValid(users, nextUserId)
    ensures UsersValid(UpdateTheme(users, session, theme).users, nextUserId)
  {
  }

  /** Get-or-create never gives two rows the same token: the UNIQUE check refuses a taken candidate. */
  lemma ShareTokenKeepsUsersValid(users: map<UserId, User>, nextUserId: UserId, session: Option<UserId>,
                                  candidate: string)
    requires UsersValid(users, nextUserId)
    ensures UsersValid(GetShareToken(users, session, candidate).users, nextUserId)
  {
  }

  /** Row `id` holds `token`; SQL's `share_token = ?` never matches NULL. */
  predicate HoldsToken(users: map<UserId, User>, id: UserId, token: string) {
    id in users && users[id].shareToken == Some(token)
  }

  /** A token identifies at most one user, so a shared-profile link names one profile. */
  lemma TokenOwnerUnique(users: map<UserId, User>, token: string, a: UserId, b: UserId)
    requires TokensUnique(users)
    requires HoldsToken(users, a, token) && HoldsToken(users, b, token)
    ensures a == b
  {
  }

  /** Only the session's own row can change, and only its share_token column. */
  lemma ShareTokenTouchesOnlyOwnToken(users: map<UserId, User>, id: UserId, candidate: string)
    ensures var r := GetShareToken(users, Some(id), candidate);
      && r.users.Keys == users.Keys
      && (forall other :: other in users && other != id ==> r.users[other] == users[other])
      && (id in users ==> r.users[id] == users[id].(shareToken := r.users[id].shareToken))
  {
  }
}
