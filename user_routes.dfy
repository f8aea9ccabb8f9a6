/** The account endpoints: the caller's profile, e-mail confirmation and its
    re-request, and the two role-gated greetings. The e-mail a confirmation
    token carries is given directly: decoding that token is not part of this
    model. */
module UserRoutes {
  import opened Common
  import opened Models
  import opened Base
  import opened Auth
  import opened DependService
  import UR = UserRepository

  /** The `message` bodies these endpoints answer with. */
  datatype Message =
    | EmailAlreadyConfirmed
    | EmailConfirmed
    | EmailConfirmRequest
    | WelcomeModerator(username: string)
    | WelcomeAdmin(username: string)

  /** A confirmation e-mail scheduled as a background task: recipient
      address and the username it greets. */
  datatype Mail = Mail(to: string, username: string)

  /** `/me`: the public profile of the token's principal. */
  method Me(svc: AuthService, token: string, now: Instant) returns (r: Result<Profile>)
    requires svc.Valid()
    modifies svc.cache
    ensures svc.Valid()
    ensures r == ViewOf(CurrentUserOutcome(svc.crypto, old(svc.cache.store), svc.users.rows, token, now))
    ensures svc.cache.store == CacheAfterCurrentUser(svc.crypto, old(svc.cache.store), svc.users.rows, token, now, svc.cache.userTtl)
  {
    var current := svc.GetCurrentUser(token, now);
    r := ViewOf(current);
  }

  /** What `confirmed_email` answers for `email`, with the user table after
      the call: an unknown address is a verification error, an already
      confirmed user is told so without a write, anyone else gets the flag
      set. */
  function ConfirmOutcome(rows: map<nat, User>, email: string): (r: Result<(Message, map<nat, User>)>)
    ensures UR.GetUserByEmail(rows, email) == Ok(None) ==> r == Err(VerificationError) && Status(r.error) == 400
    ensures UsersUnique(rows) ==> (r.Err? <==> forall k :: k in rows ==> rows[k].email != email)
    ensures r.Err? ==> r.error in {VerificationError, ServerError}
    ensures r.Ok? ==> exists k :: (k in rows && rows[k].email == email
      && r.value.0 == (if rows[k].confirmed then EmailAlreadyConfirmed else EmailConfirmed)
      && r.value.1 == rows[k := rows[k].(confirmed := true)])
    ensures r.Ok? && r.value.0 == EmailAlreadyConfirmed ==> r.value.1 == rows
  {
    match UR.GetUserByEmail(rows, email)
    case Err(e) => Err(e)
    case Ok(None) => Err(VerificationError)
    case Ok(Some(u)) =>
      if u.confirmed then
        var k :| k in rows && rows[k] == u;
        assert rows[k := rows[k].(confirmed := true)] == rows;
        Ok((EmailAlreadyConfirmed, rows))
      else
        match UR.ConfirmIn(rows, email)
        case Err(e) => Err(e)
        case Ok(after) => Ok((EmailConfirmed, after))
  }

  /** A confirmation keeps usernames and e-mails unique, leaves the user
      confirmed, and a second call answers "already confirmed" and writes
      nothing. */
  lemma ConfirmTwiceIsConfirmOnce(rows: map<nat, User>, email: string)
    requires UsersUnique(rows) && ConfirmOutcome(rows, email).Ok?
    ensures var after := ConfirmOutcome(rows, email).value.1;
      && UsersUnique(after)
      && UR.GetUserByEmail(after, email).Ok? && UR.GetUserByEmail(after, email).value.Some?
      && UR.GetUserByEmail(after, email).value.value.confirmed
      && ConfirmOutcome(after, email) == Ok((EmailAlreadyConfirmed, after))
  {
    var after := ConfirmOutcome(rows, email).value.1;
    var k :| k in rows && rows[k].email == email && after == rows[k := rows[k].(confirmed := true)];
    UR.ConfirmKeepsUnique(rows, k);
    UR.LookupsFindStoredUser(after, k);
  }

  /** `confirmed_email`. */
  method ConfirmedEmail(users: Table<User>, email: string) returns (r: Result<Message>)
    requires users.Valid() && UR.KeyedById(users)
    modifies users
    ensures users.Valid() && users.nextId == old(users.nextId)
    ensures var o := ConfirmOutcome(old(users.rows), email);
      && (r.Ok? <==> o.Ok?)
      && (r.Ok? ==> r.value == o.value.0 && users.rows == o.value.1)
      && (r.Err? ==> r.error == o.error && users.rows == old(users.rows))
  {
    var found := UR.GetUserByEmail(users.rows, email);
    if found.Err? {
      return Err(found.error);
    }
    if found.value.None? {
      return Err(VerificationError);
    }
    if found.value.value.confirmed {
      return Ok(EmailAlreadyConfirmed);
    }
    var _ := UR.ConfirmedEmail(users, email);
    r := Ok(EmailConfirmed);
  }

  /** `request_email` as written: `user.confirmed` is read before the None
      check, so an unknown address raises AttributeError (a 500), and the
      `if user` test after it is always true. */
  function RequestEmailAsWritten(rows: map<nat, User>, email: string): (r: Result<(Message, Option<Mail>)>)
    ensures UR.GetUserByEmail(rows, email) == Ok(None) ==> r == Err(ServerError)
  {
    match UR.GetUserByEmail(rows, email)
    case Err(e) => Err(e)
    case Ok(None) => Err(ServerError)
    case Ok(Some(u)) =>
      if u.confirmed then Ok((EmailAlreadyConfirmed, None))
      else Ok((EmailConfirmRequest, Some(Mail(u.email, u.username))))
  }

  /** `request_email` as its documentation describes it: an e-mail goes out
      only to an existing, unconfirmed user, and an unknown address gets the
      same generic reply as a successful request. */
  function RequestEmail(rows: map<nat, User>, email: string): (r: Result<(Message, Option<Mail>)>)
    ensures UsersUnique(rows) ==> r.Ok?
    ensures r.Err? ==> r.error == ServerError
    ensures r.Ok? && r.value.1.Some? <==>
      r.Ok? && exists k :: (k in rows && rows[k].email == email && !rows[k].confirmed
        && r.value.1 == Some(Mail(email, rows[k].username)))
    ensures r.Ok? ==> (r.value.0 == EmailAlreadyConfirmed <==>
      exists k :: k in rows && rows[k].email == email && rows[k].confirmed)
    ensures r.Ok? && r.value.0 != EmailAlreadyConfirmed ==> r.value.0 == EmailConfirmRequest
  {
    match UR.GetUserByEmail(rows, email)
    case Err(e) => Err(e)
    case Ok(None) => Ok((EmailConfirmRequest, None))
    case Ok(Some(u)) =>
      if u.confirmed then Ok((EmailAlreadyConfirmed, None))
      else Ok((EmailConfirmRequest, Some(Mail(u.email, u.username))))
  }

  /** For every address that matches no user, the code as written fails with
      a 500 where the intended endpoint answers with the generic message and
      sends nothing; for registered addresses the two agree. */
  lemma RequestEmailUnknownAddressFails(rows: map<nat, User>, email: string)
    ensures (forall k :: k in rows ==> rows[k].email != email) ==>
      RequestEmailAsWritten(rows, email) == Err(ServerError) && Status(ServerError) == 500 &&
      RequestEmail(rows, email) == Ok((EmailConfirmRequest, None))
    ensures (exists k :: k in rows && rows[k].email == email) ==>
      RequestEmailAsWritten(rows, email) == RequestEmail(rows, email)
  {
  }

  /** `/moderator`: greets the principal by username once the moderator
      guard has passed. */
  method ReadModerator(svc: AuthService, token: string, now: Instant) returns (r: Result<Message>)
    requires svc.Valid()
    modifies svc.cache
    ensures svc.Valid()
    ensures var g := Guarded(CurrentUserOutcome(svc.crypto, old(svc.cache.store), svc.users.rows, token, now), false);
      && (r.Ok? <==> g.Ok?)
      && (r.Ok? ==> r.value == WelcomeModerator(g.value.View().username)
                    && g.value.View().role in {MODERATOR, ADMIN})
      && (r.Err? ==> r.error == g.error)
    ensures svc.cache.store == CacheAfterCurrentUser(svc.crypto, old(svc.cache.store), svc.users.rows, token, now, svc.cache.userTtl)
  {
    var current := GetCurrentModeratorUser(svc, token, now);
    if current.Err? {
      return Err(current.error);
    }
    r := Ok(WelcomeModerator(current.value.View().username));
  }

  /** `/admin`: greets the principal by username once the admin guard has
      passed. */
  method ReadAdmin(svc: AuthService, token: string, now: Instant) returns (r: Result<Message>)
    requires svc.Valid()
    modifies svc.cache
    ensures svc.Valid()
    ensures var g := Guarded(CurrentUserOutcome(svc.crypto, old(svc.cache.store), svc.users.rows, token, now), true);
      && (r.Ok? <==> g.Ok?)
      && (r.Ok? ==> r.value == WelcomeAdmin(g.value.View().username) && g.value.View().role == ADMIN)
      && (r.Err? ==> r.error == g.error)
    ensures svc.cache.store == CacheAfterCurrentUser(svc.crypto, old(svc.cache.store), svc.users.rows, token, now, svc.cache.userTtl)
  {
    var current := GetCurrentAdminUser(svc, token, now);
    if current.Err? {
      return Err(current.error);
    }
    r := Ok(WelcomeAdmin(current.value.View().username));
  }
}
