/** The user repository: lookups by username and by e-mail, the insert that
    registers an account, and the two in-place updates (confirmation flag and
    avatar URL). */
module UserRepository {
  import opened Common
  import opened Models
  import opened Base

  /** The table's primary key is the row's `id` column. */
  ghost predicate KeyedById(t: Table<User>) {
    forall x: User :: t.idOf(x) == x.id
  }

  /** `UserCreate`: the registration form. */
  datatype UserCreate = UserCreate(username: string, email: string, password: string)

  /** `get_by_username`. */
  function GetByUsername(rows: map<nat, User>, username: string): (r: Result<Option<User>>)
    ensures r == Ok(None) <==> forall k :: k in rows ==> rows[k].username != username
    ensures r.Ok? && r.value.Some? ==> r.value.value in rows.Values && r.value.value.username == username
    ensures UsersUnique(rows) ==> r.Ok?
  {
    OneOrNone(rows, (u: User) => u.username == username)
  }

  /** `get_user_by_email`. */
  function GetUserByEmail(rows: map<nat, User>, email: string): (r: Result<Option<User>>)
    ensures r == Ok(None) <==> forall k :: k in rows ==> rows[k].email != email
    ensures r.Ok? && r.value.Some? ==> r.value.value in rows.Values && r.value.value.email == email
    ensures UsersUnique(rows) ==> r.Ok?
  {
    OneOrNone(rows, (u: User) => u.email == email)
  }

  /** In a table with unique usernames and e-mails, each stored user is
      found by either of them. */
  lemma LookupsFindStoredUser(rows: map<nat, User>, k: nat)
    requires UsersUnique(rows) && k in rows
    ensures GetByUsername(rows, rows[k].username) == Ok(Some(rows[k]))
    ensures GetUserByEmail(rows, rows[k].email) == Ok(Some(rows[k]))
  {
    var u := rows[k];
    var byName := (x: User) => x.username == u.username;
    var byMail := (x: User) => x.email == u.email;
    OnlyMatchIsFirst(rows, byName, k);
    OnlyMatchIsFirst(rows, byMail, k);
    OneOrNoneAgreesWithFirst(rows, byName);
    OneOrNoneAgreesWithFirst(rows, byMail);
  }

  /** `create_user`: insert the form's username and e-mail with the password
      digest and avatar; role and confirmation take their column defaults.
      A duplicate username or e-mail is refused by the unique constraints
      (an unhandled IntegrityError). */
  method CreateUser(t: Table<User>, data: UserCreate, hashed: string, avatar: Option<string>)
    returns (r: Result<User>)
    requires t.Valid() && KeyedById(t)
    modifies t
    ensures t.Valid()
    ensures r.Err? <==> exists k :: k in old(t.rows) && (old(t.rows)[k].username == data.username || old(t.rows)[k].email == data.email)
    ensures r.Err? ==> r.error == ServerError && t.rows == old(t.rows) && t.nextId == old(t.nextId)
    ensures r.Ok? ==> r.value == User(old(t.nextId), data.username, data.email, hashed, DefaultRole, avatar, DefaultConfirmed)
    ensures r.Ok? ==> r.value.id !in old(t.rows) && t.rows == old(t.rows)[r.value.id := r.value]
  {
    if exists k :: k in t.rows && (t.rows[k].username == data.username || t.rows[k].email == data.email) {
      return Err(ServerError);
    }
    var u := User(t.nextId, data.username, data.email, hashed, DefaultRole, avatar, DefaultConfirmed);
    var created := t.Create(u);
    r := Ok(created);
  }

  /** A successful insert keeps usernames and e-mails unique. */
  lemma CreateKeepsUnique(rows: map<nat, User>, u: User)
    requires UsersUnique(rows) && u.id !in rows
    requires forall k :: k in rows ==> rows[k].username != u.username && rows[k].email != u.email
    ensures UsersUnique(rows[u.id := u])
  {
  }

  /** The table after `confirmed_email`: the user with that e-mail gets the
      flag set. With no such user the attribute access on None fails. */
  function ConfirmIn(rows: map<nat, User>, email: string): (r: Result<map<nat, User>>)
    ensures r.Ok? <==> GetUserByEmail(rows, email).Ok? && GetUserByEmail(rows, email).value.Some?
    ensures r.Err? ==> r.error == ServerError
    ensures r.Ok? ==> r.value.Keys == rows.Keys
    ensures r.Ok? ==> exists k :: k in rows && rows[k].email == email && r.value == rows[k := rows[k].(confirmed := true)]
  {
    match GetUserByEmail(rows, email)
    case Err(e) => Err(e)
    case Ok(None) => Err(ServerError)
    case Ok(Some(u)) =>
      var k :| k in rows && rows[k] == u;
      Ok(rows[k := u.(confirmed := true)])
  }

  /** In a table with unique e-mails, confirming a stored user's address
      sets that user's flag and touches no other row. */
  lemma ConfirmStoredUser(rows: map<nat, User>, k: nat)
    requires UsersUnique(rows) && k in rows
    ensures ConfirmIn(rows, rows[k].email) == Ok(rows[k := rows[k].(confirmed := true)])
  {
    LookupsFindStoredUser(rows, k);
    forall j | j in rows && rows[j] == rows[k] ensures j == k {
      assert rows[j].email == rows[k].email;
    }
  }

  /** Setting the flag changes no username or e-mail, so both stay unique. */
  lemma ConfirmKeepsUnique(rows: map<nat, User>, k: nat)
    requires UsersUnique(rows) && k in rows
    ensures UsersUnique(rows[k := rows[k].(confirmed := true)])
  {
    var after := rows[k := rows[k].(confirmed := true)];
    forall a, b | a in after && b in after && a != b
      ensures after[a].username != after[b].username && after[a].email != after[b].email
    {
      assert after[a].username == rows[a].username && after[a].email == rows[a].email;
      assert after[b].username == rows[b].username && after[b].email == rows[b].email;
    }
  }

  /** Confirming twice is confirming once. */
  lemma ConfirmIdempotent(rows: map<nat, User>, email: string)
    requires UsersUnique(rows) && ConfirmIn(rows, email).Ok?
    ensures ConfirmIn(ConfirmIn(rows, email).value, email) == ConfirmIn(rows, email)
  {
    var once := ConfirmIn(rows, email).value;
    var k :| k in rows && rows[k].email == email && once == rows[k := rows[k].(confirmed := true)];
    ConfirmStoredUser(rows, k);
    ConfirmKeepsUnique(rows, k);
    ConfirmStoredUser(once, k);
    assert once[k := once[k].(confirmed := true)] == once;
  }

  /** `confirmed_email`: set the confirmation flag of the user with that
      e-mail; nothing else changes. */
  method ConfirmedEmail(t: Table<User>, email: string) returns (r: Result<()>)
    requires t.Valid() && KeyedById(t)
    modifies t
    ensures t.Valid() && t.nextId == old(t.nextId)
    ensures r.Ok? <==> ConfirmIn(old(t.rows), email).Ok?
    ensures r.Ok? ==> t.rows == ConfirmIn(old(t.rows), email).value
    ensures r.Err? ==> r.error == ServerError && t.rows == old(t.rows)
  {
    var found := GetUserByEmail(t.rows, email);
    if found.Err? || found.value.None? {
      return Err(ServerError);
    }
    var u := found.value.value;
    assert t.idOf(u) == u.id;
    var _ := t.Update(u.(confirmed := true));
    r := Ok(());
  }

  /** The table after `update_avatar_url`, and the refreshed user. */
  function SetAvatarIn(rows: map<nat, User>, email: string, url: string): (r: Result<(map<nat, User>, User)>)
    ensures r.Ok? <==> GetUserByEmail(rows, email).Ok? && GetUserByEmail(rows, email).value.Some?
    ensures r.Err? ==> r.error == ServerError
    ensures r.Ok? ==> exists k :: k in rows && rows[k].email == email && r.value.1 == rows[k].(avatar := Some(url)) && r.value.0 == rows[k := r.value.1]
  {
    match GetUserByEmail(rows, email)
    case Err(e) => Err(e)
    case Ok(None) => Err(ServerError)
    case Ok(Some(u)) =>
      var k :| k in rows && rows[k] == u;
      var v := u.(avatar := Some(url));
      Ok((rows[k := v], v))
  }

  /** Changing the avatar keeps the table's uniqueness, and a second change
      to the same URL changes nothing. */
  lemma SetAvatarKeepsUniqueAndIdempotent(rows: map<nat, User>, email: string, url: string)
    requires UsersUnique(rows) && SetAvatarIn(rows, email, url).Ok?
    ensures UsersUnique(SetAvatarIn(rows, email, url).value.0)
    ensures SetAvatarIn(SetAvatarIn(rows, email, url).value.0, email, url) == SetAvatarIn(rows, email, url)
  {
    var once := SetAvatarIn(rows, email, url).value.0;
    var k :| k in rows && rows[k].email == email &&
      once == rows[k := rows[k].(avatar := Some(url))];
    assert UsersUnique(once);
    LookupsFindStoredUser(once, k);
    LookupsFindStoredUser(rows, k);
    assert once[k := once[k].(avatar := Some(url))] == once;
  }

  /** `update_avatar_url`: set the avatar URL of the user with that e-mail
      and return the refreshed row. */
  method UpdateAvatarUrl(t: Table<User>, email: string, url: string) returns (r: Result<User>)
    requires t.Valid() && KeyedById(t)
    modifies t
    ensures t.Valid() && t.nextId == old(t.nextId)
    ensures var s := SetAvatarIn(old(t.rows), email, url);
      && (r.Ok? <==> s.Ok?)
      && (r.Ok? ==> t.rows == s.value.0 && r.value == s.value.1)
      && (r.Err? ==> r.error == ServerError && t.rows == old(t.rows))
  {
    var found := GetUserByEmail(t.rows, email);
    if found.Err? || found.value.None? {
      return Err(ServerError);
    }
    var u := found.value.value;
    assert t.idOf(u) == u.id;
    var updated := t.Update(u.(avatar := Some(url)));
    r := Ok(updated);
  }
}
