/** The persisted entities: users, refresh-token rows and contacts, with the
    column constraints the database enforces stated as predicates over a table
    (a map from primary key to row). */
module Models {
  import opened Common
  import opened Calendar

  /** The three roles; a new user gets USER. */
  datatype UserRole = USER | MODERATOR | ADMIN

  const DefaultRole: UserRole := USER
  const DefaultConfirmed: bool := false

  datatype User = User(
    id: nat,
    username: string,
    email: string,
    hashPassword: string,
    role: UserRole,
    avatar: Option<string>,
    confirmed: bool)

  /** `UserResponse`: the public projection of a user, the only shape the
      cache keeps. It has no password hash and no confirmation flag. */
  datatype Profile = Profile(
    id: nat,
    username: string,
    email: string,
    avatar: Option<string>,
    role: UserRole)

  function Project(u: User): Profile {
    Profile(u.id, u.username, u.email, u.avatar, u.role)
  }

  /** One issued refresh token. Only the digest of the secret is a column. */
  datatype RefreshToken = RefreshToken(
    id: nat,
    userId: nat,
    tokenHash: string,
    createdAt: Instant,
    expiredAt: Instant,
    revokedAt: Option<Instant>,
    ipAddress: Option<string>,
    userAgent: Option<string>)

  /** One entry of a user's address book; `userId` is the nullable owner column. */
  datatype Contact = Contact(
    id: nat,
    firstName: string,
    lastName: string,
    email: string,
    phoneNumber: string,
    birthday: Date,
    additionalInfo: Option<string>,
    userId: Option<nat>)

  /** `users.username` and `users.email` are each unique. */
  ghost predicate UsersUnique(users: map<nat, User>) {
    forall a, b :: a in users && b in users && a != b ==>
      users[a].username != users[b].username && users[a].email != users[b].email
  }

  /** `refresh_tokens.token_hash` is unique. */
  ghost predicate TokenHashesUnique(tokens: map<nat, RefreshToken>) {
    forall a, b :: a in tokens && b in tokens && a != b ==> tokens[a].tokenHash != tokens[b].tokenHash
  }

  /** `refresh_tokens.user_id` references an existing user. */
  ghost predicate TokenOwnersExist(tokens: map<nat, RefreshToken>, users: map<nat, User>) {
    forall k :: k in tokens ==> tokens[k].userId in users
  }

  /** `contacts.email` is unique across the whole table, whoever owns the row. */
  ghost predicate ContactEmailsUnique(contacts: map<nat, Contact>) {
    forall a, b :: a in contacts && b in contacts && a != b ==> contacts[a].email != contacts[b].email
  }

  /** Whether a row other than `self` already holds `email`. */
  predicate EmailTakenByOther(contacts: map<nat, Contact>, email: string, self: nat) {
    exists k :: k in contacts && k != self && contacts[k].email == email
  }
}
