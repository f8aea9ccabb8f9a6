/** The contact repository: every query is scoped to the owning user; the
    list and search queries are ordered by id, the birthday query by the
    'MM-DD' text of the birthday. */
module ContactRepository {
  import opened Common
  import opened Calendar
  import opened Models
  import opened Base

  /** The table's primary key is the row's `id` column. */
  ghost predicate KeyedById(t: Table<Contact>) {
    forall x: Contact :: t.idOf(x) == x.id
  }

  /** Every stored contact sits under its own id. */
  ghost predicate IdsAreKeys(rows: map<nat, Contact>) {
    forall k :: k in rows ==> rows[k].id == k
  }

  lemma TableIdsAreKeys(t: Table<Contact>)
    requires t.Valid() && KeyedById(t)
    ensures IdsAreKeys(t.rows)
  {
    forall k | k in t.rows ensures t.rows[k].id == k {
      assert t.idOf(t.rows[k]) == k;
    }
  }

  /** `filter_by(user_id=user.id)`. */
  predicate OwnedBy(c: Contact, owner: nat) {
    c.userId == Some(owner)
  }

  /** A sequence of contacts in strictly ascending id order. */
  predicate AscendingIds(s: seq<Contact>) {
    forall i, j :: 0 <= i < j < |s| ==> s[i].id < s[j].id
  }

  /** In a table whose ids are its keys, a selection comes in id order. */
  lemma SelectAscending(rows: map<nat, Contact>, p: Contact -> bool)
    requires IdsAreKeys(rows)
    ensures AscendingIds(Select(rows, p))
  {
    var ids, r := MatchingIds(rows, p), Select(rows, p);
    forall i, j | 0 <= i < j < |r| ensures r[i].id < r[j].id {
      assert ids[i] in ids && ids[j] in ids;
    }
  }

  /** The caller's contacts in id order. */
  function Owned(rows: map<nat, Contact>, owner: nat): seq<Contact> {
    Select(rows, (c: Contact) => OwnedBy(c, owner))
  }

  /** The list holds exactly the caller's stored contacts, in ascending id
      order. */
  lemma OwnedMembers(rows: map<nat, Contact>, owner: nat)
    ensures forall x :: x in Owned(rows, owner) ==> x in rows.Values && OwnedBy(x, owner)
    ensures forall k :: k in rows && OwnedBy(rows[k], owner) ==> rows[k] in Owned(rows, owner)
    ensures IdsAreKeys(rows) ==> AscendingIds(Owned(rows, owner))
  {
    var p := (c: Contact) => OwnedBy(c, owner);
    SelectMembers(rows, p);
    if IdsAreKeys(rows) {
      SelectAscending(rows, p);
    }
  }

  /** `get_contacts`: the caller's contacts in id order, skipping `offset`
      and returning at most `limit`. */
  function GetContacts(rows: map<nat, Contact>, limit: nat, offset: nat, owner: nat): (r: seq<Contact>)
    ensures |r| <= limit
    ensures |r| == if offset >= |Owned(rows, owner)| then 0 else Min(limit, |Owned(rows, owner)| - offset)
    ensures forall i :: 0 <= i < |r| ==> r[i] == Owned(rows, owner)[offset + i]
  {
    Page(Owned(rows, owner), offset, limit)
  }

  /** A page is the run of the caller's contacts that starts at `offset`;
      it holds only the caller's rows, and comes in id order. */
  lemma GetContactsOwnedInOrder(rows: map<nat, Contact>, limit: nat, offset: nat, owner: nat)
    ensures forall i :: 0 <= i < |GetContacts(rows, limit, offset, owner)| ==>
      GetContacts(rows, limit, offset, owner)[i] == Owned(rows, owner)[offset + i]
    ensures forall x :: x in GetContacts(rows, limit, offset, owner) ==> x in rows.Values && OwnedBy(x, owner)
    ensures IdsAreKeys(rows) ==> AscendingIds(GetContacts(rows, limit, offset, owner))
  {
    var all := Owned(rows, owner);
    OwnedMembers(rows, owner);
    PageKeepsOrder(all, offset, limit);
    assert GetContacts(rows, limit, offset, owner) == Page(all, offset, limit);
  }

  /** A page holds only rows of the list it is cut from, in the same order. */
  lemma PageKeepsOrder(s: seq<Contact>, offset: nat, limit: nat)
    ensures forall x :: x in Page(s, offset, limit) ==> x in s
    ensures AscendingIds(s) ==> AscendingIds(Page(s, offset, limit))
  {
    var r := Page(s, offset, limit);
    forall x | x in r ensures x in s {
      var i :| 0 <= i < |r| && r[i] == x;
      assert s[offset + i] == x;
    }
    if AscendingIds(s) {
      forall i, j | 0 <= i < j < |r| ensures r[i].id < r[j].id {
        assert r[i] == s[offset + i] && r[j] == s[offset + j];
      }
    }
  }

  function Min(a: int, b: int): int {
    if a < b then a else b
  }

  /** Reading page after page returns every contact of the caller exactly
      once, in order. */
  lemma PagesCoverOwned(rows: map<nat, Contact>, owner: nat, n: nat, m: nat)
    ensures GetContacts(rows, n, 0, owner) + GetContacts(rows, m, n, owner) == GetContacts(rows, n + m, 0, owner)
    ensures n >= |Owned(rows, owner)| ==> GetContacts(rows, n, 0, owner) == Owned(rows, owner)
  {
    var all := Owned(rows, owner);
    assert GetContacts(rows, n, 0, owner) == Page(all, 0, n);
    assert GetContacts(rows, m, n, owner) == Page(all, n, m);
    assert GetContacts(rows, n + m, 0, owner) == Page(all, 0, n + m);
    PagesTile(all, 0, n, m);
    WholePage(all, n);
  }

  /** `get_contact_by_id`: the row with that id, if the caller owns it. */
  function GetContactById(rows: map<nat, Contact>, id: nat, owner: nat): (r: Option<Contact>)
    ensures r.Some? <==> id in rows && OwnedBy(rows[id], owner)
    ensures r.Some? ==> r.value == rows[id]
  {
    if id in rows && OwnedBy(rows[id], owner) then Some(rows[id]) else None
  }

  /** `ContactSchema`: the body of a create request. */
  datatype ContactCreate = ContactCreate(
    firstName: string,
    lastName: string,
    email: string,
    phoneNumber: string,
    birthday: Date,
    additionalInfo: Option<string>)

  /** `create_contact`: a row carrying every body field, owned by the caller.
      `contacts.email` is unique over the whole table, so an address any
      user already stored is refused at commit (an unhandled
      IntegrityError). */
  method CreateContact(t: Table<Contact>, body: ContactCreate, owner: nat) returns (r: Result<Contact>)
    requires t.Valid() && KeyedById(t)
    modifies t
    ensures t.Valid()
    ensures r.Err? <==> exists k :: k in old(t.rows) && old(t.rows)[k].email == body.email
    ensures r.Err? ==> r.error == ServerError && t.rows == old(t.rows) && t.nextId == old(t.nextId)
    ensures r.Ok? ==> r.value == Contact(old(t.nextId), body.firstName, body.lastName, body.email,
      body.phoneNumber, body.birthday, body.additionalInfo, Some(owner))
    ensures r.Ok? ==> r.value.id !in old(t.rows) && t.rows == old(t.rows)[r.value.id := r.value]
  {
    if exists k :: k in t.rows && t.rows[k].email == body.email {
      return Err(ServerError);
    }
    var c := Contact(t.nextId, body.firstName, body.lastName, body.email,
      body.phoneNumber, body.birthday, body.additionalInfo, Some(owner));
    var created := t.Create(c);
    r := Ok(created);
  }

  /** A successful create keeps e-mails unique, and the new contact is then
      the caller's and found by its id. */
  lemma CreateKeepsEmailsUnique(rows: map<nat, Contact>, c: Contact, owner: nat)
    requires ContactEmailsUnique(rows) && c.id !in rows && c.userId == Some(owner)
    requires forall k :: k in rows ==> rows[k].email != c.email
    ensures ContactEmailsUnique(rows[c.id := c])
    ensures GetContactById(rows[c.id := c], c.id, owner) == Some(c)
  {
  }

  /** `remove_contact`: the caller's contact with that id is deleted and
      returned; a missing or foreign id deletes nothing. */
  method RemoveContact(t: Table<Contact>, id: nat, owner: nat) returns (r: Option<Contact>)
    requires t.Valid() && KeyedById(t)
    modifies t
    ensures t.Valid() && t.nextId == old(t.nextId)
    ensures r == GetContactById(old(t.rows), id, owner)
    ensures r.None? ==> t.rows == old(t.rows)
    ensures r.Some? ==> t.rows == old(t.rows) - {id}
  {
    r := GetContactById(t.rows, id, owner);
    if r.Some? {
      assert t.idOf(r.value) == id;
      t.Delete(r.value);
    }
  }

  /** After a removal the contact is gone for its owner and every other
      contact is still found. */
  lemma RemoveOnlyThatContact(rows: map<nat, Contact>, id: nat, owner: nat, other: nat, anyone: nat)
    requires GetContactById(rows, id, owner).Some? && other != id
    ensures GetContactById(rows - {id}, id, anyone).None?
    ensures GetContactById(rows - {id}, other, anyone) == GetContactById(rows, other, anyone)
  {
  }

  /** One field of an update body: absent from the request, or given, where
      an explicit JSON null is a given None. */
  datatype Field<T> = Unset | Given(value: Option<T>)

  /** `ContactUpdateSchema`. */
  datatype ContactUpdate = ContactUpdate(
    firstName: Field<string>,
    lastName: Field<string>,
    email: Field<string>,
    phoneNumber: Field<string>,
    birthday: Field<Date>,
    additionalInfo: Field<string>)

  /** One `setattr(contact, key, value)` of the update loop. */
  datatype Assignment =
    | SetFirstName(name: Option<string>)
    | SetLastName(name: Option<string>)
    | SetEmail(address: Option<string>)
    | SetPhoneNumber(phone: Option<string>)
    | SetBirthday(day: Option<Date>)
    | SetAdditionalInfo(info: Option<string>)

  /** The assignment for the schema's `n`-th field, if the body gives it. */
  function FieldAssignment(u: ContactUpdate, n: nat): (r: seq<Assignment>)
    requires n < 6
    ensures |r| <= 1
  {
    match n
    case 0 => if u.firstName.Given? then [SetFirstName(u.firstName.value)] else []
    case 1 => if u.lastName.Given? then [SetLastName(u.lastName.value)] else []
    case 2 => if u.email.Given? then [SetEmail(u.email.value)] else []
    case 3 => if u.phoneNumber.Given? then [SetPhoneNumber(u.phoneNumber.value)] else []
    case 4 => if u.birthday.Given? then [SetBirthday(u.birthday.value)] else []
    case _ => if u.additionalInfo.Given? then [SetAdditionalInfo(u.additionalInfo.value)] else []
  }

  /** `body.model_dump(exclude_unset=True).items()`: the given fields, in
      declaration order. */
  function SetFields(u: ContactUpdate): seq<Assignment> {
    FieldAssignment(u, 0) + FieldAssignment(u, 1) + FieldAssignment(u, 2)
    + FieldAssignment(u, 3) + FieldAssignment(u, 4) + FieldAssignment(u, 5)
  }

  /** Whether the assignment puts NULL into a NOT NULL column: every column
      but `additional_info`. The commit then fails. */
  predicate NullsRequired(a: Assignment) {
    match a
    case SetFirstName(v) => v.None?
    case SetLastName(v) => v.None?
    case SetEmail(v) => v.None?
    case SetPhoneNumber(v) => v.None?
    case SetBirthday(v) => v.None?
    case SetAdditionalInfo(_) => false
  }

  /** The contact after one assignment. A NULL for a NOT NULL column cannot
      be stored at all, so it leaves the value and is recorded by
      `NullsRequired` instead. */
  function Assign(c: Contact, a: Assignment): Contact {
    match a
    case SetFirstName(v) => if v.Some? then c.(firstName := v.value) else c
    case SetLastName(v) => if v.Some? then c.(lastName := v.value) else c
    case SetEmail(v) => if v.Some? then c.(email := v.value) else c
    case SetPhoneNumber(v) => if v.Some? then c.(phoneNumber := v.value) else c
    case SetBirthday(v) => if v.Some? then c.(birthday := v.value) else c
    case SetAdditionalInfo(v) => c.(additionalInfo := v)
  }

  /** The assignments applied in order. */
  function ApplyAll(c: Contact, s: seq<Assignment>): Contact
    decreases |s|
  {
    if s == [] then c else Assign(ApplyAll(c, s[..|s| - 1]), s[|s| - 1])
  }

  /** Whether some assignment puts NULL into a NOT NULL column. */
  predicate AnyNulls(s: seq<Assignment>)
    decreases |s|
  {
    s != [] && (AnyNulls(s[..|s| - 1]) || NullsRequired(s[|s| - 1]))
  }

  lemma {:induction false} ApplyAllAppend(c: Contact, s: seq<Assignment>, t: seq<Assignment>)
    ensures ApplyAll(c, s + t) == ApplyAll(ApplyAll(c, s), t)
    decreases |t|
  {
    if t == [] {
      assert s + t == s;
    } else {
      assert (s + t)[..|s + t| - 1] == s + t[..|t| - 1];
      ApplyAllAppend(c, s, t[..|t| - 1]);
    }
  }

  lemma {:induction false} AnyNullsAppend(s: seq<Assignment>, t: seq<Assignment>)
    ensures AnyNulls(s + t) == (AnyNulls(s) || AnyNulls(t))
    decreases |t|
  {
    if t == [] {
      assert s + t == s;
    } else {
      assert (s + t)[..|s + t| - 1] == s + t[..|t| - 1];
      AnyNullsAppend(s, t[..|t| - 1]);
    }
  }

  lemma ApplyAllSingle(c: Contact, t: seq<Assignment>)
    requires |t| <= 1
    ensures ApplyAll(c, t) == if t == [] then c else Assign(c, t[0])
  {
    if t != [] {
      assert t[..0] == [];
    }
  }

  lemma AnyNullsSingle(t: seq<Assignment>)
    requires |t| <= 1
    ensures AnyNulls(t) == (t != [] && NullsRequired(t[0]))
  {
    if t != [] {
      assert t[..0] == [];
    }
  }

  function Choose<T>(f: Field<T>, current: T): T {
    if f.Given? && f.value.Some? then f.value.value else current
  }

  /** The reference for an update: a given value replaces the field, a field
      left out keeps its value, and the id and owner never change. */
  function Patched(c: Contact, u: ContactUpdate): (r: Contact)
    ensures r.id == c.id && r.userId == c.userId
    ensures u.firstName.Unset? ==> r.firstName == c.firstName
    ensures u.lastName.Unset? ==> r.lastName == c.lastName
    ensures u.email.Unset? ==> r.email == c.email
    ensures u.phoneNumber.Unset? ==> r.phoneNumber == c.phoneNumber
    ensures u.birthday.Unset? ==> r.birthday == c.birthday
    ensures u.additionalInfo.Unset? ==> r.additionalInfo == c.additionalInfo
  {
    Contact(c.id, Choose(u.firstName, c.firstName), Choose(u.lastName, c.lastName), Choose(u.email, c.email),
      Choose(u.phoneNumber, c.phoneNumber), Choose(u.birthday, c.birthday),
      if u.additionalInfo.Given? then u.additionalInfo.value else c.additionalInfo, c.userId)
  }

  /** A given NULL for one of the NOT NULL columns. */
  predicate ClearsRequired(u: ContactUpdate) {
    u.firstName == Given(None) || u.lastName == Given(None) || u.email == Given(None)
    || u.phoneNumber == Given(None) || u.birthday == Given(None)
  }

  /** What the `n`-th field's assignment does to a contact. */
  function FieldEffect(x: Contact, u: ContactUpdate, n: nat): Contact
    requires n < 6
  {
    match n
    case 0 => x.(firstName := Choose(u.firstName, x.firstName))
    case 1 => x.(lastName := Choose(u.lastName, x.lastName))
    case 2 => x.(email := Choose(u.email, x.email))
    case 3 => x.(phoneNumber := Choose(u.phoneNumber, x.phoneNumber))
    case 4 => x.(birthday := Choose(u.birthday, x.birthday))
    case _ => x.(additionalInfo := if u.additionalInfo.Given? then u.additionalInfo.value else x.additionalInfo)
  }

  /** Whether the `n`-th field is given as NULL for a NOT NULL column. */
  predicate FieldNulls(u: ContactUpdate, n: nat)
    requires n < 6
  {
    match n
    case 0 => u.firstName == Given(None)
    case 1 => u.lastName == Given(None)
    case 2 => u.email == Given(None)
    case 3 => u.phoneNumber == Given(None)
    case 4 => u.birthday == Given(None)
    case _ => false
  }

  lemma FieldAssignmentEffect(x: Contact, u: ContactUpdate, n: nat)
    requires n < 6
    ensures ApplyAll(x, FieldAssignment(u, n)) == FieldEffect(x, u, n)
    ensures AnyNulls(FieldAssignment(u, n)) == FieldNulls(u, n)
  {
    ApplyAllSingle(x, FieldAssignment(u, n));
    AnyNullsSingle(FieldAssignment(u, n));
  }

  /** Applying the prefix of the given fields and then the next one. */
  lemma PrefixStep(c: Contact, u: ContactUpdate, pre: seq<Assignment>, n: nat)
    requires n < 6
    ensures ApplyAll(c, pre + FieldAssignment(u, n)) == FieldEffect(ApplyAll(c, pre), u, n)
    ensures AnyNulls(pre + FieldAssignment(u, n)) == (AnyNulls(pre) || FieldNulls(u, n))
  {
    ApplyAllAppend(c, pre, FieldAssignment(u, n));
    AnyNullsAppend(pre, FieldAssignment(u, n));
    FieldAssignmentEffect(ApplyAll(c, pre), u, n);
  }

  /** The `setattr` loop over the given fields computes the reference patch,
      and it writes a NULL into a NOT NULL column exactly when the body
      clears one of them. */
  lemma SetFieldsArePatched(c: Contact, u: ContactUpdate)
    ensures ApplyAll(c, SetFields(u)) == Patched(c, u)
    ensures AnyNulls(SetFields(u)) == ClearsRequired(u)
  {
    var p0 := [];
    assert ApplyAll(c, p0) == c && !AnyNulls(p0);
    PrefixStep(c, u, p0, 0);
    var p1 := p0 + FieldAssignment(u, 0);
    PrefixStep(c, u, p1, 1);
    var p2 := p1 + FieldAssignment(u, 1);
    PrefixStep(c, u, p2, 2);
    var p3 := p2 + FieldAssignment(u, 2);
    PrefixStep(c, u, p3, 3);
    var p4 := p3 + FieldAssignment(u, 3);
    PrefixStep(c, u, p4, 4);
    var p5 := p4 + FieldAssignment(u, 4);
    PrefixStep(c, u, p5, 5);
    assert SetFields(u) == p5 + FieldAssignment(u, 5);
  }

  /** The outcome of `update_contact` on a table: a missing or foreign id
      gives None and changes nothing; a NULL for a NOT NULL column or an
      e-mail another row holds makes the commit fail; otherwise the patched
      row replaces the old one. */
  function UpdateOutcome(rows: map<nat, Contact>, id: nat, u: ContactUpdate, owner: nat)
    : (r: Result<(Option<Contact>, map<nat, Contact>)>)
    ensures GetContactById(rows, id, owner).None? ==> r == Ok((None, rows))
    ensures r.Err? ==> r.error == ServerError
    ensures r.Err? <==> (GetContactById(rows, id, owner).Some? &&
      (ClearsRequired(u) || EmailTakenByOther(rows, Patched(rows[id], u).email, id)))
    ensures r.Ok? && r.value.0.Some? ==>
      id in rows && r.value.0.value == Patched(rows[id], u) && r.value.1 == rows[id := r.value.0.value]
  {
    match GetContactById(rows, id, owner)
    case None => Ok((None, rows))
    case Some(c) =>
      var patched := Patched(c, u);
      if ClearsRequired(u) || EmailTakenByOther(rows, patched.email, id) then Err(ServerError)
      else Ok((Some(patched), rows[id := patched]))
  }

  /** A successful update keeps e-mails unique and the row with the caller;
      every other row is as it was. */
  lemma UpdateKeepsTable(rows: map<nat, Contact>, id: nat, u: ContactUpdate, owner: nat, other: nat)
    requires ContactEmailsUnique(rows) && UpdateOutcome(rows, id, u, owner).Ok?
    ensures var after := UpdateOutcome(rows, id, u, owner).value.1;
      && ContactEmailsUnique(after)
      && after.Keys == rows.Keys
      && (other != id && other in rows ==> after[other] == rows[other])
      && (GetContactById(rows, id, owner).Some? ==> GetContactById(after, id, owner).Some?)
  {
  }

  /** `update_contact`: the given fields are assigned one by one, then the
      row is committed. */
  method UpdateContact(t: Table<Contact>, id: nat, body: ContactUpdate, owner: nat)
    returns (r: Result<Option<Contact>>)
    requires t.Valid() && KeyedById(t)
    modifies t
    ensures t.Valid() && t.nextId == old(t.nextId)
    ensures var o := UpdateOutcome(old(t.rows), id, body, owner);
      && (r.Ok? <==> o.Ok?)
      && (r.Ok? ==> r.value == o.value.0 && t.rows == o.value.1)
      && (r.Err? ==> r.error == ServerError && t.rows == old(t.rows))
  {
    var found := GetContactById(t.rows, id, owner);
    if found.None? {
      return Ok(None);
    }
    var items := SetFields(body);
    var c := found.value;
    var nulled := false;
    var i := 0;
    while i < |items|
      invariant 0 <= i <= |items|
      invariant c == ApplyAll(found.value, items[..i])
      invariant nulled == AnyNulls(items[..i])
    {
      assert items[..i + 1][..i] == items[..i];
      c := Assign(c, items[i]);
      nulled := nulled || NullsRequired(items[i]);
      i := i + 1;
    }
    assert items[..i] == items;
    SetFieldsArePatched(found.value, body);
    if nulled || exists k :: k in t.rows && k != id && t.rows[k].email == c.email {
      return Err(ServerError);
    }
    assert t.idOf(c) == id;
    var updated := t.Update(c);
    r := Ok(Some(updated));
  }

  /** Lower-casing of the ASCII letters, as ILIKE compares them. */
  function Lower(ch: char): char {
    if 'A' <= ch <= 'Z' then (ch as int + 32) as char else ch
  }

  function LowerText(s: string): (r: string)
    ensures |r| == |s| && forall i :: 0 <= i < |s| ==> r[i] == Lower(s[i])
  {
    seq(|s|, i requires 0 <= i < |s| => Lower(s[i]))
  }

  predicate OccursAt(s: string, q: string, i: nat) {
    i + |q| <= |s| && s[i..i + |q|] == q
  }

  /** Whether `q` occurs in `s` as a block of consecutive characters. */
  predicate Contains(s: string, q: string) {
    exists i: nat | i <= |s| :: OccursAt(s, q, i)
  }

  /** `field ILIKE '%q%'`. */
  predicate ILike(field: string, q: string) {
    Contains(LowerText(field), LowerText(q))
  }

  predicate SearchMatch(c: Contact, q: string) {
    ILike(c.firstName, q) || ILike(c.lastName, q) || ILike(c.email, q)
  }

  /** `search_contacts`: the caller's contacts whose first name, last name or
      e-mail contains the query, ignoring case, in id order. */
  function SearchContacts(rows: map<nat, Contact>, q: string, owner: nat): (r: seq<Contact>)
    ensures forall x :: x in r ==> x in rows.Values && OwnedBy(x, owner) && SearchMatch(x, q)
    ensures forall k :: k in rows && OwnedBy(rows[k], owner) && SearchMatch(rows[k], q) ==> rows[k] in r
    ensures IdsAreKeys(rows) ==> AscendingIds(r)
  {
    var p := (c: Contact) => OwnedBy(c, owner) && SearchMatch(c, q);
    SelectMembers(rows, p);
    assert IdsAreKeys(rows) ==> AscendingIds(Select(rows, p)) by {
      if IdsAreKeys(rows) {
        SelectAscending(rows, p);
      }
    }
    Select(rows, p)
  }

  /** Queries that differ only in letter case find the same contacts, and
      the empty query finds all of the caller's contacts. */
  lemma SearchIgnoresCase(rows: map<nat, Contact>, q: string, q': string, owner: nat)
    requires LowerText(q) == LowerText(q')
    ensures SearchContacts(rows, q, owner) == SearchContacts(rows, q', owner)
    ensures SearchContacts(rows, "", owner) == Owned(rows, owner)
  {
    SelectSameMatches(rows, (c: Contact) => OwnedBy(c, owner) && SearchMatch(c, q),
      (c: Contact) => OwnedBy(c, owner) && SearchMatch(c, q'));
    forall k | k in rows ensures SearchMatch(rows[k], "") {
      assert OccursAt(LowerText(rows[k].firstName), LowerText(""), 0);
    }
    SelectSameMatches(rows, (c: Contact) => OwnedBy(c, owner) && SearchMatch(c, ""),
      (c: Contact) => OwnedBy(c, owner));
  }

  /** The birthday query's filter: the caller's contacts inside the window. */
  function BirthdayFilter(owner: nat, start: Date, end: Date): Contact -> bool {
    (c: Contact) => OwnedBy(c, owner) && InWindow(c, start, end)
  }

  /** `to_char(birthday, 'MM-DD') BETWEEN to_char(start, 'MM-DD') AND
      to_char(end, 'MM-DD')`: both ends included, compared as text. */
  predicate InWindow(c: Contact, start: Date, end: Date) {
    TextLe(MonthDayText(start), MonthDayText(c.birthday)) && TextLe(MonthDayText(c.birthday), MonthDayText(end))
  }

  /** The text window is the window of (month, day) pairs. */
  lemma InWindowByKey(c: Contact, start: Date, end: Date)
    ensures InWindow(c, start, end) <==>
      MonthDayKey(start) <= MonthDayKey(c.birthday) <= MonthDayKey(end)
  {
    MonthDayTextOrder(start, c.birthday);
    MonthDayTextOrder(c.birthday, end);
  }

  function DayKey(c: Contact): int {
    MonthDayKey(c.birthday)
  }

  predicate SortedByDay(s: seq<Contact>) {
    forall i, j :: 0 <= i < j < |s| ==> DayKey(s[i]) <= DayKey(s[j])
  }

  /** A contact no later than every member of a sorted list goes in front. */
  lemma ConsSorted(c: Contact, s: seq<Contact>)
    requires SortedByDay(s) && forall x :: x in s ==> DayKey(c) <= DayKey(x)
    ensures SortedByDay([c] + s)
  {
    forall i, j | 0 <= i < j < |[c] + s| ensures DayKey(([c] + s)[i]) <= DayKey(([c] + s)[j]) {
      assert ([c] + s)[j] == s[j - 1];
      if i > 0 {
        assert ([c] + s)[i] == s[i - 1];
      } else {
        assert s[j - 1] in s;
      }
    }
  }

  /** The rest of a sorted list is sorted and no earlier than its head. */
  lemma SortedTail(s: seq<Contact>)
    requires s != [] && SortedByDay(s)
    ensures SortedByDay(s[1..]) && forall x :: x in s ==> DayKey(s[0]) <= DayKey(x)
  {
    forall x | x in s ensures DayKey(s[0]) <= DayKey(x) {
      var i :| 0 <= i < |s| && s[i] == x;
    }
  }

  function InsertByDay(c: Contact, s: seq<Contact>): (r: seq<Contact>)
    requires SortedByDay(s)
    ensures SortedByDay(r)
    ensures multiset(r) == multiset(s) + multiset{c}
    ensures forall x :: x in r ==> x == c || x in s
    decreases |s|
  {
    if s == [] then [c]
    else
      SortedTail(s);
      if DayKey(c) <= DayKey(s[0]) then
        ConsSorted(c, s);
        [c] + s
      else
        var rest := InsertByDay(c, s[1..]);
        assert s == [s[0]] + s[1..];
        ConsSorted(s[0], rest);
        [s[0]] + rest
  }

  /** `ORDER BY to_char(birthday, 'MM-DD')`. */
  function SortByDay(s: seq<Contact>): (r: seq<Contact>)
    ensures SortedByDay(r)
    ensures multiset(r) == multiset(s)
    decreases |s|
  {
    if s == [] then []
    else
      assert s == [s[0]] + s[1..];
      InsertByDay(s[0], SortByDay(s[1..]))
  }

  lemma SortKeepsMembers(s: seq<Contact>)
    ensures forall x :: x in SortByDay(s) <==> x in s
  {
    var r := SortByDay(s);
    forall x ensures x in r <==> x in s {
      assert x in r <==> x in multiset(r);
      assert x in s <==> x in multiset(s);
    }
  }

  /** A window whose start sorts after its end holds no date. */
  lemma EmptyWindow(c: Contact, start: Date, end: Date)
    requires !TextLe(MonthDayText(start), MonthDayText(end))
    ensures !InWindow(c, start, end)
  {
    InWindowByKey(c, start, end);
    MonthDayTextOrder(start, end);
  }

  /** `get_contacts_with_birthdays`: the caller's contacts whose 'MM-DD' lies
      between those of `start` and `end`, both included, ordered by 'MM-DD'.
      When the start's 'MM-DD' sorts after the end's, nothing lies between. */
  function GetContactsWithBirthdays(rows: map<nat, Contact>, start: Date, end: Date, owner: nat): (r: seq<Contact>)
    ensures SortedByDay(r)
    ensures forall x :: x in r ==> x in rows.Values && OwnedBy(x, owner) && InWindow(x, start, end)
    ensures forall k :: k in rows && OwnedBy(rows[k], owner) && InWindow(rows[k], start, end) ==> rows[k] in r
    ensures multiset(r) == multiset(Select(rows, BirthdayFilter(owner, start, end)))
    ensures !TextLe(MonthDayText(start), MonthDayText(end)) ==> r == []
  {
    var p := BirthdayFilter(owner, start, end);
    var selected := Select(rows, p);
    SelectMembers(rows, p);
    SortKeepsMembers(selected);
    assert !TextLe(MonthDayText(start), MonthDayText(end)) ==> selected == [] by {
      if !TextLe(MonthDayText(start), MonthDayText(end)) && selected != [] {
        EmptyWindow(selected[0], start, end);
      }
    }
    SortByDay(selected)
  }
}
