/** The contact service's own logic: the week-ahead birthday window. Its
    other methods hand their arguments to the repository unchanged. Today's
    date is a parameter. */
module ContactService {
  import opened Common
  import opened Calendar
  import opened Models
  import opened Base
  import opened ContactRepository

  /** `upcoming_birthdays`: the birthday query from `today` to
      `today + 7 days`. */
  function UpcomingBirthdays(rows: map<nat, Contact>, today: Date, owner: nat): (r: seq<Contact>)
    ensures SortedByDay(r)
    ensures forall x :: x in r ==>
      (x in rows.Values && OwnedBy(x, owner) &&
       MonthDayKey(today) <= MonthDayKey(x.birthday) <= MonthDayKey(AddDays(today, 7)))
    ensures multiset(r) == multiset(Select(rows, BirthdayFilter(owner, today, AddDays(today, 7))))
  {
    var r := GetContactsWithBirthdays(rows, today, AddDays(today, 7), owner);
    assert forall x :: x in r ==> MonthDayKey(today) <= MonthDayKey(x.birthday) <= MonthDayKey(AddDays(today, 7)) by {
      forall x | x in r ensures MonthDayKey(today) <= MonthDayKey(x.birthday) <= MonthDayKey(AddDays(today, 7)) {
        InWindowByKey(x, today, AddDays(today, 7));
      }
    }
    r
  }

  /** Within one year, a week later is a later (month, day). */
  lemma WeekAheadSameYear(today: Date)
    requires AddDays(today, 7).year == today.year
    ensures MonthDayKey(today) < MonthDayKey(AddDays(today, 7))
  {
    AddDaysClosedForm(today, 7);
  }

  /** When the week crosses New Year (a start from 25 December on), the
      window's 'MM-DD' text runs backwards and no contact is returned,
      although birthdays on 1 January fall in the week. */
  lemma NewYearWeekIsEmpty(rows: map<nat, Contact>, today: Date, owner: nat)
    requires AddDays(today, 7).year != today.year
    ensures UpcomingBirthdays(rows, today, owner) == []
  {
    WeekAcrossNewYear(today);
    MonthDayTextOrder(today, AddDays(today, 7));
  }

  /** Both ends of the window count: within one year, a contact of the caller
      whose birthday falls on today's (month, day), on that of the seventh
      day, or on any in between, is returned. */
  lemma WindowIsInclusive(rows: map<nat, Contact>, today: Date, owner: nat, k: nat)
    requires AddDays(today, 7).year == today.year
    requires k in rows && OwnedBy(rows[k], owner)
    requires MonthDayKey(today) <= MonthDayKey(rows[k].birthday) <= MonthDayKey(AddDays(today, 7))
    ensures rows[k] in UpcomingBirthdays(rows, today, owner)
  {
    InWindowByKey(rows[k], today, AddDays(today, 7));
  }

  /** The week ahead as a window of (month, day) pairs that wraps around
      New Year: from today's pair to the end of the year and on from the
      start of the year to the seventh day's pair. */
  predicate InWeekWindow(c: Contact, today: Date) {
    var s, e, b := MonthDayKey(today), MonthDayKey(AddDays(today, 7)), MonthDayKey(c.birthday);
    if s <= e then s <= b <= e else s <= b || b <= e
  }

  /** The filter of the wrapping window: the caller's contacts in the week. */
  function WeekFilter(owner: nat, today: Date): Contact -> bool {
    (c: Contact) => OwnedBy(c, owner) && InWeekWindow(c, today)
  }

  /** `upcoming_birthdays` as its documentation describes it: the caller's
      contacts with a birthday in the coming week, across New Year too. */
  function UpcomingBirthdaysWrapped(rows: map<nat, Contact>, today: Date, owner: nat): (r: seq<Contact>)
    ensures SortedByDay(r)
    ensures forall x :: x in r ==> (x in rows.Values && OwnedBy(x, owner) && InWeekWindow(x, today))
    ensures forall k :: k in rows && OwnedBy(rows[k], owner) && InWeekWindow(rows[k], today) ==> rows[k] in r
    ensures multiset(r) == multiset(Select(rows, WeekFilter(owner, today)))
  {
    var p := WeekFilter(owner, today);
    var selected := Select(rows, p);
    SelectMembers(rows, p);
    SortKeepsMembers(selected);
    SortByDay(selected)
  }

  /** Each of the eight days from today to the seventh day lies in the
      wrapping window. */
  lemma DayOfWeekInWindow(c: Contact, today: Date, n: nat)
    requires n <= 7 && MonthDayKey(c.birthday) == MonthDayKey(AddDays(today, n))
    ensures InWeekWindow(c, today)
  {
    AddDaysClosedForm(today, n);
    AddDaysClosedForm(today, 7);
  }

  /** A contact of the caller whose birthday falls on any day of the coming
      week, New Year or not, is returned. */
  lemma WrappedCoversWeek(rows: map<nat, Contact>, today: Date, owner: nat, k: nat, n: nat)
    requires k in rows && OwnedBy(rows[k], owner)
    requires n <= 7 && MonthDayKey(rows[k].birthday) == MonthDayKey(AddDays(today, n))
    ensures rows[k] in UpcomingBirthdaysWrapped(rows, today, owner)
  {
    DayOfWeekInWindow(rows[k], today, n);
  }

  /** Within one year the wrapping window is the query as written. */
  lemma WrappedAgreesWithinYear(rows: map<nat, Contact>, today: Date, owner: nat)
    requires AddDays(today, 7).year == today.year
    ensures UpcomingBirthdaysWrapped(rows, today, owner) == UpcomingBirthdays(rows, today, owner)
  {
    var end := AddDays(today, 7);
    WeekAheadSameYear(today);
    var p := BirthdayFilter(owner, today, end);
    var q := WeekFilter(owner, today);
    forall k | k in rows ensures p(rows[k]) == q(rows[k]) {
      InWindowByKey(rows[k], today, end);
    }
    SelectSameMatches(rows, p, q);
  }

  /** On 28 December 2024 a contact of the caller born on 1 January is
      missed by the query as written and found by the wrapping window. */
  lemma NewYearBirthdayMissed(owner: nat)
    ensures var c := Contact(1, "Ann", "Lee", "ann@example.com", "0501234567",
                             YearMonthDay(1990, 1, 1), None, Some(owner));
      var today: Date := YearMonthDay(2024, 12, 28);
      && UpcomingBirthdays(map[1 := c], today, owner) == []
      && c in UpcomingBirthdaysWrapped(map[1 := c], today, owner)
  {
    var c := Contact(1, "Ann", "Lee", "ann@example.com", "0501234567",
                     YearMonthDay(1990, 1, 1), None, Some(owner));
    var today: Date := YearMonthDay(2024, 12, 28);
    AddDaysClosedForm(today, 7);
    NewYearWeekIsEmpty(map[1 := c], today, owner);
    AddDaysClosedForm(today, 4);
    WrappedCoversWeek(map[1 := c], today, owner, 1, 4);
  }
}
