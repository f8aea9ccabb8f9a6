/** The generic row store every repository sits on: one table of rows keyed
    by an auto-incremented primary key, with the add/commit, commit/refresh and
    delete/commit steps of the session, and the read queries over a table. */
module Base {
  import opened Common

  lemma {:induction false} HasMinimum(s: set<nat>)
    requires s != {}
    ensures exists m :: m in s && forall x :: x in s ==> m <= x
    decreases s
  {
    var y :| y in s;
    if !(forall x :: x in s ==> y <= x) {
      var below := set x | x in s && x < y;
      var z :| z in s && z < y;
      assert z in below && y !in below;
      HasMinimum(below);
      var m :| m in below && forall x :: x in below ==> m <= x;
      forall x | x in s ensures m <= x {
        if x < y {
          assert x in below;
        }
      }
    }
  }

  /** The smallest key of a non-empty key set. */
  function MinId(s: set<nat>): (m: nat)
    requires s != {}
    ensures m in s && forall x :: x in s ==> m <= x
  {
    HasMinimum(s);
    var m :| m in s && forall x :: x in s ==> m <= x; m
  }

  predicate StrictlyIncreasing(ids: seq<nat>) {
    forall i, j :: 0 <= i < j < |ids| ==> ids[i] < ids[j]
  }

  /** The keys of a table in ascending order (`ORDER BY id`). */
  function SortedIds(s: set<nat>): (r: seq<nat>)
    ensures StrictlyIncreasing(r)
    ensures |r| == |s|
    ensures forall x :: x in s <==> x in r
    decreases s
  {
    if s == {} then []
    else
      var m := MinId(s);
      var rest := SortedIds(s - {m});
      assert forall x :: x in rest ==> m < x;
      [m] + rest
  }

  function RowsAt<T>(rows: map<nat, T>, ids: seq<nat>): (r: seq<T>)
    requires forall i :: 0 <= i < |ids| ==> ids[i] in rows
    ensures |r| == |ids| && forall i :: 0 <= i < |ids| ==> r[i] == rows[ids[i]]
  {
    if ids == [] then [] else [rows[ids[0]]] + RowsAt(rows, ids[1..])
  }

  /** Every stored record, in key order. */
  function GetAll<T(==)>(rows: map<nat, T>): (r: seq<T>)
    ensures |r| == |rows|
    ensures forall i :: 0 <= i < |r| ==> r[i] in rows.Values
    ensures forall k :: k in rows ==> rows[k] in r
  {
    var ids := SortedIds(rows.Keys);
    var r := RowsAt(rows, ids);
    assert forall k :: k in rows ==> rows[k] in r by {
      forall k | k in rows ensures rows[k] in r {
        assert k in ids;
        var i :| 0 <= i < |ids| && ids[i] == k;
        assert r[i] == rows[k];
      }
    }
    assert forall i :: 0 <= i < |r| ==> r[i] in rows.Values by {
      forall i | 0 <= i < |r| ensures r[i] in rows.Values {
        assert ids[i] in rows;
      }
    }
    r
  }

  /** The record with primary key `id`, or None. */
  function GetById<T>(rows: map<nat, T>, id: nat): (r: Option<T>)
    ensures r.Some? <==> id in rows
    ensures r.Some? ==> r.value == rows[id]
  {
    if id in rows then Some(rows[id]) else None
  }

  function FirstIn<T>(rows: map<nat, T>, ids: seq<nat>, p: T -> bool): (r: Option<nat>)
    requires forall i :: 0 <= i < |ids| ==> ids[i] in rows
    ensures r.Some? ==> r.value in ids && p(rows[r.value])
    ensures r.None? ==> forall i :: 0 <= i < |ids| ==> !p(rows[ids[i]])
  {
    if ids == [] then None
    else if p(rows[ids[0]]) then Some(ids[0])
    else FirstIn(rows, ids[1..], p)
  }

  /** The key of the first row (by key) that satisfies `p`: what
      `select(...).where(p)` followed by `.first()` gives. */
  function FirstKey<T>(rows: map<nat, T>, p: T -> bool): (r: Option<nat>)
    ensures r.Some? ==> r.value in rows && p(rows[r.value])
    ensures r.None? ==> forall k :: k in rows ==> !p(rows[k])
  {
    var ids := SortedIds(rows.Keys);
    var r := FirstIn(rows, ids, p);
    assert r.None? ==> forall k :: k in rows ==> !p(rows[k]) by {
      if r.None? {
        forall k | k in rows ensures !p(rows[k]) {
          var i :| 0 <= i < |ids| && ids[i] == k;
        }
      }
    }
    r
  }

  /** `.scalars().first()`: the first matching row, or None. */
  function First<T(==)>(rows: map<nat, T>, p: T -> bool): (r: Option<T>)
    ensures r.Some? ==> r.value in rows.Values && p(r.value)
    ensures r.None? ==> forall k :: k in rows ==> !p(rows[k])
  {
    match FirstKey(rows, p)
    case Some(k) => Some(rows[k])
    case None => None
  }

  /** When exactly one row satisfies the filter, the query returns that row,
      whatever order the table is scanned in. */
  lemma OnlyMatchIsFirst<T>(rows: map<nat, T>, p: T -> bool, k: nat)
    requires k in rows && p(rows[k])
    requires forall j :: j in rows && j != k ==> !p(rows[j])
    ensures FirstKey(rows, p) == Some(k)
    ensures First(rows, p) == Some(rows[k])
  {
  }

  /** The keys of the rows that satisfy `p`. */
  function Matches<T>(rows: map<nat, T>, p: T -> bool): (ks: set<nat>)
    ensures forall k :: k in ks <==> k in rows && p(rows[k])
  {
    set k | k in rows && p(rows[k])
  }

  lemma {:induction false} SubsetCard(a: set<nat>, b: set<nat>)
    requires a <= b
    ensures |a| <= |b|
    decreases a
  {
    if a != {} {
      var x :| x in a;
      SubsetCard(a - {x}, b - {x});
    }
  }

  /** A set has two elements or more exactly when it has two distinct members. */
  lemma TwoMembers(s: set<nat>)
    ensures |s| >= 2 <==> exists a, b :: a in s && b in s && a != b
  {
    if |s| >= 2 {
      var a :| a in s;
      assert |s - {a}| == |s| - 1;
      var b :| b in s - {a};
      assert a in s && b in s && a != b;
    }
    if exists a, b :: a in s && b in s && a != b {
      var a, b :| a in s && b in s && a != b;
      assert |{a, b}| == 2;
      SubsetCard({a, b}, s);
    }
  }

  /** At most one row satisfies `p`. */
  ghost predicate AtMostOne<T>(rows: map<nat, T>, p: T -> bool) {
    forall a, b :: a in rows && b in rows && p(rows[a]) && p(rows[b]) ==> a == b
  }

  /** `.scalar_one_or_none()`: the only matching row, None when nothing
      matches, and an unhandled `MultipleResultsFound` when two rows match. */
  function OneOrNone<T(==)>(rows: map<nat, T>, p: T -> bool): (r: Result<Option<T>>)
    ensures r.Err? <==> !AtMostOne(rows, p)
    ensures r.Err? ==> r.error == ServerError
    ensures r == Ok(None) <==> forall k :: k in rows ==> !p(rows[k])
    ensures r.Ok? && r.value.Some? ==> r.value.value in rows.Values && p(r.value.value)
  {
    var ms := Matches(rows, p);
    TwoMembers(ms);
    assert |ms| >= 2 <==> !AtMostOne(rows, p);
    if |ms| == 0 then
      assert forall k :: k in rows ==> !p(rows[k]);
      Ok(None)
    else
      var m := MinId(ms);
      if |ms| == 1 then Ok(Some(rows[m])) else Err(ServerError)
  }

  /** With at most one match the two query forms agree. */
  lemma OneOrNoneAgreesWithFirst<T>(rows: map<nat, T>, p: T -> bool)
    requires AtMostOne(rows, p)
    ensures OneOrNone(rows, p) == Ok(First(rows, p))
  {
    var ms := Matches(rows, p);
    var f := FirstKey(rows, p);
    if f.Some? {
      var k := f.value;
      assert ms == {k};
      assert MinId(ms) == k;
    } else {
      assert ms == {};
    }
  }

  lemma {:induction false} FirstInIsLeast<T>(rows: map<nat, T>, ids: seq<nat>, p: T -> bool)
    requires forall i :: 0 <= i < |ids| ==> ids[i] in rows
    requires StrictlyIncreasing(ids)
    ensures FirstIn(rows, ids, p).Some? ==>
      forall i :: 0 <= i < |ids| && ids[i] < FirstIn(rows, ids, p).value ==> !p(rows[ids[i]])
  {
    if ids != [] && !p(rows[ids[0]]) {
      FirstInIsLeast(rows, ids[1..], p);
      var r := FirstIn(rows, ids, p);
      if r.Some? {
        forall i | 0 <= i < |ids| && ids[i] < r.value ensures !p(rows[ids[i]]) {
          if i > 0 {
            assert ids[i] == ids[1..][i - 1];
          }
        }
      }
    }
  }

  /** `.first()` under `ORDER BY id` picks the matching row with the least
      key. */
  lemma FirstKeyIsLeast<T>(rows: map<nat, T>, p: T -> bool)
    ensures FirstKey(rows, p).Some? ==> forall j :: j in rows && j < FirstKey(rows, p).value ==> !p(rows[j])
  {
    var ids := SortedIds(rows.Keys);
    FirstInIsLeast(rows, ids, p);
    if FirstKey(rows, p).Some? {
      forall j | j in rows && j < FirstKey(rows, p).value ensures !p(rows[j]) {
        var i :| 0 <= i < |ids| && ids[i] == j;
      }
    }
  }

  /** Two tables in which the same keys hold the same matching rows give the
      same first match, whatever else they hold. */
  lemma SameMatchesSameFirstKey<T>(a: map<nat, T>, b: map<nat, T>, p: T -> bool)
    requires forall k :: k in a && p(a[k]) ==> k in b && b[k] == a[k]
    requires forall k :: k in b && p(b[k]) ==> k in a && a[k] == b[k]
    ensures FirstKey(a, p) == FirstKey(b, p)
  {
    FirstKeyIsLeast(a, p);
    FirstKeyIsLeast(b, p);
    var fa, fb := FirstKey(a, p), FirstKey(b, p);
    if fa.Some? && fb.Some? {
      assert !(fa.value < fb.value) && !(fb.value < fa.value);
    }
  }

  /** A key below every key of a strictly increasing sequence extends it. */
  lemma ConsIncreasing(a: nat, s: seq<nat>)
    requires StrictlyIncreasing(s) && forall k :: k in s ==> a < k
    ensures StrictlyIncreasing([a] + s)
  {
    forall i, j | 0 <= i < j < |[a] + s| ensures ([a] + s)[i] < ([a] + s)[j] {
      assert ([a] + s)[j] == s[j - 1];
      if i > 0 {
        assert ([a] + s)[i] == s[i - 1];
      } else {
        assert s[j - 1] in s;
      }
    }
  }

  lemma TailIncreasing(ids: seq<nat>)
    requires ids != [] && StrictlyIncreasing(ids)
    ensures StrictlyIncreasing(ids[1..]) && forall k :: k in ids[1..] ==> ids[0] < k
  {
    forall k | k in ids[1..] ensures ids[0] < k {
      var i :| 0 <= i < |ids[1..]| && ids[1..][i] == k;
      assert ids[i + 1] == k;
    }
  }

  /** The keys among `ids` whose rows satisfy `p`, in the order of `ids`. */
  function FilterIds<T>(rows: map<nat, T>, ids: seq<nat>, p: T -> bool): (r: seq<nat>)
    requires forall i :: 0 <= i < |ids| ==> ids[i] in rows
    ensures forall k :: k in r <==> k in ids && p(rows[k])
    ensures StrictlyIncreasing(ids) ==> StrictlyIncreasing(r)
  {
    if ids == [] then []
    else
      var rest := FilterIds(rows, ids[1..], p);
      if p(rows[ids[0]]) then
        if StrictlyIncreasing(ids) then
          TailIncreasing(ids);
          ConsIncreasing(ids[0], rest);
          [ids[0]] + rest
        else [ids[0]] + rest
      else
        if StrictlyIncreasing(ids) then
          TailIncreasing(ids);
          rest
        else rest
  }

  /** The matching keys in ascending order. */
  function MatchingIds<T>(rows: map<nat, T>, p: T -> bool): (ids: seq<nat>)
    ensures StrictlyIncreasing(ids)
    ensures forall k :: k in ids <==> k in rows && p(rows[k])
    ensures forall i :: 0 <= i < |ids| ==> ids[i] in rows
  {
    var ids := FilterIds(rows, SortedIds(rows.Keys), p);
    assert forall i :: 0 <= i < |ids| ==> ids[i] in rows by {
      forall i | 0 <= i < |ids| ensures ids[i] in rows {
        assert ids[i] in ids;
      }
    }
    ids
  }

  /** `select(...).where(p).order_by(id)`: the matching rows in key order. */
  function Select<T>(rows: map<nat, T>, p: T -> bool): (r: seq<T>)
    ensures |r| == |MatchingIds(rows, p)|
    ensures forall i :: 0 <= i < |r| ==> r[i] == rows[MatchingIds(rows, p)[i]]
  {
    RowsAt(rows, MatchingIds(rows, p))
  }

  /** Every row that satisfies the filter is in the selection, and the
      selection holds nothing else. */
  lemma SelectMembers<T>(rows: map<nat, T>, p: T -> bool)
    ensures forall k :: k in rows && p(rows[k]) ==> rows[k] in Select(rows, p)
    ensures forall x :: x in Select(rows, p) ==> exists k :: k in rows && p(rows[k]) && rows[k] == x
  {
    var ids, r := MatchingIds(rows, p), Select(rows, p);
    forall k | k in rows && p(rows[k]) ensures rows[k] in r {
      var i :| 0 <= i < |ids| && ids[i] == k;
      assert r[i] == rows[k];
    }
    forall x | x in r ensures exists k :: k in rows && p(rows[k]) && rows[k] == x {
      var i :| 0 <= i < |r| && r[i] == x;
      assert ids[i] in ids;
    }
  }

  lemma {:induction false} FilterIdsSameMatches<T>(rows: map<nat, T>, ids: seq<nat>, p: T -> bool, q: T -> bool)
    requires forall i :: 0 <= i < |ids| ==> ids[i] in rows
    requires forall k :: k in rows ==> p(rows[k]) == q(rows[k])
    ensures FilterIds(rows, ids, p) == FilterIds(rows, ids, q)
  {
    if ids != [] {
      FilterIdsSameMatches(rows, ids[1..], p, q);
    }
  }

  /** Two filters that agree on every stored row select the same rows. */
  lemma SelectSameMatches<T>(rows: map<nat, T>, p: T -> bool, q: T -> bool)
    requires forall k :: k in rows ==> p(rows[k]) == q(rows[k])
    ensures Select(rows, p) == Select(rows, q)
  {
    FilterIdsSameMatches(rows, SortedIds(rows.Keys), p, q);
  }

  /** `.offset(offset).limit(limit)`: skip `offset` rows, keep at most
      `limit`. */
  function Page<T>(s: seq<T>, offset: nat, limit: nat): (r: seq<T>)
    ensures |r| == if offset >= |s| then 0 else if |s| - offset < limit then |s| - offset else limit
    ensures forall i :: 0 <= i < |r| ==> r[i] == s[offset + i]
  {
    if offset >= |s| then []
    else if |s| - offset < limit then s[offset..]
    else s[offset..offset + limit]
  }

  /** Consecutive pages tile the result: reading `n` rows and then `m` more
      is reading `n + m` rows. */
  lemma PagesTile<T>(s: seq<T>, offset: nat, n: nat, m: nat)
    ensures Page(s, offset, n) + Page(s, offset + n, m) == Page(s, offset, n + m)
  {
  }

  /** A first page at least as long as the list is the whole list. */
  lemma WholePage<T>(s: seq<T>, n: nat)
    ensures n >= |s| ==> Page(s, 0, n) == s
  {
    if n >= |s| {
      assert s[0..] == s;
    }
  }

  /** One database table. `idOf` reads a row's primary key; `nextId` is the
      next value of the key's sequence. */
  class Table<T> {
    const idOf: T -> nat
    var rows: map<nat, T>
    var nextId: nat

    ghost predicate Valid()
      reads this
    {
      forall k :: k in rows ==> idOf(rows[k]) == k && k < nextId
    }

    constructor (idOf: T -> nat)
      ensures Valid()
      ensures this.idOf == idOf && rows == map[] && nextId == 1
    {
      this.idOf := idOf;
      rows := map[];
      nextId := 1;
    }

    /** `create`: add the instance (which carries the sequence's next key)
        and commit; the instance itself is returned. */
    method Create(x: T) returns (created: T)
      requires Valid() && idOf(x) == nextId
      modifies this
      ensures Valid()
      ensures idOf(x) !in old(rows)
      ensures rows == old(rows)[idOf(x) := x] && nextId == old(nextId) + 1
      ensures created == x
    {
      rows := rows[idOf(x) := x];
      nextId := nextId + 1;
      created := x;
    }

    /** `update`: commit the changes made to a stored instance and return it;
        no other row changes. */
    method Update(x: T) returns (updated: T)
      requires Valid() && idOf(x) in rows
      modifies this
      ensures Valid()
      ensures rows == old(rows)[idOf(x) := x] && nextId == old(nextId)
      ensures updated == x
    {
      rows := rows[idOf(x) := x];
      updated := x;
    }

    /** `delete`: remove exactly the stored instance `x`. */
    method Delete(x: T)
      requires Valid() && idOf(x) in rows && rows[idOf(x)] == x
      modifies this
      ensures Valid()
      ensures rows == old(rows) - {idOf(x)} && nextId == old(nextId)
    {
      rows := rows - {idOf(x)};
    }

    /** `DELETE FROM table WHERE p`. */
    method DeleteWhere(p: T -> bool)
      requires Valid()
      modifies this
      ensures Valid()
      ensures rows == map k | k in old(rows) && !p(old(rows)[k]) :: old(rows)[k]
      ensures nextId == old(nextId)
    {
      rows := map k | k in rows && !p(rows[k]) :: rows[k];
    }
  }
}
