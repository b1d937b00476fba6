/**
 * The two tables of the scheduler as sequences of rows in storage order, and
 * the statements the handlers run against them: look-ups by username and by
 * id, the visibility filter of the listing, `ORDER BY datetime(event_datetime)`,
 * the role update of a promotion and the delete of an event.
 */
module Tables {
  import opened Wrappers
  import opened DateTimes

  /** A row of `users`. A NULL role is modelled as the empty string: both are false in Python. */
  datatype User = User(id: nat, username: string, passwordHash: string, role: string)

  /** A row of `events`. A NULL `event_datetime` or `created_by` is `None`. */
  datatype Event = Event(id: nat, title: string, description: string, eventDatetime: Option<string>,
                         location: string, createdBy: Option<nat>, visibleToAll: bool)

  /** `a` is `b` with some rows left out and the rest in their order. */
  ghost predicate IsSubsequence<T>(a: seq<T>, b: seq<T>)
    decreases |b|
  {
    a == [] || (b != [] && ((a[0] == b[0] && IsSubsequence(a[1..], b[1..])) || IsSubsequence(a, b[1..])))
  }

  // ---------------------------------------------------------------------------
  // Table invariants: the AUTOINCREMENT ids and the UNIQUE username

  /** Every id is below the next one to be handed out; ids and usernames are unique. */
  ghost predicate UsersValid(users: seq<User>, nextId: nat) {
    && (forall i :: 0 <= i < |users| ==> users[i].id < nextId)
    && (forall i, j :: 0 <= i < j < |users| ==> users[i].id != users[j].id)
    && (forall i, j :: 0 <= i < j < |users| ==> users[i].username != users[j].username)
  }

  /** Every id is below the next one to be handed out, and ids are unique. */
  ghost predicate EventsValid(events: seq<Event>, nextId: nat) {
    && (forall i :: 0 <= i < |events| ==> events[i].id < nextId)
    && UniqueIds(events)
  }

  ghost predicate UniqueIds(events: seq<Event>) {
    forall i, j :: 0 <= i < j < |events| ==> events[i].id != events[j].id
  }

  /** Inserting a row with the next id and a new username keeps the invariant, with the counter advanced. */
  lemma UsersAppendValid(users: seq<User>, nextId: nat, u: User)
    requires UsersValid(users, nextId) && u.id == nextId
    requires forall i :: 0 <= i < |users| ==> users[i].username != u.username
    ensures UsersValid(users + [u], nextId + 1)
  {
    assert forall i :: 0 <= i < |users| ==> (users + [u])[i] == users[i];
  }

  /** Inserting a row with the next id keeps the invariant, with the counter advanced. */
  lemma EventsAppendValid(events: seq<Event>, nextId: nat, e: Event)
    requires EventsValid(events, nextId) && e.id == nextId
    ensures EventsValid(events + [e], nextId + 1)
  {
    assert forall i :: 0 <= i < |events| ==> (events + [e])[i] == events[i];
  }

  // ---------------------------------------------------------------------------
  // Look-ups

  /** `SELECT * FROM users WHERE username = ?` followed by `fetchone()`. */
  function FindUser(users: seq<User>, name: string): (r: Option<User>)
    ensures r.Some? ==> r.value in users && r.value.username == name
    ensures r.None? <==> forall i :: 0 <= i < |users| ==> users[i].username != name
  {
    if users == [] then None
    else if users[0].username == name then Some(users[0])
    else
      var r := FindUser(users[1..], name);
      assert forall i :: 1 <= i < |users| ==> users[i] == users[1..][i - 1];
      r
  }

  /** `SELECT * FROM events WHERE id = ?` followed by `fetchone()`. */
  function FindEvent(events: seq<Event>, id: nat): (r: Option<Event>)
    ensures r.Some? ==> r.value in events && r.value.id == id
    ensures r.None? <==> forall i :: 0 <= i < |events| ==> events[i].id != id
  {
    if events == [] then None
    else if events[0].id == id then Some(events[0])
    else
      var r := FindEvent(events[1..], id);
      assert forall i :: 1 <= i < |events| ==> events[i] == events[1..][i - 1];
      r
  }

  /** With unique usernames the look-up finds the one row of that name. */
  lemma FindUserUnique(users: seq<User>, nextId: nat, k: nat)
    requires UsersValid(users, nextId) && k < |users|
    ensures FindUser(users, users[k].username) == Some(users[k])
  {
    var r := FindUser(users, users[k].username);
    var j :| 0 <= j < |users| && users[j] == r.value;
    assert j == k;
  }

  // ---------------------------------------------------------------------------
  // Visibility: `WHERE visible_to_all = 1 OR created_by = ?`

  predicate VisibleTo(e: Event, uid: nat) {
    e.visibleToAll || e.createdBy == Some(uid)
  }

  /** The rows the listing query selects, in storage order. */
  function VisibleRows(events: seq<Event>, uid: nat): (r: seq<Event>)
    ensures IsSubsequence(r, events)
    ensures forall e :: e in r <==> e in events && VisibleTo(e, uid)
  {
    if events == [] then []
    else
      var rest := VisibleRows(events[1..], uid);
      assert forall e :: e in events <==> e == events[0] || e in events[1..];
      if VisibleTo(events[0], uid) then [events[0]] + rest else rest
  }

  // ---------------------------------------------------------------------------
  // `ORDER BY datetime(event_datetime) ASC`

  /** The date a listing page shows for a stored `event_datetime`. */
  function StoredDate(ed: Option<string>): (r: Option<DateTime>)
    ensures r.Some? ==> Valid(r.value)
  {
    match ed
    case None => None
    case Some(s) => LenientParse(s)
  }

  /** The sort key: the instant of the stored date, `None` (SQL NULL) when there is none. */
  function SortKey(e: Event): Option<int> {
    match StoredDate(e.eventDatetime)
    case None => None
    case Some(d) => Some(Instant(d))
  }

  /** Ascending order with NULLs first, as SQLite sorts. */
  predicate KeyLe(a: Option<int>, b: Option<int>) {
    a.None? || (b.Some? && a.value <= b.value)
  }

  ghost predicate SortedBy(key: Event -> Option<int>, rows: seq<Event>) {
    forall i, j :: 0 <= i < j < |rows| ==> KeyLe(key(rows[i]), key(rows[j]))
  }

  /** Puts `x` in front of the first row it does not sort after, keeping ties in storage order. */
  function Insert(key: Event -> Option<int>, x: Event, rows: seq<Event>): (r: seq<Event>)
    ensures multiset(r) == multiset(rows) + multiset{x}
  {
    if rows == [] then [x]
    else if KeyLe(key(x), key(rows[0])) then [x] + rows
    else
      assert rows == [rows[0]] + rows[1..];
      [rows[0]] + Insert(key, x, rows[1..])
  }

  /** Inserting into a sorted sequence keeps it sorted. */
  lemma {:induction false} InsertSorted(key: Event -> Option<int>, x: Event, rows: seq<Event>)
    requires SortedBy(key, rows)
    ensures SortedBy(key, Insert(key, x, rows))
  {
    if rows != [] && !KeyLe(key(x), key(rows[0])) {
      var tail := Insert(key, x, rows[1..]);
      InsertSorted(key, x, rows[1..]);
      forall j | 0 <= j < |tail| ensures KeyLe(key(rows[0]), key(tail[j])) {
        assert tail[j] in multiset(tail);
        assert tail[j] == x || tail[j] in rows[1..];
      }
    }
  }

  /** Insertion sort by `key`: a permutation of the rows, ascending, rows without a key first. */
  function SortBy(key: Event -> Option<int>, rows: seq<Event>): (r: seq<Event>)
    ensures SortedBy(key, r)
    ensures multiset(r) == multiset(rows)
  {
    if rows == [] then []
    else
      var sorted := SortBy(key, rows[1..]);
      InsertSorted(key, rows[0], sorted);
      assert rows == [rows[0]] + rows[1..];
      Insert(key, rows[0], sorted)
  }

  /** The order the queries ask for: `ORDER BY datetime(event_datetime) ASC`. */
  function SortByDate(rows: seq<Event>): (r: seq<Event>)
    ensures forall i, j :: 0 <= i < j < |r| ==> KeyLe(SortKey(r[i]), SortKey(r[j]))
    ensures multiset(r) == multiset(rows)
  {
    SortBy(SortKey, rows)
  }

  lemma SortedMembers(rows: seq<Event>, e: Event)
    ensures e in SortByDate(rows) <==> e in rows
  {
    assert e in SortByDate(rows) <==> e in multiset(SortByDate(rows));
    assert e in rows <==> e in multiset(rows);
  }

  // ---------------------------------------------------------------------------
  // `UPDATE users SET role = 'admin' WHERE username = ?`

  function PromoteRow(u: User, name: string): User {
    if u.username == name then u.(role := "admin") else u
  }

  /** The table after the update: every row of that name gets role "admin". */
  function Promoted(users: seq<User>, name: string): (r: seq<User>)
    ensures |r| == |users|
    ensures forall i :: 0 <= i < |users| ==> r[i] == PromoteRow(users[i], name)
  {
    if users == [] then [] else [PromoteRow(users[0], name)] + Promoted(users[1..], name)
  }

  /** Only the target's role changes; every other row and column stays as it was. */
  lemma PromotedChangesOnlyTarget(users: seq<User>, name: string, i: nat)
    requires i < |users|
    ensures var u := Promoted(users, name)[i];
      && u.id == users[i].id && u.username == users[i].username
      && u.passwordHash == users[i].passwordHash
      && (users[i].username == name ==> u.role == "admin")
      && (users[i].username != name ==> u == users[i])
  {
  }

  /** Promoting twice is promoting once. */
  lemma {:induction false} PromotedIdempotent(users: seq<User>, name: string)
    ensures Promoted(Promoted(users, name), name) == Promoted(users, name)
  {
    if users != [] {
      PromotedIdempotent(users[1..], name);
      assert Promoted(users, name)[1..] == Promoted(users[1..], name);
    }
  }

  /** Promoting a name that no row has changes nothing. */
  lemma {:induction false} PromotedMissing(users: seq<User>, name: string)
    requires FindUser(users, name).None?
    ensures Promoted(users, name) == users
  {
    if users != [] {
      assert forall i :: 0 <= i < |users[1..]| ==> users[1..][i] == users[i + 1];
      PromotedMissing(users[1..], name);
    }
  }

  /** The update keeps the table's ids and usernames, so its invariant holds. */
  lemma PromotedValid(users: seq<User>, nextId: nat, name: string)
    requires UsersValid(users, nextId)
    ensures UsersValid(Promoted(users, name), nextId)
  {
    var r := Promoted(users, name);
    assert forall i :: 0 <= i < |r| ==> r[i].id == users[i].id && r[i].username == users[i].username;
  }

  // ---------------------------------------------------------------------------
  // `DELETE FROM events WHERE id = ?`

  /** The table after the delete: the rows with that id are gone, the rest keep their order. */
  function Deleted(events: seq<Event>, id: nat): (r: seq<Event>)
    ensures IsSubsequence(r, events)
    ensures forall e :: e in r <==> e in events && e.id != id
  {
    if events == [] then []
    else
      var rest := Deleted(events[1..], id);
      assert forall e :: e in events <==> e == events[0] || e in events[1..];
      if events[0].id == id then rest else [events[0]] + rest
  }

  /** Deleting an id that no row has changes nothing. */
  lemma {:induction false} DeletedMissing(events: seq<Event>, id: nat)
    requires FindEvent(events, id).None?
    ensures Deleted(events, id) == events
  {
    if events != [] {
      assert forall i :: 0 <= i < |events[1..]| ==> events[1..][i] == events[i + 1];
      DeletedMissing(events[1..], id);
    }
  }

  /** With unique ids, deleting a present id removes exactly one row. */
  lemma {:induction false} DeletedOne(events: seq<Event>, nextId: nat, id: nat)
    requires EventsValid(events, nextId) && FindEvent(events, id).Some?
    ensures |Deleted(events, id)| == |events| - 1
  {
    assert events != [];
    var tail := events[1..];
    assert EventsValid(tail, nextId) by {
      assert forall i :: 0 <= i < |tail| ==> tail[i] == events[i + 1];
    }
    if events[0].id == id {
      assert forall i :: 0 <= i < |tail| ==> tail[i].id != id by {
        assert forall i :: 0 <= i < |tail| ==> tail[i] == events[i + 1];
      }
      DeletedMissing(tail, id);
    } else {
      assert FindEvent(tail, id).Some?;
      DeletedOne(tail, nextId, id);
    }
  }

  /** Deleting keeps the table's invariant. */
  lemma DeletedValid(events: seq<Event>, nextId: nat, id: nat)
    requires EventsValid(events, nextId)
    ensures EventsValid(Deleted(events, id), nextId)
  {
    var r := Deleted(events, id);
    forall i | 0 <= i < |r| ensures r[i].id < nextId {
      assert r[i] in events;
    }
    DeletedUnique(events, id);
  }

  lemma {:induction false} DeletedUnique(events: seq<Event>, id: nat)
    requires UniqueIds(events)
    ensures UniqueIds(Deleted(events, id))
  {
    if events != [] {
      var tail := events[1..];
      assert forall i :: 0 <= i < |tail| ==> tail[i] == events[i + 1];
      DeletedUnique(tail, id);
      if events[0].id != id {
        var rest := Deleted(tail, id);
        forall e | e in rest ensures e.id != events[0].id {
          var k :| 0 <= k < |tail| && tail[k] == e;
          assert events[k + 1] == e;
        }
        ConsUnique(events[0], rest);
      }
    }
  }

  lemma ConsUnique(x: Event, rest: seq<Event>)
    requires UniqueIds(rest) && forall e :: e in rest ==> e.id != x.id
    ensures UniqueIds([x] + rest)
  {
    var r := [x] + rest;
    forall i, j | 0 <= i < j < |r| ensures r[i].id != r[j].id {
      assert r[j] == rest[j - 1];
      if i > 0 {
        assert r[i] == rest[i - 1];
      }
    }
  }
}
