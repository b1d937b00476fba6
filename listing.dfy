/**
 * What the two listing pages show: each selected row with its stored date read
 * back leniently, and the notifications, the listed events that fall within
 * the next 24 hours.
 */
module Listing {
  import opened Wrappers
  import opened DateTimes
  import opened Tables

  /** One entry of the `/events` page. */
  datatype Entry = Entry(id: nat, title: string, description: string, date: Option<DateTime>,
                         location: string, createdBy: Option<nat>, visibleToAll: bool)

  /** One entry of the dashboard's event list, which does not select the description. */
  datatype DashboardEntry = DashboardEntry(id: nat, title: string, date: Option<DateTime>,
                                           location: string, createdBy: Option<nat>, visibleToAll: bool)

  /** One entry of the dashboard's user list. */
  datatype UserSummary = UserSummary(id: nat, username: string, role: string)

  function EntryOf(e: Event): Entry {
    Entry(e.id, e.title, e.description, StoredDate(e.eventDatetime), e.location, e.createdBy, e.visibleToAll)
  }

  function DashboardEntryOf(e: Event): DashboardEntry {
    DashboardEntry(e.id, e.title, StoredDate(e.eventDatetime), e.location, e.createdBy, e.visibleToAll)
  }

  function SummaryOf(u: User): UserSummary {
    UserSummary(u.id, u.username, u.role)
  }

  /** The page entries of `rows`, one per row and in the rows' order. */
  ghost function Entries(rows: seq<Event>): (r: seq<Entry>)
    ensures |r| == |rows|
  {
    seq(|rows|, k requires 0 <= k < |rows| => EntryOf(rows[k]))
  }

  ghost function DashboardEntries(rows: seq<Event>): (r: seq<DashboardEntry>)
    ensures |r| == |rows|
  {
    seq(|rows|, k requires 0 <= k < |rows| => DashboardEntryOf(rows[k]))
  }

  /** The dashboard's user list: every user, in the order they were created. */
  function Summaries(users: seq<User>): (r: seq<UserSummary>)
    ensures |r| == |users|
    ensures forall k :: 0 <= k < |users| ==>
      r[k].id == users[k].id && r[k].username == users[k].username && r[k].role == users[k].role
  {
    seq(|users|, k requires 0 <= k < |users| => SummaryOf(users[k]))
  }

  /** Reads one stored date back: no date stays none, text goes through the lenient parse. */
  method ReadStoredDate(ed: Option<string>) returns (d: Option<DateTime>)
    ensures d == StoredDate(ed)
  {
    d := None;
    if ed.Some? {
      d := ParseLeniently(ed.value);
    }
  }

  lemma EntriesSnoc(rows: seq<Event>, i: nat)
    requires i < |rows|
    ensures Entries(rows[..i + 1]) == Entries(rows[..i]) + [EntryOf(rows[i])]
  {
    assert forall k :: 0 <= k < i ==> rows[..i + 1][k] == rows[..i][k];
  }

  lemma DashboardEntriesSnoc(rows: seq<Event>, i: nat)
    requires i < |rows|
    ensures DashboardEntries(rows[..i + 1]) == DashboardEntries(rows[..i]) + [DashboardEntryOf(rows[i])]
  {
    assert forall k :: 0 <= k < i ==> rows[..i + 1][k] == rows[..i][k];
  }

  /** Builds the page entries of `rows`, reading each stored date back in turn. */
  method ReadEntries(rows: seq<Event>) returns (entries: seq<Entry>)
    ensures entries == Entries(rows)
  {
    entries := [];
    var i := 0;
    while i < |rows|
      invariant 0 <= i <= |rows|
      invariant entries == Entries(rows[..i])
    {
      var row := rows[i];
      var date := ReadStoredDate(row.eventDatetime);
      EntriesSnoc(rows, i);
      entries := entries + [Entry(row.id, row.title, row.description, date, row.location, row.createdBy, row.visibleToAll)];
      i := i + 1;
    }
    assert rows[..i] == rows;
  }

  /** Builds the dashboard entries of `rows` in the same way. */
  method ReadDashboardEntries(rows: seq<Event>) returns (entries: seq<DashboardEntry>)
    ensures entries == DashboardEntries(rows)
  {
    entries := [];
    var i := 0;
    while i < |rows|
      invariant 0 <= i <= |rows|
      invariant entries == DashboardEntries(rows[..i])
    {
      var row := rows[i];
      var date := ReadStoredDate(row.eventDatetime);
      DashboardEntriesSnoc(rows, i);
      entries := entries + [DashboardEntry(row.id, row.title, date, row.location, row.createdBy, row.visibleToAll)];
      i := i + 1;
    }
    assert rows[..i] == rows;
  }

  /** The rows `/events` selects for the caller `uid`, in page order. */
  function ListingRows(events: seq<Event>, uid: nat): (r: seq<Event>)
    ensures |r| == |VisibleRows(events, uid)|
    ensures forall i, j :: 0 <= i < j < |r| ==> KeyLe(SortKey(r[i]), SortKey(r[j]))
  {
    var rows := VisibleRows(events, uid);
    assert |multiset(SortByDate(rows))| == |multiset(rows)|;
    SortByDate(rows)
  }

  // ---------------------------------------------------------------------------
  // Who sees what

  /** The listing holds exactly the rows that are public or the caller's own. */
  lemma ListingShowsExactlyVisible(events: seq<Event>, uid: nat, e: Event)
    ensures e in ListingRows(events, uid) <==> e in events && (e.visibleToAll || e.createdBy == Some(uid))
  {
    SortedMembers(VisibleRows(events, uid), e);
  }

  /** Every row of the listing appears once per stored copy: the sort loses and adds nothing. */
  lemma ListingIsPermutationOfVisible(events: seq<Event>, uid: nat)
    ensures multiset(ListingRows(events, uid)) == multiset(VisibleRows(events, uid))
  {
  }

  /** A private event created by someone else never shows up on the caller's page. */
  lemma ListingHidesOthersPrivate(events: seq<Event>, nextId: nat, uid: nat, k: nat)
    requires EventsValid(events, nextId) && k < |events|
    requires !events[k].visibleToAll && events[k].createdBy != Some(uid)
    ensures forall n :: 0 <= n < |Entries(ListingRows(events, uid))| ==>
      Entries(ListingRows(events, uid))[n].id != events[k].id
  {
    var rows := ListingRows(events, uid);
    forall n | 0 <= n < |rows| ensures Entries(rows)[n].id != events[k].id {
      var e := rows[n];
      ListingShowsExactlyVisible(events, uid, e);
      var j :| 0 <= j < |events| && events[j] == e;
      assert e != events[k];
      assert j != k;
    }
  }

  /** A visible event whose date cannot be read is still listed, with no date. */
  lemma ListingKeepsUnreadableDates(events: seq<Event>, uid: nat, e: Event)
    requires e in events && (e.visibleToAll || e.createdBy == Some(uid))
    requires StoredDate(e.eventDatetime).None?
    ensures EntryOf(e) in Entries(ListingRows(events, uid))
    ensures EntryOf(e).id == e.id && EntryOf(e).title == e.title && EntryOf(e).date == None
  {
    var rows := ListingRows(events, uid);
    ListingShowsExactlyVisible(events, uid, e);
    var n :| 0 <= n < |rows| && rows[n] == e;
    assert Entries(rows)[n] == EntryOf(e);
  }

  /** The page is in ascending date order as Python compares datetimes, undated entries first. */
  predicate NotLater(a: Option<DateTime>, b: Option<DateTime>) {
    a.None? || (b.Some? && !Before(b.value, a.value))
  }

  lemma ListingAscending(events: seq<Event>, uid: nat)
    ensures forall i, j :: 0 <= i < j < |Entries(ListingRows(events, uid))| ==>
      NotLater(Entries(ListingRows(events, uid))[i].date, Entries(ListingRows(events, uid))[j].date)
  {
    var rows := ListingRows(events, uid);
    forall i, j | 0 <= i < j < |rows| ensures NotLater(Entries(rows)[i].date, Entries(rows)[j].date) {
      var a := StoredDate(rows[i].eventDatetime);
      var b := StoredDate(rows[j].eventDatetime);
      assert KeyLe(SortKey(rows[i]), SortKey(rows[j]));
      if a.Some? && b.Some? {
        InstantOrder(b.value, a.value);
      }
    }
  }

  // ---------------------------------------------------------------------------
  // Dates written by the create form

  /** A stored date in the storage form: it reads back, and formatting what it reads gives it again. */
  predicate Normalised(ed: Option<string>) {
    ed.Some? && StoredDate(ed).Some? && Format(StoredDate(ed).value) == ed.value
  }

  ghost predicate DatesNormalised(events: seq<Event>) {
    forall i :: 0 <= i < |events| ==> Normalised(events[i].eventDatetime)
  }

  /** The storage form of a parsed date is normalised and reads back as that date. */
  lemma FormatNormalised(d: DateTime)
    requires Valid(d) && d.microsecond == 0
    ensures Normalised(Some(Format(d)))
    ensures StoredDate(Some(Format(d))) == Some(d)
  {
    LenientParseOfFormat(d);
  }

  /** Appending a row with a normalised date keeps every date normalised. */
  lemma AppendNormalised(events: seq<Event>, e: Event)
    requires Normalised(e.eventDatetime)
    ensures DatesNormalised(events + [e]) <==> DatesNormalised(events)
  {
    assert forall i :: 0 <= i < |events| ==> (events + [e])[i] == events[i];
  }

  /** Removing rows keeps every remaining date normalised. */
  lemma FilterNormalised(events: seq<Event>, kept: seq<Event>)
    requires DatesNormalised(events) && forall e :: e in kept ==> e in events
    ensures DatesNormalised(kept)
  {
    forall i | 0 <= i < |kept| ensures Normalised(kept[i].eventDatetime) {
      assert kept[i] in events;
    }
  }

  /** Deleting rows keeps every remaining date normalised. */
  lemma DeletedNormalised(events: seq<Event>, id: nat)
    ensures DatesNormalised(events) ==> DatesNormalised(Deleted(events, id))
  {
    if DatesNormalised(events) {
      FilterNormalised(events, Deleted(events, id));
    }
  }

  /** When every row came through the create form, every entry carries a date. */
  lemma NormalisedListingDated(events: seq<Event>, uid: nat)
    requires DatesNormalised(events)
    ensures forall n :: 0 <= n < |Entries(ListingRows(events, uid))| ==>
      Entries(ListingRows(events, uid))[n].date.Some?
  {
    var rows := ListingRows(events, uid);
    forall n | 0 <= n < |rows| ensures Entries(rows)[n].date.Some? {
      ListingShowsExactlyVisible(events, uid, rows[n]);
    }
  }

  // ---------------------------------------------------------------------------
  // Notifications

  const NotifyHours: nat := 24

  /** `now <= d <= now + 24 hours`, both ends included; an entry without a date is never in it. */
  predicate InWindow(d: Option<DateTime>, now: DateTime)
    requires Valid(now)
  {
    d.Some? && Valid(d.value) && Instant(now) <= Instant(d.value) <= Instant(now) + NotifyHours * MicrosPerHour
  }

  /** The notifications: the listed entries within the window, in listing order. */
  function Upcoming(entries: seq<Entry>, now: DateTime): (r: seq<Entry>)
    requires Valid(now)
    ensures IsSubsequence(r, entries)
    ensures forall e :: e in r <==> e in entries && InWindow(e.date, now)
  {
    if entries == [] then []
    else
      var rest := Upcoming(entries[1..], now);
      assert forall e :: e in entries <==> e == entries[0] || e in entries[1..];
      if InWindow(entries[0].date, now) then [entries[0]] + rest else rest
  }

  /** The window is the Python comparison `now <= d` at its lower end. */
  lemma WindowStartsNow(d: DateTime, now: DateTime)
    requires Valid(d) && Valid(now)
    ensures InWindow(Some(d), now) ==> !Before(d, now)
    ensures !Before(d, now) && Instant(d) <= Instant(now) + NotifyHours * MicrosPerHour ==> InWindow(Some(d), now)
  {
    InstantOrder(d, now);
  }

  /**
   * Seen at midnight on 1 January 2024: noon that day and midnight the next day
   * are inside the window, one minute past the next midnight and one minute
   * before the current one are outside it.
   */
  lemma WindowExample()
    ensures var now := DateTime(2024, 1, 1, 0, 0, 0, 0);
      && InWindow(Some(DateTime(2024, 1, 1, 12, 0, 0, 0)), now)
      && InWindow(Some(DateTime(2024, 1, 2, 0, 0, 0, 0)), now)
      && !InWindow(Some(DateTime(2024, 1, 2, 0, 1, 0, 0)), now)
      && !InWindow(Some(DateTime(2023, 12, 31, 23, 59, 0, 0)), now)
      && !InWindow(None, now)
  {
    assert DaysBeforeYear(2024) == 738885 && DaysBeforeYear(2023) == 738520;
    assert Ordinal(DateTime(2024, 1, 1, 0, 0, 0, 0)) == 738886;
    assert Ordinal(DateTime(2024, 1, 2, 0, 0, 0, 0)) == 738887;
    assert Ordinal(DateTime(2023, 12, 31, 0, 0, 0, 0)) == 738885;
  }
}
