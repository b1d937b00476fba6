/**
 * The request handlers of the scheduler as methods on the two tables and the
 * session: sign-up, sign-in and sign-out, creating and listing events, the
 * administrator's dashboard, promotion and deletion, and the seeding of
 * administrator accounts when the database is initialised.
 */
module App {
  import opened Wrappers
  import opened Text
  import opened DateTimes
  import opened Tables
  import opened Auth
  import opened Listing

  /** The tables, with the next AUTOINCREMENT id of each. */
  class Database {
    var users: seq<User>
    var events: seq<Event>
    var nextUserId: nat
    var nextEventId: nat

    ghost predicate Valid()
      reads this
    {
      UsersValid(users, nextUserId) && EventsValid(events, nextEventId)
    }

    /** Freshly created tables: empty, with ids starting at 1. */
    constructor ()
      ensures Valid()
      ensures users == [] && events == [] && nextUserId == 1 && nextEventId == 1
    {
      users := [];
      events := [];
      nextUserId := 1;
      nextEventId := 1;
    }
  }

  /** The signed cookie session: empty, or the identity sign-in wrote into it. */
  class Session {
    var identity: Option<Identity>

    constructor ()
      ensures identity == None
    {
      identity := None;
    }
  }

  /** The fields of a submitted form. */
  type Form = map<string, string>

  /** `request.form.get(key, "")`. */
  function FormGet(form: Form, key: string): (v: string)
    ensures key in form ==> v == form[key]
    ensures key !in form ==> v == ""
  {
    if key in form then form[key] else ""
  }

  /** How a handler ends: the flash message it sets, or the redirect a guard makes. */
  datatype Outcome =
    | Registered(userId: nat)
    | SignedIn
    | SignedOut
    | EventCreated(eventId: nat)
    | RolePromoted
    | EventDeleted
    | BadRequest            // a form key read with `request.form[...]` is missing
    | MissingFields
    | UsernameTaken
    | InvalidCredentials
    | InvalidDate
    | NotFound
    | Denied(redirect: Guard)

  /** A page that is rendered, or the redirect its guard makes instead. */
  datatype Page<T> = Shown(content: T) | Redirected(to: Guard)

  datatype EventsPage = EventsPage(entries: seq<Entry>, notifications: seq<Entry>)

  datatype DashboardPage = DashboardPage(users: seq<UserSummary>, events: seq<DashboardEntry>)

  // ---------------------------------------------------------------------------
  // Accounts

  /**
   * `POST /register`: the trimmed username and the password must be non-empty
   * and the username new; the new row gets the next id, the password's hash and
   * role "user". Nothing else changes.
   */
  method Register(db: Database, form: Form, hash: string -> string) returns (r: Outcome)
    requires db.Valid()
    modifies db
    ensures db.Valid()
    ensures db.events == old(db.events) && db.nextEventId == old(db.nextEventId)
    ensures "username" !in form || "password" !in form ==> r == BadRequest
    ensures "username" in form && "password" in form ==>
      var name := Strip(form["username"]);
      var password := form["password"];
      && (r == MissingFields <==> name == [] || password == [])
      && (r == UsernameTaken <==> name != [] && password != [] && FindUser(old(db.users), name).Some?)
      && (r.Registered? <==> name != [] && password != [] && FindUser(old(db.users), name).None?)
      && (r.Registered? ==> db.users == old(db.users) + [User(r.userId, name, hash(password), "user")])
    ensures r.Registered? ==> r.userId == old(db.nextUserId) && db.nextUserId == r.userId + 1
    ensures !r.Registered? ==> db.users == old(db.users) && db.nextUserId == old(db.nextUserId)
  {
    if "username" !in form || "password" !in form {
      return BadRequest;
    }
    var name := Strip(form["username"]);
    var password := form["password"];
    if name == [] || password == [] {
      return MissingFields;
    }
    if FindUser(db.users, name).Some? {
      return UsernameTaken;
    }
    var id := db.nextUserId;
    UsersAppendValid(db.users, id, User(id, name, hash(password), "user"));
    db.users := db.users + [User(id, name, hash(password), "user")];
    db.nextUserId := id + 1;
    r := Registered(id);
  }

  /**
   * `POST /login`: succeeds exactly when a row has the trimmed username and the
   * password checks against its hash; the session then holds that row's id,
   * username and role ("user" when the row has none). A failed attempt leaves
   * the session as it was.
   */
  method Login(db: Database, session: Session, form: Form, check: (string, string) -> bool)
    returns (r: Outcome)
    modifies session
    ensures "username" !in form || "password" !in form ==>
      r == BadRequest && session.identity == old(session.identity)
    ensures "username" in form && "password" in form ==>
      var found := FindUser(db.users, Strip(form["username"]));
      && (r == SignedIn <==> found.Some? && check(found.value.passwordHash, form["password"]))
      && (r == SignedIn ==>
            session.identity == Some(Identity(found.value.id, found.value.username, SessionRole(found.value.role))))
      && (r != SignedIn ==> r == InvalidCredentials && session.identity == old(session.identity))
  {
    if "username" !in form || "password" !in form {
      return BadRequest;
    }
    var found := FindUser(db.users, Strip(form["username"]));
    if found.Some? && check(found.value.passwordHash, form["password"]) {
      var user := found.value;
      session.identity := None;
      session.identity := Some(Identity(user.id, user.username, SessionRole(user.role)));
      r := SignedIn;
    } else {
      r := InvalidCredentials;
    }
  }

  /** `GET /logout`: the session is emptied. */
  method Logout(session: Session) returns (r: Outcome)
    modifies session
    ensures session.identity == None && r == SignedOut
  {
    session.identity := None;
    r := SignedOut;
  }

  // ---------------------------------------------------------------------------
  // Events

  /** The row `create_event` inserts for a caller, once its fields have passed validation. */
  function NewEvent(id: nat, caller: Identity, form: Form, when: DateTime): (e: Event)
    requires Valid(when)
    ensures e.id == id && e.createdBy == Some(caller.userId) && e.eventDatetime == Some(Format(when))
    ensures e.visibleToAll ==> caller.role == "admin"
  {
    Event(id, Strip(FormGet(form, "title")), Strip(FormGet(form, "description")), Some(Format(when)),
          Strip(FormGet(form, "location")), Some(caller.userId),
          caller.role == "admin" && FormGet(form, "visible_to_all") == "on")
  }

  /**
   * The inserted row belongs to the caller, is public only for an administrator
   * who ticked the box, and holds a normalised date that reads back as `when`.
   */
  lemma NewEventFacts(id: nat, caller: Identity, form: Form, when: DateTime)
    requires Valid(when) && when.microsecond == 0
    ensures var e := NewEvent(id, caller, form, when);
      && e.id == id && e.createdBy == Some(caller.userId)
      && (e.visibleToAll <==> caller.role == "admin" && "visible_to_all" in form && form["visible_to_all"] == "on")
      && Normalised(e.eventDatetime)
      && StoredDate(e.eventDatetime) == Some(when)
  {
    FormatNormalised(when);
  }

  /** Appending the row the create form builds keeps every stored date normalised. */
  lemma AppendNewEvent(events: seq<Event>, id: nat, caller: Identity, form: Form, when: DateTime)
    requires Valid(when) && when.microsecond == 0
    ensures DatesNormalised(events + [NewEvent(id, caller, form, when)]) <==> DatesNormalised(events)
  {
    NewEventFacts(id, caller, form, when);
    AppendNormalised(events, NewEvent(id, caller, form, when));
  }

  /**
   * `POST /events/create`: a signed-in caller's event is inserted when its
   * trimmed title and date are non-empty and the date parses; the date is stored
   * in the storage form, the creator is the caller, and the event is public only
   * when an administrator ticked the box. Anything else inserts nothing.
   */
  method CreateEvent(db: Database, session: Session, form: Form) returns (r: Outcome)
    requires db.Valid()
    modifies db
    ensures db.Valid()
    ensures db.users == old(db.users) && db.nextUserId == old(db.nextUserId)
    ensures session.identity.None? ==> r == Denied(ToLogin)
    ensures session.identity.Some? ==>
      var title := Strip(FormGet(form, "title"));
      var when := Strip(FormGet(form, "event_datetime"));
      && (r == MissingFields <==> title == [] || when == [])
      && (r == InvalidDate <==> title != [] && when != [] && ParseForCreate(when).None?)
      && (r.EventCreated? <==> title != [] && when != [] && ParseForCreate(when).Some?)
      && (r.EventCreated? ==>
            db.events == old(db.events) + [NewEvent(r.eventId, session.identity.value, form, ParseForCreate(when).value)])
    ensures r.EventCreated? ==> r.eventId == old(db.nextEventId) && db.nextEventId == r.eventId + 1
    ensures !r.EventCreated? ==> db.events == old(db.events) && db.nextEventId == old(db.nextEventId)
    ensures old(DatesNormalised(db.events)) ==> DatesNormalised(db.events)
  {
    if LoginRequired(session.identity) != Pass {
      return Denied(ToLogin);
    }
    var caller := session.identity.value;
    var title := Strip(FormGet(form, "title"));
    var when := Strip(FormGet(form, "event_datetime"));
    if title == [] || when == [] {
      return MissingFields;
    }
    var parsed := ParseForCreate(when);
    if parsed.None? {
      return InvalidDate;
    }
    var id := db.nextEventId;
    var e := NewEvent(id, caller, form, parsed.value);
    AppendNewEvent(db.events, id, caller, form, parsed.value);
    EventsAppendValid(db.events, id, e);
    db.events := db.events + [e];
    db.nextEventId := id + 1;
    r := EventCreated(id);
  }

  /**
   * `GET /events`: for a signed-in caller, the public events and the caller's
   * own in date order, each with its stored date read back leniently, and the
   * notifications among them for the instant `now`.
   */
  method Events(db: Database, session: Session, now: DateTime) returns (r: Page<EventsPage>)
    requires Valid(now)
    ensures session.identity.None? ==> r == Redirected(ToLogin)
    ensures session.identity.Some? ==>
      var entries := Entries(ListingRows(db.events, session.identity.value.userId));
      r == Shown(EventsPage(entries, Upcoming(entries, now)))
  {
    if LoginRequired(session.identity) != Pass {
      return Redirected(ToLogin);
    }
    var entries := ReadEntries(ListingRows(db.events, session.identity.value.userId));
    r := Shown(EventsPage(entries, Upcoming(entries, now)));
  }

  // ---------------------------------------------------------------------------
  // Administration

  /**
   * `GET /admin/dashboard`: for an administrator, every user in creation order
   * and every event in date order with its date read back leniently.
   */
  method AdminDashboard(db: Database, session: Session) returns (r: Page<DashboardPage>)
    ensures AdminRequired(session.identity) != Pass ==> r == Redirected(AdminRequired(session.identity))
    ensures AdminRequired(session.identity) == Pass ==>
      r == Shown(DashboardPage(Summaries(db.users), DashboardEntries(SortByDate(db.events))))
  {
    var guard := AdminRequired(session.identity);
    if guard != Pass {
      return Redirected(guard);
    }
    var users := Summaries(db.users);
    var entries := ReadDashboardEntries(SortByDate(db.events));
    r := Shown(DashboardPage(users, entries));
  }

  /**
   * `POST /admin/promote/<username>`: an administrator gives the named user the
   * role "admin"; an unknown name changes nothing. Events are never touched.
   */
  method PromoteUser(db: Database, session: Session, username: string) returns (r: Outcome)
    requires db.Valid()
    modifies db
    ensures db.Valid()
    ensures db.events == old(db.events) && db.nextEventId == old(db.nextEventId)
    ensures db.nextUserId == old(db.nextUserId)
    ensures AdminRequired(session.identity) != Pass ==>
      r == Denied(AdminRequired(session.identity)) && db.users == old(db.users)
    ensures AdminRequired(session.identity) == Pass ==>
      && (r == NotFound <==> FindUser(old(db.users), username).None?)
      && (r != NotFound ==> r == RolePromoted)
    ensures r == RolePromoted ==> db.users == Promoted(old(db.users), username)
    ensures r != RolePromoted ==> db.users == old(db.users)
  {
    var guard := AdminRequired(session.identity);
    if guard != Pass {
      return Denied(guard);
    }
    if FindUser(db.users, username).None? {
      return NotFound;
    }
    PromotedValid(db.users, db.nextUserId, username);
    db.users := Promoted(db.users, username);
    r := RolePromoted;
  }

  /**
   * `POST /admin/events/delete/<id>`: an administrator removes the event with
   * that id; an unknown id changes nothing. Users are never touched.
   */
  method AdminDeleteEvent(db: Database, session: Session, eventId: nat) returns (r: Outcome)
    requires db.Valid()
    modifies db
    ensures db.Valid()
    ensures db.users == old(db.users) && db.nextUserId == old(db.nextUserId)
    ensures db.nextEventId == old(db.nextEventId)
    ensures AdminRequired(session.identity) != Pass ==>
      r == Denied(AdminRequired(session.identity)) && db.events == old(db.events)
    ensures AdminRequired(session.identity) == Pass ==>
      && (r == NotFound <==> FindEvent(old(db.events), eventId).None?)
      && (r != NotFound ==> r == EventDeleted)
    ensures r == EventDeleted ==>
      db.events == Deleted(old(db.events), eventId) && |db.events| == |old(db.events)| - 1
    ensures r != EventDeleted ==> db.events == old(db.events)
    ensures old(DatesNormalised(db.events)) ==> DatesNormalised(db.events)
  {
    var guard := AdminRequired(session.identity);
    if guard != Pass {
      return Denied(guard);
    }
    if FindEvent(db.events, eventId).None? {
      return NotFound;
    }
    DeletedValid(db.events, db.nextEventId, eventId);
    DeletedOne(db.events, db.nextEventId, eventId);
    DeletedNormalised(db.events, eventId);
    db.events := Deleted(db.events, eventId);
    r := EventDeleted;
  }

  // ---------------------------------------------------------------------------
  // Seeding administrators when the database is initialised

  /** The password of the default administrator account. */
  const DefaultAdminPassword: string := "admin123"

  /**
   * The administrator named by the environment is inserted only into an empty
   * user table, and only when both the name and the password are set and non-empty.
   */
  method BootstrapAdmin(db: Database, envUsername: Option<string>, envPassword: Option<string>,
                        hash: string -> string)
    requires db.Valid()
    modifies db
    ensures db.Valid()
    ensures db.events == old(db.events) && db.nextEventId == old(db.nextEventId)
    ensures var seeds := |old(db.users)| == 0 && envUsername.Some? && envUsername.value != ""
                         && envPassword.Some? && envPassword.value != "";
      && (seeds ==> db.users == [User(old(db.nextUserId), envUsername.value, hash(envPassword.value), "admin")]
                    && db.nextUserId == old(db.nextUserId) + 1)
      && (!seeds ==> db.users == old(db.users) && db.nextUserId == old(db.nextUserId))
  {
    if |db.users| == 0 && envUsername.Some? && envUsername.value != "" && envPassword.Some? && envPassword.value != "" {
      var id := db.nextUserId;
      db.users := [User(id, envUsername.value, hash(envPassword.value), "admin")];
      db.nextUserId := id + 1;
    }
  }

  /** A user named "admin" with role "admin" and the default password is inserted unless the name is taken. */
  method EnsureDefaultAdmin(db: Database, hash: string -> string)
    requires db.Valid()
    modifies db
    ensures db.Valid()
    ensures db.events == old(db.events) && db.nextEventId == old(db.nextEventId)
    ensures FindUser(old(db.users), "admin").Some? ==>
      db.users == old(db.users) && db.nextUserId == old(db.nextUserId)
    ensures FindUser(old(db.users), "admin").None? ==>
      && db.users == old(db.users) + [User(old(db.nextUserId), "admin", hash(DefaultAdminPassword), "admin")]
      && db.nextUserId == old(db.nextUserId) + 1
    ensures FindUser(db.users, "admin").Some?
  {
    if FindUser(db.users, "admin").None? {
      var id := db.nextUserId;
      UsersAppendValid(db.users, id, User(id, "admin", hash(DefaultAdminPassword), "admin"));
      db.users := db.users + [User(id, "admin", hash(DefaultAdminPassword), "admin")];
      db.nextUserId := id + 1;
      assert db.users[|db.users| - 1].username == "admin";
    }
  }

  /** The seeding part of initialising the database: the environment's administrator, then the default one. */
  method SeedAdmins(db: Database, envUsername: Option<string>, envPassword: Option<string>,
                    hash: string -> string)
    requires db.Valid()
    modifies db
    ensures db.Valid()
    ensures db.events == old(db.events) && db.nextEventId == old(db.nextEventId)
    ensures FindUser(db.users, "admin").Some?
    ensures |old(db.users)| <= |db.users| <= |old(db.users)| + 2
    ensures db.users[..|old(db.users)|] == old(db.users)
    ensures |old(db.users)| == 0 && envUsername.None? ==>
      db.users == [User(old(db.nextUserId), "admin", hash(DefaultAdminPassword), "admin")]
    ensures var seeds := |old(db.users)| == 0 && envUsername.Some? && envUsername.value != ""
                         && envPassword.Some? && envPassword.value != "";
      var afterEnv := if seeds then [User(old(db.nextUserId), envUsername.value, hash(envPassword.value), "admin")]
                      else old(db.users);
      var nextAfterEnv := if seeds then old(db.nextUserId) + 1 else old(db.nextUserId);
      && (FindUser(afterEnv, "admin").Some? ==> db.users == afterEnv && db.nextUserId == nextAfterEnv)
      && (FindUser(afterEnv, "admin").None? ==>
            && db.users == afterEnv + [User(nextAfterEnv, "admin", hash(DefaultAdminPassword), "admin")]
            && db.nextUserId == nextAfterEnv + 1)
  {
    BootstrapAdmin(db, envUsername, envPassword, hash);
    EnsureDefaultAdmin(db, hash);
  }

  // ---------------------------------------------------------------------------
  // Whole scenarios

  /** A freshly initialised database with no administrator in the environment. */
  method SeededDatabase(hash: string -> string) returns (db: Database)
    ensures fresh(db) && db.Valid()
    ensures db.users == [User(1, "admin", hash(DefaultAdminPassword), "admin")]
  {
    db := new Database();
    SeedAdmins(db, None, None, hash);
  }

  /**
   * On a fresh database with no administrator in the environment, signing in as
   * "admin" with the default password succeeds and yields an administrator session.
   */
  method DefaultAdminSignsIn(hash: string -> string, check: (string, string) -> bool)
    returns (r: Outcome, identity: Option<Identity>)
    requires check(hash(DefaultAdminPassword), DefaultAdminPassword)
    ensures r == SignedIn
    ensures identity == Some(Identity(1, "admin", "admin"))
    ensures AdminRequired(identity) == Pass
  {
    var db := SeededDatabase(hash);
    var session := new Session();
    var form := map["username" := "admin", "password" := DefaultAdminPassword];
    StripKeeps("admin");
    assert Strip(form["username"]) == "admin";
    r := Login(db, session, form, check);
    identity := session.identity;
  }

  /**
   * A user who signed up can sign in with the same name and password; the session
   * then names the new row with role "user", which the admin guard turns away.
   */
  method RegisteredUserSignsIn(db: Database, session: Session, form: Form,
                               hash: string -> string, check: (string, string) -> bool)
    returns (registered: Outcome, signedIn: Outcome)
    requires db.Valid()
    requires "username" in form && "password" in form
    requires Strip(form["username"]) != [] && form["password"] != []
    requires FindUser(db.users, Strip(form["username"])).None?
    requires check(hash(form["password"]), form["password"])
    modifies db, session
    ensures registered == Registered(old(db.nextUserId))
    ensures signedIn == SignedIn
    ensures session.identity == Some(Identity(old(db.nextUserId), Strip(form["username"]), "user"))
    ensures AdminRequired(session.identity) == ToEvents
  {
    var name := Strip(form["username"]);
    registered := Register(db, form, hash);
    var k := |db.users| - 1;
    assert db.users[k] == User(old(db.nextUserId), name, hash(form["password"]), "user");
    FindUserUnique(db.users, db.nextUserId, k);
    signedIn := Login(db, session, form, check);
  }
}
