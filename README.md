# Event scheduler with roles: a Dafny model

The model covers the request handlers of `app.py`, a small web scheduler. It
keeps two tables, `users` and `events`, and a signed session that holds the
caller's identity.

- **Accounts.** Anyone can sign up. Sign-in stores the user's id, username
  and role in the session, and sign-out clears it.
- **Events.** A signed-in user creates events. Only an administrator can
  make an event public.
- **Listing.** `/events` shows the public events and the caller's own, in
  date order, with the events of the next 24 hours repeated as
  notifications.
- **Administration.** An administrator sees every user and every event,
  promotes users and deletes events.
- **Seeding.** Initialising the database seeds administrator accounts.

The modules follow the program's layers:

- `Wrappers`: the `Option` type.
- `Text`: `str.strip()` and digit classes.
- `DateTimes`: naive datetimes and their order on the time line,
  `strftime("%Y-%m-%d %H:%M:%S")`, a `strptime` matcher over directive
  lists, a subset of `fromisoformat`, the creation parse policy, and the
  listing's lenient parse.
- `Tables`: rows, look-ups, the visibility `WHERE` clause, the
  `ORDER BY datetime(event_datetime)` sort, and the `UPDATE` and `DELETE`
  table transforms.
- `Auth`: the session identity and the two guard decorators.
- `Listing`: what the two listing pages show, and the notification window.
- `App`: a `Database` class whose fields are the two tables and their next
  AUTOINCREMENT ids, a `Session` class, and one method per route. The
  seeding of administrators is also here.

Collaborators are passed in as parameters:

- The password hash and its check are the functions `hash` and `check`.
- The current time is the parameter `now`.
- The environment's administrator credentials are `Option<string>` values.

Creation and the listing parse dates differently:

- **Creation.** Creation does not try a list of formats in turn. It calls
  `fromisoformat` when the text contains `T`, and otherwise calls
  `strptime` with `"%Y-%m-%d %H:%M:%S"`. So `"2024-03-01"` is refused at
  creation (`DateTimes.ParseForCreate`).
- **Listing.** The listing's read formats are not those of creation. It
  tries `"%Y-%m-%dT%H:%M"`, `"%Y-%m-%d %H:%M:%S"` and `"%Y-%m-%d %H:%M"`,
  then `fromisoformat` (`DateTimes.LenientParse`).

## Model

| member | source | states |
|---|---|---|
| Text.Strip | app.py:144 | The result is the slice of the input that starts after the leading whitespace, with only whitespace left outside it at either end. |
| Text.StripEmpty | app.py:146 | The stripped text is empty exactly when every character is whitespace, so an all-blank username counts as missing. |
| Text.StripIdempotent | app.py:144 | Stripping an already stripped value changes nothing. |
| Text.StripKeeps | app.py:167 | A value with no whitespace at either end is left as it is. |
| Auth.LoginRequired | app.py:115-118 | The handler runs exactly when the session holds an identity; otherwise the caller is sent to sign in. |
| Auth.AdminRequired | app.py:126-128 | The handler runs exactly for a signed-in caller with role "admin"; a caller who is not signed in goes to sign-in, and a signed-in non-admin goes to the listing. |
| Auth.AdminImpliesSignedIn | app.py:115-128 | Whoever passes the admin guard passes the sign-in guard, and both guards reject an anonymous caller the same way. |
| Auth.SessionRole | app.py:175 | The session role is never empty: it is the row's role, or "user" when the row has none. |
| Tables.FindUser | app.py:170 | Read together with `UsersValid`: the stored user with that username exactly, or none when no row has it. |
| Tables.FindEvent | app.py:303 | The stored event with that id, or none exactly when no row has it. |
| Tables.FindUserUnique | app.py:170 | With unique usernames, looking up a row's username finds that very row. |
| Tables.UsersAppendValid | app.py:151-154 | Inserting a row with the next id and a new username keeps ids and usernames unique and below the counter. |
| Tables.EventsAppendValid | app.py:274-277 | Inserting an event with the next id keeps event ids unique and below the counter. |
| Tables.VisibleTo | app.py:197 | The `WHERE` clause: a row is selected for the caller when it is public or the caller created it; a row with no creator is selected only when public. |
| Tables.VisibleRows | app.py:197 | The rows kept, in table order, are exactly those that are public or created by the caller. |
| Tables.StoredDate | app.py:205-220 | A NULL date stays absent; text goes through the lenient parse; a date that is present is a valid datetime. |
| Tables.SortBy | app.py:197 | The result is sorted by the key, undated rows first, and is a permutation of the input. |
| Tables.SortByDate | app.py:197 | Rows come in ascending order of their read-back dates, undated rows first, and form a permutation of the input. |
| Tables.SortedMembers | app.py:197 | Sorting keeps exactly the same rows. |
| Tables.Promoted | app.py:293 | Every row of that username gets role "admin"; every other row is unchanged, and the table keeps its length and order. |
| Tables.PromotedChangesOnlyTarget | app.py:293 | Promotion keeps each row's id, username and hash, sets the target's role to "admin" and leaves the other rows unchanged. |
| Tables.PromotedIdempotent | app.py:293 | Promoting twice is the same as promoting once. |
| Tables.PromotedMissing | app.py:289-293 | Promoting a name no row has changes nothing. |
| Tables.PromotedValid | app.py:293 | Promotion keeps the unique-ids and unique-usernames invariant. |
| Tables.Deleted | app.py:307 | The rows with that id are removed; the others stay, in their order. |
| Tables.DeletedMissing | app.py:303-307 | Deleting an id no row has changes nothing. |
| Tables.DeletedOne | app.py:307 | With unique ids, deleting an id that is present removes exactly one row. |
| Tables.DeletedValid | app.py:307 | Deletion keeps the event-id invariant. |
| Tables.DeletedUnique | app.py:307 | Deletion keeps event ids unique. |
| DateTimes.InstantOrder | app.py:236 | Python's field-by-field comparison of naive datetimes is the order of their instants on the time line. |
| DateTimes.Strptime | app.py:210 | A successful parse is a valid datetime with no microseconds. |
| DateTimes.FromIsoFormat | app.py:216 | A successful parse is a valid datetime with no microseconds. |
| DateTimes.ParseForCreate | app.py:264-267 | A successful parse is a valid datetime with no microseconds. |
| DateTimes.FirstMatch | app.py:208-213 | Some result exists exactly when one of the formats matches, and the result is valid; `DateTimes.FirstMatchIsFirst` adds that it is the first match. |
| DateTimes.FirstMatchIsFirst | app.py:208-213 | A result is the parse of one format, and every format before it fails: the loop stops at the first match. |
| DateTimes.LenientParse | app.py:207-218 | Whatever the listing reads back is a valid datetime. |
| DateTimes.ParseLeniently | app.py:207-218 | The loop that tries each format in turn and stops at the first match returns the lenient parse of the text. |
| DateTimes.Format | app.py:268 | `strftime("%Y-%m-%d %H:%M:%S")` is 19 characters: digits everywhere except "-" at 4 and 7, a space at 10, and ":" at 13 and 16. |
| DateTimes.FormatRoundTrip | app.py:267-268 | Parsing the storage form with "%Y-%m-%d %H:%M:%S" gives back the datetime to the second. |
| DateTimes.FormatMatches | app.py:267-268 | The directives of "%Y-%m-%d %H:%M:%S" consume the whole storage form and rebuild the datetime to the second. |
| DateTimes.FormatIsNotIsoMinutes | app.py:208 | The storage form never matches the first read format "%Y-%m-%dT%H:%M". |
| DateTimes.LenientParseOfFormat | app.py:208-213 | The listing reads every stored creation date back as the datetime it came from, to the second. |
| DateTimes.CreateAcceptsPickerValue | app.py:264-265 | The picker value "2024-03-01T09:30" is accepted at creation as 09:30 on 1 March 2024. |
| DateTimes.CreateAcceptsSpaceSeconds | app.py:266-267 | "2024-03-01 09:30:00" is accepted at creation. |
| DateTimes.CreateRejectsUsDate | app.py:263-271 | "03/01/2024 9:30am" is refused at creation. |
| DateTimes.CreateNeedsSeconds | app.py:266-267 | "2024-03-01 09:30", which has neither `T` nor seconds, is refused at creation. |
| DateTimes.MinutesExampleNotIso | app.py:208 | "2024-03-01 09:30" does not match "%Y-%m-%dT%H:%M". |
| DateTimes.MinutesExampleNoSeconds | app.py:208 | "2024-03-01 09:30" does not match "%Y-%m-%d %H:%M:%S". |
| DateTimes.MinutesExampleMinutes | app.py:208 | "2024-03-01 09:30" matches "%Y-%m-%d %H:%M". |
| DateTimes.ListingReadsMinutes | app.py:208-213 | The listing still reads "2024-03-01 09:30", through its third format. |
| DateTimes.BareDateFails | app.py:208-213 | A bare date matches none of the three read formats. |
| DateTimes.ListingReadsBareDate | app.py:214-218 | The listing reads a bare date through `fromisoformat`, as midnight. |
| Listing.Summaries | app.py:317 | One user summary per row, in creation order, with the same id, username and role. |
| Listing.ReadStoredDate | app.py:205-220 | Reading one stored date gives its lenient read-back. |
| Listing.ReadEntries | app.py:203-231 | The loop builds one entry per selected row, in order, each carrying its read-back date. |
| Listing.ReadDashboardEntries | app.py:319-344 | The same for the dashboard, whose entries have no description. |
| Listing.ListingRows | app.py:196-199 | The `/events` query returns as many rows as the filter selects, in ascending order of their read-back dates with undated rows first. |
| Listing.ListingShowsExactlyVisible | app.py:197 | An event is on the caller's page exactly when it is stored and is either public or the caller's own. |
| Listing.ListingIsPermutationOfVisible | app.py:197 | The page lists each visible row as often as it is stored: the sort neither drops nor duplicates rows. |
| Listing.ListingHidesOthersPrivate | app.py:197 | No entry on the page carries the id of another user's private event. |
| Listing.ListingKeepsUnreadableDates | app.py:214-231 | A visible event whose date cannot be read is still listed, with no date. |
| Listing.ListingAscending | app.py:197 | Page entries are in ascending date order as Python compares them, with undated entries first. |
| Listing.FormatNormalised | app.py:268 | A stored creation date reads back as the parsed datetime and is formatted back to the same text. |
| Listing.AppendNormalised | app.py:274-276 | Appending a row whose date is in the storage form keeps every stored date in that form. |
| Listing.FilterNormalised | app.py:307 | Keeping only some of the rows keeps every remaining date in the storage form. |
| Listing.DeletedNormalised | app.py:307 | Deleting an event keeps every remaining date in the storage form. |
| Listing.NormalisedListingDated | app.py:268 | When every row came through the create form, every page entry carries a date. |
| Listing.InWindow | app.py:233-236 | The window test: an entry with a date `d` and `now <= d <= now + 24 hours`, both ends included; an undated entry is never in the window. |
| Listing.Upcoming | app.py:236 | The notifications are exactly the listed entries dated within `now <= d <= now + 24h`, in listing order. |
| Listing.WindowStartsNow | app.py:235-236 | The window starts at `now <= d` in Python's comparison and ends at most 24 hours later. |
| Listing.WindowExample | app.py:233-236 | Seen at 2024-01-01 00:00: 12:00 that day and midnight the next day are notified; 00:01 the next day, 23:59 the day before, and an undated entry are not. |
| App.FormGet | app.py:249 | A missing form key reads as the empty string. |
| App.Register | app.py:143-160 | A missing key is a bad request. The outcome is missing fields, username taken, or registered, each iff its condition. Only registration inserts `(next id, trimmed name, hash, "user")`. |
| App.Login | app.py:166-179 | Sign-in succeeds exactly when a row has the trimmed name and the password checks against its hash. The session then holds that row's id, name and role; any other outcome leaves the session unchanged. |
| App.Logout | app.py:185 | The session is emptied. |
| App.NewEvent | app.py:249-257 | The inserted row gets the given id, the caller as creator and the storage form of the parsed date, and is public only when the caller is an administrator. |
| App.NewEventFacts | app.py:249-276 | The inserted row belongs to the caller and is public iff an administrator ticked the box. Its date is in the storage form and reads back as the parsed datetime. |
| App.AppendNewEvent | app.py:274-277 | Appending the created row keeps every stored date in the storage form. |
| App.CreateEvent | app.py:248-280 | An anonymous caller is sent to sign in. The outcome is missing fields, invalid date, or created, each iff its condition. Only creation appends the new row with the next id and leaves the table invariants and storage-form dates intact. |
| App.Events | app.py:193-238 | Signed-in callers see the entries of the visible rows in date order, with the notifications among them; anonymous callers are redirected to sign in. |
| App.PromoteUser | app.py:288-296 | Non-administrators are turned away. A missing username is not found and changes nothing. Otherwise the table becomes its promoted form. Events are untouched. |
| App.AdminDeleteEvent | app.py:302-310 | Non-administrators are turned away. A missing id is not found and changes nothing. Otherwise exactly that row is deleted. Users are untouched. |
| App.AdminDashboard | app.py:316-346 | Administrators see every user in creation order and every event in date order; everyone else gets the admin guard's redirect. |
| App.BootstrapAdmin | app.py:83-89 | The environment's administrator is inserted only into an empty user table, and only when both name and password are set and non-empty. |
| App.EnsureDefaultAdmin | app.py:97-105 | "admin" with the default password and role "admin" is inserted exactly when no row has that name; afterwards a user "admin" exists. |
| App.SeedAdmins | app.py:82-105 | The table after the environment step is the environment administrator alone, when that step applies, or the old table. Then "admin" with the default password is appended, with the next id, exactly when that table has no user "admin"; otherwise nothing more changes. Earlier rows are kept and a user "admin" exists. |
| App.SeededDatabase | app.py:83-105 | A fresh database initialised without environment credentials holds exactly the default administrator, with id 1. |
| App.DefaultAdminSignsIn | app.py:97-105 | On a fresh database, "admin" with the default password signs in and gets an administrator session. |
| App.RegisteredUserSignsIn | app.py:144-175 | A new sign-up can then sign in with the same credentials, gets role "user", and is turned away by the admin guard. |

## Left out

- Routing, templates, flash messages and the `next` redirect parameter are not modelled. A handler's end is an `Outcome` or a `Page`.
- The database connection lifecycle, `CREATE TABLE`, `has_column` and the `ALTER TABLE` migrations are not modelled. `App.Database.constructor` is the freshly created, empty schema.
- `sqlite3.OperationalError` makes the listing fall back to no rows. A missing table cannot arise in the model.
- Password hashing is not modelled: `generate_password_hash` and `check_password_hash` are the `hash` and `check` parameters.
- `datetime.utcnow()` is the `now` parameter of `App.Events`.
- The server's environment variables are passed in as parameters. The secret key and the printed start-up messages are not modelled.
- The `try`/`except` around the default-administrator insert in initialisation is not modelled. Its failure cannot arise in the model.
- `init_db.py` is not part of this model.
- The `/` and `/profile` routes are not modelled, since they only redirect or render session values.
- Sign-in's session is not refreshed when the user is later promoted. The model keeps the session as sign-in wrote it, as the code does.
- `App.Register`: the UNIQUE constraint on usernames is modelled as a look-up before the insert; the two agree on every outcome. A key missing from the form is `BadRequest`, Flask's 400 response.
- `App.CreateEvent`: `description` and `location` are always stored as the stripped text, never NULL, as the code does. A missing `user_id` cannot occur behind the sign-in guard.
- `Tables.SortByDate`: the sort key is the listing's lenient read-back, not SQLite's `datetime()`. For dates in the storage form, which every created event has, the two agree; on other texts SQLite's function may differ.
- `Tables.SortByDate`: rows with equal keys keep their table order. SQLite leaves that order unspecified.
- `Listing.Summaries`: the users' `ORDER BY created_at` is modelled as insertion order. `CURRENT_TIMESTAMP` resolves to the second, and rows created in the same second may come back in any order.
- `DateTimes.Strptime`: only ASCII digits and the directives the scheduler uses (%Y %m %d %H %M %S) are modelled. Python also accepts other Unicode decimal digits.
- `DateTimes.FromIsoFormat`: covers the forms `YYYY-MM-DD[<sep>HH[:MM[:SS]]]`. Fractions of a second, time-zone offsets, and the week dates and compact forms Python 3.11 added are rejected here.
- `App.Events`: a stored date with a UTC offset (or, from Python 3.11 on, a `Z`), such as `"2024-03-01T09:30+02:00"`, matches none of the three read formats, and Python's `fromisoformat` reads it as an offset-aware datetime. The notification filter at app.py:236 then compares it with the naive `utcnow()`, and Python raises `TypeError`, so the source's `/events` fails for every caller who can see that row. The model's `DateTimes.FromIsoFormat` refuses such text, so `App.Events` lists the row with no date (`Listing.ListingKeepsUnreadableDates`) and shows the page. Rows written by `App.CreateEvent` never have this form; only a write from outside the program can store one.
- `App.AdminDashboard`: for the same offset text the source shows the row with its offset-aware date, since the dashboard compares no dates in Python; the model shows it undated.
- `DateTimes.Format`: the year is always padded to four digits. The C library's `%Y` does not pad years below 1000.
- `Listing.InWindow`: `now + timedelta(hours=24)` is taken on the unbounded time line. Python raises an overflow error within a day of year 9999's end.
- `User.role` uses the empty string for a NULL role. The program never writes one: every insert supplies a role, and the `ALTER TABLE` default makes older rows read `'user'`. Only a write from outside the program can leave it NULL, and sign-in then stores "user" (`Auth.SessionRole`).
