# Shift scheduler: assignment, roster and audit log

A Dafny model of the logic of a small team shift-scheduling web application.
The application is a React front end over a hosted Postgres database with
three tables: `members` (the roster), `shifts` (one member assigned to one
calendar day) and `history` (an audit log of assignments and cancellations).
The model covers:

- **Configuration** (`Config`, from `src/supabase.js`): which access key is used
  (the publishable key, falling back to the legacy anon key), when a key is well
  formed, when the application counts as configured, and the client that is
  `null` otherwise.
- **The database** (`Db`, from the schema in `src/supabase.js`): the three row
  types, the schema's constraints as a `Valid` predicate (primary keys, the two
  foreign keys into `members`, timestamps below the clock), and each
  single-table call the pages issue as one atomic update of the whole store.
  A foreign key rejects an insert naming an unknown member, and the store is
  then unchanged. Deleting a member cascades to their shifts and sets the
  `member_id` of their history rows to null.
- **The calendar page** (`Schedule`, from `src/pages/SchedulePage.jsx`): the
  page's cached tables and dialog state (`View`), the refetch, a click on a
  day, assign/reassign (delete the remembered shift, then insert) and cancel.
  Each successful transition appends exactly one history row. The calendar's
  `events` list is modelled too.
- **The roster page** (`Contacts`, from `src/pages/ContactsPage.jsx`): form
  initialisation, the blank-name guard, update-by-id versus insert, and delete.
- **The activity feed** (`History`, from `src/pages/HistoryPage.jsx`): the
  newest 100 history rows, newest first.

Supporting modules: `Js` (nullable values and string truthiness), `Strings`
(`startsWith`, `includes`, `trim`, text ordering), `Seqs` (`filter`, `find`,
key uniqueness) and `Sorting` (a sort specified as an ordered permutation).

The schema has no uniqueness constraint on `shift_date`. So "at most one shift
per day" (`Db.OneShiftPerDay`) is not a store invariant. Instead, the model
proves that assign and cancel preserve it when the dialog's selection is
current (`Schedule.SelectionCurrent`: the cached shifts are the store's
shifts in some order, and the remembered shift is the first cached shift on
the selected day). It also shows that a
valid store can hold two shifts on one day, and that a stale view can create
that situation.

Facts about the program that the model keeps as they are:

- The calendar treats a day as one slot, but the schema does not enforce it:
  `shift_date` carries no `UNIQUE` constraint.
- Both dialog handlers return silently when the selection is incomplete
  (`handleAssign` with no member or no day) or when no shift is remembered
  (`handleCancel`). The store is then unchanged.
- The writes of one handler are separate calls, not one transaction.
  Reassigning to a member who was deleted in the meantime still deletes the
  old shift; the foreign key then rejects both the new shift and its history
  row. `Schedule.AssignWrites` states this outcome.
- The shifts query asks for no order, so the database may return the rows in
  any order. `Schedule.Fetch` takes that order as a parameter (`scan`, any
  reordering of the store's shifts). On a day with two shifts, which one a
  click remembers, and so which one a cancel deletes, depends on it.
- The `color` column has a default but no `NOT NULL`, so a member's colour
  may be null. The calendar falls back to `#6366f1`; the roster form copies
  the stored value, null included.

## Model

| member | source | states |
|---|---|---|
| Config.ChosenKey | src/supabase.js:5-8 | The key in use is one of the two environment keys; a non-empty publishable key is always the one used; a missing or empty publishable key yields the anon key as it is; a usable key implies one of the two was set |
| Config.IsValidKey | src/supabase.js:10-17 | A missing or empty key is invalid; a key is valid exactly when it is `sb_publishable_` or `eyJ` followed by anything |
| Config.IsConfigured | src/supabase.js:19-23 | Configured exactly when the URL is set and non-empty, contains no occurrence of `your-project`, and the chosen key is valid |
| Config.MakeClient | src/supabase.js:25-27 | The client is null exactly when not configured; otherwise it carries the URL and the chosen key, which is valid |
| Config.PublishableKeyShadowsAnonKey | src/supabase.js:6-8 | With a non-empty publishable key, changing the anon key changes neither the configured flag nor the client |
| Config.AnonKeyIsTheFallback | src/supabase.js:6-8 | With no usable publishable key, configuration depends on the anon key alone and the client uses it |
| Strings.StartsWithIsPrefix | src/supabase.js:13-15 | The character-by-character `startsWith` holds exactly when the string is the prefix followed by some rest |
| Strings.ContainsIsInfix | src/supabase.js:21 | `includes` holds exactly when the string splits as some text, the searched text, and some more text |
| Strings.TrimStart | src/pages/ContactsPage.jsx:38 | The result is a suffix of the input, everything dropped is whitespace, and it does not start with whitespace |
| Strings.TrimEnd | src/pages/ContactsPage.jsx:38 | The result is a prefix of the input, everything dropped is whitespace, and it does not end with whitespace |
| Strings.TrimEmptyIffBlank | src/pages/ContactsPage.jsx:38 | A trimmed name is empty exactly when every character of the name is whitespace |
| Strings.LexLeTotal | src/pages/ContactsPage.jsx:17 | Any two names compare in the text order used to list members |
| Strings.LexLeTransitive | src/pages/ContactsPage.jsx:17 | The text order used to list members is transitive |
| Seqs.Find | src/pages/SchedulePage.jsx:60 | `find` yields nothing exactly when no element matches, and otherwise the first matching element |
| Seqs.Filter | src/pages/SchedulePage.jsx:74 | A delete by filter keeps exactly the rows that do not match, each as often as before, never adding one |
| Seqs.FilterKeepsDistinct | src/supabase.js:34 | Deleting rows never breaks a primary key or other uniqueness of a column |
| Sorting.Sort | src/pages/SchedulePage.jsx:23 | An ordered query returns a permutation of the rows, ordered by the given total preorder |
| Db.NameLeIsTotalPreorder | src/pages/SchedulePage.jsx:23 | Ordering members by name is a total preorder, so the ordered query is well defined |
| Db.MembersByName | src/pages/ContactsPage.jsx:17 | The roster query returns every member, each as often as stored, ordered by name |
| Db.DeleteShift | src/pages/SchedulePage.jsx:74 | A shift delete by id removes exactly the shifts with that id and touches no other table |
| Db.InsertShift | src/pages/SchedulePage.jsx:77-80 | A shift insert appends the new shift when its member exists; otherwise the foreign key rejects it and the store is unchanged; other tables are untouched |
| Db.InsertEntry | src/pages/SchedulePage.jsx:83-88 | A history insert appends the row stamped with the current time and advances the clock when its member reference is null or exists; otherwise the store is unchanged |
| Db.InsertMember | src/pages/ContactsPage.jsx:44 | A member insert appends exactly the given row and leaves shifts, history and the clock unchanged |
| Db.UpdateMember | src/pages/ContactsPage.jsx:42 | An update by id rewrites exactly the rows with that id, keeps their id, and leaves all other rows and tables alone |
| Db.DeleteMember | src/supabase.js:43-59 | Deleting a member removes exactly that member and every shift referencing it; history keeps its length and every field except a member reference to them, which becomes null |
| Db.DeleteShiftKeepsValid | src/supabase.js:43-48 | Deleting shifts keeps every schema constraint |
| Db.InsertShiftKeepsValid | src/supabase.js:43-48 | Inserting a shift with a fresh id keeps every constraint, the foreign key included |
| Db.InsertEntryKeepsValid | src/supabase.js:51-59 | Inserting a history row with a fresh id keeps every constraint, its timestamp included |
| Db.InsertMemberKeepsValid | src/supabase.js:33-40 | Inserting a member with a fresh id keeps every constraint |
| Db.UpdateMemberKeepsValid | src/supabase.js:33-40 | Updating a member's fields keeps every constraint, since ids do not change |
| Db.DeleteMemberKeepsValid | src/supabase.js:43-59 | Cascade on shifts and set-null on history keep both foreign keys intact when a member is deleted |
| Db.SchemaAllowsTwoShiftsOnADay | src/supabase.js:46 | Some store satisfies every schema constraint yet holds two shifts on one day |
| Schedule.Fetch | src/pages/SchedulePage.jsx:20-34 | The cache becomes the store: members as a name-ordered permutation; shifts are the store's shifts in the order the database returns them, each with the member it references embedded, or none when no such member exists; dialog state is untouched |
| Schedule.DateClick | src/pages/SchedulePage.jsx:58-67 | Selects the day; remembers the first cached shift on it, or none exactly when no cached shift is on it; pre-selects its member or empty; clears the reason; opens the dialog |
| Schedule.FetchThenClickIsCurrent | src/pages/SchedulePage.jsx:58-67 | Clicking a day of a freshly fetched calendar gives a selection that reflects the store, whatever order the shifts came back in |
| Schedule.AssignWrites | src/pages/SchedulePage.jsx:70-88 | No member or no day: the store is unchanged. Members are never touched. With a known member, the last shift is the new one for the selected member and day, and the rest are the old shifts minus the remembered one. One `assigned` row is appended with the cached name or Unknown and no reason. With an unknown member only the delete happens and nothing is logged |
| Schedule.Assign | src/pages/SchedulePage.jsx:69-95 | The store becomes the writes' result; with no member or no day nothing else changes. Past the guard the cache is the refetch of the new store: members a name-ordered permutation of its members, shifts a reordering of its shifts. The dialog closes; the selected day, member, remembered shift and reason stay as they were |
| Schedule.CancelWrites | src/pages/SchedulePage.jsx:98-109 | No remembered shift: the store is unchanged. Otherwise exactly the shifts with its id are removed and members are untouched. One `cancelled` row is appended for the previous assignee, with the typed reason or null. If that assignee no longer exists, nothing is logged |
| Schedule.Cancel | src/pages/SchedulePage.jsx:97-116 | The store becomes the writes' result; with no remembered shift nothing else changes. Otherwise the cache is the refetch of the new store: members a name-ordered permutation of its members, shifts a reordering of its shifts. The dialog closes and the selection stays as it was |
| Schedule.CurrentSelectionIsTheDaysShift | src/pages/SchedulePage.jsx:60 | With one shift per day and a current selection, every store shift on the selected day is the remembered one |
| Schedule.AssignKeepsOneShiftPerDay | src/pages/SchedulePage.jsx:69-88 | From a current selection, assign and reassign keep at most one shift per day, and the day then holds only the new shift |
| Schedule.CancelKeepsOneShiftPerDay | src/pages/SchedulePage.jsx:97-109 | Cancel keeps at most one shift per day; from a current selection the selected day ends empty |
| Schedule.AssignKeepsValid | src/pages/SchedulePage.jsx:73-88 | Assign keeps every schema constraint, given fresh ids for the new rows |
| Schedule.CancelKeepsValid | src/pages/SchedulePage.jsx:101-109 | Cancel keeps every schema constraint, given a fresh id for the log row |
| Schedule.CurrentCancelIsLogged | src/pages/SchedulePage.jsx:101-109 | On a valid store, cancelling a current selection always appends its `cancelled` row |
| Schedule.Events | src/pages/SchedulePage.jsx:49-56 | One event per cached shift, with its id and day; titled with the embedded member's name and coloured with its colour, falling back to Unknown and `#6366f1` when the member is absent or the value is empty or null |
| Schedule.FetchedEventsShowStore | src/pages/SchedulePage.jsx:49-56 | After a fetch there is one event per store shift, in the order returned, with its id and day, titled and coloured from the member it references, or Unknown and the default colour when it references none; no two events share a day when the store has one shift per day |
| Schedule.StaleViewCanDoubleBookADay | src/pages/SchedulePage.jsx:60-80 | An assign from a view fetched before another session's assignment can leave two shifts on one day |
| Contacts.Refresh | src/pages/ContactsPage.jsx:16-20 | The roster becomes every stored member ordered by name; the form and dialog are untouched |
| Contacts.OpenEditor | src/pages/ContactsPage.jsx:26-35 | Editing copies name and colour, a null colour included, and shows a missing email or phone as empty; adding resets to an empty form in `#6366f1`; the dialog opens |
| Contacts.Save | src/pages/ContactsPage.jsx:37-51 | An empty or all-whitespace name changes nothing; editing rewrites only the rows with the edited id; adding appends one member with the form values as typed, name untrimmed; shifts and history are untouched; the dialog closes and the roster is refetched in name order |
| Contacts.Delete | src/pages/ContactsPage.jsx:53-62 | A declined confirmation changes nothing; otherwise the store is exactly the member delete with the schema's referential actions: the member and its shifts are gone, others remain, no history row references it, and every history row keeps its other fields; the roster is refetched in name order |
| Contacts.SaveThenOpenRestoresForm | src/pages/ContactsPage.jsx:26-44 | Saving a form and reopening the saved member yields the same form |
| Contacts.SaveKeepsValid | src/pages/ContactsPage.jsx:37-45 | Saving keeps every schema constraint, given a fresh id for an insert |
| History.Feed | src/pages/HistoryPage.jsx:12-21 | The feed holds min(log size, 100) unmodified log rows, newest first, and no row left out is newer than a row shown |
| History.TruncationFacts | src/pages/HistoryPage.jsx:16-17 | Cutting a newest-first copy of the log keeps log rows only and leaves out none newer than a kept row |
| History.NewestEntryHeadsFeed | src/pages/HistoryPage.jsx:16 | A row newer than every other row comes first in the feed |
| History.LoggedEntryHeadsFeed | src/pages/HistoryPage.jsx:13-17 | On a valid store, the row a transition just logged comes first in the feed |

## Left out

- Rendering, the calendar widget, dialogs, icons, navigation, routing, the
  configuration-error screen and the embedded external calendar: presentation
  with no state of its own.
- The network client, `Promise.all` and the realtime change subscription and
  its teardown: I/O and cross-session concurrency. A refetch is `Schedule.Fetch`
  or `Contacts.Refresh`. The refetch a handler starts without awaiting it is
  modelled as completing at once.
- Races between sessions, and a failure between the shift write and the
  history write: concurrency and fault semantics. Each call is one atomic
  total update. The only rejection modelled is a foreign key.
- `try`/`catch`, `console.error` and the `loading` flags: the database reports
  errors in return values, which the pages do not inspect.
- Date formatting and parsing: foreign calls; days are opaque strings compared
  for equality.
- The confirmation prompt is a boolean parameter of `Contacts.Delete`.
- Id generation and timestamps: new ids are parameters, with a freshness
  precondition on the lemmas about constraints. `created_at` is a natural
  counter (`Store.clock`) stamped on history rows. The `created_at` columns of
  `members` and `shifts` are never read and are not modelled.
- Keystrokes in the form, the member `<select>` and the reason box: plain field
  updates (`v.(selectedMember := m)`), applied directly to the state records.
- The disabled state of the assign and save buttons: it repeats the handler
  guards, which are modelled.
- Row-level security policies: every operation is allowed, so they constrain
  nothing.
- Schedule.Fetch: the database's collation for ordering by name is modelled as
  code-point order. Rows with equal names may come back in any order, and the
  contract only promises an ordered permutation.
- History.Feed: rows with equal timestamps may come back in any order, and the
  contract only promises what the query promises.
- Schedule.Events: the event's `extendedProps` and the separate border colour,
  which equals the background colour, are not modelled.
