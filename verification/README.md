# Personal notes manager: the notes repository in Dafny

This project models the persistence and query layer of a personal notes
service. The layer has five repository operations over a single `notes`
table: create, get by id, update, delete, and a searchable, paginated list.
It also models the request-body validation that guards create and update.
The SQLite table becomes an immutable value: a map from id to `Note` plus
the AUTOINCREMENT counter `nextId`. Every operation is a pure function from
a table to the new table and a result.

Modules:

- `Wrappers` (`wrappers.dfy`): `Option` and `Result`.
- `Notes` (`notes.dfy`): the `Note` record and the `Store`. `Valid` is the
  table invariant: every key lies in `[1, nextId)` and each row's id equals
  its key.
- `Schema` (`schema.dfy`): title-length validation for the create and
  update bodies.
- `Repository` (`repository.dfy`): `GetById`, `Create`, `Update` and
  `Delete`.
- `Ordering` (`ordering.dfy`): the listing order `updated_at DESC, id DESC`
  (`Before`), insertion sort, and `Rank`. A note's rank is the number of
  matches listed before it, which is an independent definition of its
  position.
- `Pagination` (`pagination.dfy`): `LIMIT limit OFFSET (page-1)*limit` as
  `Window`, and how the pages of a listing fit together.
- `Listing` (`listing.dfy`): the search filter, the scan, the ordering and
  the `List` operation, with its page lemmas.
- `Service` (`service.dfy`): write requests validated and then applied, and
  replayed in sequence. It proves what holds of every reachable table.
- `Scenario` (`scenario.dfy`): concrete walk-throughs on small tables.

Modelling choices:

- **The clock.** The clock is an integer parameter `now`, passed to create
  and update. The source stores `datetime.utcnow().isoformat()` text and
  orders by it. That text has two lengths: `.ffffff` is left out when the
  microsecond is 0. Text order still agrees with time order. Stamps in
  different seconds differ before the fraction. A short stamp is a prefix
  of any longer stamp in the same second, and a prefix sorts first. So an
  integer clock gives the same ordering.
- **The stored invariant.** `Valid` is required by `Create` and `List`.
  `Service.Run` and `Service.ReachableTables` show that every table reached
  from an empty one keeps it. `Update`, `Delete` and `GetById` need no such
  requirement.
- **Read after write.** `Create` and `Update` end by reading the row back
  through `GetById`, as the source does. Their contracts prove that the
  read-back always finds the row.
- **The search filter.** The filter is plain substring containment
  (`Listing.Contains`). An absent query and the empty query both mean "no
  filter", as Python's `if q:` does.
  `Listing.Contains` shows the empty string occurs in every text, so this
  agrees with what an empty `%%` pattern would do anyway.
- **Count and page come from one scan.** The source runs two queries, one
  for the count and one for the page. Here both are computed from the same
  pure scan, `Collect(s, q, FirstId)`. On one unchanging table the two
  queries see the same rows, so the two values agree by construction.
- **Timestamp order is conditional.** The code does not enforce
  `created_at <= updated_at`. It holds only when the clock never goes back,
  so it is proved under that hypothesis (`Service.RunKeepsStampsOrdered`).

## Model

| member | source | states |
|---|---|---|
| Notes.Empty | notes_backend/src/db/database.py:21-27 | a freshly created table is valid, holds no rows, and its AUTOINCREMENT counter starts at 1 |
| Schema.CheckTitle | notes_backend/src/schemas/note.py:7 | a title is accepted exactly when its length is 1 to 255; an empty title is too short, one over 255 characters is too long |
| Schema.ValidateCreate | notes_backend/src/schemas/note.py:6-13 | a create body is accepted iff its title has 1 to 255 characters; an accepted body is passed on unchanged; a rejection names the violated bound |
| Schema.ValidateUpdate | notes_backend/src/schemas/note.py:16-18 | an update body is accepted iff its title is omitted or has 1 to 255 characters; the content never causes a rejection |
| Schema.CreateContentUnconstrained | notes_backend/src/schemas/note.py:8 | whether a create body is accepted does not depend on its content; empty content with a valid title is accepted |
| Schema.UpdateFieldsOptional | notes_backend/src/schemas/note.py:17-18 | the content never decides an update body's verdict; a body with both fields omitted is accepted |
| Repository.GetById | notes_backend/src/repositories/notes_repository.py:49-56 | returns the stored note iff the id is in the table, otherwise None; in a valid table the returned note carries the requested id |
| Repository.Create | notes_backend/src/repositories/notes_repository.py:36-46 | the new note has an id absent before the call and at least the counter; it stores exactly the given title and content with created_at = updated_at = now; the read-back is never absent; the table gains exactly that id and every earlier row is unchanged; validity is kept |
| Repository.Update | notes_backend/src/repositories/notes_repository.py:85-99 | a missing id gives None and leaves the table unchanged; otherwise each provided field replaces the old value and each omitted one is kept; id and created_at are preserved; updated_at becomes now even with both fields omitted; other rows, the key set and the counter are unchanged |
| Repository.Delete | notes_backend/src/repositories/notes_repository.py:102-107 | returns true iff the id was present; afterwards the id is absent, every other row is unchanged, and the counter is not lowered |
| Repository.CreateThenGet | notes_backend/src/repositories/notes_repository.py:40-46 | reading back a created note gives its id, the given title and content, and equal timestamps |
| Repository.DeleteIsTerminal | notes_backend/src/repositories/notes_repository.py:102-107 | after a delete, get_by_id returns None and a second delete returns false and changes nothing |
| Repository.UpdateAdvancesStamp | notes_backend/src/repositories/notes_repository.py:92-96 | with a later clock reading, an update moves updated_at strictly forward and keeps created_at |
| Ordering.Before | notes_backend/src/repositories/notes_repository.py:77 | a later updated_at is always listed first; at equal updated_at the larger id is listed first; no note is listed before itself |
| Ordering.BeforeIsStrictTotal | notes_backend/src/repositories/notes_repository.py:77 | the order updated_at DESC, id DESC is irreflexive, asymmetric and transitive, and it relates any two notes with different ids |
| Ordering.Sort | notes_backend/src/repositories/notes_repository.py:77 | sorting is a permutation of its input |
| Ordering.SortSorted | notes_backend/src/repositories/notes_repository.py:77 | sorting rows with distinct ids gives a strictly ordered sequence |
| Ordering.OrderingIsUnique | notes_backend/src/repositories/notes_repository.py:77 | two strictly ordered listings of the same notes are identical, so the order is deterministic across calls and pages |
| Ordering.RanksOfOrdering | notes_backend/src/repositories/notes_repository.py:77 | in a strictly ordered listing, each entry's rank (the number of notes listed before it) is its index |
| Pagination.Offset | notes_backend/src/repositories/notes_repository.py:75 | the offset is never negative, page 1 starts at 0, and each page starts where the previous one ends (offset + limit = page * limit) |
| Pagination.Window | notes_backend/src/repositories/notes_repository.py:75-80 | a page holds min(limit, max(0, n - (page-1)*limit)) entries, which are the entries starting at offset (page-1)*limit |
| Pagination.PageCountIsCeiling | notes_backend/src/repositories/notes_repository.py:75 | ceil(total/limit) pages hold at least total entries, and one page fewer holds too few; there are no pages exactly when there is nothing to list |
| Pagination.PagesCoverAll | notes_backend/src/repositories/notes_repository.py:75-78 | pages 1 to ceil(n/limit), concatenated, are exactly the listing |
| Pagination.WindowsDisjoint | notes_backend/src/repositories/notes_repository.py:75-78 | over a listing without repeats, two different pages share no entry |
| Pagination.PastEndIsEmpty | notes_backend/src/repositories/notes_repository.py:75-80 | a page after the last non-empty one is empty, not an error |
| Pagination.InRangeIsNonEmpty | notes_backend/src/repositories/notes_repository.py:75-80 | every page from 1 to ceil(n/limit) has at least one entry |
| Pagination.EntryOnItsPage | notes_backend/src/repositories/notes_repository.py:75-78 | entry r is entry r mod limit of page r/limit + 1, which is one of the first ceil(n/limit) pages |
| Listing.Contains | notes_backend/src/repositories/notes_repository.py:64-65 | the %q% pattern: a needle occurs only in a text at least as long; the empty needle and every prefix of the text occur in it |
| Listing.Matches | notes_backend/src/repositories/notes_repository.py:63-65 | an absent query keeps every note; a present query (including the empty one) keeps a note iff it occurs in the title or in the content |
| Listing.Collect | notes_backend/src/repositories/notes_repository.py:63-68 | the scan keeps only matching rows, as stored, in strictly ascending id order |
| Listing.CollectComplete | notes_backend/src/repositories/notes_repository.py:69-72 | the scan misses no matching row, so its length is the number of matches |
| Listing.ScanIsMatching | notes_backend/src/repositories/notes_repository.py:63-72 | the full scan holds each matching row exactly once and nothing else, and its length equals the number of matching ids |
| Listing.Ordered | notes_backend/src/repositories/notes_repository.py:76-77 | all matches in strict updated_at DESC, id DESC order, each exactly once |
| Listing.List | notes_backend/src/repositories/notes_repository.py:59-82 | total is the number of notes whose title or content contains q (all notes when q is absent or empty); the page has min(limit, max(0, total - (page-1)*limit)) items; item i is a match whose rank is (page-1)*limit + i; items are in listing order |
| Listing.NoQueryKeepsAll | notes_backend/src/repositories/notes_repository.py:63-72 | with q absent or empty, every row matches and total is the number of rows |
| Listing.TotalIgnoresPaging | notes_backend/src/repositories/notes_repository.py:69-72 | total does not depend on page or limit |
| Listing.TiesListedByIdDesc | notes_backend/src/repositories/notes_repository.py:77 | notes with equal updated_at appear in descending id order |
| Listing.PastLastPage | notes_backend/src/repositories/notes_repository.py:75-82 | a page past ceil(total/limit) is empty and still reports the full total |
| Listing.PagesDisjoint | notes_backend/src/repositories/notes_repository.py:75-80 | two different pages of one listing share no note |
| Listing.PagesPartitionMatches | notes_backend/src/repositories/notes_repository.py:69-80 | pages 1 to ceil(total/limit) concatenate to the ordered matches; their sizes add up to total; their union is exactly the matching set; no note repeats |
| Listing.MatchOnItsPage | notes_backend/src/repositories/notes_repository.py:75-80 | every match appears on page rank/limit + 1, which lies between 1 and ceil(total/limit) |
| Service.Apply | notes_backend/src/api/notes_router.py:26-100 | a rejected body leaves the table unchanged; an accepted create, update or delete reaches the matching repository operation, and the table afterwards is the one that operation leaves; an id is handed out exactly when a valid create body arrives, and it is the new note's fresh id; validity is kept |
| Service.Run | notes_backend/src/db/database.py:22 | handling any requests keeps the table valid and never lowers the AUTOINCREMENT counter |
| Service.Issued | notes_backend/src/db/database.py:22 | the ids handed out over any requests are strictly increasing, at least the counter at the start, and below the counter at the end |
| Service.DeletedIdNeverReissued | notes_backend/src/db/database.py:22 | an id that was deleted is never handed out again |
| Service.RunKeepsTitlesValid | notes_backend/src/schemas/note.py:7-17 | because bodies are validated first, every stored title keeps a length of 1 to 255 |
| Service.RunKeepsStampsOrdered | notes_backend/src/repositories/notes_repository.py:38-96 | when the clock never goes back, every stored note keeps created_at <= updated_at |
| Service.ReachableTables | notes_backend/src/db/database.py:21-27 | every table reached from an empty one is valid, has valid titles, and has handed out only ids of 1 or more |
| Scenario.GroceriesLifecycle | notes_backend/src/repositories/notes_repository.py:36-107 | create gives id 1 with equal stamps; update of the content alone keeps the title and moves the stamp; a search for a content word finds exactly that note; delete returns true and the note is gone |
| Scenario.SearchFindsTitle | notes_backend/src/repositories/notes_repository.py:63-65 | a query that occurs only in a note's title lists that note |
| Scenario.SearchFindsContent | notes_backend/src/repositories/notes_repository.py:63-65 | a query that occurs only in a note's content lists that note |
| Scenario.SearchMissesBoth | notes_backend/src/repositories/notes_repository.py:63-72 | a query found in neither field lists no items and reports total 0 |
| Scenario.SameInstantNewestIdFirst | notes_backend/src/repositories/notes_repository.py:77 | two notes written at the same instant are listed with the larger id first |

## Left out

- SQLite connection handling is not modelled: opening and closing, the destructor, the row factory and commits (`notes_repository.py:14-24`, `database.py:7-8,34-51`). This is resource plumbing with no effect on results.
- Directory creation and the `CREATE TABLE IF NOT EXISTS` statement are not modelled (`database.py:11-30`). From the schema, only AUTOINCREMENT's "ids are never reused" is kept, as the `nextId` counter.
- `_row_to_note` is the identity on a `Note`. The text round trip of `datetime.isoformat()`/`fromisoformat` is not modelled, because timestamps are integers here.
- `datetime.utcnow()` is not modelled. The clock reading is the `now` parameter.
- Listing.Matches: SQL `LIKE` is modelled as case-sensitive substring containment. SQLite's `LIKE` ignores ASCII case, and a `%` or `_` inside the query acts as an unescaped wildcard. The model does not capture either, so it can report fewer matches than the source for such queries. SQLite's `LIKE` also stops reading both the pattern and the text at the first NUL character. The model treats NUL as an ordinary character, so it can also report more matches than the source, or fewer. A query of just NUL matches every row in the source, but in the model it matches only rows that contain a NUL. A title `"x\0ab"` does not match the query `ab` in the source, but it does in the model.
- Repository.Create: SQLite's largest rowid (2^63 - 1) is not modelled. At that bound an AUTOINCREMENT insert fails with a storage error. The counter here is unbounded.
- Storage failures are not modelled: I/O errors, corruption and a failed commit. They are propagated exceptions, not results.
- Commit atomicity and concurrent requests are the storage engine's job and are left out.
- The settings object, its environment variables and its cache (`config.py`) are left out, as is application start-up with CORS (`main.py`).
- HTTP status codes and the response envelope in the router are left out. From the router, only the validation step before create and update is modelled (`Service.Apply`), plus the bounds `page >= 1` and `1 <= limit <= 100` as requirements of `List`.
- Schema.ValidateUpdate: the validation error messages and pydantic's other checks, such as rejecting a non-string body, are not modelled, because the Dafny types already rule those inputs out.
- Repository.GetById: an id outside the signed 64-bit range is not modelled. Python's sqlite3 raises OverflowError when it binds such an id (`notes_repository.py:52`), and the router answers 500. The model returns None, because ids here are unbounded integers.
- Repository.Update: the same 64-bit bound on the id is not modelled. The source reaches it through `get_by_id` (`notes_repository.py:87`). The model returns None where the source raises OverflowError.
- Repository.Delete: the same 64-bit bound on the id is not modelled (`notes_repository.py:105`). The model returns false where the source raises OverflowError.
- Listing.List: the signed 64-bit bound on the bound OFFSET parameter is not modelled. The router bounds `page` only from below. When `(page - 1) * limit` exceeds 2^63 - 1, sqlite3 raises OverflowError at `notes_repository.py:76-79`, after the count query has run. The model returns an empty page with the full total instead.
- Listing.PastLastPage: for the same reason, an empty page past the end is promised only up to that bound. A page whose offset exceeds 2^63 - 1 raises OverflowError in the source.
- Listing.List: SQLite's limit on the length of a `LIKE` pattern is not modelled. The default `SQLITE_MAX_LIKE_PATTERN_LENGTH` is 50000 bytes, and the router does not bound `q`. If the table has at least one row, a `%q%` pattern over that limit makes the count query at `notes_repository.py:71` raise OperationalError ("LIKE or GLOB pattern too complex"). The model returns a listing for every query.
- Listing.PastLastPage: for the same reason, the empty page is promised only for queries whose `%q%` pattern fits SQLite's 50000-byte limit. A longer pattern raises OperationalError on every page, including past the last.
