# Course reviews: a Dafny model of the review table, search and pagination

This project models the core of a small course-review web application. Students
browse a course catalogue and post anonymous reviews: a difficulty rating and a
recommendation rating (each 1..5), an attendance flag, an assessment kind and a
comment. Reviews are deduplicated per person through a pseudonymous user id, the
first 16 hex digits of the SHA-256 of the stripped display name. They can be
withdrawn and resubmitted.

The web framework and the SQL text are gone. The two tables are immutable values:
their rows in rowid order plus the AUTOINCREMENT counter. Every handler is a pure
function from the tables and the parsed request to an outcome and the new table.

| module (file) | what it models |
|---|---|
| `Wrappers` (wrappers.dfy) | `Option`, for request parameters that may be absent or fail to parse |
| `Seqs` (seqs.dfy) | `Filter` (a WHERE clause), `Pairwise` (a UNIQUE constraint), substring search |
| `Sorting` (sorting.dfy) | `ORDER BY` as an insertion sort over any total preorder; code-point order of text |
| `Identity` (identity.dfy) | `str.strip()` and `make_user_id` |
| `Schema` (schema.dfy) | the `courses` and `reviews` rows, their constraints, `init_db` |
| `Seeding` (seeding.dfy) | `seed_sample_courses` |
| `Reviews` (reviews.dfy) | `add_review`, `cancel_review`, and the table as a state machine |
| `Search` (search.dfy) | `index` and `search`: the WHERE-clause builder, filtering, ordering by code |
| `Listing` (listing.dfy) | `course_view`: the review listing and its pagination |

The central invariant is `Schema.ValidReviews`. It says the table's own constraints
hold: distinct ids, both ratings within 1..5, and `UNIQUE(course_id, user_id, active)`.
The unique constraint means that each (course, user) pair has at most one active row
and at most one inactive row. Add and cancel both preserve the invariant, and
`Reviews.RunKeepsValid` extends this to any sequence of requests.

A successful cancel has a precise effect (`Reviews.CancelEffect`). The pair's single
active row becomes its single inactive row, and the pair has no active row left. Any
earlier inactive row of the pair is deleted. Rows of every other pair stay as they
were, in the same order.

Modelling choices:
- The pseudonymous id is computed from a hash function passed in as the parameter
  `sha`. That function returns a `Digest`, which is 64 lowercase hex characters.
- The clock is passed in as `now`. `created_at` is a `nat`, because the ISO-8601 UTC
  strings the app stores order like the instants they name.
- `active` is a boolean. The app writes only 0 and 1.
- A failed INSERT raises an IntegrityError, which the app catches. The statement is
  rolled back, so the rows and the AUTOINCREMENT counter stay as they were.
- Text comparison in `ORDER BY code` is code-point lexicographic order. This agrees
  with SQLite's default BINARY collation on UTF-8 text.
- `page` is a `nat`, because Flask's `int` URL converter accepts only digit strings.
  Page 0 is modelled with Python's slice semantics rather than excluded.
- `cancel_review` does not check that the course exists, and neither does the model.
- A CHECK failure, such as a crafted POST with difficulty 7, is caught by the same
  handler as a duplicate review. It shows the same "an active review already exists"
  message. The model keeps one outcome, `ConstraintViolation`, for both cases. This
  holds only for ratings that fit in SQLite's signed 64-bit INTEGER (next item).
- Python ints are unbounded, but SQLite's INTEGER is signed 64-bit
  (`Schema.InSqliteRange`). When a query binds an int outside that range, Python's
  `sqlite3` raises `OverflowError`. That is not an `IntegrityError`, no handler catches
  it, and the request ends in HTTP 500. The outcome is `ServerError` in each handler:
  - a course id in `course_view`, `add_review` or `cancel_review`;
  - a non-zero `min_recommend` in `course_view`;
  - a rating in `add_review`, checked after validation;
  - a non-zero `year` in `search`.
  In each case the table is unchanged.
  `Schema.FindCourse`, `Reviews.InsertReview`, `Listing.ListReviews` and
  `Search.SearchCourses` model the queries themselves. The handlers reach them only
  with parameters SQLite can hold.

## Model

| member | source | states |
|---|---|---|
| `Identity.Strip` | app.py:120 | the stripped name has no whitespace at either end, is no longer than the input, and is empty exactly when the input is all whitespace |
| `Identity.StripRemovesOnlyPadding` | app.py:120 | the stripped name is a contiguous run of the input, and everything before and after that run is whitespace |
| `Identity.StripIgnoresPadding` | app.py:149 | names that differ only in surrounding whitespace strip to the same string |
| `Identity.MakeUserId` | app.py:34-35 | the user id is 16 lowercase hex characters and is a prefix of the name's hex digest |
| `Identity.StripIdempotent` | app.py:120 | stripping an already stripped name changes nothing |
| `Identity.PaddedNamesShareUserId` | app.py:120-131 | names that differ only in surrounding whitespace get the same user id |
| `Schema.FindCourse` | app.py:89-90 | the course lookup finds a row with the requested id, and fails exactly when no row has that id |
| `Schema.InitDb` | init_db.py:13-50 | after `init_db` both tables exist; a table that already existed keeps its rows and counter, and a missing one is created with no rows and an AUTOINCREMENT counter of 0 |
| `Schema.InitDbIdempotent` | init_db.py:18-19 | running `init_db` twice equals running it once, and the resulting tables satisfy their constraints |
| `Seeding.InsertCourse` | init_db.py:62-65 | inserting a course fails exactly when its code is taken; otherwise exactly one row is appended under the next id, carrying the seed's code, title, area, year, semester and schedule with a NULL syllabus URL, and the constraints keep holding |
| `Seeding.InsertOrSkip` | init_db.py:61-67 | a duplicate code is skipped silently and leaves the table unchanged; otherwise the seed's row is appended under the next id |
| `Seeding.SeedAll` | init_db.py:60-68 | after seeding, the codes are the old codes plus the seeded codes, every existing row is kept as a prefix, every added row is the row of one of the seeds, and the constraints hold |
| `Seeding.SeedAllSkipsPresent` | init_db.py:60-67 | seeding codes that are all present already changes nothing |
| `Seeding.SeedSampleCourses` | init_db.py:52-68 | after seeding, the codes are the old codes plus SES101, ENG201, URP301 and STAT220, every existing row is kept in place, every added row is the row of one of the samples, and the constraints hold |
| `Seeding.SeedSampleCoursesIdempotent` | init_db.py:52-68 | seeding twice equals seeding once; the codes are the existing codes plus the sample codes |
| `Seeding.SampleCodesDistinct` | init_db.py:55-58 | the four sample codes are pairwise distinct |
| `Seeding.SampleCodeSet` | init_db.py:55-58 | the sample codes are exactly SES101, ENG201, URP301 and STAT220 |
| `Seeding.SeedAllFresh` | init_db.py:60-65 | seeds with distinct codes, none of them present yet, are appended in order under consecutive ids |
| `Seeding.SeedFreshTableCodes` | init_db.py:54-68 | seeding an empty table leaves exactly the four sample codes |
| `Seeding.SeedFreshTableSize` | init_db.py:54-68 | seeding an empty table leaves exactly four rows |
| `Seeding.FirstInsertIntoFreshDatabase` | init_db.py:18-20 | in a `courses` table `init_db` has just created, the first course inserted is the only row and gets the id 1 |
| `Seeding.SeedFreshTableRows` | init_db.py:54-68 | seeding an empty table leaves the four samples in order under the next four ids, each with its listed columns and a NULL syllabus URL |
| `Sorting.Insert` | app.py:80 | inserting into a sorted sequence keeps it sorted and adds exactly the new element |
| `Sorting.SortBy` | app.py:80 | `ORDER BY` returns a permutation of its input that is sorted by the key order |
| `Search.BuildWhere` | app.py:58-79 | the WHERE clause has one conjunct for each filter that is non-empty, or for the year, non-zero, and no other conjuncts |
| `Search.StripArgs` | app.py:51-56 | every text filter is stripped: no whitespace at either end, and empty exactly when the raw field is all whitespace; the year passes through unchanged |
| `Search.StripArgsRemovesOnlyPadding` | app.py:51-56 | each text filter is a contiguous run of its raw field with only whitespace cut from either end |
| `Search.StripArgsIdempotent` | app.py:51-56 | stripping the filters a second time changes nothing |
| `Search.Index` | app.py:43-46 | the index lists every course exactly as often as it occurs, ordered by code |
| `Search.SearchCourses` | app.py:58-81 | the search query returns exactly the courses satisfying every conjunct, as a permutation of the selected rows, ordered by code |
| `Search.NoFiltersListsEverything` | app.py:58-80 | with no filters the WHERE clause is empty and the search equals the index |
| `Search.SearchResponse` | app.py:49-84 | the search page is HTTP 500 exactly when a non-zero year filter lies outside SQLite's 64-bit range, and otherwise the search query's answer |
| `Search.NarrowingShrinksResult` | app.py:61-79 | adding filters never adds a course to the result and never increases its size |
| `Search.SearchStrictlyAscending` | app.py:80 | over a valid course table the results have distinct codes in strictly ascending order |
| `Listing.ListReviews` | app.py:95-101 | the listing is exactly the course's active reviews that meet the optional recommend floor, newest first |
| `Listing.ZeroFloorIsNoFloor` | app.py:94-99 | `min_recommend` = 0 lists the same reviews as no floor at all |
| `Listing.HigherFloorShrinksListing` | app.py:97-99 | a higher recommend floor never lists a review that a lower floor leaves out |
| `Listing.Paginate` | app.py:103-110 | the page count is the ceiling of total/50, and a page holds at most 50 items |
| `Listing.PageContents` | app.py:105-110 | for page >= 1 the page holds items (page-1)*50 up to page*50, cut at the end; has_next iff page*50 < total iff page < pages; has_prev iff page > 1; a page past the end is empty |
| `Listing.PySlice` | app.py:107 | a Python slice with non-negative bounds is `s[start..stop]` cut at the end; it is empty when 0 <= stop <= start or stop = 0, and never longer than `s` |
| `Listing.PageZero` | app.py:105-110 | page 0 is empty, has no previous page, and has a next page iff there is any review |
| `Listing.ItemPlacement` | app.py:104-107 | item i is shown on page i/50 + 1 at position i%50 |
| `Listing.PagesPartition` | app.py:104-107 | the pages from 1 to `pages`, read in order, give the whole listing |
| `Listing.ShowPage` | app.py:94-111 | the rendered page of a found course shows that course; its window is the requested page of the newest-first listing, every item is one of the course's listed reviews, the items run newest first, and the total is the number of selected reviews |
| `Listing.CourseView` | app.py:86-111 | a course id SQLite cannot hold, or a given floor it cannot hold for a known course, gives HTTP 500; otherwise an unknown course id gives not-found; otherwise the page shows that course and the requested page of the newest-first listing, with its items newest first, its page count, total and next/previous flags as `Paginate` gives them for `ListReviews` |
| `Reviews.InsertReview` | app.py:135-141 | the INSERT fails exactly when a rating is outside 1..5 or the (course, user, active) key is taken; otherwise one row is appended under the next id, and the constraints keep holding |
| `Reviews.AddReview` | app.py:113-143 | HTTP 500 exactly when the course id, or a rating of a complete form for a known course, lies outside SQLite's 64-bit range; otherwise not-found exactly for an unknown course, invalid input exactly for a blank name or a missing or zero rating, a constraint violation exactly for a rating outside 1..5 or a taken key, and a new row in every other case; only that case changes the table |
| `Reviews.NewestActive` | app.py:156-158 | the lookup returns an active row of the pair with the latest `created_at`, and none exactly when the pair has no active row |
| `Reviews.NewReview` | app.py:121-138 | the inserted row carries the course id, the user id of the stripped name, both ratings, attendance 1 iff the checkbox was "on" (else the default 0), the assessment or "なし", the stripped comment, `now`, and is active |
| `Reviews.CancelReview` | app.py:147-170 | a blank name gives name-missing; a course id outside SQLite's 64-bit range gives HTTP 500; otherwise the cancel succeeds exactly when the pair has an active row; every unsuccessful outcome leaves the table unchanged, and the AUTOINCREMENT counter never changes |
| `Reviews.DeleteInactive` | app.py:166 | the DELETE keeps exactly the rows that are not an inactive row of the pair, each no more often than before |
| `Reviews.Deactivate` | app.py:167 | the UPDATE keeps every row in place and clears the active flag of exactly the rows with the given id |
| `Reviews.ValidRowsUnique` | init_db.py:45 | in a valid table a row is determined by its id, and also by its (course, user, active) key |
| `Reviews.AtMostOneRowPerKey` | init_db.py:45 | a valid table has at most one active row and at most one inactive row per (course, user) pair |
| `Reviews.PairRowsOfTakenKey` | init_db.py:45 | in a valid table, the rows carrying a taken key are exactly that one row |
| `Reviews.DeactivateKeepsOthers` | app.py:167 | deactivating a row of the pair leaves the other pairs' rows as they were |
| `Reviews.DeleteInactiveFacts` | app.py:166 | after the DELETE no inactive row of the pair remains; the active row survives and is the only row with its id |
| `Reviews.CancelKeepsOtherPairs` | app.py:165-167 | DELETE followed by UPDATE leaves every other pair's rows unchanged and in order |
| `Reviews.CancelLeavesOneInactive` | app.py:165-167 | after DELETE and UPDATE, the pair's only inactive row is the formerly active row |
| `Reviews.CancelLeavesNoActive` | app.py:165-167 | after DELETE and UPDATE, the pair has no active row |
| `Reviews.CancelKeepsValid` | app.py:165-167 | DELETE followed by UPDATE keeps every table constraint |
| `Reviews.CancelEffect` | app.py:154-168 | a successful cancel turns the pair's single active row into its single inactive row, leaves no active row, keeps other pairs' rows, and keeps the table valid |
| `Reviews.CancelKeepsTableValid` | app.py:147-170 | whatever its outcome, a cancel keeps the table valid |
| `Reviews.SecondAddRefused` | app.py:134-142 | once a review is added, a second complete submission for the same course and stripped name changes nothing; with ratings SQLite can hold it is a constraint violation |
| `Reviews.AddWhenKeyFree` | app.py:131-139 | a complete, in-range form for a known course (with an id SQLite can hold) whose pair has no active row appends exactly the new row |
| `Reviews.AddAfterCancel` | app.py:131-139 | adding to a pair with no active row makes the new row the pair's single active row, stamped `now`, and keeps the pair's inactive rows |
| `Reviews.CancelAfterAdd` | app.py:154-168 | right after a successful add, cancelling under the same name succeeds |
| `Reviews.AddCancelAdd` | app.py:113-170 | add, then cancel, then add again leaves exactly one active row, the newest, and exactly one inactive row |
| `Reviews.AddedRowDefaults` | app.py:123-138 | the added row is active and stamped `now`; attendance is 1 iff the checkbox was "on", else the default 0; a missing assessment becomes "なし"; the comment is stripped |
| `Reviews.RunKeepsValid` | init_db.py:38-45 | every table reachable through add and cancel requests keeps the ratings within 1..5 and has at most one active and one inactive row per pair |

## Left out

- Flask plumbing is not modelled: routing, `render_template`, `flash` texts, `redirect`, the GET form of `add_review`, and `app.run`. The outcome datatypes name which message or status each path produces.
- `get_db`, `close_connection` and `query_db` are not modelled, because they are connection I/O. The tables are values passed in and returned.
- SHA-256 inside `make_user_id` is a foreign cryptographic call. It is the parameter `sha`, with a 64-hex-digit result.
- `datetime.utcnow()` is the clock. It is the parameter `now`.
- SQL `LIKE` is read as case-sensitive substring containment. SQLite's LIKE is also ASCII case-insensitive and treats `%` and `_` in the user's input as wildcards. Neither of these is modelled.
- The `credits REAL` column is not modelled. It is floating point and no logic uses it.
- `admin_import_demo` is not modelled. It is an unimplemented placeholder.
- Concurrent add/cancel races are not modelled. Requests are served one at a time, and the atomicity of the two cancel statements is assumed.
- NULL is modelled only for `syllabus_url`, as `None`. `seed_sample_courses` writes NULL there. Every other column the app writes is non-NULL.
- Parsing of `type=int` request fields is abstracted: a field is `None` when it is absent or not an integer.
- The default `page=1` of the `/course/<id>/` route is not modelled. Callers pass the page number.
- Sorting.SortBy: the order among rows with equal keys (equal `created_at`, or equal codes in an invalid table) is one fixed choice. SQLite leaves that order unspecified, so the contract states only sortedness and permutation.
- Reviews.NewestActive: among several active rows with the same latest `created_at`, SQLite may return any of them. The contract states only that the returned row is one with the maximum. A valid table has at most one such row anyway.
- Reviews.InsertReview: a primary-key collision is not checked. AUTOINCREMENT issues ids above every id ever issued, and `ValidReviews` keeps every id at or below the counter.
- Reviews.AddReview: AUTOINCREMENT exhaustion is not modelled. SQLite fails the insert with SQLITE_FULL once the counter reaches 2^63-1, while the model keeps counting.
- Reviews.CancelReview: the UPDATE is modelled as never failing. On a valid table it cannot fail, as `Reviews.CancelKeepsValid` proves.
