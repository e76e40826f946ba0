# MMDB interaction store, catalog post-processing and client caches, in Dafny

MMDB is a movie database web application. It has a Flask backend over SQLAlchemy and a
Vue frontend. This project models the parts of it that carry logic worth stating:

- **The backend database** (backend/models.py) and the route handlers that change or read
  it (backend/routes.py):
  - the `Movie`, `User`, `Rating` and per-user membership tables, with their unique and
    foreign-key constraints as invariants;
  - the get-or-create of a local `Movie` mirror of a catalog entry;
  - the watched, favourites and watchlist toggles;
  - the list endpoints, including the catalog fallback of `get_watched` and `get_favorites`;
  - the profile counts;
  - the guards of `register` and `login`, with an abstract salted password hash.
- **The catalog list routes** (`get_movies_by_category`, `get_popular_movies`):
  - the category translation;
  - for `upcoming`, the strictly-future filter, the sort by release date and the cut to 20.
- **The frontend caches**: the three id sets of frontend/src/stores/movieStatus.js and the
  rating map of frontend/src/stores/movieRatings.js, each with its loaded flag.
- **The image helpers** of frontend/src/utils/imageUtils.js: the size ladders, the URL
  builders and `srcSet`.

Layout:

| file | module | what |
|---|---|---|
| wrappers.dfy | `Wrappers` | `Option`, `Result` |
| query.dfy | `Query` | `filter_by(...).first()` and `.all()` over a table held as a sequence of rows in key order, taken as the order `.all()` returns |
| models.dfy | `Models` | row datatypes, `set_password`/`check_password`, table constraints |
| interactions.dfy | `Interactions` | mirror, toggle, projections and `get_profile` as functions of table values |
| auth.dfy | `Auth` | `register` guards; `login`, a function of the User table |
| backend.dfy | `Backend` | the database value `Db`, its invariant, a step function for each request that writes (toggles, `register`, the watched and favourites listings) |
| store.dfy | `Store` | class `Database`: the tables as fields; one method per writing request, each tied to its step function, and the `get_watchlist` loop, tied to `Project` |
| category.dfy | `Category` | category routes, string order, filter/sort/truncate |
| image_utils.dfy | `ImageUtils` | imageUtils.js |
| movie_status.dfy | `MovieStatus` | class `StatusStore`: movieStatus.js |
| movie_ratings.dfy | `MovieRatings` | class `RatingsStore`: movieRatings.js |

Modelling choices:

- **Outside calls become parameters.**
  - The TMDB catalog is an oracle argument: `Catalog = int -> Option<MovieData>` for
    `fetch_movie_details`, `Fetch` for the list routes.
  - The password hash is an abstract `Kdf` from (salt, password) to a digest. The salt
    stands for the hash's randomness.
  - The clock is the argument `today`, a `YYYY-MM-DD` string.
- **Each request is one atomic step.** For the requests that write, a step function in
  `Backend` maps the database before the request to the database after it and the
  response, and each `Database` method ensures it does exactly that step to its fields.
  The read-only requests are functions of the tables: `login` is `Auth.Login`,
  `get_profile` is `Interactions.Profile`. `get_watchlist` is the read-only loop
  `Database.GetWatchlist`, proved equal to `Interactions.Project`.
- **Invariants of the backend tables:**
  - primary keys below the next id;
  - `tmdb_id`, `username` and `email` unique;
  - at most one row per (user, movie) in `Rating` and in each membership table;
  - every rating and watchlist row names an existing user;
  - every rating and membership row names an existing movie.

## Model

| member | source | states |
|---|---|---|
| Query.First | backend/routes.py:84 | `.first()`: None exactly when no row matches; otherwise a matching row with no matching row before it |
| Query.Filter | backend/routes.py:456 | `.all()`: only matching rows; every copy of a matching row, as many times as in the table; in table order (a subsequence), the order the model fixes for `.all()` |
| Query.FilterCount | backend/routes.py:484-485 | `.count()`: the number of rows `.all()` returns is the number of table positions whose row matches |
| Models.UserRow.SetPassword | backend/models.py:28-29 | afterwards `check_password` accepts the new password; only the hash field changes |
| Models.CheckAfterSetPassword | backend/models.py:28-32 | after `set_password(p)`, `check_password(q)` holds exactly when q = p (for an injective hash) |
| Models.DistinctBelow | backend/models.py:7 | distinct primary keys below the next id number at most that id |
| Models.MovieTableBound | backend/models.py:7-8 | under the Movie table's key constraints the table has at most as many rows as the next id |
| Models.UserTableBound | backend/models.py:19-22 | under the User table's key and unique constraints the table has at most as many rows as the next id |
| Models.RatingTableOnePerPair | backend/models.py:42-44 | under the unique (user_id, movie_id) constraint a user has at most one rating row per movie |
| Models.ReferencesGrow | backend/models.py:34-54 | foreign keys stay valid when the User and Movie tables only grow |
| Interactions.MirrorMovie | backend/routes.py:84-97 | reuse exactly when a Movie with that `tmdb_id` exists; 404 exactly when none exists and the catalog has nothing; otherwise a new row keyed by the requested id with the catalog's fields |
| Interactions.MirrorKeepsMovieTable | backend/routes.py:415-430 | the mirror step keeps Movie keys unique and afterwards exactly one Movie carries the requested `tmdb_id`: the one returned |
| Interactions.RemoveFirst | backend/routes.py:100-103 | deleting the found row removes exactly one copy of the pair, and nothing when it is absent |
| Interactions.ToggleRows | backend/routes.py:99-109 | a present pair loses exactly one copy; an absent pair is appended at the end; every other pair keeps its count |
| Interactions.NoDuplicatesCounts | backend/models.py:52-54 | the unique (user_id, movie_id) constraint holds exactly when no pair occurs twice |
| Interactions.ToggleFlipsOnlyItsPair | backend/routes.py:99-109 | a toggle flips membership of its own pair only, and keeps the pair unique |
| Interactions.ToggleTwiceRestores | backend/routes.py:305-316 | two toggles of the same pair restore every pair's membership, and the very table when the pair was absent |
| Interactions.ToggleKeepsReferences | backend/models.py:46-49 | a toggle of a pair naming an existing movie (and user) keeps every row's foreign keys |
| Interactions.Lookup | backend/routes.py:460 | `Movie.query.get`: found exactly when a Movie has that local id, and the row found has it |
| Interactions.Project | backend/routes.py:458-469 | the `get_watchlist` loop: never more entries than rows |
| Interactions.ProjectSkipsMissing | backend/routes.py:459-469 | rows without a Movie are skipped and nothing else changes: the listing is the projection of exactly the rows whose Movie exists |
| Interactions.ProjectShowsTableMovies | backend/routes.py:459-461 | every entry of the listing shows a Movie of the table |
| Interactions.ProjectKeepsEveryRow | backend/routes.py:459-469 | when every row names an existing Movie, the list has one entry per row, entry i showing row i's movie |
| Interactions.ListStepGrows | backend/routes.py:42-65 | one iteration: after a failed commit nothing changes; otherwise at most one entry and at most one Movie are appended, and the next id moves with the Movie table |
| Interactions.ListAllGrows | backend/routes.py:40-66 | the loop: at most one entry per row; the Movie table only grows, by at most one per row, and the next id moves with it |
| Interactions.ListAllStaysFailed | backend/routes.py:55-56 | after a failed commit, later rows change nothing |
| Interactions.ListAllKeepsMovieTable | backend/routes.py:42-56 | the fallback loop keeps Movie keys unique and only appends Movies |
| Interactions.FallbackUnusedWhenReferenced | backend/routes.py:248-262 | when every row names an existing Movie, the catalog fallback never runs and the listing is the plain projection |
| Interactions.FindUser | backend/routes.py:478 | `get_or_404`: found exactly when a User has that id |
| Interactions.Profile | backend/routes.py:476-486 | 404 exactly for an unknown user; otherwise the user's id, username and email, and the sizes of the user's watchlist and rating filters |
| Interactions.ProfileCounts | backend/routes.py:484-485 | `watchlist_count` and `ratings_count` are the numbers of the user's rows in the watchlist and rating tables |
| Interactions.Status | backend/routes.py:79-88 | 400 exactly for a missing `movie_id`, 404 exactly for an unknown movie or user, 500 exactly for a failed commit |
| Interactions.WatchlistCountMatchesListing | backend/routes.py:484 | `watchlist_count` equals the number of entries `get_watchlist` returns, when every row names an existing Movie |
| Auth.Status | backend/routes.py:358-406 | 401 exactly for bad credentials, 400 for every other rejection |
| Auth.RegisterCheck | backend/routes.py:358-365 | rejection order: missing key, then username taken, then email taken; each outcome exactly when its condition holds after the earlier ones fail |
| Auth.NewUser | backend/routes.py:368-369 | the new row carries the id, username and email asked for, and its hash accepts the password |
| Auth.RegisterKeepsUserTable | backend/models.py:18-22 | inserting after the checks pass keeps ids, usernames and emails unique |
| Auth.Login | backend/routes.py:390-406 | 400 exactly for a missing key; success only for a user with that name whose password checks; 401 for an unknown name |
| Auth.LoginExact | backend/routes.py:393-395 | with unique usernames, login succeeds exactly when that user's password checks |
| Auth.RegisterThenLogin | backend/routes.py:353-406 | after registering, login with the same name succeeds with the registered password and is 401 with any other |
| Backend.Empty | backend/models.py:6-54 | the empty database `db.create_all()` makes from this schema satisfies every table constraint and foreign key |
| Backend.ToggleStep | backend/routes.py:83-109 | 404 exactly when the catalog does not know an unmirrored id, and then nothing changes; users, ratings and other tables unchanged; Movies only appended, at most one |
| Backend.ToggleByBody | backend/routes.py:79-81 | a missing, null or zero `movie_id` is a 400 that changes nothing |
| Backend.ToggleWatchlistStep | backend/routes.py:411-412 | an unknown user is a 404 that changes nothing |
| Backend.ToggleKeepsValid | backend/models.py:46-54 | a toggle keeps every table constraint and foreign key |
| Backend.ToggleFlipsOnlyTarget | backend/routes.py:432-446 | a toggle flips and reports membership of its own (user, movie) pair only, and exactly one Movie has the requested `tmdb_id` |
| Backend.ToggleTwiceRestoresMembership | backend/routes.py:433-446 | toggling twice restores every pair's membership in every table |
| Backend.RegisterStep | backend/routes.py:358-384 | a rejected registration changes nothing; an accepted one appends exactly one User and answers with its fields |
| Backend.RegisterKeepsValid | backend/routes.py:368-372 | registration keeps every table constraint and foreign key |
| Backend.ListStepDb | backend/routes.py:239-272 | the listing leaves users, ratings and every membership table unchanged |
| Backend.ListKeepsValid | backend/routes.py:40-56 | the listing keeps the keys unique and keeps foreign keys that held |
| Backend.ListOnValidIsReadOnly | backend/routes.py:34-66 | on a consistent database the listing changes nothing and returns one entry per row of the user |
| Store.Database.Toggle | backend/routes.py:83-109 | performs `ToggleStep` on the fields |
| Store.Database.GetOrCreateMovie | backend/routes.py:290-303 | performs the mirror step on the Movie table |
| Store.Database.FlipRow | backend/routes.py:305-316 | replaces one membership table by its toggle; reports whether the pair was added |
| Store.Database.ToggleWatched | backend/routes.py:71-109 | performs `toggle_watched` and keeps the database consistent |
| Store.Database.ToggleFavorite | backend/routes.py:277-316 | performs `toggle_favorite` and keeps the database consistent |
| Store.Database.ToggleWatchlist | backend/routes.py:410-446 | performs `toggle_watchlist` and keeps the database consistent |
| Store.Database.Register | backend/routes.py:354-384 | performs `register` and keeps the database consistent |
| Store.Database.GetWatchlist | backend/routes.py:451-471 | 404 for an unknown user, else `Project` of the user's watchlist rows: one view per row whose Movie exists, in the rows' order, rows without a Movie skipped |
| Store.Database.ListWithFallback | backend/routes.py:34-66 | performs `ListStepDb` and keeps a consistent database consistent |
| Store.Database.ListRows | backend/routes.py:248-271 | the loop computes the listing fold `ListAll` |
| Category.LexLess | backend/routes.py:221 | str `<`: a proper prefix is smaller, nothing is smaller than its own prefix, and when the first characters differ they decide (LexLessFirstDifference covers later positions) |
| Category.LexLessFirstDifference | backend/routes.py:221 | after a common prefix, the first differing character decides the comparison (as between two dates of one year) |
| Category.LexLessIrreflexive | backend/routes.py:221 | string `<` is irreflexive |
| Category.LexLessTransitive | backend/routes.py:221 | string `<` is transitive |
| Category.LexLessTotal | backend/routes.py:221 | string `<` orders any two different strings one way and never both |
| Category.CatalogCategory | backend/routes.py:195-203 | defined exactly for the four categories; the result has no `-` and the same length |
| Category.CatalogCategoryInjective | backend/routes.py:195-200 | the mapping is one-to-one and only replaces `-` by `_` |
| Category.Page | backend/routes.py:194 | the page argument, 1 when missing |
| Category.CategoryRequest | backend/routes.py:201-211 | 400 exactly for an unknown category; otherwise the translated path, language `en-GB`, the page, and region `GB` exactly for `upcoming` |
| Category.Take20 | backend/routes.py:224 | a prefix of length min(20, n) |
| Category.KeepFuture | backend/routes.py:219-222 | keeps every entry dated strictly after today, every copy of it, in order, and nothing else; an absent date never passes |
| Category.Insert | backend/routes.py:223 | inserting into a date-sorted list gives a date-sorted list with that one entry more |
| Category.SortByDate | backend/routes.py:223 | sorted by release date and a permutation of its input |
| Category.UpcomingResults | backend/routes.py:217-224 | the processing raises exactly when some entry has a null date |
| Category.UpcomingResultsSpec | backend/routes.py:215-224 | at most 20 entries, min(20, upcoming count) of them, all dated after today, sorted by date |
| Category.UpcomingResultsFromCatalog | backend/routes.py:219-224 | the result is a sub-multiset of the catalog's list |
| Category.UpcomingResultsEarliest | backend/routes.py:223-224 | no upcoming entry cut off is dated before one kept |
| Category.Postprocess | backend/routes.py:215-225 | a reply without `results` passes unchanged; other keys always pass; non-upcoming results are cut to their first 20; for upcoming, it raises exactly when an entry has a null date and otherwise the results are `UpcomingResults` |
| Category.MoviesByCategory | backend/routes.py:191-227 | 400 for an unknown category before any catalog call; 500 when the call raises; after a successful call, 500 exactly for upcoming with a null date, otherwise Ok with results cut to 20 or, for upcoming, `UpcomingResults` |
| Category.PopularMovies | backend/routes.py:149-166 | 500 exactly when the call raises; otherwise the reply with `results` cut to its first min(20, n) entries |
| Category.PopularCategoryAgrees | backend/routes.py:162-163 | `/popular` and `/category/popular` answer alike |
| ImageUtils.Tier | frontend/src/utils/imageUtils.js:7-15 | the reference ladder: the first listed width that covers the target, or the original |
| ImageUtils.PosterSize | frontend/src/utils/imageUtils.js:29-40 | the poster if-chain picks the smallest size at least twice the display width (the `Tier` ladder) |
| ImageUtils.BackdropSize | frontend/src/utils/imageUtils.js:47-54 | the backdrop if-chain picks the smallest size at least twice the display width (the `Tier` ladder) |
| ImageUtils.TierMonotone | frontend/src/utils/imageUtils.js:33-39 | a wider target never gets an earlier tier |
| ImageUtils.PosterSizeMonotone | frontend/src/utils/imageUtils.js:29-40 | a wider display never gets a smaller poster size |
| ImageUtils.BackdropSizeMonotone | frontend/src/utils/imageUtils.js:47-54 | a wider display never gets a smaller backdrop size |
| ImageUtils.PosterUrl | frontend/src/utils/imageUtils.js:62-67 | null exactly for a falsy path; otherwise base URL, then size, then path |
| ImageUtils.BackdropUrl | frontend/src/utils/imageUtils.js:75-80 | null exactly for a falsy path; otherwise base URL, then size, then path |
| ImageUtils.DefaultSizes | frontend/src/utils/imageUtils.js:62-80 | the default widths give `w500` posters and `original` backdrops |
| ImageUtils.NatToString | frontend/src/utils/imageUtils.js:96 | the width is written as decimal digits that read back as the width, without a leading zero |
| ImageUtils.SrcSetEntry | frontend/src/utils/imageUtils.js:96 | a candidate is the image URL of that size, a space, the width in decimal, then `w` |
| ImageUtils.SrcSetEntries | frontend/src/utils/imageUtils.js:95-96 | `.map`: one candidate per size, in order |
| ImageUtils.Join | frontend/src/utils/imageUtils.js:97 | `join(', ')`: empty for no parts; otherwise starts with the first part and is as long as the parts plus two characters per separator |
| ImageUtils.PosterSrcSet | frontend/src/utils/imageUtils.js:88-98 | `''` for a falsy path |
| ImageUtils.PosterSrcSetSplits | frontend/src/utils/imageUtils.js:95-97 | split at ", ", the srcSet gives back one candidate per size, in order |
| ImageUtils.SplitJoin | frontend/src/utils/imageUtils.js:97 | splitting undoes `join(', ')` for comma-free parts |
| ImageUtils.DefaultSrcSet | frontend/src/utils/imageUtils.js:88-92 | the default sizes give exactly three candidates: w185, w342, w500 |
| ImageUtils.PlaceholderUrl | frontend/src/utils/imageUtils.js:106-108 | the placeholder file, whatever the size asked for |
| MovieStatus.Key | frontend/src/stores/movieStatus.js:50 | the catalog id when truthy, else the local id |
| MovieStatus.Keys | frontend/src/stores/movieStatus.js:49-59 | exactly the keys of the list's movies |
| MovieStatus.Updated | frontend/src/stores/movieStatus.js:14-21 | the id is a member exactly when active; every other id unchanged |
| MovieStatus.UpdatedIdempotent | frontend/src/stores/movieStatus.js:14-21 | repeating an update changes nothing more |
| MovieStatus.UpdatesCommute | frontend/src/stores/movieStatus.js:14-21 | updates of different ids commute |
| MovieStatus.StatusStore.Update | frontend/src/stores/movieStatus.js:14-21 | only the named set changes, as `Updated` says; the flag stays |
| MovieStatus.StatusStore.IsFavorite | frontend/src/stores/movieStatus.js:24-26 | membership in the favourites set |
| MovieStatus.StatusStore.IsInWatchlist | frontend/src/stores/movieStatus.js:28-30 | membership in the watchlist set |
| MovieStatus.StatusStore.IsWatched | frontend/src/stores/movieStatus.js:32-34 | membership in the watched set |
| MovieStatus.StatusStore.IsInitialized | frontend/src/stores/movieStatus.js:37-39 | the loaded flag |
| MovieStatus.StatusStore.AddKeys | frontend/src/stores/movieStatus.js:49-51 | one loop adds exactly the list's keys to its set and touches nothing else |
| MovieStatus.StatusStore.Initialize | frontend/src/stores/movieStatus.js:42-63 | each set becomes exactly its list's keys, the old contents gone; the flag set |
| MovieStatus.StatusStore.Clear | frontend/src/stores/movieStatus.js:66-71 | all sets empty, flag false |
| MovieRatings.RatingIn | frontend/src/stores/movieRatings.js:20-22 | 0 for an id without a rating, else the stored rating (a stored 0 reads as 0 either way) |
| MovieRatings.Rated | frontend/src/stores/movieRatings.js:10-17 | a positive rating is stored, any other removes the entry; other ids unchanged |
| MovieRatings.RatingAfterUpdate | frontend/src/stores/movieRatings.js:10-22 | after an update the id reads as the rating if positive else 0; other ids read as before; ratings stay positive |
| MovieRatings.Loaded | frontend/src/stores/movieRatings.js:30-43 | every loaded rating is positive |
| MovieRatings.LoadedDomain | frontend/src/stores/movieRatings.js:35-39 | the loaded ids are exactly those of items with truthy `movie_id` and positive rating |
| MovieRatings.LoadedLastWins | frontend/src/stores/movieRatings.js:35-39 | for a repeated id, the last kept item's rating wins |
| MovieRatings.RatingsStore.Update | frontend/src/stores/movieRatings.js:10-17 | the map becomes `Rated` of the old map; the flag stays |
| MovieRatings.RatingsStore.Get | frontend/src/stores/movieRatings.js:20-22 | the stored rating, or 0 |
| MovieRatings.RatingsStore.IsLoaded | frontend/src/stores/movieRatings.js:25-27 | the loaded flag |
| MovieRatings.RatingsStore.Initialize | frontend/src/stores/movieRatings.js:30-43 | the map becomes exactly `Loaded(items)`, the old contents gone; the flag set |
| MovieRatings.RatingsStore.Clear | frontend/src/stores/movieRatings.js:46-49 | empty map, flag false |

## Left out

- HTTP, JWT and CORS plumbing (blueprints, `jwt_required`, access tokens, `cross_origin`,
  OPTIONS handlers): a request is a call with its already-decoded arguments. The user id
  is the decoded JWT identity.
- The TMDB client (backend/tmdb.py and every `requests.get`): an oracle argument.
  `search_movies` and `get_movie_details` only forward the catalog's reply and are not
  modelled.
- backend/app.py, the stub `get_movie_reviews`, and the unreachable code after `return`
  in backend/routes.py: not part of the modelled behaviour.
- Server timestamps (`added_at`, `created_at`, `updated_at`) and the `added_at` field of
  list entries.
- Row order of `.all()`: the queries of the listings and the profile (backend/routes.py:40,
  246, 456) have no `order_by`, so the database returns their rows in an order it chooses.
  The model fixes that order to primary-key order, an inserted row last. Query.Filter,
  Interactions.Project, Interactions.ProjectKeepsEveryRow and Store.Database.GetWatchlist
  state the order of the listing only under that assumption; which rows are listed, and
  how many, does not depend on it.
- Concurrency: each request is one atomic step. Check-then-insert races between requests
  are not modelled.
- The catalog fallback of `get_watched` and `get_favorites` is modelled as written. It
  looks a Movie up by local id, asks the catalog with that local id, and inserts under the
  catalog's id; a duplicate catalog id makes the commit fail with a 500. The model proves
  this fallback never runs while the foreign keys hold. It does not claim the fallback is
  right.
- `WatchedItem` and `FavoriteItem` are imported by backend/routes.py but not declared in
  backend/models.py. They are modelled like `WatchlistItem`, unique per (user, movie).
  Their user id is not required to name an existing user, because `toggle_watched` and
  `toggle_favorite` do not check the user.
- `register` checks only that the three keys are present (backend/routes.py:358).
  Empty strings are accepted, and the model follows the code.
- Store.Database.Toggle and Store.Database.FlipRow: the method-level `ensures` states the
  new state through the step functions; membership, uniqueness and foreign-key properties
  are proved about those functions, not repeated on every method.
- Category.SortByDate: stability of Python's `sorted` (equal dates keep their order) is
  implemented by the insertion but not stated or proved.
- Category: catalog entries are reduced to an id and a release date. A non-string,
  non-null date and a `results` value that is not a list are not modelled.
- Category.Page: a page argument that is not an integer is modelled as missing, which is
  what Flask's `type=int` does.
- Models.UserRow.SetPassword works on a row value rather than updating a stored object in
  place. werkzeug's hashing internals are the abstract `Kdf`.
- JavaScript number semantics: `Number(...)` coercion of ids, NaN, non-numeric widths and
  floating-point rounding of `displayWidth * 2` are not modelled. Widths are exact reals,
  ids are integers, and srcSet widths are non-negative integers.
- MovieStatus.StatusStore.Update: a `type` other than the three set names (a TypeError in
  JavaScript) is excluded by the `StatusType` datatype.
- Request and catalog JSON are taken as well-typed: a present field holds a string. In
  the source a `null` or non-string field raises and answers 500: in `register`, a bad
  `password` in the hash function, a `null` `username` or `email` at the NOT NULL
  constraint on commit; in `login`, a bad `password` for an existing user in the hash
  check. So does a catalog reply without `title` (the `movie_data['title']` lookup) or
  with `title: null` (backend/models.py:9). The model's field types cannot hold these
  values.
- frontend/src/utils/rounding.js and the frontend API wrappers, router and auth/user
  stores: outside the modelled logic.
