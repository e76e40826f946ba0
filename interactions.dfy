/**
 * The per-user interaction logic of backend/routes.py, as functions over
 * table values: get-or-create of a local Movie mirror, the membership toggle
 * shared by the watched, favorites and watchlist endpoints, the list
 * projections and the profile counts. The Store class applies these to its
 * tables.
 */
module Interactions {
  import opened Wrappers
  import opened Query
  import opened Models

  /** The three per-user membership tables. */
  datatype ListKind = Watched | Favorites | Watchlist

  /** What the external catalog returns for a movie (the defaults of `.get(key, default)` already applied). */
  datatype MovieData = MovieData(id: int, title: string, overview: string, posterPath: string, voteAverage: real)

  /** The catalog lookup `fetch_movie_details`, an oracle from an id to an entry or nothing. */
  type Catalog = int -> Option<MovieData>

  /** One element of a list response: the movie as the client sees it, keyed by its catalog id. */
  datatype MovieView = MovieView(id: int, title: string, overview: string, posterPath: string, voteAverage: real)

  datatype ApiError = MissingMovieId | MovieNotFound | UserNotFound | IntegrityError

  /** The HTTP status each error is answered with. */
  function Status(e: ApiError): (code: nat)
    ensures code == 400 <==> e == MissingMovieId
    ensures code == 404 <==> e == MovieNotFound || e == UserNotFound
    ensures code == 500 <==> e == IntegrityError
  {
    match e
    case MissingMovieId => 400
    case MovieNotFound => 404
    case UserNotFound => 404
    case IntegrityError => 500
  }

  function View(m: MovieRow): MovieView {
    MovieView(m.tmdbId, m.title, m.overview, m.posterPath, m.voteAverage)
  }

  // ---- filter_by(...) conditions ----

  function ByTmdbId(tmdbId: int): MovieRow -> bool { (m: MovieRow) => m.tmdbId == tmdbId }
  function ByLocalId(id: nat): MovieRow -> bool { (m: MovieRow) => m.id == id }
  function ByUserId(id: nat): UserRow -> bool { (u: UserRow) => u.id == id }
  function OfUser(userId: nat): Membership -> bool { (r: Membership) => r.userId == userId }
  function RatingOfUser(userId: nat): RatingRow -> bool { (r: RatingRow) => r.userId == userId }

  // ---- Get-or-create mirror (routes.py:84-97, 290-303, 415-430) ----

  datatype Mirror = Reused(movie: MovieRow) | Created(movie: MovieRow) | NotInCatalog

  /** The Movie row built from catalog data; the handlers key it by the requested id, not by `data.id`. */
  function NewMovie(id: nat, tmdbId: int, d: MovieData): MovieRow {
    MovieRow(id, tmdbId, d.title, d.overview, d.posterPath, d.voteAverage)
  }

  /**
   * Finds the Movie mirroring catalog id `tmdbId`; on a miss asks the catalog and,
   * if it knows the movie, builds the row to insert under the next local id.
   */
  function MirrorMovie(movies: seq<MovieRow>, nextId: nat, tmdbId: int, catalog: Catalog): (r: Mirror)
    ensures r.Reused? <==> exists i :: 0 <= i < |movies| && movies[i].tmdbId == tmdbId
    ensures r.Reused? ==> r.movie in movies && r.movie.tmdbId == tmdbId
    ensures r.NotInCatalog? <==> (forall i :: 0 <= i < |movies| ==> movies[i].tmdbId != tmdbId) && catalog(tmdbId).None?
    ensures r.Created? ==> catalog(tmdbId).Some? && r.movie == NewMovie(nextId, tmdbId, catalog(tmdbId).value)
  {
    match First(movies, ByTmdbId(tmdbId))
    case Some(m) => Reused(m)
    case None =>
      match catalog(tmdbId)
      case None => NotInCatalog
      case Some(d) => Created(NewMovie(nextId, tmdbId, d))
  }

  /** The Movie table after the mirror step: one row appended when it was created. */
  function Mirrored(movies: seq<MovieRow>, r: Mirror): seq<MovieRow> {
    if r.Created? then movies + [r.movie] else movies
  }

  /**
   * The mirror step keeps the Movie table's keys unique, and afterwards exactly one
   * row carries the requested catalog id: the one the toggle then uses.
   */
  lemma MirrorKeepsMovieTable(movies: seq<MovieRow>, nextId: nat, tmdbId: int, catalog: Catalog)
    requires MovieTable(movies, nextId)
    requires !MirrorMovie(movies, nextId, tmdbId, catalog).NotInCatalog?
    ensures var r := MirrorMovie(movies, nextId, tmdbId, catalog);
            var ms := Mirrored(movies, r);
            && MovieTable(ms, if r.Created? then nextId + 1 else nextId)
            && r.movie in ms
            && (forall i :: 0 <= i < |ms| ==> (ms[i].tmdbId == tmdbId <==> ms[i] == r.movie))
  {
    var r := MirrorMovie(movies, nextId, tmdbId, catalog);
    var ms := Mirrored(movies, r);
    if r.Reused? {
      var k :| 0 <= k < |movies| && movies[k] == r.movie;
    } else {
      assert ms[|movies|] == r.movie;
    }
  }

  // ---- Membership toggle (routes.py:99-109, 305-316, 432-446) ----

  /** `db.session.delete` of the row found by `.first()`: removes the earliest occurrence of `p`. */
  function RemoveFirst(rows: seq<Membership>, p: Membership): (r: seq<Membership>)
    ensures p !in rows ==> r == rows
    ensures p in rows ==> |r| == |rows| - 1
    ensures multiset(r) == multiset(rows) - multiset{p}
  {
    if rows == [] then []
    else if rows[0] == p then
      assert rows == [rows[0]] + rows[1..];
      rows[1..]
    else
      assert rows == [rows[0]] + rows[1..];
      [rows[0]] + RemoveFirst(rows[1..], p)
  }

  /** The toggle: delete the (user, movie) row when there is one, otherwise append one. */
  function ToggleRows(rows: seq<Membership>, p: Membership): (r: seq<Membership>)
    ensures p in rows ==> multiset(r) == multiset(rows) - multiset{p}
    ensures p !in rows ==> r == rows + [p]
    ensures forall q :: q != p ==> multiset(r)[q] == multiset(rows)[q]
  {
    if p in rows then RemoveFirst(rows, p) else rows + [p]
  }

  /** A table has no duplicate pair exactly when no row occurs twice in its multiset. */
  lemma {:induction false} NoDuplicatesCounts(rows: seq<Membership>)
    ensures NoDuplicates(rows) <==> forall q :: multiset(rows)[q] <= 1
  {
    if rows == [] {
    } else {
      var t := rows[1..];
      assert rows == [rows[0]] + t;
      NoDuplicatesCounts(t);
      if NoDuplicates(rows) {
        assert NoDuplicates(t) by {
          forall i, j | 0 <= i < j < |t| ensures t[i] != t[j] {
            assert t[i] == rows[i + 1] && t[j] == rows[j + 1];
          }
        }
        assert rows[0] !in t;
      } else {
        var i, j :| 0 <= i < j < |rows| && rows[i] == rows[j];
        if i == 0 {
          assert rows[j] in t;
          assert multiset(rows)[rows[0]] >= 2;
        } else {
          assert t[i - 1] == t[j - 1];
          assert !NoDuplicates(t);
          var q :| multiset(t)[q] > 1;
          assert multiset(rows)[q] > 1;
        }
      }
    }
  }

  /**
   * With at most one row per pair, a toggle flips membership of its own pair,
   * leaves every other pair as it was, and keeps at most one row per pair.
   */
  lemma ToggleFlipsOnlyItsPair(rows: seq<Membership>, p: Membership)
    requires NoDuplicates(rows)
    ensures NoDuplicates(ToggleRows(rows, p))
    ensures p in ToggleRows(rows, p) <==> p !in rows
    ensures forall q :: q != p ==> (q in ToggleRows(rows, p) <==> q in rows)
  {
    var r := ToggleRows(rows, p);
    NoDuplicatesCounts(rows);
    if p in rows {
      assert multiset(r) == multiset(rows) - multiset{p};
      assert multiset(r)[p] == 0;
    } else {
      assert multiset(r) == multiset(rows) + multiset{p};
      assert multiset(rows)[p] == 0;
    }
    forall q | q != p ensures q in r <==> q in rows {
      assert multiset(r)[q] == multiset(rows)[q];
      assert q in r <==> multiset(r)[q] > 0;
      assert q in rows <==> multiset(rows)[q] > 0;
    }
    forall q ensures multiset(r)[q] <= 1 {
    }
    NoDuplicatesCounts(r);
  }

  /** Two consecutive toggles of the same pair restore the original membership of every pair. */
  lemma ToggleTwiceRestores(rows: seq<Membership>, p: Membership)
    requires NoDuplicates(rows)
    ensures forall q :: q in ToggleRows(ToggleRows(rows, p), p) <==> q in rows
    ensures p !in rows ==> ToggleRows(ToggleRows(rows, p), p) == rows
  {
    ToggleFlipsOnlyItsPair(rows, p);
    ToggleFlipsOnlyItsPair(ToggleRows(rows, p), p);
    if p !in rows {
      assert rows + [p] == rows[..|rows|] + [p];
      RemoveLast(rows, p);
    }
  }

  /** A toggle whose pair references an existing movie (and user) keeps every row's references. */
  lemma ToggleKeepsReferences(rows: seq<Membership>, p: Membership, movies: seq<MovieRow>, users: seq<UserRow>)
    requires NoDuplicates(rows)
    requires MovieReferences(rows, movies) && HasMovie(movies, p.movieId)
    ensures NoDuplicates(ToggleRows(rows, p))
    ensures MovieReferences(ToggleRows(rows, p), movies)
    ensures UserReferences(rows, users) && HasUser(users, p.userId) ==> UserReferences(ToggleRows(rows, p), users)
  {
    ToggleFlipsOnlyItsPair(rows, p);
    var rows' := ToggleRows(rows, p);
    forall i | 0 <= i < |rows'|
      ensures HasMovie(movies, rows'[i].movieId)
      ensures UserReferences(rows, users) && HasUser(users, p.userId) ==> HasUser(users, rows'[i].userId)
    {
      if rows'[i] != p {
        assert rows'[i] in rows';
        var j :| 0 <= j < |rows| && rows[j] == rows'[i];
      }
    }
  }

  lemma {:induction false} RemoveLast(rows: seq<Membership>, p: Membership)
    requires p !in rows
    ensures RemoveFirst(rows + [p], p) == rows
  {
    if rows != [] {
      assert (rows + [p])[1..] == rows[1..] + [p];
      RemoveLast(rows[1..], p);
    }
  }

  // ---- get_watchlist projection (routes.py:456-471) ----

  /** One view per row whose Movie (looked up by local id) exists, in row order; rows without one are skipped. */
  function Project(movies: seq<MovieRow>, items: seq<Membership>): (views: seq<MovieView>)
    ensures |views| <= |items|
  {
    if items == [] then []
    else
      var rest := Project(movies, items[..|items| - 1]);
      match Lookup(movies, items[|items| - 1].movieId)
      case Some(m) => rest + [View(m)]
      case None => rest
  }

  /** A membership row whose Movie exists. */
  function HasMovieOf(movies: seq<MovieRow>): Membership -> bool {
    (r: Membership) => HasMovie(movies, r.movieId)
  }

  /**
   * Rows without a Movie are skipped and nothing else changes: the listing is the
   * projection of exactly the rows whose Movie exists, in their order, and for those
   * ProjectKeepsEveryRow gives one entry per row.
   */
  lemma {:induction false} ProjectSkipsMissing(movies: seq<MovieRow>, items: seq<Membership>)
    ensures Project(movies, items) == Project(movies, Filter(items, HasMovieOf(movies)))
    ensures MovieReferences(Filter(items, HasMovieOf(movies)), movies)
  {
    var kept := Filter(items, HasMovieOf(movies));
    assert MovieReferences(kept, movies) by {
      forall i | 0 <= i < |kept| ensures HasMovie(movies, kept[i].movieId) {
        assert HasMovieOf(movies)(kept[i]);
      }
    }
    if items != [] {
      var front := items[..|items| - 1];
      var x := items[|items| - 1];
      var keptFront := Filter(front, HasMovieOf(movies));
      ProjectSkipsMissing(movies, front);
      assert kept == if HasMovie(movies, x.movieId) then keptFront + [x] else keptFront;
      if HasMovie(movies, x.movieId) {
        assert (keptFront + [x])[..|keptFront|] == keptFront;
        assert Project(movies, kept) == Project(movies, keptFront) + [View(Lookup(movies, x.movieId).value)];
      } else {
        assert Project(movies, items) == Project(movies, front);
      }
    }
  }

  /** Every entry of the listing shows a Movie of the table. */
  lemma {:induction false} ProjectShowsTableMovies(movies: seq<MovieRow>, items: seq<Membership>)
    ensures forall i :: 0 <= i < |Project(movies, items)| ==>
              exists k :: 0 <= k < |movies| && Project(movies, items)[i] == View(movies[k])
  {
    if items != [] {
      var front := items[..|items| - 1];
      ProjectShowsTableMovies(movies, front);
      var m := Lookup(movies, items[|items| - 1].movieId);
      if m.Some? {
        var k :| 0 <= k < |movies| && movies[k] == m.value;
        var views := Project(movies, items);
        assert views == Project(movies, front) + [View(m.value)];
        forall i | 0 <= i < |views| ensures exists k :: 0 <= k < |movies| && views[i] == View(movies[k]) {
          if i == |views| - 1 {
            assert views[i] == View(movies[k]);
          } else {
            var j :| 0 <= j < |movies| && Project(movies, front)[i] == View(movies[j]);
            assert views[i] == View(movies[j]);
          }
        }
      } else {
        assert Project(movies, items) == Project(movies, front);
      }
    } else {
      assert Project(movies, items) == [];
    }
  }

  /** `Movie.query.get(id)`: the Movie with local id `id`, if any. */
  function Lookup(movies: seq<MovieRow>, id: nat): (r: Option<MovieRow>)
    ensures r.Some? <==> HasMovie(movies, id)
    ensures r.Some? ==> r.value in movies && r.value.id == id
  {
    var r := First(movies, ByLocalId(id));
    assert HasMovie(movies, id) ==> r.Some? by {
      if HasMovie(movies, id) {
        var k :| 0 <= k < |movies| && movies[k].id == id;
        assert ByLocalId(id)(movies[k]);
      }
    }
    r
  }

  /**
   * When every row references an existing Movie, the projection has exactly one
   * entry per row, and entry i shows the movie of row i.
   */
  lemma {:induction false} ProjectKeepsEveryRow(movies: seq<MovieRow>, items: seq<Membership>)
    requires MovieReferences(items, movies)
    ensures |Project(movies, items)| == |items|
    ensures forall i :: 0 <= i < |items| ==>
              Lookup(movies, items[i].movieId).Some? && Project(movies, items)[i] == View(Lookup(movies, items[i].movieId).value)
  {
    if items != [] {
      var n := |items| - 1;
      var front := items[..n];
      assert MovieReferences(front, movies) by {
        forall i | 0 <= i < |front| ensures HasMovie(movies, front[i].movieId) {
          assert front[i] == items[i];
        }
      }
      ProjectKeepsEveryRow(movies, front);
      var m := Lookup(movies, items[n].movieId);
      assert m.Some?;
      var views := Project(movies, items);
      assert views == Project(movies, front) + [View(m.value)];
      forall i | 0 <= i < n
        ensures Lookup(movies, items[i].movieId).Some? && views[i] == View(Lookup(movies, items[i].movieId).value)
      {
        assert items[i] == front[i];
      }
    }
  }

  // ---- get_watched / get_favorites projection with catalog fallback (routes.py:40-66, 246-272) ----

  /** The state of the listing loop: views so far, the Movie table, its next id, and whether a commit failed. */
  datatype Listing = Listing(views: seq<MovieView>, movies: seq<MovieRow>, nextMovieId: nat, failed: bool)

  /**
   * One iteration: look the Movie up by local id; when it is missing, ask the catalog
   * with that same local id and insert what it returns under the id the catalog gives.
   * An insert whose catalog id is already mirrored violates the unique key, the commit
   * raises, and the request ends with a server error.
   */
  function ListStep(acc: Listing, item: Membership, catalog: Catalog): Listing {
    if acc.failed then acc
    else
      match Lookup(acc.movies, item.movieId)
      case Some(m) => acc.(views := acc.views + [View(m)])
      case None =>
        match catalog(item.movieId)
        case None => acc
        case Some(d) =>
          if First(acc.movies, ByTmdbId(d.id)).Some? then acc.(failed := true)
          else
            var m := NewMovie(acc.nextMovieId, d.id, d);
            acc.(views := acc.views + [View(m)], movies := acc.movies + [m], nextMovieId := acc.nextMovieId + 1)
  }

  /** The listing loop over `items`, from an empty listing over the current Movie table. */
  function ListAll(movies: seq<MovieRow>, nextId: nat, items: seq<Membership>, catalog: Catalog): Listing {
    if items == [] then Listing([], movies, nextId, false)
    else ListStep(ListAll(movies, nextId, items[..|items| - 1], catalog), items[|items| - 1], catalog)
  }

  /**
   * One iteration changes nothing after a failed commit; otherwise it appends at most
   * one entry and at most one Movie, and the next id moves with the Movie table.
   */
  lemma ListStepGrows(acc: Listing, item: Membership, catalog: Catalog)
    ensures var r := ListStep(acc, item, catalog);
            && (acc.failed ==> r == acc)
            && acc.views <= r.views && |r.views| <= |acc.views| + 1
            && acc.movies <= r.movies && |r.movies| <= |acc.movies| + 1
            && r.nextMovieId == acc.nextMovieId + (|r.movies| - |acc.movies|)
  {
  }

  /**
   * The whole loop gives at most one entry per row; the Movie table only grows, by at
   * most one Movie per row, and the next id moves with it.
   */
  lemma {:induction false} ListAllGrows(movies: seq<MovieRow>, nextId: nat, items: seq<Membership>, catalog: Catalog)
    ensures var r := ListAll(movies, nextId, items, catalog);
            && |r.views| <= |items|
            && movies <= r.movies && |r.movies| <= |movies| + |items|
            && r.nextMovieId == nextId + (|r.movies| - |movies|)
  {
    if items != [] {
      var front := items[..|items| - 1];
      ListAllGrows(movies, nextId, front, catalog);
      ListStepGrows(ListAll(movies, nextId, front, catalog), items[|items| - 1], catalog);
    }
  }

  /** Once a commit has failed, later rows change nothing: the request has already ended. */
  lemma {:induction false} ListAllStaysFailed(movies: seq<MovieRow>, nextId: nat, items: seq<Membership>, j: nat, catalog: Catalog)
    requires j <= |items|
    requires ListAll(movies, nextId, items[..j], catalog).failed
    ensures ListAll(movies, nextId, items, catalog) == ListAll(movies, nextId, items[..j], catalog)
  {
    if j < |items| {
      var n := |items| - 1;
      assert items[..n][..j] == items[..j];
      ListAllStaysFailed(movies, nextId, items[..n], j, catalog);
    } else {
      assert items[..j] == items;
    }
  }

  /** The listing loop keeps the Movie table's keys unique and only ever appends to it. */
  lemma {:induction false} ListAllKeepsMovieTable(movies: seq<MovieRow>, nextId: nat, items: seq<Membership>, catalog: Catalog)
    requires MovieTable(movies, nextId)
    ensures var l := ListAll(movies, nextId, items, catalog);
            MovieTable(l.movies, l.nextMovieId) && movies <= l.movies && nextId <= l.nextMovieId
  {
    if items != [] {
      var n := |items| - 1;
      ListAllKeepsMovieTable(movies, nextId, items[..n], catalog);
      var acc := ListAll(movies, nextId, items[..n], catalog);
      var l := ListStep(acc, items[n], catalog);
      if !acc.failed && Lookup(acc.movies, items[n].movieId).None? && catalog(items[n].movieId).Some? {
        var d := catalog(items[n].movieId).value;
        if First(acc.movies, ByTmdbId(d.id)).None? {
          var ms := l.movies;
          assert ms == acc.movies + [NewMovie(acc.nextMovieId, d.id, d)];
          forall i, j | 0 <= i < j < |ms| ensures ms[i].tmdbId != ms[j].tmdbId && ms[i].id != ms[j].id {
            if j == |ms| - 1 {
              assert !ByTmdbId(d.id)(acc.movies[i]);
            }
          }
        }
      }
    }
  }

  /**
   * While every row references an existing Movie the catalog fallback never runs:
   * the listing inserts nothing, does not fail, and equals the plain projection.
   */
  lemma {:induction false} FallbackUnusedWhenReferenced(movies: seq<MovieRow>, nextId: nat, items: seq<Membership>, catalog: Catalog)
    requires MovieReferences(items, movies)
    ensures ListAll(movies, nextId, items, catalog) == Listing(Project(movies, items), movies, nextId, false)
  {
    if items != [] {
      var n := |items| - 1;
      assert MovieReferences(items[..n], movies) by {
        forall i | 0 <= i < n ensures HasMovie(movies, items[..n][i].movieId) {
          assert items[..n][i] == items[i];
        }
      }
      FallbackUnusedWhenReferenced(movies, nextId, items[..n], catalog);
      assert HasMovie(movies, items[n].movieId);
    }
  }

  // ---- get_profile (routes.py:476-486) ----

  /** `User.query.get(id)`: the User with id `id`, if any. */
  function FindUser(users: seq<UserRow>, id: nat): (r: Option<UserRow>)
    ensures r.Some? <==> HasUser(users, id)
    ensures r.Some? ==> r.value in users && r.value.id == id
  {
    var r := First(users, ByUserId(id));
    assert HasUser(users, id) ==> r.Some? by {
      if HasUser(users, id) {
        var k :| 0 <= k < |users| && users[k].id == id;
        assert ByUserId(id)(users[k]);
      }
    }
    r
  }

  datatype ProfileView = ProfileView(id: nat, username: string, email: string, watchlistCount: nat, ratingsCount: nat)

  function Profile(users: seq<UserRow>, watchlist: seq<Membership>, ratings: seq<RatingRow>, userId: nat): (r: Result<ProfileView, ApiError>)
    ensures r.Failure? <==> !HasUser(users, userId)
    ensures r.Failure? ==> r.error == UserNotFound
    ensures r.Success? ==> r.value.id == userId
    ensures r.Success? ==> FindUser(users, userId).Some?
                           && r.value.username == FindUser(users, userId).value.username
                           && r.value.email == FindUser(users, userId).value.email
    ensures r.Success? ==> r.value.watchlistCount == |Filter(watchlist, OfUser(userId))|
                           && r.value.ratingsCount == |Filter(ratings, RatingOfUser(userId))|
  {
    match FindUser(users, userId)
    case None => Failure(UserNotFound)
    case Some(u) =>
      Success(ProfileView(u.id, u.username, u.email,
                          |Filter(watchlist, OfUser(userId))|, |Filter(ratings, RatingOfUser(userId))|))
  }

  /** The two counts of a profile are the numbers of the user's rows in the watchlist and rating tables. */
  lemma ProfileCounts(users: seq<UserRow>, watchlist: seq<Membership>, ratings: seq<RatingRow>, userId: nat)
    requires HasUser(users, userId)
    ensures Profile(users, watchlist, ratings, userId).Success?
    ensures Profile(users, watchlist, ratings, userId).value.watchlistCount
            == |set i | 0 <= i < |watchlist| && watchlist[i].userId == userId|
    ensures Profile(users, watchlist, ratings, userId).value.ratingsCount
            == |set i | 0 <= i < |ratings| && ratings[i].userId == userId|
  {
    FilterCount(watchlist, OfUser(userId));
    FilterCount(ratings, RatingOfUser(userId));
    assert MatchingPositions(watchlist, OfUser(userId)) == set i | 0 <= i < |watchlist| && watchlist[i].userId == userId;
    assert MatchingPositions(ratings, RatingOfUser(userId)) == set i | 0 <= i < |ratings| && ratings[i].userId == userId;
  }

  /** The profile's `watchlist_count` is the number of entries `get_watchlist` returns for the same user. */
  lemma WatchlistCountMatchesListing(users: seq<UserRow>, movies: seq<MovieRow>, watchlist: seq<Membership>,
                                     ratings: seq<RatingRow>, userId: nat)
    requires MovieReferences(watchlist, movies)
    requires HasUser(users, userId)
    ensures Profile(users, watchlist, ratings, userId).Success?
    ensures Profile(users, watchlist, ratings, userId).value.watchlistCount
            == |Project(movies, Filter(watchlist, OfUser(userId)))|
  {
    var items := Filter(watchlist, OfUser(userId));
    assert MovieReferences(items, movies) by {
      forall i | 0 <= i < |items| ensures HasMovie(movies, items[i].movieId) {
        var k :| 0 <= k < |watchlist| && watchlist[k] == items[i];
      }
    }
    ProjectKeepsEveryRow(movies, items);
  }
}
