/**
 * The whole backend database as one value, the consistency it keeps, and the
 * request steps of backend/routes.py that change it, as functions from the
 * database before the request to the database after it and the response.
 * The Database class in store.dfy performs these steps in place.
 */
module Backend {
  import opened Wrappers
  import opened Query
  import opened Models
  import opened Interactions
  import opened Auth

  datatype Db = Db(users: seq<UserRow>, nextUserId: nat,
                   movies: seq<MovieRow>, nextMovieId: nat,
                   ratings: seq<RatingRow>,
                   watchlist: seq<Membership>, watched: seq<Membership>, favorites: seq<Membership>)
  {
    /** The membership table of one kind. */
    function List(kind: ListKind): seq<Membership> {
      match kind
      case Watched => watched
      case Favorites => favorites
      case Watchlist => watchlist
    }

    /** This database with the membership table of one kind replaced. */
    function WithList(kind: ListKind, rows: seq<Membership>): (d: Db)
      ensures d.List(kind) == rows
      ensures forall k :: k != kind ==> d.List(k) == List(k)
      ensures d.users == users && d.nextUserId == nextUserId && d.movies == movies
              && d.nextMovieId == nextMovieId && d.ratings == ratings
    {
      match kind
      case Watched => this.(watched := rows)
      case Favorites => this.(favorites := rows)
      case Watchlist => this.(watchlist := rows)
    }

    /** Primary keys and unique constraints of every table. */
    ghost predicate Tables() {
      && UserTable(users, nextUserId)
      && MovieTable(movies, nextMovieId)
      && RatingTable(ratings)
      && NoDuplicates(watchlist) && NoDuplicates(watched) && NoDuplicates(favorites)
    }

    /** Foreign keys: ratings and watchlist rows name an existing user; every interaction row names an existing movie. */
    ghost predicate References() {
      && RatingReferences(ratings, users, movies)
      && UserReferences(watchlist, users)
      && MovieReferences(watchlist, movies)
      && MovieReferences(watched, movies)
      && MovieReferences(favorites, movies)
    }

    ghost predicate Valid() {
      Tables() && References()
    }
  }

  /** The empty database `db.create_all()` makes. */
  function Empty(): (d: Db)
    ensures d.Valid()
  {
    Db([], 1, [], 1, [], [], [], [])
  }

  /** When the Movie and User tables only grow, every reference stays valid. */
  lemma ReferencesGrowDb(d: Db, d': Db)
    requires d.References()
    requires d.users <= d'.users && d.movies <= d'.movies
    requires d'.ratings == d.ratings && d'.watchlist == d.watchlist && d'.watched == d.watched && d'.favorites == d.favorites
    ensures d'.References()
  {
    ReferencesGrow(d.ratings, d.watchlist, d.users, d'.users, d.movies, d'.movies);
    ReferencesGrow(d.ratings, d.watched, d.users, d'.users, d.movies, d'.movies);
    ReferencesGrow(d.ratings, d.favorites, d.users, d'.users, d.movies, d'.movies);
  }

  // ---- Toggle endpoints (routes.py:77-109, 283-316, 411-446) ----

  /** The answer of a toggle endpoint: whether the movie is now on the list, or an error. */
  datatype ToggleResponse = Toggled(member: bool) | Rejected(error: ApiError)

  /** `if not movie_id`: a missing, null or zero `movie_id` is rejected. */
  predicate Truthy(movieId: Option<int>) {
    movieId.Some? && movieId.value != 0
  }

  /**
   * Get-or-create the Movie mirroring `tmdbId`, then flip the (user, movie) row of
   * table `kind`. When the catalog does not know the movie, nothing changes.
   */
  function ToggleStep(d: Db, kind: ListKind, userId: nat, tmdbId: int, catalog: Catalog): (r: (Db, ToggleResponse))
    ensures r.1 == Rejected(MovieNotFound) <==> MirrorMovie(d.movies, d.nextMovieId, tmdbId, catalog).NotInCatalog?
    ensures r.1.Rejected? ==> r.1.error == MovieNotFound && r.0 == d
    ensures r.0.users == d.users && r.0.nextUserId == d.nextUserId && r.0.ratings == d.ratings
    ensures d.movies <= r.0.movies && |r.0.movies| <= |d.movies| + 1
    ensures forall k :: k != kind ==> r.0.List(k) == d.List(k)
  {
    var mr := MirrorMovie(d.movies, d.nextMovieId, tmdbId, catalog);
    if mr.NotInCatalog? then (d, Rejected(MovieNotFound))
    else
      var d1 := d.(movies := Mirrored(d.movies, mr),
                   nextMovieId := if mr.Created? then d.nextMovieId + 1 else d.nextMovieId);
      var p := Membership(userId, mr.movie.id);
      (d1.WithList(kind, ToggleRows(d.List(kind), p)), Toggled(p !in d.List(kind)))
  }

  /** The row the toggle flips, once the mirror step has found or created the Movie. */
  function ToggledPair(d: Db, userId: nat, tmdbId: int, catalog: Catalog): Membership
    requires !MirrorMovie(d.movies, d.nextMovieId, tmdbId, catalog).NotInCatalog?
  {
    Membership(userId, MirrorMovie(d.movies, d.nextMovieId, tmdbId, catalog).movie.id)
  }

  /** `toggle_watched` and `toggle_favorite`: a falsy `movie_id` is a 400 and changes nothing. */
  function ToggleByBody(d: Db, kind: ListKind, userId: nat, movieId: Option<int>, catalog: Catalog): (r: (Db, ToggleResponse))
    ensures !Truthy(movieId) ==> r == (d, Rejected(MissingMovieId))
    ensures Truthy(movieId) ==> r == ToggleStep(d, kind, userId, movieId.value, catalog)
  {
    if !Truthy(movieId) then (d, Rejected(MissingMovieId)) else ToggleStep(d, kind, userId, movieId.value, catalog)
  }

  /** `toggle_watchlist`: an unknown user is a 404 and changes nothing. */
  function ToggleWatchlistStep(d: Db, userId: nat, movieId: int, catalog: Catalog): (r: (Db, ToggleResponse))
    ensures !HasUser(d.users, userId) ==> r == (d, Rejected(UserNotFound))
    ensures HasUser(d.users, userId) ==> r == ToggleStep(d, Watchlist, userId, movieId, catalog)
  {
    if FindUser(d.users, userId).None? then (d, Rejected(UserNotFound))
    else ToggleStep(d, Watchlist, userId, movieId, catalog)
  }

  /**
   * A toggle keeps the database consistent, provided that a watchlist row is only
   * added for an existing user (what `get_or_404` guarantees).
   */
  lemma ToggleKeepsValid(d: Db, kind: ListKind, userId: nat, tmdbId: int, catalog: Catalog)
    requires d.Valid()
    requires kind == Watchlist ==> HasUser(d.users, userId)
    ensures ToggleStep(d, kind, userId, tmdbId, catalog).0.Valid()
  {
    var mr := MirrorMovie(d.movies, d.nextMovieId, tmdbId, catalog);
    if !mr.NotInCatalog? {
      MirrorKeepsMovieTable(d.movies, d.nextMovieId, tmdbId, catalog);
      var d1 := d.(movies := Mirrored(d.movies, mr),
                   nextMovieId := if mr.Created? then d.nextMovieId + 1 else d.nextMovieId);
      ReferencesGrowDb(d, d1);
      assert d1.Valid();
      var p := Membership(userId, mr.movie.id);
      assert HasMovie(d1.movies, p.movieId) by {
        var k :| 0 <= k < |d1.movies| && d1.movies[k] == mr.movie;
      }
      ToggleKeepsReferences(d1.List(kind), p, d1.movies, d1.users);
      WithListKeepsValid(d1, kind, ToggleRows(d1.List(kind), p));
    }
  }

  /** Replacing one membership table by a duplicate-free table with valid references keeps the database consistent. */
  lemma WithListKeepsValid(d: Db, kind: ListKind, rows: seq<Membership>)
    requires d.Valid()
    requires NoDuplicates(rows) && MovieReferences(rows, d.movies)
    requires kind == Watchlist ==> UserReferences(rows, d.users)
    ensures d.WithList(kind, rows).Valid()
  {
  }

  /**
   * A successful toggle flips the membership of exactly its own (user, movie) pair
   * in its own table, reports the new membership, and afterwards exactly one Movie
   * carries the requested catalog id.
   */
  lemma ToggleFlipsOnlyTarget(d: Db, kind: ListKind, userId: nat, tmdbId: int, catalog: Catalog)
    requires d.Valid()
    requires ToggleStep(d, kind, userId, tmdbId, catalog).1.Toggled?
    ensures var (d', resp) := ToggleStep(d, kind, userId, tmdbId, catalog);
            var p := ToggledPair(d, userId, tmdbId, catalog);
            && (p in d'.List(kind) <==> p !in d.List(kind))
            && resp.member == (p in d'.List(kind))
            && (forall q :: q != p ==> (q in d'.List(kind) <==> q in d.List(kind)))
            && (forall i :: 0 <= i < |d'.movies| ==> (d'.movies[i].tmdbId == tmdbId <==> d'.movies[i].id == p.movieId))
  {
    var mr := MirrorMovie(d.movies, d.nextMovieId, tmdbId, catalog);
    MirrorKeepsMovieTable(d.movies, d.nextMovieId, tmdbId, catalog);
    ToggleFlipsOnlyItsPair(d.List(kind), Membership(userId, mr.movie.id));
    var ms := Mirrored(d.movies, mr);
    var n := if mr.Created? then d.nextMovieId + 1 else d.nextMovieId;
    forall i | 0 <= i < |ms| ensures ms[i].tmdbId == tmdbId <==> ms[i].id == mr.movie.id {
      var k :| 0 <= k < |ms| && ms[k] == mr.movie;
      assert MovieTable(ms, n);
    }
  }

  /**
   * Toggling the same (user, movie) twice restores the original membership of every
   * pair in every table; the Movie mirrored by the first toggle stays.
   */
  lemma ToggleTwiceRestoresMembership(d: Db, kind: ListKind, userId: nat, tmdbId: int, catalog: Catalog)
    requires d.Valid()
    requires ToggleStep(d, kind, userId, tmdbId, catalog).1.Toggled?
    ensures var d1 := ToggleStep(d, kind, userId, tmdbId, catalog).0;
            var (d2, resp) := ToggleStep(d1, kind, userId, tmdbId, catalog);
            && resp.Toggled? && d2.movies == d1.movies
            && (forall k, q :: q in d2.List(k) <==> q in d.List(k))
  {
    var mr := MirrorMovie(d.movies, d.nextMovieId, tmdbId, catalog);
    var d1 := ToggleStep(d, kind, userId, tmdbId, catalog).0;
    MirrorKeepsMovieTable(d.movies, d.nextMovieId, tmdbId, catalog);
    var mr1 := MirrorMovie(d1.movies, d1.nextMovieId, tmdbId, catalog);
    assert mr.movie in d1.movies;
    assert mr1.Reused?;
    assert mr1.movie == mr.movie by {
      var i :| 0 <= i < |d1.movies| && d1.movies[i] == mr1.movie;
      var k :| 0 <= k < |d1.movies| && d1.movies[k] == mr.movie;
    }
    var p := Membership(userId, mr.movie.id);
    assert d1.List(kind) == ToggleRows(d.List(kind), p);
    var d2 := ToggleStep(d1, kind, userId, tmdbId, catalog).0;
    assert d2.List(kind) == ToggleRows(ToggleRows(d.List(kind), p), p);
    ToggleTwiceRestores(d.List(kind), p);
    forall k, q ensures q in d2.List(k) <==> q in d.List(k) {
      if k != kind {
        assert d2.List(k) == d1.List(k) == d.List(k);
      }
    }
  }

  // ---- register (routes.py:353-384) ----

  /**
   * `register`: the guards in order, then exactly one User row appended.
   * `salt` stands for the randomness of the password hash.
   */
  function RegisterStep(d: Db, kdf: Kdf, req: RegisterRequest, salt: string): (r: (Db, Result<UserView, AuthError>))
    ensures RegisterCheck(d.users, req).Some? ==> r == (d, Failure(RegisterCheck(d.users, req).value))
    ensures RegisterCheck(d.users, req).None? ==>
              && r.0 == d.(users := d.users + [NewUser(d.nextUserId, req, kdf, salt)], nextUserId := d.nextUserId + 1)
              && r.1 == Success(UserView(d.nextUserId, req.username.value, req.email.value))
  {
    match RegisterCheck(d.users, req)
    case Some(e) => (d, Failure(e))
    case None =>
      var u := NewUser(d.nextUserId, req, kdf, salt);
      (d.(users := d.users + [u], nextUserId := d.nextUserId + 1), Success(ViewOf(u)))
  }

  lemma RegisterKeepsValid(d: Db, kdf: Kdf, req: RegisterRequest, salt: string)
    requires d.Valid()
    ensures RegisterStep(d, kdf, req, salt).0.Valid()
  {
    if RegisterCheck(d.users, req).None? {
      RegisterKeepsUserTable(d.users, d.nextUserId, req, kdf, salt);
      ReferencesGrowDb(d, RegisterStep(d, kdf, req, salt).0);
    }
  }

  // ---- get_watched / get_favorites (routes.py:34-66, 239-272) ----

  /** The listing with catalog fallback over the user's rows of table `kind`, and the database it leaves. */
  function ListStepDb(d: Db, kind: ListKind, userId: nat, catalog: Catalog): (r: (Db, Result<seq<MovieView>, ApiError>))
    ensures r.0.users == d.users && r.0.ratings == d.ratings && r.0.nextUserId == d.nextUserId
    ensures forall k :: r.0.List(k) == d.List(k)
  {
    var l := ListAll(d.movies, d.nextMovieId, Filter(d.List(kind), OfUser(userId)), catalog);
    (d.(movies := l.movies, nextMovieId := l.nextMovieId),
     if l.failed then Failure(IntegrityError) else Success(l.views))
  }

  /** The listing keeps the tables' keys unique and, where references held before, they still hold. */
  lemma ListKeepsValid(d: Db, kind: ListKind, userId: nat, catalog: Catalog)
    requires d.Tables()
    ensures ListStepDb(d, kind, userId, catalog).0.Tables()
    ensures d.References() ==> ListStepDb(d, kind, userId, catalog).0.References()
  {
    var items := Filter(d.List(kind), OfUser(userId));
    ListAllKeepsMovieTable(d.movies, d.nextMovieId, items, catalog);
    if d.References() {
      ReferencesGrowDb(d, ListStepDb(d, kind, userId, catalog).0);
    }
  }

  /** On a consistent database the listing changes nothing and returns one entry per row of the user. */
  lemma ListOnValidIsReadOnly(d: Db, kind: ListKind, userId: nat, catalog: Catalog)
    requires d.Valid()
    ensures var (d', r) := ListStepDb(d, kind, userId, catalog);
            d' == d && r.Success? && |r.value| == |Filter(d.List(kind), OfUser(userId))|
  {
    var items := Filter(d.List(kind), OfUser(userId));
    assert MovieReferences(items, d.movies) by {
      forall i | 0 <= i < |items| ensures HasMovie(d.movies, items[i].movieId) {
        var k :| 0 <= k < |d.List(kind)| && d.List(kind)[k] == items[i];
      }
    }
    FallbackUnusedWhenReferenced(d.movies, d.nextMovieId, items, catalog);
    ProjectKeepsEveryRow(d.movies, items);
  }
}
