/**
 * The database the route handlers of backend/routes.py read and write, as one
 * object whose fields are its tables. Each table is a sequence of rows in
 * primary-key order and an inserted row goes at the end. The model takes this
 * as the order `.all()` returns rows in; the queries have no `order_by`, so the
 * database itself promises no order. Each method is one request, run as one atomic step, and
 * is tied to the step function of module Backend that says what it does.
 */
module Store {
  import opened Wrappers
  import opened Query
  import opened Models
  import opened Interactions
  import opened Auth
  import opened Backend

  class Database {
    /** The password hashing scheme the `User` model uses. */
    const kdf: Kdf

    var users: seq<UserRow>
    var nextUserId: nat
    var movies: seq<MovieRow>
    var nextMovieId: nat
    var ratings: seq<RatingRow>
    var watchlist: seq<Membership>
    var watched: seq<Membership>
    var favorites: seq<Membership>

    /** The tables as one value. */
    function Snapshot(): Db
      reads this
    {
      Db(users, nextUserId, movies, nextMovieId, ratings, watchlist, watched, favorites)
    }

    ghost predicate Valid()
      reads this
    {
      Snapshot().Valid()
    }

    /** An empty database (`db.create_all()`). */
    constructor (kdf: Kdf)
      ensures Valid() && this.kdf == kdf && Snapshot() == Empty()
    {
      this.kdf := kdf;
      users, nextUserId := [], 1;
      movies, nextMovieId := [], 1;
      ratings := [];
      watchlist, watched, favorites := [], [], [];
    }

    /** Get-or-create the Movie mirroring `tmdbId`, then toggle the (user, movie) row of table `kind`. */
    method Toggle(kind: ListKind, userId: nat, tmdbId: int, catalog: Catalog) returns (resp: ToggleResponse)
      modifies this
      ensures (Snapshot(), resp) == ToggleStep(old(Snapshot()), kind, userId, tmdbId, catalog)
    {
      ghost var d := Snapshot();
      ghost var mr := MirrorMovie(d.movies, d.nextMovieId, tmdbId, catalog);
      var movie := GetOrCreateMovie(tmdbId, catalog);
      if movie.None? {
        return Rejected(MovieNotFound);
      }
      ghost var d1 := Snapshot();
      assert d1 == d.(movies := Mirrored(d.movies, mr),
                      nextMovieId := if mr.Created? then d.nextMovieId + 1 else d.nextMovieId);
      var added := FlipRow(kind, Membership(userId, movie.value.id));
      assert Snapshot() == d1.WithList(kind, ToggleRows(d.List(kind), Membership(userId, mr.movie.id)));
      resp := Toggled(added);
    }

    /** The get-or-create step shared by the three toggles: find the mirror by catalog id, or insert it. */
    method GetOrCreateMovie(tmdbId: int, catalog: Catalog) returns (movie: Option<MovieRow>)
      modifies this`movies, this`nextMovieId
      ensures var mr := MirrorMovie(old(movies), old(nextMovieId), tmdbId, catalog);
              && movie == (if mr.NotInCatalog? then None else Some(mr.movie))
              && movies == Mirrored(old(movies), mr)
              && nextMovieId == (if mr.Created? then old(nextMovieId) + 1 else old(nextMovieId))
    {
      movie := First(movies, ByTmdbId(tmdbId));
      if movie.None? {
        var data := catalog(tmdbId);
        if data.Some? {
          movie := Some(NewMovie(nextMovieId, tmdbId, data.value));
          movies := movies + [movie.value];
          nextMovieId := nextMovieId + 1;
        }
      }
    }

    /** The membership step: delete the (user, movie) row when present, else insert it; `added` tells which. */
    method FlipRow(kind: ListKind, p: Membership) returns (added: bool)
      modifies this`watched, this`favorites, this`watchlist
      ensures added == (p !in old(Snapshot().List(kind)))
      ensures Snapshot() == old(Snapshot()).WithList(kind, ToggleRows(old(Snapshot().List(kind)), p))
    {
      var rows := if kind == Watched then watched else if kind == Favorites then favorites else watchlist;
      added := p !in rows;
      if added {
        rows := rows + [p];
      } else {
        rows := RemoveFirst(rows, p);
      }
      match kind {
        case Watched => watched := rows;
        case Favorites => favorites := rows;
        case Watchlist => watchlist := rows;
      }
    }

    /** `toggle_watched` (POST /watched with body `{movie_id}`). */
    method ToggleWatched(userId: nat, movieId: Option<int>, catalog: Catalog) returns (resp: ToggleResponse)
      requires Valid()
      modifies this
      ensures Valid()
      ensures (Snapshot(), resp) == ToggleByBody(old(Snapshot()), Watched, userId, movieId, catalog)
    {
      if !Truthy(movieId) {
        return Rejected(MissingMovieId);
      }
      ToggleKeepsValid(Snapshot(), Watched, userId, movieId.value, catalog);
      resp := Toggle(Watched, userId, movieId.value, catalog);
    }

    /** `toggle_favorite` (POST /favorites with body `{movie_id}`). */
    method ToggleFavorite(userId: nat, movieId: Option<int>, catalog: Catalog) returns (resp: ToggleResponse)
      requires Valid()
      modifies this
      ensures Valid()
      ensures (Snapshot(), resp) == ToggleByBody(old(Snapshot()), Favorites, userId, movieId, catalog)
    {
      if !Truthy(movieId) {
        return Rejected(MissingMovieId);
      }
      ToggleKeepsValid(Snapshot(), Favorites, userId, movieId.value, catalog);
      resp := Toggle(Favorites, userId, movieId.value, catalog);
    }

    /** `toggle_watchlist` (POST /<movie_id>/watchlist). */
    method ToggleWatchlist(userId: nat, movieId: int, catalog: Catalog) returns (resp: ToggleResponse)
      requires Valid()
      modifies this
      ensures Valid()
      ensures (Snapshot(), resp) == ToggleWatchlistStep(old(Snapshot()), userId, movieId, catalog)
    {
      if FindUser(users, userId).None? {
        return Rejected(UserNotFound);
      }
      ToggleKeepsValid(Snapshot(), Watchlist, userId, movieId, catalog);
      resp := Toggle(Watchlist, userId, movieId, catalog);
    }

    /** `register`: `salt` stands for the randomness of the password hash. */
    method Register(req: RegisterRequest, salt: string) returns (r: Result<UserView, AuthError>)
      requires Valid()
      modifies this
      ensures Valid()
      ensures (Snapshot(), r) == RegisterStep(old(Snapshot()), kdf, req, salt)
    {
      RegisterKeepsValid(Snapshot(), kdf, req, salt);
      if req.username.None? || req.password.None? || req.email.None? {
        return Failure(MissingFields);
      }
      if First(users, ByUsername(req.username.value)).Some? {
        return Failure(UsernameTaken);
      }
      if First(users, ByEmail(req.email.value)).Some? {
        return Failure(EmailTaken);
      }
      var user := UserRow(nextUserId, req.username.value, req.email.value, PasswordHash("", ""));
      user := user.SetPassword(kdf, salt, req.password.value);
      users := users + [user];
      nextUserId := nextUserId + 1;
      r := Success(UserView(user.id, user.username, user.email));
    }

    /** `get_watchlist`: 404 for an unknown user, else one entry per watchlist row of that user whose Movie exists. */
    method GetWatchlist(userId: nat) returns (r: Result<seq<MovieView>, ApiError>)
      ensures !HasUser(users, userId) ==> r == Failure(UserNotFound)
      ensures HasUser(users, userId) ==> r == Success(Project(movies, Filter(watchlist, OfUser(userId))))
    {
      if FindUser(users, userId).None? {
        return Failure(UserNotFound);
      }
      var items := Filter(watchlist, OfUser(userId));
      var views: seq<MovieView> := [];
      var i := 0;
      while i < |items|
        invariant 0 <= i <= |items|
        invariant views == Project(movies, items[..i])
      {
        assert items[..i + 1][..i] == items[..i];
        var movie := Lookup(movies, items[i].movieId);
        if movie.Some? {
          views := views + [View(movie.value)];
        }
        i := i + 1;
      }
      assert items[..|items|] == items;
      r := Success(views);
    }

    /**
     * `get_watched` and `get_favorites`: walk the user's rows of table `kind`, looking
     * each Movie up by local id and, on a miss, inserting whatever the catalog returns
     * for that id. A duplicate catalog id makes the commit fail with a server error;
     * inserts committed before it stay.
     */
    method ListWithFallback(kind: ListKind, userId: nat, catalog: Catalog) returns (r: Result<seq<MovieView>, ApiError>)
      requires kind != Watchlist
      modifies this
      ensures (Snapshot(), r) == ListStepDb(old(Snapshot()), kind, userId, catalog)
      ensures old(Valid()) ==> Valid()
    {
      ghost var d := Snapshot();
      if d.Tables() {
        ListKeepsValid(d, kind, userId, catalog);
      }
      var items := Filter(if kind == Watched then watched else favorites, OfUser(userId));
      var views, failed := ListRows(items, catalog);
      assert Snapshot() == ListStepDb(d, kind, userId, catalog).0;
      r := if failed then Failure(IntegrityError) else Success(views);
    }

    /** The loop of the two listings: it touches only the Movie table. */
    method ListRows(items: seq<Membership>, catalog: Catalog) returns (views: seq<MovieView>, failed: bool)
      modifies this`movies, this`nextMovieId
      ensures Listing(views, movies, nextMovieId, failed) == ListAll(old(movies), old(nextMovieId), items, catalog)
    {
      views, failed := [], false;
      var i := 0;
      while i < |items|
        invariant 0 <= i <= |items|
        invariant Listing(views, movies, nextMovieId, false) == ListAll(old(movies), old(nextMovieId), items[..i], catalog)
      {
        assert items[..i + 1][..i] == items[..i];
        var movie := Lookup(movies, items[i].movieId);
        if movie.None? {
          var data := catalog(items[i].movieId);
          if data.Some? {
            if First(movies, ByTmdbId(data.value.id)).Some? {
              ListAllStaysFailed(old(movies), old(nextMovieId), items, i + 1, catalog);
              assert items[..|items|] == items;
              return views, true;
            }
            var m := NewMovie(nextMovieId, data.value.id, data.value);
            movies := movies + [m];
            nextMovieId := nextMovieId + 1;
            movie := Some(m);
          }
        }
        if movie.Some? {
          views := views + [View(movie.value)];
        }
        i := i + 1;
      }
      assert items[..|items|] == items;
    }
  }
}
