/**
 * frontend/src/stores/movieStatus.js: the client's cache of which movies the user
 * has marked as favourite, on the watchlist and watched, as three sets of TMDB
 * ids, plus a flag saying whether they were loaded from the server.
 */
module MovieStatus {
  import opened Wrappers

  /** The `type` argument of `updateMovieStatus`: the name of one of the three sets. */
  datatype StatusType = Favorites | Watchlist | Watched

  /** A movie as the server lists it: `tmdb_id` may be missing or 0, `id` is the local id. */
  datatype MovieRef = MovieRef(tmdbId: Option<int>, id: int)

  /** `movie.tmdb_id || movie.id`: the catalog id when it is truthy, else the local id. */
  function Key(m: MovieRef): (k: int)
    ensures m.tmdbId.Some? && m.tmdbId.value != 0 ==> k == m.tmdbId.value
    ensures m.tmdbId.None? || m.tmdbId.value == 0 ==> k == m.id
  {
    if m.tmdbId.Some? && m.tmdbId.value != 0 then m.tmdbId.value else m.id
  }

  /** The ids the loop over a list adds: one per movie of the list, and no other. */
  function Keys(movies: seq<MovieRef>): (r: set<int>)
    ensures forall i :: 0 <= i < |movies| ==> Key(movies[i]) in r
    ensures forall k :: k in r ==> exists i :: 0 <= i < |movies| && Key(movies[i]) == k
  {
    if movies == [] then {}
    else
      var r := Keys(movies[..|movies| - 1]) + {Key(movies[|movies| - 1])};
      assert forall k :: k in r ==> exists i :: 0 <= i < |movies| && Key(movies[i]) == k by {
        forall k | k in r ensures exists i :: 0 <= i < |movies| && Key(movies[i]) == k {
          if k != Key(movies[|movies| - 1]) {
            var i :| 0 <= i < |movies| - 1 && Key(movies[..|movies| - 1][i]) == k;
            assert movies[i] == movies[..|movies| - 1][i];
          }
        }
      }
      r
  }

  /** `add(id)` when `isActive`, else `delete(id)`. */
  function Updated(s: set<int>, id: int, isActive: bool): (r: set<int>)
    ensures id in r <==> isActive
    ensures forall x :: x != id ==> (x in r <==> x in s)
  {
    if isActive then s + {id} else s - {id}
  }

  /** The same update twice leaves the set as the first one did. */
  lemma UpdatedIdempotent(s: set<int>, id: int, isActive: bool)
    ensures Updated(Updated(s, id, isActive), id, isActive) == Updated(s, id, isActive)
  {
  }

  /** Two updates of different ids commute. */
  lemma UpdatesCommute(s: set<int>, a: int, x: bool, b: int, y: bool)
    requires a != b
    ensures Updated(Updated(s, a, x), b, y) == Updated(Updated(s, b, y), a, x)
  {
  }

  class StatusStore {
    var favorites: set<int>
    var watchlist: set<int>
    var watched: set<int>
    var initialized: bool

    /** The module's initial state: three empty sets, not yet initialised. */
    constructor ()
      ensures favorites == {} && watchlist == {} && watched == {} && !initialized
    {
      favorites, watchlist, watched := {}, {}, {};
      initialized := false;
    }

    /** `movieStatus[type]`. */
    function Of(t: StatusType): set<int>
      reads this
    {
      match t
      case Favorites => favorites
      case Watchlist => watchlist
      case Watched => watched
    }

    /** `updateMovieStatus`: only the named set changes, and only at `movieId`. */
    method Update(movieId: int, t: StatusType, isActive: bool)
      modifies this
      ensures Of(t) == Updated(old(Of(t)), movieId, isActive)
      ensures forall u :: u != t ==> Of(u) == old(Of(u))
      ensures initialized == old(initialized)
    {
      match t {
        case Favorites => favorites := Updated(favorites, movieId, isActive);
        case Watchlist => watchlist := Updated(watchlist, movieId, isActive);
        case Watched => watched := Updated(watched, movieId, isActive);
      }
    }

    /** `isMovieFavorite`. */
    function IsFavorite(movieId: int): (r: bool)
      reads this
      ensures r <==> movieId in Of(Favorites)
    {
      movieId in favorites
    }

    /** `isMovieInWatchlist`. */
    function IsInWatchlist(movieId: int): (r: bool)
      reads this
      ensures r <==> movieId in Of(Watchlist)
    {
      movieId in watchlist
    }

    /** `isMovieWatched`. */
    function IsWatched(movieId: int): (r: bool)
      reads this
      ensures r <==> movieId in Of(Watched)
    {
      movieId in watched
    }

    /** `isMovieStatusInitialized`. */
    function IsInitialized(): (r: bool)
      reads this
      ensures r <==> initialized
    {
      initialized
    }

    /** One `forEach` of `initializeMovieStatus`: add the key of every movie of the list to set `t`. */
    method AddKeys(t: StatusType, movies: seq<MovieRef>)
      modifies this
      ensures Of(t) == old(Of(t)) + Keys(movies)
      ensures forall u :: u != t ==> Of(u) == old(Of(u))
      ensures initialized == old(initialized)
    {
      var i := 0;
      while i < |movies|
        invariant 0 <= i <= |movies|
        invariant Of(t) == old(Of(t)) + Keys(movies[..i])
        invariant forall u :: u != t ==> Of(u) == old(Of(u))
        invariant initialized == old(initialized)
      {
        assert movies[..i + 1][..i] == movies[..i];
        Update(Key(movies[i]), t, true);
        i := i + 1;
      }
      assert movies[..|movies|] == movies;
    }

    /** `initializeMovieStatus`: the old contents go; each set holds exactly the keys of its list. */
    method Initialize(favoriteMovies: seq<MovieRef>, watchlistMovies: seq<MovieRef>, watchedMovies: seq<MovieRef>)
      modifies this
      ensures favorites == Keys(favoriteMovies)
      ensures watchlist == Keys(watchlistMovies)
      ensures watched == Keys(watchedMovies)
      ensures initialized
    {
      favorites, watchlist, watched := {}, {}, {};
      AddKeys(Favorites, favoriteMovies);
      AddKeys(Watchlist, watchlistMovies);
      AddKeys(Watched, watchedMovies);
      initialized := true;
    }

    /** `clearMovieStatus` (on logout). */
    method Clear()
      modifies this
      ensures favorites == {} && watchlist == {} && watched == {}
      ensures !initialized
    {
      favorites, watchlist, watched := {}, {}, {};
      initialized := false;
    }
  }
}
