/**
 * frontend/src/stores/movieRatings.js: the client's cache of the user's ratings,
 * a map from TMDB id to rating, plus a flag saying whether it was loaded from
 * the server. Ratings are JavaScript numbers, modelled as `real`.
 */
module MovieRatings {
  import opened Wrappers

  /** An item of the ratings list the server returns; `movie_id` may be missing or 0. */
  datatype RatingItem = RatingItem(movieId: Option<int>, rating: real)

  /** The rating `getMovieRating` reports: the stored one, or 0 when there is none (`|| 0`). */
  function RatingIn(m: map<int, real>, id: int): (r: real)
    ensures id !in m ==> r == 0.0
    ensures id in m ==> r == m[id]
  {
    // `x || 0` is `x` for a stored 0 as well
    if id in m then m[id] else 0.0
  }

  /** `updateMovieRating` on the map: a positive rating is stored, anything else removes the entry. */
  function Rated(m: map<int, real>, id: int, rating: real): (r: map<int, real>)
    ensures rating > 0.0 ==> id in r && r[id] == rating
    ensures rating <= 0.0 ==> id !in r
    ensures forall k :: k != id ==> (k in r <==> k in m) && (k in m ==> r[k] == m[k])
  {
    if rating > 0.0 then m[id := rating] else m - {id}
  }

  /** Every stored rating is positive, so `|| 0` only ever applies to a missing entry. */
  ghost predicate AllPositive(m: map<int, real>) {
    forall k :: k in m ==> m[k] > 0.0
  }

  /** What the cache reports after an update: the new rating when positive, else 0; other ids unchanged. */
  lemma RatingAfterUpdate(m: map<int, real>, id: int, rating: real, other: int)
    requires other != id
    ensures RatingIn(Rated(m, id, rating), id) == if rating > 0.0 then rating else 0.0
    ensures RatingIn(Rated(m, id, rating), other) == RatingIn(m, other)
    ensures AllPositive(m) ==> AllPositive(Rated(m, id, rating))
  {
  }

  /** The filter of `initializeMovieRatings`: a truthy `movie_id` and a positive rating. */
  predicate Kept(item: RatingItem) {
    item.movieId.Some? && item.movieId.value != 0 && item.rating > 0.0
  }

  /** The map the `forEach` of `initializeMovieRatings` builds from an empty one. */
  function Loaded(items: seq<RatingItem>): (m: map<int, real>)
    ensures AllPositive(m)
  {
    if items == [] then map[]
    else
      var item := items[|items| - 1];
      var m := Loaded(items[..|items| - 1]);
      if Kept(item) then m[item.movieId.value := item.rating] else m
  }

  /** A kept item for movie `id`. */
  predicate Names(item: RatingItem, id: int) {
    Kept(item) && item.movieId.value == id
  }

  /** The loaded map holds exactly the ids of the kept items. */
  lemma {:induction false} LoadedDomain(items: seq<RatingItem>, id: int)
    ensures id in Loaded(items) <==> exists i :: 0 <= i < |items| && Names(items[i], id)
  {
    if items != [] {
      var n := |items| - 1;
      var front := items[..n];
      LoadedDomain(front, id);
      if id in Loaded(front) {
        var i :| 0 <= i < |front| && Names(front[i], id);
        assert items[i] == front[i];
      }
      if !Names(items[n], id) && exists i :: 0 <= i < |items| && Names(items[i], id) {
        var i :| 0 <= i < |items| && Names(items[i], id);
        assert front[i] == items[i];
      }
    }
  }

  /** For each id, the rating of its last kept item wins. */
  lemma {:induction false} LoadedLastWins(items: seq<RatingItem>, i: nat)
    requires i < |items| && Kept(items[i])
    requires forall j :: i < j < |items| ==> !Names(items[j], items[i].movieId.value)
    ensures items[i].movieId.value in Loaded(items)
    ensures Loaded(items)[items[i].movieId.value] == items[i].rating
  {
    var n := |items| - 1;
    if i < n {
      var front := items[..n];
      assert front[i] == items[i];
      LoadedLastWins(front, i);
    }
  }

  class RatingsStore {
    var ratings: map<int, real>
    var loaded: bool

    ghost predicate Valid()
      reads this
    {
      AllPositive(ratings)
    }

    /** The module's initial state: no ratings, not loaded. */
    constructor ()
      ensures Valid() && ratings == map[] && !loaded
    {
      ratings := map[];
      loaded := false;
    }

    /** `updateMovieRating`: store a positive rating, remove the entry otherwise. */
    method Update(movieId: int, rating: real)
      requires Valid()
      modifies this
      ensures Valid()
      ensures ratings == Rated(old(ratings), movieId, rating)
      ensures loaded == old(loaded)
    {
      if rating > 0.0 {
        ratings := ratings[movieId := rating];
      } else {
        ratings := ratings - {movieId};
      }
    }

    /** `getMovieRating`. */
    function Get(movieId: int): (r: real)
      reads this
      requires Valid()
      ensures movieId in ratings ==> r == ratings[movieId]
      ensures movieId !in ratings ==> r == 0.0
    {
      RatingIn(ratings, movieId)
    }

    /** `isRatingsLoaded`. */
    function IsLoaded(): (r: bool)
      reads this
      ensures r <==> loaded
    {
      loaded
    }

    /** `initializeMovieRatings`: the old contents go; the kept items go in, in list order. */
    method Initialize(items: seq<RatingItem>)
      modifies this
      ensures Valid()
      ensures ratings == Loaded(items)
      ensures loaded
    {
      ratings := map[];
      var i := 0;
      while i < |items|
        invariant 0 <= i <= |items|
        invariant ratings == Loaded(items[..i])
      {
        assert items[..i + 1][..i] == items[..i];
        var item := items[i];
        if item.movieId.Some? && item.movieId.value != 0 && item.rating > 0.0 {
          ratings := ratings[item.movieId.value := item.rating];
        }
        i := i + 1;
      }
      assert items[..|items|] == items;
      loaded := true;
    }

    /** `clearMovieRatings` (on logout). */
    method Clear()
      modifies this
      ensures Valid() && ratings == map[] && !loaded
    {
      ratings := map[];
      loaded := false;
    }
  }
}
