/**
 * The relational schema of backend/models.py: one datatype per table row and
 * the table constraints (primary keys, unique columns, unique pairs, foreign
 * keys) as predicates over tables held as sequences of rows.
 *
 * Non-null columns hold values of a non-null Dafny type, so `nullable=False`
 * needs no predicate of its own.
 */
module Models {

  /** A `Movie` row: the local mirror of a catalog entry. `id` is the surrogate key. */
  datatype MovieRow = MovieRow(id: nat, tmdbId: int, title: string, overview: string,
                               posterPath: string, voteAverage: real)

  /**
   * The password hashing scheme, kept abstract: a key-derivation function from
   * (salt, password) to a digest. A stored hash records the salt it was made with.
   */
  type Kdf = (string, string) -> string

  datatype PasswordHash = PasswordHash(salt: string, digest: string)

  /** A KDF is usable for password checking when, for each salt, distinct passwords give distinct digests. */
  ghost predicate Injective(kdf: Kdf) {
    forall salt, p, q :: kdf(salt, p) == kdf(salt, q) ==> p == q
  }

  /** A `User` row. */
  datatype UserRow = UserRow(id: nat, username: string, email: string, passwordHash: PasswordHash) {

    /** `set_password`: replaces the stored hash with a fresh salted hash of `password`. */
    function SetPassword(kdf: Kdf, salt: string, password: string): (r: UserRow)
      ensures r.CheckPassword(kdf, password)
      ensures r.passwordHash.salt == salt
      ensures r.(passwordHash := passwordHash) == this
    {
      this.(passwordHash := PasswordHash(salt, kdf(salt, password)))
    }

    /** `check_password`: re-derives the digest with the stored salt and compares. */
    predicate CheckPassword(kdf: Kdf, password: string) {
      kdf(passwordHash.salt, password) == passwordHash.digest
    }
  }

  /** After `set_password(p)`, `check_password` accepts exactly `p`. */
  lemma CheckAfterSetPassword(u: UserRow, kdf: Kdf, salt: string, p: string, q: string)
    requires Injective(kdf)
    ensures u.SetPassword(kdf, salt, p).CheckPassword(kdf, q) <==> q == p
  {
    var v := u.SetPassword(kdf, salt, p);
    if v.CheckPassword(kdf, q) {
      assert kdf(salt, q) == kdf(salt, p);
    }
  }

  /** A `Rating` row, unique per (user, movie). */
  datatype RatingRow = RatingRow(userId: nat, movieId: nat, rating: int)

  /** A row of a per-user membership table: `WatchlistItem`, `WatchedItem` or `FavoriteItem`. */
  datatype Membership = Membership(userId: nat, movieId: nat)

  // ---- Table constraints ----

  /** `Movie`: `id` is a primary key below the next id to allocate; `tmdb_id` is unique. */
  ghost predicate MovieTable(movies: seq<MovieRow>, nextId: nat) {
    && (forall i :: 0 <= i < |movies| ==> movies[i].id < nextId)
    && (forall i, j :: 0 <= i < j < |movies| ==> movies[i].id != movies[j].id)
    && (forall i, j :: 0 <= i < j < |movies| ==> movies[i].tmdbId != movies[j].tmdbId)
  }

  /** `User`: `id` is a primary key below the next id to allocate; `username` and `email` are unique. */
  ghost predicate UserTable(users: seq<UserRow>, nextId: nat) {
    && (forall i :: 0 <= i < |users| ==> users[i].id < nextId)
    && (forall i, j :: 0 <= i < j < |users| ==> users[i].id != users[j].id)
    && (forall i, j :: 0 <= i < j < |users| ==> users[i].username != users[j].username)
    && (forall i, j :: 0 <= i < j < |users| ==> users[i].email != users[j].email)
  }

  /** `Rating`: at most one row per (user_id, movie_id). */
  ghost predicate RatingTable(ratings: seq<RatingRow>) {
    forall i, j :: 0 <= i < j < |ratings| ==>
      (ratings[i].userId, ratings[i].movieId) != (ratings[j].userId, ratings[j].movieId)
  }

  /** A membership table: at most one row per (user_id, movie_id). */
  ghost predicate NoDuplicates(rows: seq<Membership>) {
    forall i, j :: 0 <= i < j < |rows| ==> rows[i] != rows[j]
  }

  /** Distinct keys below `n` are at most `n` in number. */
  lemma {:induction false} DistinctBelow(ids: seq<int>, n: nat)
    requires forall i :: 0 <= i < |ids| ==> 0 <= ids[i] < n
    requires forall i, j :: 0 <= i < j < |ids| ==> ids[i] != ids[j]
    ensures |ids| <= n
    decreases |ids|
  {
    if ids != [] {
      var v := ids[|ids| - 1];
      var front := ids[..|ids| - 1];
      // close the gap left by v, so that the other keys lie below n - 1
      var shifted := seq(|front|, i requires 0 <= i < |front| => if front[i] > v then front[i] - 1 else front[i]);
      forall i | 0 <= i < |shifted| ensures 0 <= shifted[i] < n - 1 {
        assert front[i] == ids[i] && ids[i] != v;
      }
      forall i, j | 0 <= i < j < |shifted| ensures shifted[i] != shifted[j] {
        assert front[i] == ids[i] && front[j] == ids[j];
      }
      DistinctBelow(shifted, n - 1);
    }
  }

  /** Primary keys allocated from a counter: the Movie table never has more rows than the next id. */
  lemma MovieTableBound(movies: seq<MovieRow>, nextId: nat)
    requires MovieTable(movies, nextId)
    ensures |movies| <= nextId
  {
    var ids := seq(|movies|, i requires 0 <= i < |movies| => movies[i].id as int);
    DistinctBelow(ids, nextId);
  }

  /** The same for the User table. */
  lemma UserTableBound(users: seq<UserRow>, nextId: nat)
    requires UserTable(users, nextId)
    ensures |users| <= nextId
  {
    var ids := seq(|users|, i requires 0 <= i < |users| => users[i].id as int);
    DistinctBelow(ids, nextId);
  }

  /** With the unique (user_id, movie_id) constraint, a user has at most one rating row for a movie. */
  lemma RatingTableOnePerPair(ratings: seq<RatingRow>, userId: nat, movieId: nat)
    requires RatingTable(ratings)
    ensures |set i | 0 <= i < |ratings| && ratings[i].userId == userId && ratings[i].movieId == movieId| <= 1
  {
    var rows := set i | 0 <= i < |ratings| && ratings[i].userId == userId && ratings[i].movieId == movieId;
    if rows != {} {
      var i :| i in rows;
      assert rows == {i};
    }
  }

  // ---- Foreign keys ----

  predicate HasUser(users: seq<UserRow>, id: nat) {
    exists i :: 0 <= i < |users| && users[i].id == id
  }

  predicate HasMovie(movies: seq<MovieRow>, id: nat) {
    exists i :: 0 <= i < |movies| && movies[i].id == id
  }

  /** Every rating references an existing user and an existing movie. */
  ghost predicate RatingReferences(ratings: seq<RatingRow>, users: seq<UserRow>, movies: seq<MovieRow>) {
    forall i :: 0 <= i < |ratings| ==> HasUser(users, ratings[i].userId) && HasMovie(movies, ratings[i].movieId)
  }

  /** Every membership row references an existing movie. */
  ghost predicate MovieReferences(rows: seq<Membership>, movies: seq<MovieRow>) {
    forall i :: 0 <= i < |rows| ==> HasMovie(movies, rows[i].movieId)
  }

  /** Every membership row references an existing user. */
  ghost predicate UserReferences(rows: seq<Membership>, users: seq<UserRow>) {
    forall i :: 0 <= i < |rows| ==> HasUser(users, rows[i].userId)
  }

  // ---- Tables only grow: references stay valid ----

  lemma ReferencesGrow(ratings: seq<RatingRow>, rows: seq<Membership>, users: seq<UserRow>, users': seq<UserRow>,
                       movies: seq<MovieRow>, movies': seq<MovieRow>)
    requires users <= users' && movies <= movies'
    ensures RatingReferences(ratings, users, movies) ==> RatingReferences(ratings, users', movies')
    ensures MovieReferences(rows, movies) ==> MovieReferences(rows, movies')
    ensures UserReferences(rows, users) ==> UserReferences(rows, users')
  {
    forall id | HasMovie(movies, id) ensures HasMovie(movies', id) {
      var i :| 0 <= i < |movies| && movies[i].id == id;
      assert movies'[i] == movies[i];
    }
    forall id | HasUser(users, id) ensures HasUser(users', id) {
      var i :| 0 <= i < |users| && users[i].id == id;
      assert users'[i] == users[i];
    }
  }
}
