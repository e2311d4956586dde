/**
  The three CSV ingestors, each a left fold of a per-row step over the rows of
  its file, on a store holding the movie, critic and user collections. Every
  step that fails (no movie for the row's `movieId`, no score column to
  normalise) is caught and logged by the program's loader (`readCSVMovies`,
  `readCSVCritics`, `readCSVUsers`), so it leaves the store as it was and the
  fold goes on with the next row.
*/
module Ingest {
  import opened Optional
  import Keyed
  import opened Normalize
  import opened Records

  /** The database: three collections in insertion order and the next free `_id`. */
  datatype Store = Store(movies: seq<Movie>, critics: seq<Critic>, users: seq<User>, nextId: ObjectId)

  /** The unique indexes on movie title and review id hold, and `_id`s are unique and already issued. */
  ghost predicate Valid(s: Store) {
    && Keyed.Distinct(s.movies, Title)
    && Keyed.Distinct(s.movies, Oid)
    && (forall i :: 0 <= i < |s.movies| ==> s.movies[i].id < s.nextId)
    && Keyed.Distinct(s.critics, ReviewId)
  }

  /** `Movie.findOne({movieId})`: the movie a critic or user row refers to. */
  function Resolve(movies: seq<Movie>, movieId: string): Option<Movie> {
    Keyed.Get(movies, NaturalId, movieId)
  }

  // ---------------------------------------------------------------- movies

  /** One movie row: an upsert on `movieTitle` that keeps an existing `_id` and issues a new one otherwise. */
  function UpsertMovie(s: Store, row: MovieRow): (r: Store)
    ensures Keyed.Get(r.movies, Title, row.movieTitle).Some?
    ensures Keyed.Get(r.movies, Title, row.movieTitle).value.fields == row
    ensures Keyed.Get(s.movies, Title, row.movieTitle).Some? ==>
              Keyed.Get(r.movies, Title, row.movieTitle).value.id == Keyed.Get(s.movies, Title, row.movieTitle).value.id
                && r.nextId == s.nextId
    ensures Keyed.Get(s.movies, Title, row.movieTitle).None? ==>
              Keyed.Get(r.movies, Title, row.movieTitle).value.id == s.nextId && r.nextId == s.nextId + 1
    ensures forall t :: t != row.movieTitle ==> Keyed.Get(r.movies, Title, t) == Keyed.Get(s.movies, Title, t)
    ensures r.critics == s.critics && r.users == s.users
  {
    match Keyed.Get(s.movies, Title, row.movieTitle)
    case Some(m) => s.(movies := Keyed.Put(s.movies, Title, Movie(m.id, row)))
    case None => s.(movies := Keyed.Put(s.movies, Title, Movie(s.nextId, row)), nextId := s.nextId + 1)
  }

  /** A movie upsert keeps the store's unique indexes and `_id`s intact. */
  lemma {:induction false} UpsertMovieValid(s: Store, row: MovieRow)
    ensures Valid(s) ==> Valid(UpsertMovie(s, row))
  {
    if Valid(s) {
      var r := UpsertMovie(s, row);
      match Keyed.Get(s.movies, Title, row.movieTitle)
      case Some(m) => UpsertKeepsValid(s, r.movies, Movie(m.id, row));
      case None => UpsertKeepsValid(s, r.movies, Movie(s.nextId, row));
    }
  }

  /** The `_id`s stay unique: a replaced document keeps its `_id`, an appended one gets a fresh one. */
  lemma {:induction false} UpsertKeepsValid(s: Store, ms: seq<Movie>, x: Movie)
    requires Valid(s)
    requires ms == Keyed.Put(s.movies, Title, x)
    requires Keyed.Get(s.movies, Title, Title(x)).Some? ==> x.id == Keyed.Get(s.movies, Title, Title(x)).value.id
    requires Keyed.Get(s.movies, Title, Title(x)).None? ==> x.id == s.nextId
    ensures Keyed.Distinct(ms, Oid)
    ensures forall i :: 0 <= i < |ms| ==> ms[i].id < s.nextId + 1
    ensures Keyed.Get(s.movies, Title, Title(x)).Some? ==> forall i :: 0 <= i < |ms| ==> ms[i].id < s.nextId
  {
    // every document of `ms` carries the `_id` of the document at the same position before
    // (or `x.id`, at the appended position)
    forall i | 0 <= i < |ms|
      ensures ms[i].id == (if i < |s.movies| then s.movies[i].id else x.id)
    {
      if i < |s.movies| && Title(s.movies[i]) == Title(x) {
        Keyed.GetAt(s.movies, Title, i);
        Keyed.GetAt(ms, Title, i);
      }
    }
  }

  /** `readCSVMovies`: the movie rows upserted in file order. */
  function IngestMovies(s: Store, rows: seq<MovieRow>): (r: Store)
    ensures r.critics == s.critics && r.users == s.users
    ensures Valid(s) ==> Valid(r)
    decreases |rows|
  {
    if |rows| == 0 then s
    else
      var front := IngestMovies(s, rows[..|rows| - 1]);
      UpsertMovieValid(front, rows[|rows| - 1]);
      UpsertMovie(front, rows[|rows| - 1])
  }

  /**
    Last write wins: a title that occurs in the rows ends up with the columns of
    its last row, and any other title is looked up exactly as before.
  */
  lemma {:induction false} MoviesLastWriteWins(s: Store, rows: seq<MovieRow>, t: string)
    ensures Keyed.Last(rows, RowTitle, t).Some? ==>
              Keyed.Get(IngestMovies(s, rows).movies, Title, t).Some?
                && Keyed.Get(IngestMovies(s, rows).movies, Title, t).value.fields == Keyed.Last(rows, RowTitle, t).value
    ensures Keyed.Last(rows, RowTitle, t).None? ==>
              Keyed.Get(IngestMovies(s, rows).movies, Title, t) == Keyed.Get(s.movies, Title, t)
    decreases |rows|
  {
    if |rows| > 0 {
      MoviesLastWriteWins(s, rows[..|rows| - 1], t);
    }
  }

  /** A title already in the store keeps its `_id` whatever rows are ingested. */
  lemma {:induction false} MoviesKeepIds(s: Store, rows: seq<MovieRow>, t: string)
    requires Keyed.Get(s.movies, Title, t).Some?
    ensures Keyed.Get(IngestMovies(s, rows).movies, Title, t).Some?
    ensures Keyed.Get(IngestMovies(s, rows).movies, Title, t).value.id == Keyed.Get(s.movies, Title, t).value.id
    decreases |rows|
  {
    if |rows| > 0 {
      MoviesKeepIds(s, rows[..|rows| - 1], t);
    }
  }

  /** A movie after the rows: the columns of the last row with its title, if there is one. */
  function Refreshed(m: Movie, rows: seq<MovieRow>): Movie {
    match Keyed.Last(rows, RowTitle, Title(m))
    case Some(row) => Movie(m.id, row)
    case None => m
  }

  function Refresh(movies: seq<Movie>, rows: seq<MovieRow>): seq<Movie> {
    seq(|movies|, i requires 0 <= i < |movies| => Refreshed(movies[i], rows))
  }

  /** Every row's title is already a movie of `s`. */
  ghost predicate Covers(s: Store, rows: seq<MovieRow>) {
    forall i :: 0 <= i < |rows| ==> Keyed.Has(s.movies, Title, rows[i].movieTitle)
  }

  /**
    When every row's title is already stored, ingesting updates each movie in
    place from its title's last row and adds nothing.
  */
  lemma {:induction false} CoveredIngestRefreshes(s: Store, rows: seq<MovieRow>)
    requires Valid(s)
    requires Covers(s, rows)
    ensures IngestMovies(s, rows) == s.(movies := Refresh(s.movies, rows))
    decreases |rows|
  {
    if |rows| == 0 {
      assert Refresh(s.movies, rows) == s.movies;
    } else {
      var pre, x := rows[..|rows| - 1], rows[|rows| - 1];
      assert rows == pre + [x];
      assert Covers(s, pre) by {
        assert forall i :: 0 <= i < |pre| ==> pre[i] == rows[i];
      }
      CoveredIngestRefreshes(s, pre);
      RefreshStep(s, pre, x);
    }
  }

  /** Refreshing keeps every position's title and `_id`, hence the store's validity. */
  lemma {:induction false} RefreshKeepsValid(s: Store, rows: seq<MovieRow>)
    requires Valid(s)
    ensures forall i :: 0 <= i < |s.movies| ==>
              Title(Refresh(s.movies, rows)[i]) == Title(s.movies[i])
                && Refresh(s.movies, rows)[i].id == s.movies[i].id
    ensures Valid(s.(movies := Refresh(s.movies, rows)))
  {
  }

  /** One covered row more refreshes from one row more. */
  lemma {:induction false} RefreshStep(s: Store, pre: seq<MovieRow>, x: MovieRow)
    requires Valid(s)
    requires Keyed.Has(s.movies, Title, x.movieTitle)
    ensures UpsertMovie(s.(movies := Refresh(s.movies, pre)), x) == s.(movies := Refresh(s.movies, pre + [x]))
  {
    var s0 := s.(movies := Refresh(s.movies, pre));
    RefreshKeepsValid(s, pre);
    var w :| 0 <= w < |s.movies| && Title(s.movies[w]) == x.movieTitle;
    Keyed.GetAt(s0.movies, Title, w);
    var m := s0.movies[w];
    assert UpsertMovie(s0, x) == s0.(movies := Keyed.Put(s0.movies, Title, Movie(m.id, x)));
    RefreshPut(s, pre, x, w);
  }

  /** Putting the row's movie back at its place is refreshing from one row more. */
  lemma {:induction false} RefreshPut(s: Store, pre: seq<MovieRow>, x: MovieRow, w: nat)
    requires Valid(s)
    requires w < |s.movies| && Title(s.movies[w]) == x.movieTitle
    ensures Keyed.Put(Refresh(s.movies, pre), Title, Movie(s.movies[w].id, x)) == Refresh(s.movies, pre + [x])
  {
    var ms := Keyed.Put(Refresh(s.movies, pre), Title, Movie(s.movies[w].id, x));
    RefreshKeepsValid(s, pre);
    Keyed.PutAt(Refresh(s.movies, pre), Title, Movie(s.movies[w].id, x), w);
    forall i | 0 <= i < |s.movies|
      ensures ms[i] == Refreshed(s.movies[i], pre + [x])
    {
      RefreshAt(s, pre, x, w, i);
    }
  }

  lemma {:induction false} RefreshAt(s: Store, pre: seq<MovieRow>, x: MovieRow, w: nat, i: nat)
    requires Valid(s)
    requires w < |s.movies| && Title(s.movies[w]) == x.movieTitle
    requires i < |s.movies|
    ensures Keyed.Put(Refresh(s.movies, pre), Title, Movie(s.movies[w].id, x))[i] == Refreshed(s.movies[i], pre + [x])
  {
    var s0 := Refresh(s.movies, pre);
    RefreshKeepsValid(s, pre);
    if Title(s.movies[i]) == x.movieTitle {
      assert i == w;
      Keyed.PutAt(s0, Title, Movie(s.movies[w].id, x), i);
    } else {
      assert (pre + [x])[..|pre|] == pre;
    }
  }

  /** Ingesting the same movie rows a second time changes nothing. */
  lemma {:induction false} MoviesIdempotent(s: Store, rows: seq<MovieRow>)
    requires Valid(s)
    ensures IngestMovies(IngestMovies(s, rows), rows) == IngestMovies(s, rows)
  {
    var r := IngestMovies(s, rows);
    forall i | 0 <= i < |rows|
      ensures Keyed.Has(r.movies, Title, rows[i].movieTitle)
    {
      assert Keyed.Has(rows, RowTitle, rows[i].movieTitle);
      MoviesLastWriteWins(s, rows, rows[i].movieTitle);
    }
    CoveredIngestRefreshes(r, rows);
    forall i | 0 <= i < |r.movies|
      ensures Refreshed(r.movies[i], rows) == r.movies[i]
    {
      MoviesLastWriteWins(s, rows, Title(r.movies[i]));
      Keyed.GetAt(r.movies, Title, i);
    }
    assert Refresh(r.movies, rows) == r.movies;
  }

  // --------------------------------------------------------------- critics

  /**
    The critic document a row yields, or `None` when the row fails: no movie has
    its `movieId`, or it has no score column (`includes` on `undefined` throws).
  */
  function AcceptCritic(movies: seq<Movie>, row: CriticRow): (c: Option<Critic>)
    ensures c.Some? <==> Keyed.Has(movies, NaturalId, row.movieId) && row.originalScore.Some?
    ensures c.Some? ==> DescribesCritic(c.value, row, Resolve(movies, row.movieId).value.id)
  {
    match Resolve(movies, row.movieId)
    case None => None
    case Some(m) =>
      match row.originalScore
      case None => None
      case Some(score) => Some(BuildCritic(row, m.id, score))
  }

  /** One critic row: an upsert on `reviewId` of the document it yields, if any. */
  function CriticStep(s: Store, row: CriticRow): (r: Store)
    ensures r.movies == s.movies && r.users == s.users && r.nextId == s.nextId
    ensures AcceptCritic(s.movies, row).None? ==> r == s
    ensures AcceptCritic(s.movies, row).Some? ==>
              Keyed.Get(r.critics, ReviewId, row.reviewId) == AcceptCritic(s.movies, row)
    ensures forall k :: k != row.reviewId ==> Keyed.Get(r.critics, ReviewId, k) == Keyed.Get(s.critics, ReviewId, k)
    ensures Valid(s) ==> Valid(r)
  {
    match AcceptCritic(s.movies, row)
    case None => s
    case Some(c) => s.(critics := Keyed.Put(s.critics, ReviewId, c))
  }

  /** `readCSVCritics`: the critic rows processed in file order. */
  function IngestCritics(s: Store, rows: seq<CriticRow>): (r: Store)
    ensures r.movies == s.movies && r.users == s.users && r.nextId == s.nextId
    ensures Valid(s) ==> Valid(r)
    decreases |rows|
  {
    if |rows| == 0 then s
    else CriticStep(IngestCritics(s, rows[..|rows| - 1]), rows[|rows| - 1])
  }

  /** The documents the accepted rows yield, in file order. */
  function AcceptedCritics(movies: seq<Movie>, rows: seq<CriticRow>): seq<Critic>
    decreases |rows|
  {
    if |rows| == 0 then []
    else
      var front := AcceptedCritics(movies, rows[..|rows| - 1]);
      match AcceptCritic(movies, rows[|rows| - 1])
      case None => front
      case Some(c) => front + [c]
  }

  /**
    Last write wins per `reviewId`: a review id some accepted row carries ends up
    with the document of the last such row, and any other is looked up as before.
  */
  lemma {:induction false} CriticsLastWriteWins(s: Store, rows: seq<CriticRow>, k: string)
    ensures Keyed.Get(IngestCritics(s, rows).critics, ReviewId, k) ==
              match Keyed.Last(AcceptedCritics(s.movies, rows), ReviewId, k)
              case Some(c) => Some(c)
              case None => Keyed.Get(s.critics, ReviewId, k)
    decreases |rows|
  {
    if |rows| > 0 {
      var pre, row := rows[..|rows| - 1], rows[|rows| - 1];
      CriticsLastWriteWins(s, pre, k);
      var front := AcceptedCritics(s.movies, pre);
      var mid := IngestCritics(s, pre);
      assert IngestCritics(s, rows) == CriticStep(mid, row);
      match AcceptCritic(s.movies, row)
      case None =>
        assert AcceptedCritics(s.movies, rows) == front;
      case Some(c) =>
        assert AcceptedCritics(s.movies, rows) == front + [c];
        Keyed.LastSnoc(front, ReviewId, c, k);
    }
  }

  /** Ingesting `a` and then `b` is ingesting `a + b`. */
  lemma {:induction false} CriticsAppend(s: Store, a: seq<CriticRow>, b: seq<CriticRow>)
    ensures IngestCritics(s, a + b) == IngestCritics(IngestCritics(s, a), b)
    decreases |b|
  {
    if |b| == 0 {
      assert a + b == a;
    } else {
      assert (a + b)[..|a + b| - 1] == a + b[..|b| - 1];
      CriticsAppend(s, a, b[..|b| - 1]);
    }
  }

  /**
    A row that fails is skipped and processing goes on: the result is that of
    the file without that row.
  */
  lemma {:induction false} CriticRowSkipped(s: Store, pre: seq<CriticRow>, bad: CriticRow, post: seq<CriticRow>)
    requires AcceptCritic(s.movies, bad).None?
    ensures IngestCritics(s, pre + [bad] + post) == IngestCritics(s, pre + post)
  {
    assert (pre + [bad])[..|pre|] == pre;
    CriticsAppend(s, pre + [bad], post);
    CriticsAppend(s, pre, post);
  }

  // ----------------------------------------------------------------- users

  /** The user document a row yields, or `None` when no movie has its `movieId`. */
  function AcceptUser(movies: seq<Movie>, row: UserRow): (u: Option<User>)
    ensures u.Some? <==> Keyed.Has(movies, NaturalId, row.movieId)
    ensures u.Some? ==> DescribesUser(u.value, row, Resolve(movies, row.movieId).value.id)
  {
    match Resolve(movies, row.movieId)
    case None => None
    case Some(m) => Some(BuildUser(row, m.id))
  }

  /** One user row: `User.create` appends the document it yields, if any. */
  function UserStep(s: Store, row: UserRow): (r: Store)
    ensures r.movies == s.movies && r.critics == s.critics && r.nextId == s.nextId
    ensures !Keyed.Has(s.movies, NaturalId, row.movieId) ==> r == s
    ensures Keyed.Has(s.movies, NaturalId, row.movieId) ==>
              |r.users| == |s.users| + 1 && r.users[..|s.users|] == s.users
                && DescribesUser(r.users[|s.users|], row, Resolve(s.movies, row.movieId).value.id)
  {
    match AcceptUser(s.movies, row)
    case None => s
    case Some(u) => s.(users := s.users + [u])
  }

  /** `readCSVUsers`: the user rows processed in file order. */
  function IngestUsers(s: Store, rows: seq<UserRow>): (r: Store)
    ensures r.movies == s.movies && r.critics == s.critics && r.nextId == s.nextId
    ensures |s.users| <= |r.users| && r.users[..|s.users|] == s.users
    ensures Valid(s) ==> Valid(r)
    decreases |rows|
  {
    if |rows| == 0 then s
    else
      var front := IngestUsers(s, rows[..|rows| - 1]);
      var r := UserStep(front, rows[|rows| - 1]);
      assert r.users[..|s.users|] == front.users[..|s.users|];
      r
  }

  /** The users the rows yield, in file order: one per row whose movie is found. */
  function AcceptedUsers(movies: seq<Movie>, rows: seq<UserRow>): (us: seq<User>)
    ensures |us| <= |rows|
    decreases |rows|
  {
    if |rows| == 0 then []
    else
      var front := AcceptedUsers(movies, rows[..|rows| - 1]);
      match AcceptUser(movies, rows[|rows| - 1])
      case None => front
      case Some(u) => front + [u]
  }

  /** Ingesting appends exactly the accepted users after the existing ones. */
  lemma {:induction false} UsersAppended(s: Store, rows: seq<UserRow>)
    ensures IngestUsers(s, rows).users == s.users + AcceptedUsers(s.movies, rows)
    decreases |rows|
  {
    if |rows| > 0 {
      UsersAppended(s, rows[..|rows| - 1]);
    }
  }

  /** File order: the users of `a + b` are those of `a` followed by those of `b`. */
  lemma {:induction false} AcceptedUsersSplit(movies: seq<Movie>, a: seq<UserRow>, b: seq<UserRow>)
    ensures AcceptedUsers(movies, a + b) == AcceptedUsers(movies, a) + AcceptedUsers(movies, b)
    decreases |b|
  {
    if |b| == 0 {
      assert a + b == a;
    } else {
      assert (a + b)[..|a + b| - 1] == a + b[..|b| - 1];
      AcceptedUsersSplit(movies, a, b[..|b| - 1]);
    }
  }

  /** A single row yields one user describing it when its movie is found, and none otherwise. */
  lemma {:induction false} OneUserPerRow(movies: seq<Movie>, row: UserRow)
    ensures Keyed.Has(movies, NaturalId, row.movieId) ==>
              |AcceptedUsers(movies, [row])| == 1
                && DescribesUser(AcceptedUsers(movies, [row])[0], row, Resolve(movies, row.movieId).value.id)
    ensures !Keyed.Has(movies, NaturalId, row.movieId) ==> AcceptedUsers(movies, [row]) == []
  {
    assert [row][..0] == [];
  }

  /** When no row's movie is found, nothing is appended. */
  lemma {:induction false} NoUsersForUnknownMovies(movies: seq<Movie>, rows: seq<UserRow>)
    requires forall i :: 0 <= i < |rows| ==> !Keyed.Has(movies, NaturalId, rows[i].movieId)
    ensures AcceptedUsers(movies, rows) == []
    decreases |rows|
  {
    if |rows| > 0 {
      assert forall i :: 0 <= i < |rows| - 1 ==> rows[..|rows| - 1][i] == rows[i];
      NoUsersForUnknownMovies(movies, rows[..|rows| - 1]);
    }
  }
}
