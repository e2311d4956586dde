/**
  The top-critic report: every review joined to the movie whose `_id` it
  refers to (reviews without one dropped), the best-scored review of each
  movie, and of those the single best, by descending string order of the
  stored `originalScore`.
*/
module TopCritic {
  import opened Optional
  import Keyed
  import opened StringOrder
  import opened Records

  /** A review and one movie document it refers to, as `$lookup` and `$unwind` pair them. */
  datatype Joined = Joined(critic: Critic, movie: Movie)

  /** One group's document: `_id` (the movie), `highestRating`, `reviewId`, `criticName`, `movieTitle`. */
  datatype Entry = Entry(id: ObjectId, highestRating: string, reviewId: string, criticName: string, movieTitle: string)

  function Score(p: Joined): string { p.critic.originalScore }
  function Highest(e: Entry): string { e.highestRating }

  function EntryOf(p: Joined): Entry {
    Entry(p.critic.movie, p.critic.originalScore, p.critic.reviewId, p.critic.criticName, Title(p.movie))
  }

  /** The pairs of `c` with each movie whose `_id` it refers to, in collection order. */
  function Matches(c: Critic, movies: seq<Movie>): (r: seq<Joined>)
    ensures forall k :: 0 <= k < |r| ==> r[k].critic == c && r[k].movie in movies && r[k].movie.id == c.movie
    ensures forall j :: 0 <= j < |movies| && movies[j].id == c.movie ==> Joined(c, movies[j]) in r
    decreases |movies|
  {
    if |movies| == 0 then []
    else
      var n := |movies| - 1;
      var front := Matches(c, movies[..n]);
      assert forall j :: 0 <= j < n ==> movies[..n][j] == movies[j];
      if movies[n].id == c.movie then front + [Joined(c, movies[n])] else front
  }

  /** `$lookup` then `$unwind`: every review paired with every movie it refers to. */
  function Join(critics: seq<Critic>, movies: seq<Movie>): (r: seq<Joined>)
    ensures forall k :: 0 <= k < |r| ==> r[k].critic in critics && r[k].movie in movies && r[k].movie.id == r[k].critic.movie
    ensures forall i, j :: 0 <= i < |critics| && 0 <= j < |movies| && movies[j].id == critics[i].movie ==>
              Joined(critics[i], movies[j]) in r
    decreases |critics|
  {
    if |critics| == 0 then []
    else
      var n := |critics| - 1;
      assert forall i :: 0 <= i < n ==> critics[..n][i] == critics[i];
      Join(critics[..n], movies) + Matches(critics[n], movies)
  }

  /**
    The best element by `score`, the earliest of the best on ties: what a
    `$sort` descending followed by `$first` (or `$limit: 1`) picks.
  */
  function Best<T>(s: seq<T>, score: T -> string): (r: Option<T>)
    ensures r.None? <==> |s| == 0
    ensures r.Some? ==> r.value in s
    ensures r.Some? ==> forall i :: 0 <= i < |s| ==> LessEq(score(s[i]), score(r.value))
    decreases |s|
  {
    if |s| == 0 then None
    else
      match Best(s[1..], score)
      case None => Some(s[0])
      case Some(b) =>
        assert forall i :: 1 <= i < |s| ==> s[i] == s[1..][i - 1];
        if Less(score(s[0]), score(b)) then Some(b)
        else
          NotLessIsLessEq(score(s[0]), score(b));
          forall i | 1 <= i < |s| ensures LessEq(score(s[i]), score(s[0])) {
            LessEqTransitive(score(s[i]), score(b), score(s[0]));
          }
          Some(s[0])
  }

  /** The `_id`s of the referenced movies, each once, in order of first appearance. */
  function GroupIds(ps: seq<Joined>): (ids: seq<ObjectId>)
    ensures forall k :: 0 <= k < |ps| ==> ps[k].critic.movie in ids
    ensures forall i, j :: 0 <= i < j < |ids| ==> ids[i] != ids[j]
    decreases |ps|
  {
    if |ps| == 0 then []
    else
      var n := |ps| - 1;
      var front := GroupIds(ps[..n]);
      assert forall k :: 0 <= k < n ==> ps[..n][k] == ps[k];
      if ps[n].critic.movie in front then front else front + [ps[n].critic.movie]
  }

  /** The pairs of one group. */
  function Group(ps: seq<Joined>, id: ObjectId): (g: seq<Joined>)
    ensures forall k :: 0 <= k < |g| ==> g[k] in ps && g[k].critic.movie == id
    ensures forall k :: 0 <= k < |ps| && ps[k].critic.movie == id ==> ps[k] in g
    decreases |ps|
  {
    if |ps| == 0 then []
    else
      var n := |ps| - 1;
      var front := Group(ps[..n], id);
      assert forall k :: 0 <= k < n ==> ps[..n][k] == ps[k];
      if ps[n].critic.movie == id then front + [ps[n]] else front
  }

  /**
    `$group` on the movie with `$first` of each field after the descending sort:
    one entry per listed id, taken from the group's best pair.
  */
  function Entries(ps: seq<Joined>, ids: seq<ObjectId>): (es: seq<Entry>)
    ensures |es| <= |ids|
    decreases |ids|
  {
    if |ids| == 0 then []
    else
      var rest := Entries(ps, ids[1..]);
      match Best(Group(ps, ids[0]), Score)
      case None => rest
      case Some(b) => [EntryOf(b)] + rest
  }

  /** Each pair of a listed group scores no higher than that group's entry. */
  lemma {:induction false} EntriesCover(ps: seq<Joined>, ids: seq<ObjectId>, i: nat, k: nat)
    requires i < |ids| && k < |ps| && ps[k].critic.movie == ids[i]
    ensures exists x :: 0 <= x < |Entries(ps, ids)| && LessEq(Score(ps[k]), Entries(ps, ids)[x].highestRating)
    decreases |ids|
  {
    var es := Entries(ps, ids);
    var rest := Entries(ps, ids[1..]);
    if i == 0 {
      var g := Group(ps, ids[0]);
      var b := Best(g, Score).value;
      var y :| 0 <= y < |g| && g[y] == ps[k];
      assert es[0] == EntryOf(b);
    } else {
      EntriesCover(ps, ids[1..], i - 1, k);
      var x :| 0 <= x < |rest| && LessEq(Score(ps[k]), rest[x].highestRating);
      match Best(Group(ps, ids[0]), Score)
      case None =>
      case Some(b) => assert es[x + 1] == rest[x];
    }
  }

  /** Each entry is built from one of the pairs. */
  lemma {:induction false} EntriesFromPairs(ps: seq<Joined>, ids: seq<ObjectId>, x: nat)
    requires x < |Entries(ps, ids)|
    ensures exists q :: 0 <= q < |ps| && Entries(ps, ids)[x] == EntryOf(ps[q])
    decreases |ids|
  {
    var es := Entries(ps, ids);
    var rest := Entries(ps, ids[1..]);
    match Best(Group(ps, ids[0]), Score)
    case None =>
      EntriesFromPairs(ps, ids[1..], x);
    case Some(b) =>
      if x == 0 {
        var g := Group(ps, ids[0]);
        var y :| 0 <= y < |g| && g[y] == b;
        var q :| 0 <= q < |ps| && ps[q] == g[y];
      } else {
        EntriesFromPairs(ps, ids[1..], x - 1);
        assert es[x] == rest[x - 1];
      }
  }

  /** The whole pipeline: the best group entry, `$limit`ed to at most one document. */
  function TopCriticReport(critics: seq<Critic>, movies: seq<Movie>): seq<Entry> {
    var ps := Join(critics, movies);
    match Best(Entries(ps, GroupIds(ps)), Highest)
    case None => []
    case Some(e) => [e]
  }

  /** The join is empty exactly when no review refers to a stored movie. */
  lemma {:induction false} JoinEmpty(critics: seq<Critic>, movies: seq<Movie>)
    ensures |Join(critics, movies)| == 0 <==> forall i :: 0 <= i < |critics| ==> !Keyed.Has(movies, Oid, critics[i].movie)
  {
    var ps := Join(critics, movies);
    if |ps| > 0 {
      var i :| 0 <= i < |critics| && critics[i] == ps[0].critic;
      var j :| 0 <= j < |movies| && movies[j] == ps[0].movie;
      assert Keyed.Has(movies, Oid, critics[i].movie);
    }
    if i :| 0 <= i < |critics| && Keyed.Has(movies, Oid, critics[i].movie) {
      var j :| 0 <= j < |movies| && Oid(movies[j]) == critics[i].movie;
      assert Joined(critics[i], movies[j]) in ps;
    }
  }

  /** There is a group entry exactly when there is a joined pair. */
  lemma {:induction false} EntriesEmpty(ps: seq<Joined>)
    ensures |Entries(ps, GroupIds(ps))| == 0 <==> |ps| == 0
  {
    var ids := GroupIds(ps);
    if |ps| > 0 {
      var x :| 0 <= x < |ids| && ids[x] == ps[0].critic.movie;
      EntriesCover(ps, ids, x, 0);
    }
  }

  /** The top entry scores at least as high as every joined review. */
  lemma {:induction false} TopBeatsAll(critics: seq<Critic>, movies: seq<Movie>, i: nat, j: nat)
    requires i < |critics| && j < |movies| && movies[j].id == critics[i].movie
    ensures |TopCriticReport(critics, movies)| == 1
    ensures LessEq(critics[i].originalScore, TopCriticReport(critics, movies)[0].highestRating)
  {
    var ps := Join(critics, movies);
    var ids := GroupIds(ps);
    var es := Entries(ps, ids);
    var k :| 0 <= k < |ps| && ps[k] == Joined(critics[i], movies[j]);
    var y :| 0 <= y < |ids| && ids[y] == ps[k].critic.movie;
    EntriesCover(ps, ids, y, k);
    var x :| 0 <= x < |es| && LessEq(Score(ps[k]), es[x].highestRating);
    var top := Best(es, Highest).value;
    assert LessEq(es[x].highestRating, top.highestRating) by {
      assert Highest(es[x]) == es[x].highestRating;
    }
    LessEqTransitive(critics[i].originalScore, es[x].highestRating, top.highestRating);
  }

  /** The top entry is built from one joined review and its movie. */
  lemma {:induction false} TopFromOne(critics: seq<Critic>, movies: seq<Movie>)
    requires |TopCriticReport(critics, movies)| == 1
    ensures exists i, j :: 0 <= i < |critics| && 0 <= j < |movies| && movies[j].id == critics[i].movie
              && TopCriticReport(critics, movies)[0] ==
                   Entry(critics[i].movie, critics[i].originalScore, critics[i].reviewId, critics[i].criticName, Title(movies[j]))
  {
    var ps := Join(critics, movies);
    var es := Entries(ps, GroupIds(ps));
    var top := Best(es, Highest).value;
    var x :| 0 <= x < |es| && es[x] == top;
    EntriesFromPairs(ps, GroupIds(ps), x);
    var q :| 0 <= q < |ps| && top == EntryOf(ps[q]);
    var i :| 0 <= i < |critics| && critics[i] == ps[q].critic;
    var j :| 0 <= j < |movies| && movies[j] == ps[q].movie;
  }

  /**
    The report is empty exactly when no review refers to a stored movie;
    otherwise its one entry scores at least as high as every such review, and
    its score, review id, critic name and movie title all come from one of them.
  */
  lemma {:induction false} TopCriticSpec(critics: seq<Critic>, movies: seq<Movie>)
    ensures |TopCriticReport(critics, movies)| <= 1
    ensures |TopCriticReport(critics, movies)| == 0 <==>
              forall i :: 0 <= i < |critics| ==> !Keyed.Has(movies, Oid, critics[i].movie)
    ensures |TopCriticReport(critics, movies)| == 1 ==>
              forall i, j :: 0 <= i < |critics| && 0 <= j < |movies| && movies[j].id == critics[i].movie ==>
                LessEq(critics[i].originalScore, TopCriticReport(critics, movies)[0].highestRating)
    ensures |TopCriticReport(critics, movies)| == 1 ==>
              exists i, j :: 0 <= i < |critics| && 0 <= j < |movies| && movies[j].id == critics[i].movie
                && TopCriticReport(critics, movies)[0] ==
                     Entry(critics[i].movie, critics[i].originalScore, critics[i].reviewId, critics[i].criticName, Title(movies[j]))
  {
    var ps := Join(critics, movies);
    JoinEmpty(critics, movies);
    EntriesEmpty(ps);
    forall i, j | 0 <= i < |critics| && 0 <= j < |movies| && movies[j].id == critics[i].movie
      ensures LessEq(critics[i].originalScore, TopCriticReport(critics, movies)[0].highestRating)
    {
      TopBeatsAll(critics, movies, i, j);
    }
    if |TopCriticReport(critics, movies)| == 1 {
      TopFromOne(critics, movies);
    }
  }
}
