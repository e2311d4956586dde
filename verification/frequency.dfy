/**
  The rating-frequency report: the critic reviews of one movie, found by title,
  grouped by their stored `originalScore`, counted, and sorted by rating in
  ascending string order.
*/
module Frequencies {
  import opened Optional
  import Keyed
  import opened StringOrder
  import opened Records
  import opened Ingest

  /** One output document: `{rating, frequency}`. */
  datatype Frequency = Frequency(rating: string, frequency: nat)

  /** Ratings strictly ascending, hence pairwise distinct. */
  predicate Ascending(fs: seq<Frequency>) {
    forall i, j :: 0 <= i < j < |fs| ==> Less(fs[i].rating, fs[j].rating)
  }

  predicate Positive(fs: seq<Frequency>) {
    forall i :: 0 <= i < |fs| ==> fs[i].frequency >= 1
  }

  /** The frequency listed for `x`, 0 when `x` is not listed. */
  function Lookup(fs: seq<Frequency>, x: string): nat
    decreases |fs|
  {
    if |fs| == 0 then 0
    else if fs[0].rating == x then fs[0].frequency
    else Lookup(fs[1..], x)
  }

  /** The sum of all frequencies. */
  function Total(fs: seq<Frequency>): nat
    decreases |fs|
  {
    if |fs| == 0 then 0 else fs[0].frequency + Total(fs[1..])
  }

  lemma {:induction false} LookupAbsent(fs: seq<Frequency>, x: string)
    requires forall i :: 0 <= i < |fs| ==> fs[i].rating != x
    ensures Lookup(fs, x) == 0
    decreases |fs|
  {
    if |fs| > 0 {
      LookupAbsent(fs[1..], x);
    }
  }

  /** A rating below the first of an ascending list is not listed. */
  lemma {:induction false} BelowAll(fs: seq<Frequency>, x: string)
    requires Ascending(fs)
    requires |fs| > 0 && Less(x, fs[0].rating)
    ensures Lookup(fs, x) == 0
  {
    forall i | 0 <= i < |fs|
      ensures fs[i].rating != x
    {
      if i > 0 {
        LessTransitive(x, fs[0].rating, fs[i].rating);
      }
      LessIrreflexive(x);
    }
    LookupAbsent(fs, x);
  }

  /** In an ascending list each entry is the one `Lookup` finds for its rating. */
  lemma {:induction false} LookupAt(fs: seq<Frequency>, i: nat)
    requires Ascending(fs)
    requires i < |fs|
    ensures Lookup(fs, fs[i].rating) == fs[i].frequency
    decreases i
  {
    if i > 0 {
      LessIrreflexive(fs[0].rating);
      LookupAt(fs[1..], i - 1);
    }
  }

  /** Putting an entry in front of an ascending list keeps it ascending when its rating comes first. */
  lemma {:induction false} ConsAscending(a: Frequency, rest: seq<Frequency>)
    requires Ascending(rest)
    requires |rest| > 0 ==> Less(a.rating, rest[0].rating)
    ensures Ascending([a] + rest)
  {
    var r := [a] + rest;
    forall i, j | 0 <= i < j < |r|
      ensures Less(r[i].rating, r[j].rating)
    {
      if i == 0 && j > 1 {
        LessTransitive(a.rating, rest[0].rating, rest[j - 1].rating);
      }
    }
  }

  lemma {:induction false} ConsParts(a: Frequency, rest: seq<Frequency>)
    ensures ([a] + rest)[0] == a && ([a] + rest)[1..] == rest
  {
  }

  /** Count one more `x`: bump its entry, or insert a new entry of 1 where the order puts it. */
  function AddOne(fs: seq<Frequency>, x: string): (r: seq<Frequency>)
    requires Ascending(fs)
    ensures Ascending(r)
    ensures |r| > 0 && (r[0].rating == x || (|fs| > 0 && r[0].rating == fs[0].rating))
    decreases |fs|
  {
    if |fs| == 0 then [Frequency(x, 1)]
    else
      assert Ascending(fs[1..]);
      if fs[0].rating == x then
        ConsAscending(fs[0].(frequency := fs[0].frequency + 1), fs[1..]);
        [fs[0].(frequency := fs[0].frequency + 1)] + fs[1..]
      else if Less(x, fs[0].rating) then
        ConsAscending(Frequency(x, 1), fs);
        [Frequency(x, 1)] + fs
      else
        LessTotal(x, fs[0].rating);
        var rest := AddOne(fs[1..], x);
        ConsAscending(fs[0], rest);
        [fs[0]] + rest
  }

  /** `AddOne` counts `x` once more and leaves every other rating's count alone. */
  lemma {:induction false} AddOneCounts(fs: seq<Frequency>, x: string, y: string)
    requires Ascending(fs)
    ensures Lookup(AddOne(fs, x), y) == Lookup(fs, y) + (if y == x then 1 else 0)
    decreases |fs|
  {
    var r := AddOne(fs, x);
    if |fs| == 0 {
      ConsParts(Frequency(x, 1), []);
    } else {
      ConsParts(fs[0], fs[1..]);
      assert fs == [fs[0]] + fs[1..];
      assert Ascending(fs[1..]);
      if fs[0].rating == x {
        ConsParts(fs[0].(frequency := fs[0].frequency + 1), fs[1..]);
      } else if Less(x, fs[0].rating) {
        ConsParts(Frequency(x, 1), fs);
        BelowAll(fs, x);
      } else {
        AddOneCounts(fs[1..], x, y);
        ConsParts(fs[0], AddOne(fs[1..], x));
      }
    }
  }

  /** `AddOne` adds exactly one to the total and keeps every frequency positive. */
  lemma {:induction false} AddOneTotal(fs: seq<Frequency>, x: string)
    requires Ascending(fs)
    ensures Total(AddOne(fs, x)) == Total(fs) + 1
    ensures Positive(fs) ==> Positive(AddOne(fs, x))
    decreases |fs|
  {
    if |fs| == 0 {
      ConsParts(Frequency(x, 1), []);
    } else {
      ConsParts(fs[0], fs[1..]);
      assert fs == [fs[0]] + fs[1..];
      assert Ascending(fs[1..]);
      if fs[0].rating == x {
        ConsParts(fs[0].(frequency := fs[0].frequency + 1), fs[1..]);
      } else if Less(x, fs[0].rating) {
        ConsParts(Frequency(x, 1), fs);
      } else {
        AddOneTotal(fs[1..], x);
        ConsParts(fs[0], AddOne(fs[1..], x));
      }
    }
  }

  /** `$group` with `$sum: 1`, then `$sort` ascending: the tally of a sequence of ratings. */
  function Tally(xs: seq<string>): (fs: seq<Frequency>)
    ensures Ascending(fs) && Positive(fs)
    ensures forall y :: Lookup(fs, y) == multiset(xs)[y]
    ensures Total(fs) == |xs|
    decreases |xs|
  {
    if |xs| == 0 then []
    else
      var pre, x := xs[..|xs| - 1], xs[|xs| - 1];
      assert xs == pre + [x];
      var front := Tally(pre);
      AddOneTotal(front, x);
      TallyCounts(front, pre, x);
      AddOne(front, x)
  }

  lemma {:induction false} TallyCounts(front: seq<Frequency>, pre: seq<string>, x: string)
    requires Ascending(front)
    requires forall y :: Lookup(front, y) == multiset(pre)[y]
    ensures forall y :: Lookup(AddOne(front, x), y) == multiset(pre + [x])[y]
  {
    forall y
      ensures Lookup(AddOne(front, x), y) == multiset(pre + [x])[y]
    {
      AddOneCounts(front, x, y);
    }
  }

  /** `$match {movieId}`: the stored scores of the reviews of movie `m`, in collection order. */
  function ScoresOf(critics: seq<Critic>, m: ObjectId): seq<string>
    decreases |critics|
  {
    if |critics| == 0 then []
    else
      var front := ScoresOf(critics[..|critics| - 1], m);
      var c := critics[|critics| - 1];
      if c.movie == m then front + [c.originalScore] else front
  }

  /** Positions of the reviews of movie `m`. */
  ghost function ReviewsOf(critics: seq<Critic>, m: ObjectId): set<nat> {
    set i: nat | i < |critics| && critics[i].movie == m
  }

  /** Positions of the reviews of movie `m` whose stored score is `v`. */
  ghost function ReviewsRated(critics: seq<Critic>, m: ObjectId, v: string): set<nat> {
    set i: nat | i < |critics| && critics[i].movie == m && critics[i].originalScore == v
  }

  lemma {:induction false} ReviewsSnoc(critics: seq<Critic>, m: ObjectId, v: string)
    requires |critics| > 0
    ensures var n := |critics| - 1;
      ReviewsOf(critics, m) == ReviewsOf(critics[..n], m) + (if critics[n].movie == m then {n} else {})
    ensures var n := |critics| - 1;
      ReviewsRated(critics, m, v) ==
        ReviewsRated(critics[..n], m, v) + (if critics[n].movie == m && critics[n].originalScore == v then {n} else {})
  {
    var n := |critics| - 1;
    assert forall i :: 0 <= i < n ==> critics[..n][i] == critics[i];
  }

  /** The filtered scores count exactly the movie's reviews, in total and per score. */
  lemma {:induction false} ScoresCount(critics: seq<Critic>, m: ObjectId, v: string)
    ensures multiset(ScoresOf(critics, m))[v] == |ReviewsRated(critics, m, v)|
    ensures |ScoresOf(critics, m)| == |ReviewsOf(critics, m)|
    decreases |critics|
  {
    if |critics| == 0 {
      assert ReviewsRated(critics, m, v) == {};
      assert ReviewsOf(critics, m) == {};
    } else {
      var n := |critics| - 1;
      ScoresCount(critics[..n], m, v);
      ReviewsSnoc(critics, m, v);
      assert n !in ReviewsOf(critics[..n], m) && n !in ReviewsRated(critics[..n], m, v);
    }
  }

  /** The report's stages for the reviews of movie `m`. */
  function RatingFrequencies(critics: seq<Critic>, m: ObjectId): seq<Frequency> {
    Tally(ScoresOf(critics, m))
  }

  /**
    The report for the movie titled `title`. Without such a movie, reading
    `_id` off the missing document throws and no report is produced.
  */
  function FrequencyReport(s: Store, title: string): (r: Option<seq<Frequency>>)
    ensures r.None? <==> !Keyed.Has(s.movies, Title, title)
  {
    match Keyed.Get(s.movies, Title, title)
    case None => None
    case Some(movie) => Some(RatingFrequencies(s.critics, movie.id))
  }

  /**
    Ratings come out distinct and ascending; each frequency is at least 1 and is
    the number of the movie's reviews with that score; every score of the movie
    is listed; and the frequencies add up to the number of its reviews.
  */
  lemma {:induction false} FrequencyReportSpec(s: Store, title: string)
    requires FrequencyReport(s, title).Some?
    ensures Ascending(FrequencyReport(s, title).value)
    ensures forall i :: 0 <= i < |FrequencyReport(s, title).value| ==>
              var f := FrequencyReport(s, title).value[i];
              1 <= f.frequency == |ReviewsRated(s.critics, Keyed.Get(s.movies, Title, title).value.id, f.rating)|
    ensures forall i :: 0 <= i < |s.critics| && s.critics[i].movie == Keyed.Get(s.movies, Title, title).value.id ==>
              exists j :: 0 <= j < |FrequencyReport(s, title).value| && FrequencyReport(s, title).value[j].rating == s.critics[i].originalScore
    ensures Total(FrequencyReport(s, title).value) == |ReviewsOf(s.critics, Keyed.Get(s.movies, Title, title).value.id)|
  {
    var m := Keyed.Get(s.movies, Title, title).value.id;
    var fs := FrequencyReport(s, title).value;
    assert fs == Tally(ScoresOf(s.critics, m));
    forall i | 0 <= i < |fs|
      ensures 1 <= fs[i].frequency == |ReviewsRated(s.critics, m, fs[i].rating)|
    {
      LookupAt(fs, i);
      ScoresCount(s.critics, m, fs[i].rating);
    }
    forall i | 0 <= i < |s.critics| && s.critics[i].movie == m
      ensures exists j :: 0 <= j < |fs| && fs[j].rating == s.critics[i].originalScore
    {
      var v := s.critics[i].originalScore;
      ScoresCount(s.critics, m, v);
      assert i in ReviewsRated(s.critics, m, v);
      if forall j :: 0 <= j < |fs| ==> fs[j].rating != v {
        LookupAbsent(fs, v);
        assert false;
      }
    }
    ScoresCount(s.critics, m, "");
  }
}
