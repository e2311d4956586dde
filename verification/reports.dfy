/**
  The report step of `connectToDatabase`: the movie is looked up by title, its
  rating frequencies are computed, then the top critic. Without such a movie,
  reading `_id` off the missing document throws; the handler around the whole
  step catches it, so neither report is produced.
*/
module Reports {
  import opened Optional
  import Keyed
  import opened Records
  import opened Ingest
  import F = Frequencies
  import T = TopCritic

  /** The two reports, in the order they are printed. */
  datatype Printed = Printed(frequencies: seq<F.Frequency>, top: seq<T.Entry>)

  function RunReports(s: Store, title: string): (r: Option<Printed>)
    ensures r.None? <==> !Keyed.Has(s.movies, Title, title)
    ensures r.Some? ==> F.FrequencyReport(s, title) == Some(r.value.frequencies)
    ensures r.Some? ==> r.value.top == T.TopCriticReport(s.critics, s.movies)
  {
    match F.FrequencyReport(s, title)
    case None => None
    case Some(fs) => Some(Printed(fs, T.TopCriticReport(s.critics, s.movies)))
  }

  /**
    A missing title loses the top-critic report too, even when reviews refer
    to stored movies and that report would have an entry.
  */
  lemma {:induction false} MissingTitleLosesTop(s: Store, title: string, i: nat, j: nat)
    requires !Keyed.Has(s.movies, Title, title)
    requires i < |s.critics| && j < |s.movies| && s.movies[j].id == s.critics[i].movie
    ensures |T.TopCriticReport(s.critics, s.movies)| == 1
    ensures RunReports(s, title) == None
  {
    T.TopBeatsAll(s.critics, s.movies, i, j);
  }

  /** With the movie present, both reports are printed and each meets its own specification. */
  lemma {:induction false} ReportsSpec(s: Store, title: string)
    requires Keyed.Has(s.movies, Title, title)
    ensures RunReports(s, title).Some?
    ensures F.Ascending(RunReports(s, title).value.frequencies)
    ensures F.Total(RunReports(s, title).value.frequencies) ==
              |F.ReviewsOf(s.critics, Keyed.Get(s.movies, Title, title).value.id)|
    ensures |RunReports(s, title).value.top| <= 1
    ensures |RunReports(s, title).value.top| == 0 <==>
              forall i :: 0 <= i < |s.critics| ==> !Keyed.Has(s.movies, Oid, s.critics[i].movie)
  {
    F.FrequencyReportSpec(s, title);
    T.TopCriticSpec(s.critics, s.movies);
  }
}
