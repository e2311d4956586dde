/**
  The rows read from the three CSV files and the documents the ingestors build
  from them. A CSV row is a record of text columns; the flag columns and the
  critic's score column may be missing altogether, which is what `undefined`
  means for them.
*/
module Records {
  import opened Optional
  import opened Normalize

  /** The store-assigned `_id` of a movie document. */
  type ObjectId = nat

  /** One line of the movies file. */
  datatype MovieRow = MovieRow(
    movieId: string,
    movieTitle: string,
    movieYear: string,
    movieURL: string,
    movieRank: string,
    critic_score: string,
    audience_score: string)

  /** A movie document: its `_id` and the columns written by the last row with its title. */
  datatype Movie = Movie(id: ObjectId, fields: MovieRow)

  function RowTitle(row: MovieRow): string { row.movieTitle }
  function Title(m: Movie): string { m.fields.movieTitle }
  function NaturalId(m: Movie): string { m.fields.movieId }
  function Oid(m: Movie): ObjectId { m.id }

  /** One line of the critic reviews file. */
  datatype CriticRow = CriticRow(
    movieId: string,
    reviewId: string,
    scoreSentiment: string,
    creationDate: string,
    criticName: string,
    criticPageUrl: string,
    reviewState: string,
    isFresh: Option<string>,
    isRotten: Option<string>,
    isRtUrl: Option<string>,
    isTopCritic: Option<string>,
    publicationUrl: string,
    publicationName: string,
    reviewUrl: string,
    originalScore: Option<string>)

  /** A critic document; `movie` refers to a movie's `_id` and `originalScore` holds text. */
  datatype Critic = Critic(
    reviewId: string,
    scoreSentiment: string,
    movie: ObjectId,
    creationDate: string,
    criticName: string,
    criticPageUrl: string,
    reviewState: string,
    isFresh: bool,
    isRotten: bool,
    isRtUrl: bool,
    isTopCritic: bool,
    publicationUrl: string,
    publicationName: string,
    reviewUrl: string,
    originalScore: string)

  function ReviewId(c: Critic): string { c.reviewId }

  /** One line of the user reviews file. */
  datatype UserRow = UserRow(
    movieId: string,
    rating: string,
    reviewId: string,
    isVerified: Option<string>,
    isSuperReviewer: Option<string>,
    hasSpoilers: Option<string>,
    hasProfanity: Option<string>,
    score: string,
    creationDate: string,
    userDisplayName: string,
    userRealm: string,
    userId: string)

  /** A user review document. */
  datatype User = User(
    movie: ObjectId,
    rating: string,
    reviewId: string,
    isVerified: bool,
    isSuperReviewer: bool,
    hasSpoilers: bool,
    hasProfanity: bool,
    score: string,
    creationDate: string,
    userDisplayName: string,
    userRealm: string,
    userId: string)

  function BuildCritic(row: CriticRow, movie: ObjectId, score: string): Critic {
    Critic(row.reviewId, row.scoreSentiment, movie, row.creationDate, row.criticName,
           row.criticPageUrl, row.reviewState, IsBoolean(row.isFresh), IsBoolean(row.isRotten),
           IsBoolean(row.isRtUrl), IsBoolean(row.isTopCritic), row.publicationUrl,
           row.publicationName, row.reviewUrl, StoredText(PreprocessRating(score)))
  }

  function BuildUser(row: UserRow, movie: ObjectId): User {
    User(movie, row.rating, row.reviewId, IsBoolean(row.isVerified), IsBoolean(row.isSuperReviewer),
         IsBoolean(row.hasSpoilers), IsBoolean(row.hasProfanity), row.score, row.creationDate,
         row.userDisplayName, row.userRealm, row.userId)
  }

  /**
    What a critic document built from `row` for the movie `movie` holds: the
    movie reference, each flag true unless its column reads exactly "False",
    the score as normalised and stored as text, and every other column as is.
  */
  ghost predicate DescribesCritic(c: Critic, row: CriticRow, movie: ObjectId) {
    && row.originalScore.Some?
    && c.movie == movie
    && (c.isFresh <==> row.isFresh != Some("False"))
    && (c.isRotten <==> row.isRotten != Some("False"))
    && (c.isRtUrl <==> row.isRtUrl != Some("False"))
    && (c.isTopCritic <==> row.isTopCritic != Some("False"))
    && c.originalScore == StoredText(PreprocessRating(row.originalScore.value))
    && c.reviewId == row.reviewId
    && c.scoreSentiment == row.scoreSentiment
    && c.creationDate == row.creationDate
    && c.criticName == row.criticName
    && c.criticPageUrl == row.criticPageUrl
    && c.reviewState == row.reviewState
    && c.publicationUrl == row.publicationUrl
    && c.publicationName == row.publicationName
    && c.reviewUrl == row.reviewUrl
  }

  /** What a user document built from `row` for the movie `movie` holds. */
  ghost predicate DescribesUser(u: User, row: UserRow, movie: ObjectId) {
    && u.movie == movie
    && (u.isVerified <==> row.isVerified != Some("False"))
    && (u.isSuperReviewer <==> row.isSuperReviewer != Some("False"))
    && (u.hasSpoilers <==> row.hasSpoilers != Some("False"))
    && (u.hasProfanity <==> row.hasProfanity != Some("False"))
    && u.rating == row.rating
    && u.reviewId == row.reviewId
    && u.score == row.score
    && u.creationDate == row.creationDate
    && u.userDisplayName == row.userDisplayName
    && u.userRealm == row.userRealm
    && u.userId == row.userId
  }
}
