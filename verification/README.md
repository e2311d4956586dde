# Movie ratings ingestion, modelled in Dafny

The Movie-mongoose application has one loader per CSV file: movies, critic
reviews and user reviews. Each loader writes its rows into a MongoDB
database. The startup routine as written has every loader call commented
out. It then prints three reports: rating frequencies, the top critic, and
the highest average user rating. This project models the three loaders and
the first two reports.

- **Field normalisers** (module `Normalize`):
  - `isBoolean` turns a flag column into a boolean;
  - `preprocessFraction`, `preprocessLetter` and `preprocessRating` turn a
    critic's `originalScore` text into a value on the 0–5 scale.
- **JavaScript numbers** (module `JsNumber`) supply the parts of the number
  semantics the fraction path relies on:
  - `Number(text)`, division and multiplication, kept exact on a sign plus a
    real magnitude, with NaN and the infinities;
  - `toFixed(1)` and `String(number)`.
- **Ingestion** (module `Ingest`). Each `readCSV*` function becomes a left fold
  of a per-row step over the file's rows, acting on a `Store` that holds the
  three collections and the next free `_id`.
  - Movies are upserted by `movieTitle`.
  - Critics look up their movie by `movieId`, then are upserted by `reviewId`.
  - Users look up their movie, then are appended.
  - A row whose step throws is logged and skipped, so the store is left
    exactly as it was.
- **Reports**: the rating-frequency report (module `Frequencies`) and the
  top-critic report (module `TopCritic`). Both are pure functions of the
  collections. Module `Reports` runs them in turn. When no movie has the
  report's title, `findOne` yields `null`, reading `_id` off it throws, and
  neither report is produced.
- **Support modules**:
  - `Records` holds the row and document types;
  - `Keyed` holds the `findOne` and upsert operations on a collection kept
    in insertion order;
  - `StringOrder` holds the string order `$sort` applies to the String field
    `originalScore`.

Ratings are counted in tenths of a point. The fraction path's value is
modelled exactly rather than in binary floating point. Its sign, NaN and
infinities are kept, so `"0/0"` and `"3/0"` give the texts `NaN` and
`Infinity`, as `toFixed` would. `preprocessRating` does not return one type:
- the fraction path returns `toFixed`'s text;
- the letter and default paths return a number.

The schema declares `originalScore` as a String, so the model stores the text
the value becomes. `"8/10"` is stored as `"4.0"` but `"A-"` as `"4"`, and the
reports compare these texts in string order.

## Model

| member | source | states |
|---|---|---|
| Normalize.IsBoolean | app.ts:153-160 | the flag is false exactly when the column is the text "False"; a missing column is true |
| Normalize.IsBooleanTable | app.ts:153-160 | "False" gives false; "True", "false", the empty text and a missing column all give true |
| Normalize.FirstPart | app.ts:163 | the numerator text contains no `/`, and is the text before the first `/`, or the whole text when there is none |
| Normalize.SecondPart | app.ts:163 | the denominator text is missing exactly when there is no `/`; otherwise it is the text between the first `/` and the next `/` (or the end), and contains no `/` |
| Normalize.PreprocessFraction | app.ts:162-166 | the result is a decimal exactly when the numerator is finite and the denominator is infinite or a non-zero finite number; a NaN part gives "NaN"; a zero denominator gives "NaN" for 0/0 and a signed "Infinity" otherwise; an infinite numerator gives "NaN" over an infinite denominator and a signed "Infinity" over a finite one; a finite numerator over an infinite denominator gives "0.0"; nothing throws |
| Normalize.FractionRounding | app.ts:164-165 | for finite parts and a non-zero denominator, the result is the nearest tenth to 5·n/d, with a tie going away from zero, and it is negative exactly when the signs differ and n ≠ 0 |
| Normalize.FractionInRange | app.ts:162-166 | with 0 ≤ n ≤ d and d > 0, the result is a non-negative decimal of at most 5.0 |
| Normalize.FirstTwoPartsOnly | app.ts:163 | text after a second `/` never changes the result |
| Normalize.FractionOfNaturals | app.ts:162-166 | for natural n and d > 0 written in decimal, the tenth count equals the integer reference (100·n + d) div (2·d) |
| Normalize.EightTenths | app.ts:162-166 | "8/10" is stored as "4.0" |
| Normalize.TwelveTenths | app.ts:162-166 | nothing is clamped: "12/10" is stored as "6.0" |
| Normalize.OneTwentieth | app.ts:162-166 | the tie 0.25 rounds up: "1/20" is stored as "0.3" |
| Normalize.NotANumberPart | app.ts:162-166 | a numerator `Number` cannot read makes the result NaN: "abc/10" is stored as "NaN" |
| Normalize.AbcNotANumber | app.ts:163 | `Number("abc")` is NaN: the text is neither a decimal, a `0x`/`0o`/`0b` literal, `Infinity` nor blank |
| Normalize.PreprocessLetter | app.ts:169-186 | the i-th listed grade gets the i-th value of the list 5.0, 4.5, … 0.5, 0, 0, 0; the value is at most 5.0; a text the table lacks gives 0 |
| Normalize.LetterTableKeys | app.ts:170-184 | the table has a value for exactly the 13 listed grades |
| Normalize.LetterTableShape | app.ts:170-184 | along the listed grade order the values read 5.0, 4.5, … 0.5, 0, 0, 0; each is within 0–5.0 and none is higher than an earlier one |
| Normalize.GradeTable | app.ts:169-196 | each grade's value, one by one, and every listed grade is normalised to its table value |
| Normalize.PreprocessRating | app.ts:188-196 | the fraction path is taken exactly when the text contains `/`, even for a text that looks like a grade; otherwise a listed grade gives its table value and any other text gives 0 |
| Normalize.NumberReadsBack | app.ts:185 | the text a letter or default rating is stored as reads back, with `Number`, as the same value |
| Normalize.FractionReadsBack | app.ts:165 | the text a finite fraction rating is stored as reads back, with `Number`, as the rounded value, sign of zero included |
| Normalize.PathsStoreDifferently | app.ts:188-196 | the same score 4.0 is stored as "4.0" from the fraction path and "4" from the letter path |
| JsNumber.Divide | app.ts:164 | finite over non-zero finite is the exact quotient; over zero it is NaN when the numerator is zero and a signed infinity otherwise; an infinite result is signed by the operands; infinity over infinity is NaN; infinity over a finite number is a signed infinity; a finite number over infinity is a signed zero; NaN propagates |
| JsNumber.Multiply | app.ts:164 | finite times finite is the exact product; infinity times a non-zero finite number is a signed infinity; NaN propagates |
| JsNumber.ToFixed1 | app.ts:165 | NaN gives "NaN", an infinity gives a signed "Infinity", and a finite x gives the tenth count within half a tenth of 10·abs(x), negative exactly when x < 0 |
| JsNumber.WholeTextRoundTrip | app.ts:163 | `Number` reads a natural number's decimal digits back as that number |
| JsNumber.FixedTextRoundTrip | app.ts:165 | `Number` reads the text of `toFixed(1)` back as the rounded value, sign of zero included |
| JsNumber.TenthsTextRoundTrip | app.ts:185 | `Number` reads back the text `String` gives a non-negative multiple of 0.1 |
| Keyed.Get | app.ts:60 | `findOne` on a field finds a document exactly when one has that key, and the document it returns carries the key |
| Keyed.Put | app.ts:25-29 | after an upsert the key finds the new document; every other key finds what it found before; keys stay unique; length grows only for a new key; no other document changes |
| StringOrder.LessIrreflexive | app.ts:243 | no rating text sorts before itself |
| StringOrder.LessTransitive | app.ts:243 | the sort order on rating texts is transitive |
| StringOrder.LessTotal | app.ts:243 | any two different rating texts are ordered one way or the other |
| Ingest.UpsertMovie | app.ts:25-29 | afterwards the title finds a movie with exactly the row's columns; an existing title keeps its `_id`; a new title gets a fresh `_id`; other titles are unchanged; critics and users are untouched |
| Ingest.UpsertMovieValid | app.ts:25-29 | a movie upsert keeps titles and `_id`s unique and issued |
| Ingest.IngestMovies | app.ts:21-37 | the movie fold leaves critics and users alone and keeps the store's invariants |
| Ingest.MoviesLastWriteWins | app.ts:21-37 | after the fold, a title in the rows finds the columns of its last row, and a title not in the rows finds what it found before |
| Ingest.MoviesKeepIds | app.ts:25-29 | a title already stored keeps its `_id` whatever rows are ingested |
| Ingest.CoveredIngestRefreshes | app.ts:21-37 | when every row's title is already stored, the fold updates each movie in place from its title's last row and adds nothing |
| Ingest.MoviesIdempotent | app.ts:21-37 | ingesting the same movie rows twice gives the same store as ingesting them once |
| Ingest.AcceptCritic | app.ts:60-80 | a critic row yields a document exactly when its `movieId` finds a movie and it has a score column; the document refers to that movie's `_id`, holds each flag as `isBoolean` of its column, holds the score as normalised and stored, and copies every other column |
| Ingest.CriticStep | app.ts:56-93 | a critic row leaves movies and users alone; a row that yields no document (unknown movie, or no score column) leaves the store unchanged; otherwise its review id finds the new document and every other review id finds what it did before |
| Ingest.IngestCritics | app.ts:56-93 | the critic fold never modifies movies or users and keeps the store's invariants |
| Ingest.CriticsLastWriteWins | app.ts:81-85 | after the fold, each review id finds the document of its last accepted row, or what it found before if no row was accepted for it |
| Ingest.CriticsAppend | app.ts:55-93 | ingesting two files in turn is ingesting their concatenation |
| Ingest.CriticRowSkipped | app.ts:58-92 | a row that fails is skipped and processing continues: the result is that of the file without it |
| Ingest.AcceptUser | app.ts:116-133 | a user row yields a document exactly when its `movieId` finds a movie; the document refers to that movie's `_id`, holds the four flags through `isBoolean`, and copies every other column |
| Ingest.UserStep | app.ts:112-142 | a user row with a known movie appends exactly one document describing it and keeps the existing users; an unknown movie leaves the store unchanged; movies and critics are never touched |
| Ingest.IngestUsers | app.ts:112-142 | the user fold keeps the existing users as a prefix, never touches movies or critics, and keeps the store's invariants |
| Ingest.UsersAppended | app.ts:134 | the fold appends exactly the accepted users, in file order, after the existing ones |
| Ingest.AcceptedUsersSplit | app.ts:111-142 | the users of two concatenated files are those of the first followed by those of the second |
| Ingest.OneUserPerRow | app.ts:116-134 | a single row yields exactly one user describing it when its movie is found, and none otherwise |
| Ingest.NoUsersForUnknownMovies | app.ts:116-119 | rows whose movies are all unknown append nothing |
| Frequencies.AddOneCounts | app.ts:230-233 | counting one more rating adds one to its count and leaves every other rating's count unchanged |
| Frequencies.Tally | app.ts:229-244 | the grouped counts are strictly ascending by rating, each is at least 1, each equals the rating's multiplicity in the input, and they add up to the input length |
| Frequencies.ScoresCount | app.ts:227-228 | the `$match` keeps, per score and in total, exactly the reviews of the movie |
| Frequencies.FrequencyReport | app.ts:223-245 | there is no report exactly when no movie has the title |
| Frequencies.FrequencyReportSpec | app.ts:226-245 | the ratings are distinct and ascending; each frequency is at least 1 and equals the number of the movie's reviews with that score; every score the movie received is listed; the frequencies add up to the number of its reviews |
| TopCritic.Join | app.ts:250-260 | every joined pair is a review with a movie whose `_id` it refers to, and every such review–movie combination is in the join |
| TopCritic.Best | app.ts:261-278 | the pick is absent exactly for an empty input, comes from the input, and scores at least as high as every element |
| TopCritic.GroupIds | app.ts:265-266 | every referenced movie has a group, and no movie has two |
| TopCritic.Group | app.ts:265-271 | a group holds exactly the pairs of its movie |
| TopCritic.EntriesCover | app.ts:261-272 | every pair of a group scores no higher than some group entry |
| TopCritic.EntriesFromPairs | app.ts:264-272 | every group entry is built from a single joined pair |
| TopCritic.JoinEmpty | app.ts:250-260 | the join is empty exactly when no review refers to a stored movie |
| TopCritic.TopBeatsAll | app.ts:249-279 | when some review refers to a stored movie, the report has one entry scoring at least as high as that review |
| TopCritic.TopFromOne | app.ts:264-279 | the entry's score, review id, critic name, movie id and movie title come from one review and the movie it refers to |
| Reports.RunReports | app.ts:223-281 | no report at all exactly when no movie has the title; otherwise the rating frequencies of that movie followed by the top-critic report |
| Reports.MissingTitleLosesTop | app.ts:224-225 | a missing title loses the top-critic report too, even when it would have had an entry |
| Reports.ReportsSpec | app.ts:226-279 | with the movie present both reports are printed: ascending frequencies summing to the movie's review count, and at most one top entry, absent exactly when no review refers to a stored movie |
| TopCritic.TopCriticSpec | app.ts:249-279 | at most one entry; empty exactly when no review refers to a stored movie; otherwise the entry is at least every such review's score, and all of its fields come from one of them |

## Left out

- Normalize.FractionOfNaturals: the tenth count is that of the exact
  quotient. The program first rounds (n / d) * 5 to a binary double, so a
  decimal tie can land just below it (19 of the 50 ties n/100 do), and the
  program then rounds it down where the model rounds it up. None of the
  ties n/20 or n/40 lands below it (`"1/20"` gives 0.25 exactly). For
  `"73/100"` the double is 3.6499999999…, and the program stores `"3.6"` where the model gives
  `"3.7"`. `"3/100"`, `"29/100"` and `"61/100"` behave the same way.
- Normalize.FractionRounding: the nearest tenth is that of the exact 5·n/d,
  not of its double approximation, for the reason given for
  FractionOfNaturals.
- JsNumber: arithmetic is exact on reals rather than IEEE-754 doubles. So
  double rounding, overflow to infinity, subnormals and the exponent form
  `toFixed` uses from 1e21 up are not modelled. Rounding to a tenth is exact,
  half away from zero.
- Normalize.PreprocessLetter: a text that names an inherited property of a
  JavaScript object (`"constructor"`, `"toString"`) returns that property,
  not 0. The model gives 0. No such text reaches it from `preprocessRating`.
- Normalize.PreprocessRating: its contract does not restate the fraction
  path's value. That value is stated by PreprocessFraction and the lemmas
  about it.
- Mongoose casting, validation and strict-mode filtering are not modelled.
  - A row that fails a cast or a `required` check is stored as built.
  - The enum declarations are not checked.
- The unique indexes on `movieId` and `movieURL` are not modelled. In the
  program the store rejects a movie row whose `movieId` or `movieURL` is
  already held by another title, and the catch at app.ts:30-31 logs and
  skips it; the model stores the row. A `findOne` on `movieId` takes the
  first match in insertion order, which is a function whether or not the
  ids are unique.
- Ingest.CriticStep: the schema types `reviewId` as a Number, so the store
  matches review ids numerically (`"12"` and `"012"` are one document). The
  model compares them as text.
- `$sort` among equal keys: the model keeps collection order and takes the
  first, where MongoDB does not promise an order.
- The database connection, file streams, `csv-parser`, pause/resume,
  promise wiring, logging and the `nconf` configuration are I/O and are not
  modelled. Each ingest is a fold over an already parsed sequence of rows,
  and the report's movie title is a parameter.
- Stream-level errors (`on('error')`) are not modelled.
- The unused `processing` flags and the globals `row` and `resol` have no
  behaviour, so they are not modelled.
- The average-rating report (app.ts:295-330) works on floating-point
  averages and is not modelled. Its commented-out variant and the
  commented-out `deleteMany` and ingest calls are dead code.
