/**
 * The records of the vocabulary service (internal/models): dictionary entries, users,
 * per-user learning records, the review log and the statistics view, plus the
 * closed set of failures the services report.
 *
 * Instants are Go `time.Time` values written as integer nanoseconds since the Unix epoch,
 * durations are Go `time.Duration` values in nanoseconds, and ease factors are reals.
 */
module Models {
  import opened Wrappers

  const Second: int := 1_000_000_000
  const Hour: int := 3600 * Second
  const Day: int := 24 * Hour

  /** The UTC calendar day (days since the epoch) an instant falls on: `t.UTC().Truncate(24 * time.Hour)`. */
  function DayOf(t: int): int {
    t / Day
  }

  /** The learning status of a user_words row. */
  datatype Status = Learning | Reviewing | Mastered

  /** The string stored in the status column. */
  function StatusName(s: Status): (name: string)
    ensures name in {"learning", "reviewing", "mastered"}
  {
    match s
    case Learning => "learning"
    case Reviewing => "reviewing"
    case Mastered => "mastered"
  }

  datatype User = User(id: int, username: string, createdAt: int)

  datatype Phonetic = Phonetic(text: string, audio: string)

  datatype Definition = Definition(definition: string, example: string, synonyms: seq<string>, antonyms: seq<string>)

  /** One part of speech of a word, with its definitions and meaning-level synonyms/antonyms. */
  datatype Meaning = Meaning(partOfSpeech: string, definitions: seq<Definition>, synonyms: seq<string>, antonyms: seq<string>)

  /** A dictionary entry; `id` is the words-table key (0 for an entry not read from the table). */
  datatype Word = Word(
    id: int,
    word: string,
    phonetic: string,
    meanings: seq<Meaning>,
    phonetics: seq<Phonetic>,
    sourceUrls: seq<string>)

  /** A row of the user_words table. */
  datatype UserWordRow = UserWordRow(
    id: int,
    userId: int,
    wordId: int,
    addedAt: int,
    status: Status,
    nextReviewDate: int,
    easeFactor: real,
    intervalDays: int)

  /** `models.UserWord`: a user_words row joined with its word's headword. */
  datatype UserWord = UserWord(row: UserWordRow, word: string)

  /** A row of the review_history table. */
  datatype ReviewRow = ReviewRow(
    id: int,
    userId: int,
    wordId: int,
    reviewedAt: int,
    quality: int,
    intervalDays: int,
    easeFactor: real)

  /** `models.ReviewHistory`: a review_history row joined with its word's headword. */
  datatype ReviewHistory = ReviewHistory(row: ReviewRow, word: string)

  datatype UserStats = UserStats(
    username: string,
    totalWords: nat,
    dueToday: nat,
    learning: nat,
    reviewing: nat,
    mastered: nat,
    totalReviews: nat,
    currentStreak: nat,
    lastReviewDate: Option<int>)

  /** Why the external dictionary could not supply a word (pkg/dictionary). */
  datatype FetchError =
    | TransportFailed       // "failed to fetch word: ..."
    | NotFound              // "word not found" (HTTP 404)
    | BadStatus(code: int)  // "API returned status %d: ..."
    | DecodeFailed          // "failed to decode response: ..."
    | EmptyResponse         // "empty response from API"

  /** Why a word lookup failed (WordService.GetWord). */
  datatype WordError =
    | FetchFailed(cause: FetchError)  // "failed to fetch from API: ..."
    | RetrieveFailed                  // "failed to retrieve word: ..." (a storage fault other than no rows)

  /** The step of a database transaction that failed. */
  datatype TxStep = Begin | Update | Insert | Commit

  /** The failures the services report, one variant per distinct error message. */
  datatype Error =
    | UserNotFound                    // "user not found"
    | UsernameLength                  // "username must be between 3 and 20 characters"
    | UsernameChars                   // "username can only contain letters, numbers, and underscores"
    | UsernameTaken                   // "username already exists"
    | CreateUserFailed                // "failed to create user: ..."
    | WordEmpty                       // "word cannot be empty"
    | WordUnavailable(cause: WordError) // "failed to fetch word: ..." / "word not found: ..."
    | UserWordNotFound                // "user word not found"
    | NotInStudyList                  // "word not in user's study list: ..."
    | QualityOutOfRange               // "quality must be between 0 and 5"
    | TransactionFailed(step: TxStep) // "failed to begin transaction" / "failed to update user word" / ...
}
