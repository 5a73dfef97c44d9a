# words — a verified model of the vocabulary-learning engine

This project models the core of `words`, a Go service for learning vocabulary with
spaced repetition, and proves properties of that model in Dafny.

- **Users** keep a study list of dictionary words.
- **Dictionary entries** are looked up in a local SQLite cache first and fetched from an
  external dictionary on a miss.
- **Reviews** are rated 0–5. Each rating reschedules the word with a variant of the SuperMemo
  SM-2 algorithm and appends a row to the review log.
- **Sessions** are kept in an in-memory token map.
- **A batch importer** loads the Wordset dictionary, merges duplicate headwords, groups
  definitions by part of speech and saves each word in its own transaction.

The modules follow the source layout:

| module | file | models |
|---|---|---|
| `Models` | `models.dfy` | the records of `internal/models`; the service errors, one per message |
| `Storage` | `storage.dfy` | the tables, as fields of one `Database` object (`users`, `words` with its unique headword index, `userWords`, `history`, id counters); the table integrity the services keep; the row lookups of the `WHERE` clauses |
| `Text` | `text.dfy` | Go's `strings.TrimSpace`; `strings.ToLower` on the ASCII, Latin-1, Greek and Cyrillic capitals; UTF-8 byte length for `len` |
| `Ordering` | `ordering.dfy` | `ORDER BY`: sorted insertion by an integer key |
| `Dictionary` | `dictionary.dfy` | `pkg/dictionary/client.go` |
| `WordService` | `word_service.dfy` | the cache-aside `GetWord` with `getFromDB` and `saveToDB` |
| `UserService` | `user_service.dfy` | username validation, `CreateUser`, `GetUser`, the statistics and the streak |
| `VocabularyService` | `vocabulary_service.dfy` | `AddWord`, `GetUserWords`, `GetUserWord`, `GetUserWordByID` |
| `Sm2` | `sm2.dfy` | `calculateSM2` and the next-review instant |
| `ReviewService` | `review_service.dfy` | `GetDueWords`, `SubmitReview`, `GetReviewHistory` |
| `Sessions` | `session.dfy` | the `SessionStore` class |
| `Importer` | `importer.dfy` | `cmd/importer/main.go`: the `WordIndex` class, the Wordset conversion, file loading and the batch import |

Representation:

- Wall-clock time is an explicit `now` parameter, in integer nanoseconds. Calendar days are
  `now / Day`.
- Ease factors are `real`.
- Anything the code cannot decide itself becomes a parameter: a storage fault, the
  dictionary's HTTP answer per URL, a failing transaction step, the session token.
- Code that changes state is imperative Dafny over the `Database` fields or class fields.
  This covers inserts, transactions, the session map and the importer's index.
- Row-scanning loops are read-only methods. Each is proved against a selection function:
  the result is sorted by the `ORDER BY` key and is a permutation of the selected rows.
- Pure code (the SM-2 arithmetic, validation, classification, conversion) is written as
  functions, with lemmas about them.

The tables' integrity is `Storage.Database.Valid`, and every state-changing method keeps it:

- usernames key their rows;
- ids start at 1 and are below the next id;
- the headword index and the word rows agree both ways;
- user_words ids are distinct and hold at most one row per (user, word).

The schema declares only the headword uniqueness (`word TEXT NOT NULL UNIQUE`). The
(user, word) uniqueness is kept by `AddWord`'s existence check, and the model proves it
is kept.

## Model

| member | source | states |
|---|---|---|
| Text.TrimLeft | internal/services/user_service.go:26 | the result is a suffix of the input; everything dropped is white space; the result does not start with white space |
| Text.TrimRight | internal/services/user_service.go:26 | the result is a prefix of the input; everything dropped is white space; the result does not end with white space |
| Text.TrimSpace | internal/services/vocabulary_service.go:37 | a non-empty result starts and ends with a non-space character (Go's Unicode white-space set) |
| Text.TrimLeftIdle | internal/services/user_service.go:26 | trimming the left of a string that does not start with white space changes nothing |
| Text.TrimRightIdle | internal/services/user_service.go:26 | trimming the right of a string that does not end with white space changes nothing |
| Text.TrimSpaceIdempotent | internal/services/user_service.go:26 | trimming twice is trimming once |
| Text.LowerChar | internal/services/word_service.go:29 | the capitals of the ASCII, Latin-1, Greek and Cyrillic blocks map to their small letters (`A`–`Z`, `À`–`Þ` without `×`, `Α`–`Ω` and `А`–`Я` by +32; `Ѐ`–`Џ` by +80); every other character is kept; the result is never a capital; white space is preserved both ways |
| Text.ToLower | internal/services/word_service.go:29 | same length, each character lowered by `LowerChar`, no capital left |
| Text.ToLowerIdempotent | internal/services/word_service.go:29 | lowering twice is lowering once |
| Text.ToLowerOfLower | cmd/importer/main.go:45 | a string with no upper-case letter is its own lowercase |
| Text.TrimSpaceToLower | internal/services/vocabulary_service.go:37 | lowering keeps white space where it is, so trimming and lowering commute |
| Text.LoweredTrimIsCore | internal/services/vocabulary_service.go:37 | the lowered trim of a string is its lowered infix, with only white space cut off on either side |
| Text.Utf8Width | internal/services/user_service.go:27 | a character takes 1–4 bytes, exactly 1 iff it is ASCII |
| Text.ByteLen | internal/services/user_service.go:27 | the byte length lies between the character count and four times it |
| Text.ByteLenAscii | internal/services/user_service.go:27 | for ASCII text `len` equals the character count |
| Text.ByteLenNonAscii | internal/services/user_service.go:27 | any non-ASCII character makes `len` exceed the character count |
| Models.StatusName | internal/services/review_service.go:158-173 | the stored status is one of "learning", "reviewing", "mastered" |
| Ordering.InsertBySorted | internal/services/vocabulary_service.go:102 | inserting into a sorted sequence keeps it sorted by the key and adds exactly the new element (multiset) |
| Storage.Database.constructor | internal/database/database.go:11-28 | a new database is empty and valid |
| Storage.FindUserWord | internal/services/vocabulary_service.go:50-52 | finds the first row of the (user, word) pair; none iff no row has that pair |
| Storage.FindUserWordById | internal/services/vocabulary_service.go:149-155 | finds a row with the id; none iff no row has it |
| Storage.FindAfterAppend | internal/services/vocabulary_service.go:61-64 | after an insert, every earlier pair lookup is unchanged and an absent pair now finds the new row |
| Storage.FindByIdAfterAppend | internal/services/vocabulary_service.go:70-76 | a row inserted with a fresh id is the one read back by that id |
| Storage.AppendKeepsUserWordsValid | internal/services/vocabulary_service.go:59-64 | inserting a row with the next id for an absent pair keeps ids distinct and pairs unique |
| Storage.FindAfterUpdate | internal/services/review_service.go:109-113 | rewriting a row in place, keeping its pair, changes no pair lookup |
| Storage.UpdateKeepsUserWordsValid | internal/services/review_service.go:109-113 | rewriting a row, keeping its id and pair, keeps the table valid |
| Storage.AppendKeepsHistoryValid | internal/services/review_service.go:120-123 | appending a log row with the next id keeps the log valid |
| Dictionary.RequestUrl | pkg/dictionary/client.go:14-32 | the URL is the API base, a slash, and exactly `ToLower(word)`, so no capital is sent |
| Dictionary.ConvertMeaning | pkg/dictionary/client.go:101-120 | part of speech and meaning-level synonyms and antonyms are copied; one definition per API definition, in order, with text, example, synonyms and antonyms |
| Dictionary.ConvertApiResponse | pkg/dictionary/client.go:62-123 | id 0; headword (not lowercased), phonetic and source URLs copied; one phonetic per API phonetic and one meaning per API meaning, in order |
| Dictionary.ConvertedLosesOnlyLicense | pkg/dictionary/client.go:62-123 | a converted word, with the licence added back, rebuilds the API entry exactly: the conversion drops only the licence |
| Dictionary.FetchWord | pkg/dictionary/client.go:31-60 | a transport error fails; 404 is "word not found", checked before any other non-200 status; an undecodable body fails; an empty array is "empty response"; otherwise exactly the first entry is converted |
| WordService.LoadWithoutFaults | internal/services/word_service.go:59-155 | with every read succeeding, loading returns the saved entry unchanged |
| WordService.LoadDegradesOnlyFailedLists | internal/services/word_service.go:122-132 | a failed synonym or antonym read never fails the load. It empties exactly that list, at meaning or definition level, and the entry's shape is kept |
| WordService.GetFromDB | internal/services/word_service.go:59-155 | a storage fault fails; an absent headword is "no rows"; a present one is loaded with its lists |
| WordService.SaveToDB | internal/services/word_service.go:158-268 | all or nothing: either the word is stored under the next id and indexed by its own headword, or (a fault, or a headword the UNIQUE index already holds) no word table changes |
| WordService.SaveThenLookup | internal/services/word_service.go:166-169 | after a save, a lookup of the saved headword is a hit and every other key answers as before: the row is keyed by the fetched headword, not by the query |
| WordService.GetWord | internal/services/word_service.go:28-56 | key = lowercased query. It fails iff there is a storage fault, or the key is not cached and the fetch fails (`LookupFails`). A storage fault fetches nothing. A hit returns the stored entry under its indexed id and writes nothing. A miss fetches: a failed fetch saves nothing; a successful one is returned whether or not the save succeeded, and a successful save of a new headword stores it and returns it under the new id A fetched word whose save fails, or whose headword is already stored under another key (`FetchedUnsaved`), is returned with id 0, which names no row, and the tables stay unchanged. |
| WordService.GetWordAsWritten | internal/services/word_service.go:47-52 | as written, a word fetched and saved is returned with id 0, which names no row, although the save stored it under a new id |
| UserService.UsernameCharsAreAscii | internal/services/user_service.go:31 | names matching `[a-zA-Z0-9_]+` are ASCII |
| UserService.ValidateUsername | internal/services/user_service.go:26-35 | an accepted name is the trimmed input, 3–20 bytes long, made of letters, digits and underscores; a rejection is the length error or the character error |
| UserService.AcceptedNameLength | internal/services/user_service.go:27 | an accepted name has 3–20 characters |
| UserService.AcceptsCleanName | internal/services/user_service.go:26-35 | every trimmed name of 3–20 valid characters is accepted unchanged |
| UserService.ValidateUsernameIdempotent | internal/services/user_service.go:26-35 | validating an accepted name again accepts it unchanged |
| UserService.Untrimmed | internal/services/user_service.go:26 | trimming a string with no white space at either end leaves it unchanged |
| UserService.RejectsLength | internal/services/user_service.go:27-29 | a trimmed ASCII name outside 3–20 characters gets the length error, whatever its characters |
| UserService.RejectsChars | internal/services/user_service.go:31-35 | a trimmed ASCII name of valid length with any character outside the class gets the character error |
| UserService.ValidateUsernameShortExample | internal/services/user_service.go:27-29 | "ab" gets the length error |
| UserService.ValidateUsernameCharsExample | internal/services/user_service.go:31-35 | "bad name!" gets the character error |
| UserService.ValidateUsernameTrims | internal/services/user_service.go:26 | " bob_1\n" is accepted as "bob_1" |
| UserService.GetUser | internal/services/user_service.go:55-69 | fails with "user not found" iff the username is absent; otherwise returns that user |
| UserService.CreateUser | internal/services/user_service.go:24-52 | validation failures, a taken name and a failed insert leave the users table unchanged; otherwise the user is stored under the next id, and GetUser on the name returns the result |
| UserService.LeadingRun | internal/services/user_service.go:209-220 | the count of leading one-day steps, plus one: each step inside is exactly one day, and the step after it (if any) is not |
| UserService.CalculateStreak | internal/services/user_service.go:170-223 | a failed query or parse gives 0; no dates, or a latest day more than one day before today, give 0; otherwise the streak is 1 plus the leading run of one-day steps, between 1 and the number of days |
| UserService.RunIsConsecutive | internal/services/user_service.go:209-220 | within the run, day j is exactly j days before the most recent day |
| UserService.StreakCountsConsecutiveDays | internal/services/user_service.go:200-220 | over strictly descending days, a positive streak n means the latest day is today or yesterday, the n latest days are consecutive, and the day before them has no review |
| UserService.StreakExample | internal/services/user_service.go:200-220 | days D, D−1, D−2, D−5 give 3 on day D and on day D+1, and 0 on day D+3 |
| UserService.InsertDay | internal/services/user_service.go:171-176 | adding a day to a strictly descending list keeps it strictly descending with exactly the old days plus the new one |
| UserService.ReviewDays | internal/services/user_service.go:171-176 | the user's distinct review days, strictly descending: a day is listed iff one of the user's reviews fell on it |
| UserService.LastReview | internal/services/user_service.go:147-153 | `MAX(reviewed_at)` of the user's reviews: none iff the user has none, otherwise one of them and not before any of them |
| UserService.DayOfMonotone | internal/services/user_service.go:200-201 | truncating to the day keeps order |
| UserService.LastReviewLeadsDays | internal/services/user_service.go:147-162 | when a last review exists the day list is non-empty and begins with that review's day |
| UserService.CountRows | internal/services/user_service.go:100-136 | a `COUNT(*)` never exceeds the table size |
| UserService.StatusCountsPartition | internal/services/user_service.go:117-136 | the learning, reviewing and mastered counts add up to the user's total |
| UserService.DueAmongTotal | internal/services/user_service.go:108-114 | the due count never exceeds the total |
| UserService.CountReviews | internal/services/user_service.go:139-144 | the review count is 0 iff the user has no last review |
| UserService.GetUserStats | internal/services/user_service.go:89-167 | unknown user fails; otherwise every count is the matching `COUNT(*)`, the status counts partition the total, the last review date is set only when it exists and parses, and the streak is positive only when the date parsed, the streak query succeeded and the user has reviews |
| VocabularyService.Normalize | internal/services/vocabulary_service.go:37 | the normalised word is the input with only white space cut off at either end and every character lowered; it has no capital and no surrounding white space |
| VocabularyService.NormalizeIgnoresCase | internal/services/vocabulary_service.go:37 | a word and its lowercase normalise to the same key |
| VocabularyService.NormalizeIdempotent | internal/services/vocabulary_service.go:37 | normalising twice is normalising once |
| VocabularyService.GetUserWord | internal/services/vocabulary_service.go:125-144 | fails with "user word not found" iff the pair has no row or its word row is missing (the join); otherwise the pair's row with its headword |
| VocabularyService.GetUserWordById | internal/services/vocabulary_service.go:147-166 | fails iff no row has the id or its word row is missing; otherwise that row with its headword |
| VocabularyService.UnsavedWordNeverJoins | internal/services/vocabulary_service.go:70-76 | a record whose word id names no word row is never read back by its id: the inner join drops it |
| VocabularyService.SelectUserWords | internal/services/vocabulary_service.go:87-100 | the join keeps exactly the kept rows whose word row exists, each with its headword |
| VocabularyService.QueryUserWords | internal/services/vocabulary_service.go:104-121 | the scanned rows are sorted by the key and are a permutation of the selected rows |
| VocabularyService.GetUserWords | internal/services/vocabulary_service.go:80-122 | unknown user fails; otherwise exactly this user's joined rows, filtered by status when one is given, newest added first |
| VocabularyService.AddStudyRecord | internal/services/vocabulary_service.go:49-76 | `Recorded`: success iff the word row exists, and a success is a record of that word. An existing pair leaves the table unchanged and returns the pair's record. Otherwise exactly one row is appended, with the next id, the word and the starting values (learning, EF 2.5, interval 1, next review in one hour); success returns that row, and a missing word row fails with "user word not found" |
| VocabularyService.InsertedRecordReadBack | internal/services/vocabulary_service.go:59-76 | the appended row is the one read back by its id, and from then on it is the pair's record |
| VocabularyService.AddWord | internal/services/vocabulary_service.go:29-77 | composed over the corrected `WordService.GetWord` of Findings row 1, so a first add of an uncached word succeeds here where the source as written fails with "user word not found". Unknown user and empty word fail before any lookup or write. For a known user and key = the normalised word: "word unavailable" iff the lookup of the key fails; otherwise `Recorded` holds for the looked-up word id. A cached key pins that id to the indexed one with the word tables unchanged; a fetched and freshly saved word gets the next word id and succeeds. Pairs stay unique When the fetched word is not saved (`FetchedUnsaved`), the id is 0 and the add fails with "user word not found", as in the source. |
| VocabularyService.StudyWord | internal/services/vocabulary_service.go:43-76 | the tail of AddWord over the corrected `WordService.GetWord` of Findings row 1 (as written, an uncached word arrives with id 0 and the read-back fails). "Word unavailable" iff the lookup fails; otherwise `Recorded` holds for the looked-up word id, which is the indexed id on a hit (word tables unchanged) and the next word id on a fresh save, both of which succeed When the fetched word is not saved (`FetchedUnsaved`), the id is 0 and the result is "user word not found". |
| Sm2.Round | internal/services/review_service.go:166 | `math.Round`: the nearest integer, halves away from zero |
| Sm2.CalculateSM2 | internal/services/review_service.go:140-183 | EF' = max(1.3, EF + delta(q)); q < 3 gives interval 1 and learning; q ≥ 3 after interval 1 gives 6; q ≥ 3 with any other prior interval gives round(prior × EF') (halves away from zero), floored at 1, which for a prior interval above 1 lies within 0.5 of prior × EF'; q ≥ 3 gives reviewing iff the interval < 21, else mastered; the interval is always ≥ 1 |
| Sm2.EaseDeltaTable | internal/services/review_service.go:147 | ratings 5..0 adjust the EF by +0.1, 0, −0.14, −0.32, −0.54, −0.8 |
| Sm2.EaseFactorMonotone | internal/services/review_service.go:147-152 | a better rating never gives a smaller EF |
| Sm2.EaseFactorDirection | internal/services/review_service.go:147-152 | above the floor, 5 raises the EF, 4 keeps it, 3 and below lower it |
| Sm2.IntervalGrows | internal/services/review_service.go:159-167 | a successful recall always lengthens an interval of at least a day |
| Sm2.MulNonNegative | internal/services/review_service.go:166 | the product of non-negative factors is non-negative |
| Sm2.StatusNotConsulted | internal/services/review_service.go:140 | the current status never affects the result |
| Sm2.WorkedExample | internal/services/review_service.go:161-174 | interval 6, EF 2.5, rating 5 give EF 2.6, 16 days, reviewing |
| Sm2.Wrap64 | internal/services/review_service.go:99 | the result is an int64, equal to the input when that fits |
| Sm2.NextReview | internal/services/review_service.go:99 | the next review lies at least a day after `now` for any interval ≥ 1 |
| Sm2.NextReviewAgreesWhileInRange | internal/services/review_service.go:99 | the as-written date equals `now` + interval days for intervals up to 106751 days |
| Sm2.NextReviewOverflows | internal/services/review_service.go:99 | at 106752 days the as-written date lies before `now` |
| Sm2.PerfectReviews | internal/services/review_service.go:140-183 | repeated ratings of 5 from a new record keep an interval of at least a day |
| Sm2.PerfectReviewsLengthen | internal/services/review_service.go:159-167 | every rating of 5 lengthens the interval, to at least 6 days |
| Sm2.TenPerfectReviewsOverflow | internal/services/review_service.go:99 | ten ratings of 5 reach 153069 days, whose as-written next review lies in the past |
| ReviewService.Reviewed | internal/services/review_service.go:90-113 | the row keeps its id, user, word and added date; EF ≥ 1.3, interval ≥ 1; q < 3 gives learning with interval 1, q ≥ 3 leaves learning. The next review comes from the corrected `Sm2.NextReview` of Findings row 2, so it lies at least a day away; the source as written can place it in the past |
| ReviewService.HistoryEntry | internal/services/review_service.go:120-123 | the log row holds the user, word, `now`, the rating and the same new interval and EF as the updated record |
| ReviewService.ReviewedNotDueForADay | internal/services/review_service.go:42 | a just-reviewed record is not due at any instant before a day has passed |
| ReviewService.GetDueWords | internal/services/review_service.go:29-63 | unknown user fails; otherwise exactly the user's joined rows due by `now`, earliest next review first |
| ReviewService.SubmitReview | internal/services/review_service.go:66-136 | a rating outside 0..5 fails before any lookup. Every failure leaves user_words and the log unchanged. For a valid rating and a known user: "word unavailable" iff the lookup of the lowercased word fails; otherwise `ReviewOutcome` holds for the looked-up word id, which is the indexed id on a hit (word tables unchanged) and the next word id on a fresh save. A success is a record of that word. The lookup is the corrected `WordService.GetWord` of Findings row 1 and the schedule the corrected `Sm2.NextReview` of Findings row 2 When the fetched word is not saved (`FetchedUnsaved`), the id is 0 and the review fails with "word not in user's study list". |
| ReviewService.ReviewStudied | internal/services/review_service.go:84-135 | `ReviewOutcome`: "not in study list" iff the pair has no readable record, with nothing written; a failing transaction step is reported as that step and writes nothing; otherwise it succeeds, the record is rescheduled in place and one log row with the same values is appended. The schedule is the corrected `Sm2.NextReview` of Findings row 2 |
| ReviewService.CommitReview | internal/services/review_service.go:101-132 | the record is rewritten in place and one log row appended with the next id, keeping the tables valid; the rescheduled values are those of `Reviewed`, over the corrected `Sm2.NextReview` of Findings row 2 |
| ReviewService.ReviewKeepsRecord | internal/services/review_service.go:109-135 | the rescheduled record keeps the table valid and is the pair's record read back by the join |
| ReviewService.SelectHistory | internal/services/review_service.go:200-207 | the join keeps exactly the log rows of the (user, word) pair when the word row exists |
| ReviewService.QueryHistory | internal/services/review_service.go:200-225 | the scanned log rows are newest first and a permutation of the pair's rows |
| ReviewService.GetReviewHistory | internal/services/review_service.go:186-226 | unknown user fails with no word-table change. For a known user: "word unavailable" iff the lookup of the lowercased word fails, and success otherwise. A cached word is looked up without writes under its indexed id; a fetched and freshly saved word gets the next word id; a fetched word that is not saved gets id 0 and an empty history. Success returns exactly the user's log rows for the looked-up word id (a permutation of `SelectHistory`), newest first. The lookup is the corrected `WordService.GetWord` of Findings row 1 |
| Sessions.Unexpired | internal/auth/session.go:94-100 | the sweep keeps exactly the sessions with now ≤ ExpiresAt, unchanged |
| Sessions.SessionStore.constructor | internal/auth/session.go:33-40 | a new store is empty |
| Sessions.SessionStore.CreateSession | internal/auth/session.go:43-61 | a token failure stores nothing; otherwise the session expires 24 h after `now` and is stored under its token, with every other entry untouched |
| Sessions.SessionStore.GetSession | internal/auth/session.go:64-79 | an unknown token fails and changes nothing; a session with now > ExpiresAt fails as expired and is removed; otherwise (now ≤ ExpiresAt included) it is returned and nothing changes. Since every stored session lives exactly 24 hours, a returned session was created at most 24 hours before `now` |
| Sessions.SessionStore.DeleteSession | internal/auth/session.go:82-86 | afterwards the token is absent and every other entry is unchanged, whether or not it was present |
| Sessions.SessionStore.CleanupExpiredSessions | internal/auth/session.go:89-103 | one sweep leaves exactly the unexpired sessions, each created at most 24 hours before the sweep |
| Sessions.CreateThenGet | internal/auth/session.go:43-79 | a session created at t is returned by a lookup at any instant up to t + 24 h |
| Sessions.ExpiredRefusedWithOrWithoutSweep | internal/auth/session.go:73-76 | an expired session is refused whether or not an earlier sweep removed it |
| Sessions.SweepIdempotent | internal/auth/session.go:94-100 | sweeping twice at the same instant is sweeping once |
| Sessions.SweepPreservesLiveLookups | internal/auth/session.go:64-79 | a sweep never changes what a lookup at the same instant returns successfully |
| Sessions.SweepMonotone | internal/auth/session.go:94-100 | a later sweep removes at least as much, and sweeping at t1 then t2 ≥ t1 is sweeping at t2 |
| Importer.Merge | cmd/importer/main.go:47-57 | meanings, source URLs and phonetics are appended after the existing ones (lengths add, nothing removed); the phonetic is replaced only by a non-empty, strictly longer one |
| Importer.WordIndex.constructor | cmd/importer/main.go:37-41 | a new index is empty |
| Importer.WordIndex.AddOrMerge | cmd/importer/main.go:44-61 | the new index is `Added`: the lowercased headword keys the entry, an unseen key gets the word as given, a seen one gets the merge, and no other key changes |
| Importer.WordIndex.GetAll | cmd/importer/main.go:63-69 | exactly the index's values, one per distinct key: as many as the index holds, and every indexed word among them |
| Importer.AddTwiceMerges | cmd/importer/main.go:44-61 | two words with the same lowercased headword leave one entry whose meanings add up |
| Importer.ToDefinition | cmd/importer/main.go:97-101 | a Wordset meaning becomes a definition with its text, example and synonyms and no antonyms |
| Importer.DefsForAbsent | cmd/importer/main.go:80-103 | a part of speech no input meaning has gets no definitions |
| Importer.CountDefsEmpty | cmd/importer/main.go:80-103 | no input meanings give no definitions |
| Importer.CountDefsStep | cmd/importer/main.go:82-103 | each input meaning adds one definition under each listed occurrence of its part of speech |
| Importer.OccursOnce | cmd/importer/main.go:106-108 | in a list of distinct parts of speech a part occurs once or not at all |
| Importer.CountDefsTotal | cmd/importer/main.go:80-108 | over distinct parts covering the input, the groups hold exactly as many definitions as there are input meanings |
| Importer.TotalIsCount | cmd/importer/main.go:106-108 | the meanings built from the groups hold as many definitions as the groups |
| Importer.GroupByPartOfSpeech | cmd/importer/main.go:80-103 | one group per distinct speech part, each holding that part's definitions in input order |
| Importer.CollectMeanings | cmd/importer/main.go:106-108 | each group becomes exactly one meaning: as many meanings as groups, distinct parts, all covered |
| Importer.ConvertWordsetToModel | cmd/importer/main.go:71-111 | lowercased headword, empty phonetic, no phonetics, the one Wordset URL; one meaning per distinct speech part of the input (as many meanings as distinct parts); total definitions equal the input count |
| Importer.LoadWordsetFile | cmd/importer/main.go:113-132 | an unreadable file fails and leaves the index unchanged; otherwise the count is the number of entries, each entry is converted once (in some order), and the new index is those conversions added one by one (`AddAll`). It gains exactly the entries' lowercased headwords; a key the file does not produce keeps its word; under every key the definitions are the old ones plus one per Wordset sense filed there |
| Importer.AddEntries | cmd/importer/main.go:124-129 | the loop visits every entry exactly once and leaves the index equal to `AddAll` of the conversions in visiting order |
| Importer.ConvertAndAdd | cmd/importer/main.go:125-126 | one entry is converted (its lowercased headword, one definition per sense) and merged into the index |
| Importer.AddAllKeys | cmd/importer/main.go:44-61 | adding words adds exactly their keys to the index |
| Importer.AddAllKeepsOthers | cmd/importer/main.go:44-61 | a key none of the added words is filed under keeps its word |
| Importer.AddAllDefinitions | cmd/importer/main.go:44-61 | merging loses and duplicates no definition: the word under a key holds its old definitions plus those of every added word filed there |
| Importer.AddAllSingle | cmd/importer/main.go:44-61 | a key new to the index that exactly one added word files under holds that word unchanged |
| Importer.FiledKeysProduced | cmd/importer/main.go:124-129 | the conversions of a whole file are filed under exactly the lowercased headwords of its entries |
| Importer.KeepsUnproduced | cmd/importer/main.go:124-129 | a key the file does not produce keeps its word through the whole load |
| Importer.WithoutAntonyms | cmd/importer/main.go:216-263 | what the import stores of a word: the same meanings and definitions, with every antonym list empty |
| Importer.ConvertedStoredWhole | cmd/importer/main.go:71-111 | a converted Wordset word holds no antonyms, so it is stored whole |
| Importer.DefsForHaveNoAntonyms | cmd/importer/main.go:97-101 | grouped definitions carry no antonyms |
| Importer.SaveWordToDB | cmd/importer/main.go:177-277 | a failing BEGIN fails; a headword already present is skipped without error; any later failing step fails and changes nothing; otherwise the word (without antonyms) is stored under the next id. So the report is `SaveOutcome` over the stored headwords, and the stored headwords grow by this one exactly when no step failed. Indexed headwords are never removed |
| Importer.IndexKeptTrans | cmd/importer/main.go:148-161 | keeping the index across two steps keeps it across both |
| Importer.ImportBatch | cmd/importer/main.go:146-161 | the batch's saves continue the import's running state (`BatchSoFar` from 0 up to `end`). The positions start..end−1 are visited in order, each once. Each save's report is its `SaveOutcome` over the headwords stored before it, and `errors`/`imported` grow by the failed and the other reports. The stored headwords grow by exactly the fault-free ones and none is lost. `StoredSoFar` carries on: old rows unchanged, and each new headword holds the row of its first fault-free position |
| Importer.ImportToDatabase | cmd/importer/main.go:134-175 | the batches visit positions 0..total−1 in order, each once. Afterwards the stored headwords are exactly the old ones plus the headwords of the positions whose save met no fault, and none is lost. Position j reports its `SaveOutcome` over the headwords stored before it (a failing BEGIN always fails, an already stored headword is skipped as a success, otherwise the failing step is reported). errors counts the failed reports, imported the rest; with no fault, errors = 0 Every row of the words table is kept as it was, and each newly stored headword holds `StoredRow` of the first fault-free position with that headword: the word as given, without antonyms, under its new id (`StoredSoFar`). |
| Importer.SaveNext | cmd/importer/main.go:147-160 | one save of the batch loop: it reports the position's `SaveOutcome`, counts it as an error or an import, and the stored headwords grow by its headword exactly when its save met no fault Its save keeps `StoredSoFar`: no earlier row changes, and a new headword holds this position's row. |
| Importer.SavedKeysDenote | cmd/importer/main.go:147-160 | the headwords saved among the first n positions are exactly those of the positions below n whose save met no fault |
| Importer.ReportsEach | cmd/importer/main.go:147-160 | position by position, a whole import's reports are each save's `SaveOutcome` over the headwords stored before it; with no fault none fails |
| Importer.StoredRow | cmd/importer/main.go:193-274 | the row inserted for a word keeps its headword and its number of meanings, under the given id |
| Importer.FirstSaved | cmd/importer/main.go:186-190 | the first position whose fault-free save stored a headword: earlier saves had not stored it, which is why later saves of it are skipped |
| Importer.StoredOneMore | cmd/importer/main.go:177-277 | one save as SaveWordToDB performs it keeps `StoredSoFar`: a skipped or failed save changes nothing, a fresh one adds this position's row under the next id |

## Left out

- The HTTP layer (handlers, middleware, routing, CORS) and the web front end: transport and UI, not engine logic.
- SQL itself: query text, SQLite type affinities, `LastInsertId` and the row ids of the nested word tables. The tables are Dafny maps and sequences; a row read back by id is the row inserted.
- `CreatedAt`/`UpdatedAt` of words and users' `created_at` beyond the value stored: no property depends on them.
- Stored times are compared and sorted as text by SQLite, and as instants here. This covers the comparison `next_review_date <= datetime('now')` of the due queries, which compares the stored text with a differently formatted text. It also covers the orderings `ORDER BY uw.next_review_date ASC` (internal/services/review_service.go:43), `ORDER BY rh.reviewed_at DESC` (internal/services/review_service.go:206) and `ORDER BY uw.added_at DESC` (internal/services/vocabulary_service.go:102). Text order and time order agree only while every stored time has the same format and UTC offset.
- Wall-clock reads: every `time.Now()` in one call is the one `now` parameter, so the one-hour first review, the log's `reviewed_at` and the next review share one instant.
- Date parsing: `time.Parse` of the last review date and of the streak's day strings becomes the flags `lastParses` and `streakFault`. The distinct days are the integer days of the review instants.
- Float behaviour of `float64` ease factors and `math.Round`: the model computes with exact reals. The concrete interval sequence of repeated reviews may differ from float64 at a rounding tie.
- Concurrency: the session store's mutex, its cleanup goroutine and its hourly ticker. One sweep is a method taking `now`.
- Session token generation (`crypto/rand`, base64url): the token is a parameter. An absent one models the generator's error.
- The dictionary client's HTTP request, its timeout and JSON decoding: the answer per URL is a parameter. The error body text of a non-200 reply is not kept.
- File and JSON I/O of the importer, `filepath.Glob` and `main`, and the progress and ETA printing: I/O. `LoadWordsetFile` takes the decoded file, or none for a read or parse error.
- Text.ToLower: lowers only the capitals of the ASCII, Latin-1, Greek and Cyrillic blocks. Go's `unicode.ToLower` also lowers the capitals of every other cased script (Latin Extended, Armenian, Georgian, the accented Greek capitals, and others) and special cases such as `İ`. Headwords that differ only in such a capital are two keys here and one key in the source. This affects `GetWord`'s cache key, the dictionary URL, `AddWord`'s normalised word and the importer's index.
- VocabularyService.Normalize: inherits the `Text.ToLower` gap above. Trimming uses Go's full `unicode.IsSpace` set.
- Importer.ImportToDatabase: requires `batchSize > 0`. The source's only caller passes 100. With a size of 0 the source never advances; a negative size makes the first batch's slice `words[i:end]` panic (cmd/importer/main.go:146).
- Importer.WordIndex.AddOrMerge: merges by value. Go appends through the stored pointer; each converted word is a fresh object, so nothing else observes the difference.
- Go map iteration order, in `GetAll`, the grouping of `convertWordsetToModel` and `loadWordsetFile`: it is chosen nondeterministically. The results are stated for any order.
- Importer.SaveWordToDB: the stored word is one value. Its phonetics, meanings, definitions, synonyms and URLs are not separate row inserts, and a failing step is one fault covering all of them.
- WordService.SaveToDB: the nested inserts are one value, as for the importer. A failure of any of them, or of the UNIQUE index, is the one `saveFault`/present-headword case.
- `GetUserByID`, `NewUserService` and the other constructors: they hold no logic.
- Storage errors other than those modelled: a failing `rows.Scan`, a failing count query, or a failing insert of a user_words row.

## Findings

| source | as written | input that shows it | evidently intended | confidence | as-written member | corrected member |
|---|---|---|---|---|---|---|
| internal/services/word_service.go:47-52 | on a cache miss `GetWord` returns the fetched word, whose id is 0 because `saveToDB` never writes the new row id back; `AddWord` then inserts a user_words row with word_id 0, which the inner join never finds, and fails with "user word not found" | `AddWord` of any word not yet in the words table that the dictionary knows, with the save succeeding | the returned word carries the id of the row just saved, so the first `AddWord` of a new word succeeds | not executed | WordService.GetWordAsWritten, VocabularyService.UnsavedWordNeverJoins | WordService.GetWord |
| internal/services/review_service.go:99 | `time.Duration(newInterval) * 24 * time.Hour` is int64 nanoseconds and wraps from 106752 days on, placing the next review in the past | a word rated 5 about ten times in a row (ten with exact arithmetic: 6, 16, 45, …, 153069 days) | the next review lies `newInterval` days after now | not executed | Sm2.NextReviewAsWritten, Sm2.TenPerfectReviewsOverflow | Sm2.NextReview |
