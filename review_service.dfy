/**
 * The review service (internal/services/review_service.go): the words a user has due,
 * submitting a graded review (SM-2 rescheduling inside a transaction that also logs the
 * review), and a user's review history for one word.
 *
 * The wall clock is the parameter `now`; `datetime('now')` in the due-words query and
 * both `time.Now()` calls in SubmitReview read it. A failing transaction step is the
 * parameter `txFault`.
 */
module ReviewService {
  import opened Wrappers
  import opened Models
  import Sm2
  import Ordering
  import Text
  import opened Storage
  import WordService
  import UserService
  import VocabularyService

  const MinQuality: int := 0
  const MaxQuality: int := 5

  /**
   * The record after a review of the given quality at `now`: the SM-2 schedule replaces
   * ease factor, interval and status, and the next review falls that many days after `now`.
   */
  function Reviewed(row: UserWordRow, quality: int, now: int): (r: UserWordRow)
    ensures r.id == row.id && r.userId == row.userId && r.wordId == row.wordId && r.addedAt == row.addedAt
    ensures r.easeFactor >= Sm2.MinEaseFactor && r.intervalDays >= 1
    ensures r.nextReviewDate >= now + Day
    ensures quality < 3 ==> r.status == Learning && r.intervalDays == 1
    ensures quality >= 3 ==> r.status != Learning
  {
    var s := Sm2.CalculateSM2(row.easeFactor, row.intervalDays, quality, row.status);
    row.(easeFactor := s.easeFactor, intervalDays := s.intervalDays, status := s.status,
         nextReviewDate := Sm2.NextReview(now, s.intervalDays))
  }

  /** The review_history row logged for a review: who, which word, when, the grade and the new schedule. */
  function HistoryEntry(id: int, row: UserWordRow, quality: int, now: int): (h: ReviewRow)
    ensures h.id == id && h.userId == row.userId && h.wordId == row.wordId
    ensures h.reviewedAt == now && h.quality == quality
    ensures h.intervalDays == Reviewed(row, quality, now).intervalDays
    ensures h.easeFactor == Reviewed(row, quality, now).easeFactor
  {
    var s := Sm2.CalculateSM2(row.easeFactor, row.intervalDays, quality, row.status);
    ReviewRow(id, row.userId, row.wordId, now, quality, s.intervalDays, s.easeFactor)
  }

  /** The committed effect of a review: the pair's record rescheduled in place and one history row appended. */
  ghost predicate ReviewRecorded(
    rowsBefore: seq<UserWordRow>, rowsAfter: seq<UserWordRow>,
    histBefore: seq<ReviewRow>, histAfter: seq<ReviewRow>, nextReviewId: int,
    userId: int, wordId: int, quality: int, now: int)
  {
    var k := FindUserWord(rowsBefore, userId, wordId);
    && k.Some?
    && rowsAfter == rowsBefore[k.value := Reviewed(rowsBefore[k.value], quality, now)]
    && histAfter == histBefore + [HistoryEntry(nextReviewId, rowsBefore[k.value], quality, now)]
  }

  /** GetDueWords' filter: the user's records whose next review is not after `now`. */
  function Due(userId: int, now: int): UserWordRow -> bool {
    (row: UserWordRow) => row.userId == userId && row.nextReviewDate <= now
  }

  /** `ORDER BY next_review_date ASC`. */
  function EarliestDueFirst(u: UserWord): int {
    u.row.nextReviewDate
  }

  /** A record just reviewed is not due again before a day has passed. */
  lemma ReviewedNotDueForADay(rows: seq<UserWordRow>, words: map<int, Word>, k: nat, quality: int, now: int, t: int)
    requires k < |rows| && t < now + Day
    ensures var after := rows[k := Reviewed(rows[k], quality, now)];
      forall w :: UserWord(after[k], w) !in VocabularyService.SelectUserWords(after, words, Due(rows[k].userId, t))
  {
  }

  /**
   * GetDueWords: the user's records whose next review date has come, joined with their
   * headwords, earliest due first.
   */
  method GetDueWords(db: Database, username: string, now: int) returns (r: Result<seq<UserWord>, Error>)
    requires db.Valid()
    ensures username !in db.users ==> r == Failure(UserNotFound)
    ensures username in db.users ==> r.Success?
    ensures r.Success? ==>
      var userId := db.users[username].id;
      && Ordering.SortedBy(r.value, EarliestDueFirst)
      && multiset(r.value) == multiset(VocabularyService.SelectUserWords(db.userWords, db.words, Due(userId, now)))
      && (forall u :: u in r.value ==> u.row.userId == userId && u.row.nextReviewDate <= now)
  {
    var user := UserService.GetUser(db.users, username);
    if user.Failure? {
      return Failure(user.error);
    }
    var result := VocabularyService.QueryUserWords(db.userWords, db.words, Due(user.value.id, now), EarliestDueFirst);
    return Success(result);
  }

  /**
   * SubmitReview: check the grade, look up the user, the word (through the word cache)
   * and the user's record for it, reschedule it with SM-2, and in one transaction update
   * the record and log the review; then return the record as read back.
   */
  method SubmitReview(
    db: Database, username: string, wordStr: string, quality: int, now: int,
    env: WordService.WordEnv, txFault: Option<TxStep>)
    returns (r: Result<UserWord, Error>, ghost wordId: int)
    requires db.Valid()
    modifies db`words, db`wordIndex, db`nextWordId, db`userWords, db`history, db`nextReviewId
    ensures db.Valid()
    ensures r.Failure? ==>
      db.userWords == old(db.userWords) && db.history == old(db.history) && db.nextReviewId == old(db.nextReviewId)
    ensures !(MinQuality <= quality <= MaxQuality) ==>
      r == Failure(QualityOutOfRange) && db.WordTables() == old(db.WordTables())
    ensures MinQuality <= quality <= MaxQuality && username !in old(db.users) ==>
      r == Failure(UserNotFound) && db.WordTables() == old(db.WordTables())
    ensures r.Failure? && r.error.TransactionFailed? ==> txFault == Some(r.error.step)
    ensures txFault.None? && r.Failure? ==>
      r.error in {QualityOutOfRange, UserNotFound, NotInStudyList} || r.error.WordUnavailable?
    ensures r.Success? ==>
      && MinQuality <= quality <= MaxQuality
      && username in old(db.users)
      && txFault.None?
      && var userId := old(db.users)[username].id;
      && ReviewRecorded(old(db.userWords), db.userWords, old(db.history), db.history, old(db.nextReviewId),
                        userId, r.value.row.wordId, quality, now)
      && db.nextReviewId == old(db.nextReviewId) + 1
      && VocabularyService.StudyRecord(db.userWords, db.words, r.value, userId)
    ensures r.Success? ==> r.value.row.wordId == wordId
    ensures MinQuality <= quality <= MaxQuality && username in old(db.users) ==>
      var userId := old(db.users)[username].id;
      && ((r.Failure? && r.error.WordUnavailable?) <==> WordService.LookupFails(old(db.wordIndex), wordStr, env))
      && (!WordService.LookupFails(old(db.wordIndex), wordStr, env) ==>
            ReviewOutcome(old(db.userWords), db.userWords, old(db.history), db.history, old(db.nextReviewId),
                          db.words, userId, wordId, quality, now, txFault, r))
      && (!env.storageFault && Text.ToLower(wordStr) in old(db.wordIndex) ==>
            wordId == old(db.wordIndex)[Text.ToLower(wordStr)] && db.WordTables() == old(db.WordTables()))
      && (WordService.SavesFresh(old(db.wordIndex), wordStr, env) ==> wordId == old(db.nextWordId))
      && (WordService.FetchedUnsaved(old(db.wordIndex), wordStr, env) ==> wordId == 0 && r == Failure(NotInStudyList))
  {
    if quality < MinQuality || quality > MaxQuality {
      return Failure(QualityOutOfRange), 0;
    }
    var user := UserService.GetUser(db.users, username);
    if user.Failure? {
      return Failure(user.error), 0;
    }
    var word, _ := WordService.GetWord(db, wordStr, env);
    if word.Failure? {
      return Failure(WordUnavailable(word.error)), 0;
    }
    r := ReviewStudied(db, user.value.id, word.value.id, quality, now, txFault);
    return r, word.value.id;
  }

  /**
   * SubmitReview's outcome once the word resolved to `wordId`: no joined record for the pair
   * means "not in study list"; otherwise a failing transaction step is reported and nothing
   * changes, and without one the review is recorded and succeeds.
   */
  ghost predicate ReviewOutcome(
    rowsBefore: seq<UserWordRow>, rowsAfter: seq<UserWordRow>,
    histBefore: seq<ReviewRow>, histAfter: seq<ReviewRow>, nextReviewId: int, words: map<int, Word>,
    userId: int, wordId: int, quality: int, now: int, txFault: Option<TxStep>, r: Result<UserWord, Error>)
  {
    var current := VocabularyService.GetUserWord(rowsBefore, words, userId, wordId);
    && (current.Failure? <==> r == Failure(NotInStudyList))
    && (current.Success? && txFault.Some? ==> r == Failure(TransactionFailed(txFault.value)))
    && (current.Success? && txFault.None? ==>
          && r.Success?
          && ReviewRecorded(rowsBefore, rowsAfter, histBefore, histAfter, nextReviewId, userId, wordId, quality, now))
  }

  /** The tail of SubmitReview, for a valid rating of a known user's known word. */
  method ReviewStudied(db: Database, userId: int, wordId: int, quality: int, now: int, txFault: Option<TxStep>)
    returns (r: Result<UserWord, Error>)
    requires db.Valid()
    modifies db`userWords, db`history, db`nextReviewId
    ensures db.Valid()
    ensures r.Failure? ==>
      db.userWords == old(db.userWords) && db.history == old(db.history) && db.nextReviewId == old(db.nextReviewId)
    ensures r.Failure? ==> r.error == NotInStudyList || (r.error.TransactionFailed? && txFault == Some(r.error.step))
    ensures r.Success? ==>
      && txFault.None?
      && r.value.row.wordId == wordId
      && ReviewRecorded(old(db.userWords), db.userWords, old(db.history), db.history, old(db.nextReviewId),
                        userId, wordId, quality, now)
      && db.nextReviewId == old(db.nextReviewId) + 1
      && VocabularyService.StudyRecord(db.userWords, db.words, r.value, userId)
    ensures ReviewOutcome(old(db.userWords), db.userWords, old(db.history), db.history, old(db.nextReviewId),
                          db.words, userId, wordId, quality, now, txFault, r)
  {
    var current := VocabularyService.GetUserWord(db.userWords, db.words, userId, wordId);
    if current.Failure? {
      return Failure(NotInStudyList);
    }
    var k := FindUserWord(db.userWords, userId, wordId).value;
    // The transaction: BEGIN, the UPDATE of row k (ids are distinct, so `WHERE id = ?` hits
    // exactly that row), the INSERT into review_history and COMMIT. Whichever step fails,
    // the deferred rollback leaves both tables as they were.
    if txFault.Some? {
      return Failure(TransactionFailed(txFault.value));
    }
    ReviewKeepsRecord(db.userWords, db.words, db.nextUserWordId, k, userId, wordId, quality, now);
    CommitReview(db, k, quality, now);
    r := VocabularyService.GetUserWord(db.userWords, db.words, userId, wordId);
  }

  /** The committed transaction: row k rescheduled in place and the review logged with the next log id. */
  method CommitReview(db: Database, k: nat, quality: int, now: int)
    requires db.Valid() && k < |db.userWords|
    requires UserWordsValid(db.userWords[k := Reviewed(db.userWords[k], quality, now)], db.nextUserWordId)
    modifies db`userWords, db`history, db`nextReviewId
    ensures db.Valid()
    ensures db.userWords == old(db.userWords)[k := Reviewed(old(db.userWords)[k], quality, now)]
    ensures db.history == old(db.history) + [HistoryEntry(old(db.nextReviewId), old(db.userWords)[k], quality, now)]
    ensures db.nextReviewId == old(db.nextReviewId) + 1
  {
    var entry := HistoryEntry(db.nextReviewId, db.userWords[k], quality, now);
    AppendKeepsHistoryValid(db.history, db.nextReviewId, entry);
    db.userWords := db.userWords[k := Reviewed(db.userWords[k], quality, now)];
    db.history := db.history + [entry];
    db.nextReviewId := db.nextReviewId + 1;
  }

  /**
   * Rescheduling the pair's record in place keeps the table valid, keeps the record the
   * pair's one record, and the join then reads back the rescheduled record.
   */
  lemma ReviewKeepsRecord(
    rows: seq<UserWordRow>, words: map<int, Word>, nextId: int, k: nat,
    userId: int, wordId: int, quality: int, now: int)
    requires UserWordsValid(rows, nextId)
    requires FindUserWord(rows, userId, wordId) == Some(k) && wordId in words
    ensures var after := rows[k := Reviewed(rows[k], quality, now)];
      var u := UserWord(after[k], words[wordId].word);
      && UserWordsValid(after, nextId)
      && VocabularyService.GetUserWord(after, words, userId, wordId) == Success(u)
      && VocabularyService.StudyRecord(after, words, u, userId)
  {
    var updated := Reviewed(rows[k], quality, now);
    UpdateKeepsUserWordsValid(rows, nextId, k, updated);
    FindAfterUpdate(rows, k, updated, userId, wordId);
  }

  /** `review_history JOIN words WHERE user_id = ? AND word_id = ?`: matching log rows with their headword, in table order. */
  function SelectHistory(rows: seq<ReviewRow>, words: map<int, Word>, userId: int, wordId: int): (r: seq<ReviewHistory>)
    ensures forall h :: h in r ==>
      h.row in rows && h.row.userId == userId && h.row.wordId == wordId && wordId in words && h.word == words[wordId].word
    ensures forall i :: 0 <= i < |rows| && rows[i].userId == userId && rows[i].wordId == wordId && wordId in words ==>
      ReviewHistory(rows[i], words[wordId].word) in r
  {
    if rows == [] then []
    else
      var init, last := rows[..|rows| - 1], rows[|rows| - 1];
      assert forall i :: 0 <= i < |init| ==> init[i] == rows[i];
      SelectHistory(init, words, userId, wordId)
        + (if last.userId == userId && last.wordId == wordId && wordId in words then [ReviewHistory(last, words[wordId].word)] else [])
  }

  /** `ORDER BY reviewed_at DESC`. */
  function NewestReviewFirst(h: ReviewHistory): int {
    -h.row.reviewedAt
  }

  /** The history query proper: the log rows for (user, word) joined with the headword, newest first. */
  method QueryHistory(db: Database, userId: int, wordId: int) returns (result: seq<ReviewHistory>)
    ensures Ordering.SortedBy(result, NewestReviewFirst)
    ensures multiset(result) == multiset(SelectHistory(db.history, db.words, userId, wordId))
    ensures forall h :: h in result ==> h.row in db.history && h.row.userId == userId && h.row.wordId == wordId
  {
    var rows, words := db.history, db.words;
    result := [];
    for i := 0 to |rows|
      invariant Ordering.SortedBy(result, NewestReviewFirst)
      invariant multiset(result) == multiset(SelectHistory(rows[..i], words, userId, wordId))
    {
      assert rows[..i + 1][..i] == rows[..i];
      var row := rows[i];
      assert SelectHistory(rows[..i + 1], words, userId, wordId) == SelectHistory(rows[..i], words, userId, wordId)
        + (if row.userId == userId && row.wordId == wordId && wordId in words then [ReviewHistory(row, words[wordId].word)] else []);
      if row.userId == userId && row.wordId == wordId && wordId in words {
        var item := ReviewHistory(row, words[wordId].word);
        Ordering.InsertBySorted(result, item, NewestReviewFirst);
        result := Ordering.InsertBy(result, item, NewestReviewFirst);
      }
    }
    assert rows[..|rows|] == rows;
    forall h | h in result
      ensures h in SelectHistory(rows, words, userId, wordId)
    {
      assert h in multiset(result);
    }
  }

  /**
   * GetReviewHistory: look up the user and the word (through the word cache), then list
   * the user's reviews of that word, newest first.
   */
  method GetReviewHistory(db: Database, username: string, wordStr: string, env: WordService.WordEnv)
    returns (r: Result<seq<ReviewHistory>, Error>, ghost wordId: int)
    requires db.Valid()
    modifies db`words, db`wordIndex, db`nextWordId
    ensures db.Valid()
    ensures username !in db.users ==> r == Failure(UserNotFound) && db.WordTables() == old(db.WordTables())
    ensures r.Failure? ==> r.error == UserNotFound || r.error.WordUnavailable?
    ensures username in db.users && !env.storageFault && Text.ToLower(wordStr) in old(db.wordIndex) ==>
      r.Success? && wordId == old(db.wordIndex)[Text.ToLower(wordStr)] && db.WordTables() == old(db.WordTables())
    ensures username in db.users ==>
      && ((r.Failure? && r.error.WordUnavailable?) <==> WordService.LookupFails(old(db.wordIndex), wordStr, env))
      && (!WordService.LookupFails(old(db.wordIndex), wordStr, env) ==> r.Success?)
      && (WordService.SavesFresh(old(db.wordIndex), wordStr, env) ==> wordId == old(db.nextWordId) && wordId in db.words)
      && (WordService.FetchedUnsaved(old(db.wordIndex), wordStr, env) ==> wordId == 0 && r == Success([]))
    ensures r.Success? ==>
      && username in db.users
      && Ordering.SortedBy(r.value, NewestReviewFirst)
      && multiset(r.value) == multiset(SelectHistory(db.history, db.words, db.users[username].id, wordId))
      && (forall h :: h in r.value ==>
            h.row in db.history && h.row.userId == db.users[username].id && h.row.wordId == wordId)
  {
    var user := UserService.GetUser(db.users, username);
    if user.Failure? {
      return Failure(user.error), 0;
    }
    var word, _ := WordService.GetWord(db, wordStr, env);
    if word.Failure? {
      return Failure(WordUnavailable(word.error)), 0;
    }
    var history := QueryHistory(db, user.value.id, word.value.id);
    if history != [] {
      // a listed review names a stored word, so a word id no row has lists nothing
      assert history[0] in multiset(SelectHistory(db.history, db.words, user.value.id, word.value.id));
    }
    return Success(history), word.value.id;
  }
}
