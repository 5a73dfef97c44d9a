/**
 * VocabularyService (internal/services/vocabulary_service.go): a user's study list, one
 * user_words record per (user, word), created with the scheduler's starting values.
 */
module VocabularyService {
  import opened Wrappers
  import opened Models
  import Text
  import Ordering
  import opened Storage
  import WordService
  import UserService

  /** The starting values of a new study record. */
  const InitialEaseFactor: real := 2.5
  const InitialInterval: int := 1
  const FirstReviewDelay: int := Hour

  /**
   * AddWord's normalisation: trim white space, then lowercase. The result is the input with
   * only white space dropped at either end, every character lowered.
   */
  function Normalize(s: string): (r: string)
    ensures Text.IsLower(r)
    ensures r != [] ==> !Text.IsSpace(r[0]) && !Text.IsSpace(r[|r| - 1])
    ensures |r| <= |s|
    ensures exists i :: Text.LoweredCore(s, r, i)
  {
    var t := Text.TrimSpace(s);
    var r := Text.ToLower(t);
    assert r != [] ==> r[0] == Text.LowerChar(t[0]) && r[|r| - 1] == Text.LowerChar(t[|t| - 1]);
    Text.LoweredTrimIsCore(s);
    r
  }

  /** Words that differ only in letter case and surrounding white space share one key. */
  lemma NormalizeIgnoresCase(s: string)
    ensures Normalize(Text.ToLower(s)) == Normalize(s)
  {
    Text.TrimSpaceToLower(s);
    Text.ToLowerIdempotent(Text.TrimSpace(s));
  }

  /** Normalising a normalised word changes nothing. */
  lemma NormalizeIdempotent(s: string)
    ensures Normalize(Normalize(s)) == Normalize(s)
  {
    var n := Normalize(s);
    Text.TrimLeftIdle(n);
    Text.TrimRightIdle(n);
    assert Text.TrimSpace(n) == n;
    Text.ToLowerOfLower(n);
  }

  /** A record as AddWord creates it for `userId` at `now`. */
  predicate NewRecord(row: UserWordRow, userId: int, now: int) {
    && row.userId == userId
    && row.addedAt == now
    && row.status == Learning
    && row.nextReviewDate == now + FirstReviewDelay
    && row.easeFactor == InitialEaseFactor
    && row.intervalDays == InitialInterval
  }

  /**
   * GetUserWord: the study record for (user, word) joined with its headword; "user word
   * not found" when there is none or its word row is missing.
   */
  function GetUserWord(rows: seq<UserWordRow>, words: map<int, Word>, userId: int, wordId: int): (r: Result<UserWord, Error>)
    ensures r.Failure? ==> r.error == UserWordNotFound
    ensures r.Failure? <==> FindUserWord(rows, userId, wordId).None? || wordId !in words
    ensures r.Success? ==>
      && r.value.row in rows
      && r.value.row.userId == userId && r.value.row.wordId == wordId
      && r.value.word == words[wordId].word
  {
    match FindUserWord(rows, userId, wordId)
    case None => Failure(UserWordNotFound)
    case Some(k) => if wordId in words then Success(UserWord(rows[k], words[wordId].word)) else Failure(UserWordNotFound)
  }

  /** GetUserWordByID: the study record with that id joined with its headword, or "user word not found". */
  function GetUserWordById(rows: seq<UserWordRow>, words: map<int, Word>, id: int): (r: Result<UserWord, Error>)
    ensures r.Failure? ==> r.error == UserWordNotFound
    ensures r.Failure? <==> FindUserWordById(rows, id).None? || rows[FindUserWordById(rows, id).value].wordId !in words
    ensures r.Success? ==>
      && r.value.row in rows
      && r.value.row.id == id
      && r.value.row.wordId in words
      && r.value.word == words[r.value.row.wordId].word
  {
    match FindUserWordById(rows, id)
    case None => Failure(UserWordNotFound)
    case Some(k) =>
      if rows[k].wordId in words then Success(UserWord(rows[k], words[rows[k].wordId].word)) else Failure(UserWordNotFound)
  }

  /**
   * A record whose word id names no word row never survives the join: with word id 0,
   * which no saved word has, the record just inserted is "not found".
   */
  lemma UnsavedWordNeverJoins(rows: seq<UserWordRow>, words: map<int, Word>, row: UserWordRow)
    requires row.wordId !in words
    requires forall i :: 0 <= i < |rows| ==> rows[i].id != row.id
    ensures GetUserWordById(rows + [row], words, row.id) == Failure(UserWordNotFound)
  {
    var all := rows + [row];
    var k := FindUserWordById(all, row.id);
    assert all[|rows|].id == row.id;
    assert k.Some? && k.value == |rows|;
  }

  /**
   * `SELECT ... FROM user_words JOIN words ... WHERE <keep>`: the records `keep` selects
   * whose word row exists, joined with their headwords, in table order.
   */
  function SelectUserWords(rows: seq<UserWordRow>, words: map<int, Word>, keep: UserWordRow -> bool): (r: seq<UserWord>)
    ensures forall u :: u in r ==> u.row in rows && keep(u.row) && u.row.wordId in words && u.word == words[u.row.wordId].word
    ensures forall i :: 0 <= i < |rows| && keep(rows[i]) && rows[i].wordId in words ==>
      UserWord(rows[i], words[rows[i].wordId].word) in r
  {
    if rows == [] then []
    else
      var init, last := rows[..|rows| - 1], rows[|rows| - 1];
      assert forall i :: 0 <= i < |init| ==> init[i] == rows[i];
      SelectUserWords(init, words, keep) + (if keep(last) && last.wordId in words then [UserWord(last, words[last.wordId].word)] else [])
  }

  /**
   * The row loop of the user_words queries: each selected record joined with its headword,
   * placed by `key` as the query's ORDER BY asks.
   */
  method QueryUserWords(rows: seq<UserWordRow>, words: map<int, Word>, keep: UserWordRow -> bool, key: UserWord -> int)
    returns (result: seq<UserWord>)
    ensures Ordering.SortedBy(result, key)
    ensures multiset(result) == multiset(SelectUserWords(rows, words, keep))
    ensures forall u :: u in result ==>
      u.row in rows && keep(u.row) && u.row.wordId in words && u.word == words[u.row.wordId].word
  {
    result := [];
    for i := 0 to |rows|
      invariant Ordering.SortedBy(result, key)
      invariant multiset(result) == multiset(SelectUserWords(rows[..i], words, keep))
    {
      var row := rows[i];
      assert rows[..i + 1][..i] == rows[..i];
      assert SelectUserWords(rows[..i + 1], words, keep) == SelectUserWords(rows[..i], words, keep)
        + (if keep(row) && row.wordId in words then [UserWord(row, words[row.wordId].word)] else []);
      if keep(row) && row.wordId in words {
        var item := UserWord(row, words[row.wordId].word);
        Ordering.InsertBySorted(result, item, key);
        result := Ordering.InsertBy(result, item, key);
      }
    }
    assert rows[..|rows|] == rows;
    forall u | u in result
      ensures u in SelectUserWords(rows, words, keep)
    {
      assert u in multiset(result);
    }
  }

  /** GetUserWords' filter: the user's records, and only those with the given status when one is given. */
  function Listed(userId: int, status: string): UserWordRow -> bool {
    (row: UserWordRow) => row.userId == userId && (status == "" || StatusName(row.status) == status)
  }

  /** `ORDER BY added_at DESC`. */
  function NewestAddedFirst(u: UserWord): int {
    -u.row.addedAt
  }

  /**
   * GetUserWords: the user's study records (with the given status, when one is given)
   * joined with their headwords, most recently added first.
   */
  method GetUserWords(db: Database, username: string, status: string) returns (r: Result<seq<UserWord>, Error>)
    requires db.Valid()
    ensures username !in db.users ==> r == Failure(UserNotFound)
    ensures username in db.users ==> r.Success?
    ensures r.Success? ==>
      var userId := db.users[username].id;
      && Ordering.SortedBy(r.value, NewestAddedFirst)
      && multiset(r.value) == multiset(SelectUserWords(db.userWords, db.words, Listed(userId, status)))
      && (forall u :: u in r.value ==> u.row.userId == userId && (status == "" || StatusName(u.row.status) == status))
  {
    var user := UserService.GetUser(db.users, username);
    if user.Failure? {
      return Failure(user.error);
    }
    var result := QueryUserWords(db.userWords, db.words, Listed(user.value.id, status), NewestAddedFirst);
    return Success(result);
  }

  /** The table is unchanged, or has grown by one new record for a pair it did not hold. */
  ghost predicate AddedAtMostOne(before: seq<UserWordRow>, after: seq<UserWordRow>, nextId: int, userId: int, now: int) {
    || after == before
    || (var n := |before|;
        && |after| == n + 1
        && after[..n] == before
        && after[n].id == nextId
        && NewRecord(after[n], userId, now)
        && FindUserWord(before, after[n].userId, after[n].wordId).None?)
  }

  /** `u` is the user's one record for its word, joined with the word's headword. */
  ghost predicate StudyRecord(rows: seq<UserWordRow>, words: map<int, Word>, u: UserWord, userId: int) {
    && u.row.userId == userId
    && FindUserWord(rows, userId, u.row.wordId).Some?
    && u.row == rows[FindUserWord(rows, userId, u.row.wordId).value]
    && u.row.wordId in words
    && u.word == words[u.row.wordId].word
  }

  /**
   * AddWord's effect once the word resolved to `wordId`: an existing record for the pair is
   * returned unchanged and nothing is written; otherwise one starting record is appended under
   * the next id and returned as read back. Either way the answer is a success exactly when the
   * word row exists.
   */
  ghost predicate Recorded(
    before: seq<UserWordRow>, after: seq<UserWordRow>, nextId: int, words: map<int, Word>,
    userId: int, wordId: int, now: int, r: Result<UserWord, Error>)
  {
    && (r.Success? <==> wordId in words)
    && (r.Success? ==> r.value.row.wordId == wordId)
    && (FindUserWord(before, userId, wordId).Some? ==> after == before && r == GetUserWord(before, words, userId, wordId))
    && (FindUserWord(before, userId, wordId).None? ==>
          && |after| == |before| + 1 && after[..|before|] == before
          && after[|before|].id == nextId && after[|before|].wordId == wordId && NewRecord(after[|before|], userId, now)
          && (r.Success? ==> r.value.row == after[|before|])
          && (r.Failure? ==> r == Failure(UserWordNotFound)))
  }

  /**
   * The study-record half of AddWord: return the existing record for (user, word), or
   * insert one with the starting values and return it as read back by id.
   */
  method AddStudyRecord(db: Database, userId: int, wordId: int, now: int) returns (r: Result<UserWord, Error>)
    requires db.Valid()
    modifies db`userWords, db`nextUserWordId
    ensures db.Valid()
    ensures AddedAtMostOne(old(db.userWords), db.userWords, old(db.nextUserWordId), userId, now)
    ensures FindUserWord(old(db.userWords), userId, wordId).Some? ==>
      db.userWords == old(db.userWords) && r == GetUserWord(db.userWords, db.words, userId, wordId)
    ensures FindUserWord(old(db.userWords), userId, wordId).None? ==>
      && |db.userWords| == |old(db.userWords)| + 1
      && db.userWords[|old(db.userWords)|].wordId == wordId
      && (r.Success? <==> wordId in db.words)
    ensures r.Failure? ==> r.error == UserWordNotFound
    ensures r.Success? ==> r.value.row.wordId == wordId && StudyRecord(db.userWords, db.words, r.value, userId)
    ensures Recorded(old(db.userWords), db.userWords, old(db.nextUserWordId), db.words, userId, wordId, now, r)
  {
    if FindUserWord(db.userWords, userId, wordId).Some? {
      r := GetUserWord(db.userWords, db.words, userId, wordId);
      return;
    }
    var row := UserWordRow(db.nextUserWordId, userId, wordId, now, Learning, now + FirstReviewDelay, InitialEaseFactor, InitialInterval);
    AppendKeepsUserWordsValid(db.userWords, db.nextUserWordId, row);
    InsertedRecordReadBack(db.userWords, db.words, row);
    db.userWords := db.userWords + [row];
    db.nextUserWordId := db.nextUserWordId + 1;
    r := GetUserWordById(db.userWords, db.words, row.id);
  }

  /**
   * A record appended for a pair the table did not hold is the one read back by its id,
   * and it is the pair's record from then on; it joins exactly when its word row exists.
   */
  lemma InsertedRecordReadBack(rows: seq<UserWordRow>, words: map<int, Word>, row: UserWordRow)
    requires forall i :: 0 <= i < |rows| ==> rows[i].id != row.id
    requires FindUserWord(rows, row.userId, row.wordId).None?
    ensures var all := rows + [row];
      && all[..|rows|] == rows
      && FindUserWord(all, row.userId, row.wordId) == Some(|rows|)
      && (GetUserWordById(all, words, row.id).Success? <==> row.wordId in words)
      && (GetUserWordById(all, words, row.id).Success? ==>
            GetUserWordById(all, words, row.id).value.row == row
            && StudyRecord(all, words, GetUserWordById(all, words, row.id).value, row.userId))
  {
    var all := rows + [row];
    assert all[..|rows|] == rows;
    FindAfterAppend(rows, row, row.userId, row.wordId);
    FindByIdAfterAppend(rows, row);
  }

  /**
   * AddWord: look the user up, normalise the word (empty fails), resolve it through the
   * word cache, then return the existing record for the pair or insert a new one with
   * the starting values and return it as read back.
   */
  method AddWord(db: Database, username: string, wordStr: string, now: int, env: WordService.WordEnv)
    returns (r: Result<UserWord, Error>, ghost wordId: int)
    requires db.Valid()
    modifies db`words, db`wordIndex, db`nextWordId, db`userWords, db`nextUserWordId
    ensures db.Valid()
    ensures username !in old(db.users) ==>
      r == Failure(UserNotFound) && db.WordTables() == old(db.WordTables()) && db.userWords == old(db.userWords)
    ensures username in old(db.users) && Normalize(wordStr) == [] ==>
      r == Failure(WordEmpty) && db.WordTables() == old(db.WordTables()) && db.userWords == old(db.userWords)
    ensures r.Failure? && r.error.WordUnavailable? ==> db.userWords == old(db.userWords)
    ensures db.userWords == old(db.userWords) || username in old(db.users)
    ensures username in old(db.users) ==>
      AddedAtMostOne(old(db.userWords), db.userWords, old(db.nextUserWordId), old(db.users)[username].id, now)
    ensures r.Success? ==> username in old(db.users) && StudyRecord(db.userWords, db.words, r.value, old(db.users)[username].id)
    ensures r.Success? && FindUserWord(old(db.userWords), r.value.row.userId, r.value.row.wordId).Some? ==>
      db.userWords == old(db.userWords)
    ensures username in old(db.users) && Normalize(wordStr) != [] ==>
      var key, userId := Normalize(wordStr), old(db.users)[username].id;
      && ((r.Failure? && r.error.WordUnavailable?) <==> WordService.LookupFails(old(db.wordIndex), key, env))
      && (!WordService.LookupFails(old(db.wordIndex), key, env) ==>
            Recorded(old(db.userWords), db.userWords, old(db.nextUserWordId), db.words, userId, wordId, now, r))
      && (!env.storageFault && key in old(db.wordIndex) ==>
            r.Success? && wordId == old(db.wordIndex)[key] && db.WordTables() == old(db.WordTables()))
      && (WordService.SavesFresh(old(db.wordIndex), key, env) ==> r.Success? && wordId == old(db.nextWordId))
      && (WordService.FetchedUnsaved(old(db.wordIndex), key, env) ==> wordId == 0 && r == Failure(UserWordNotFound))
  {
    var user := UserService.GetUser(db.users, username);
    if user.Failure? {
      return Failure(user.error), 0;
    }
    var key := Normalize(wordStr);
    if key == [] {
      return Failure(WordEmpty), 0;
    }
    Text.ToLowerOfLower(key);
    r, wordId := StudyWord(db, user.value.id, key, now, env);
  }

  /** The tail of AddWord: resolve the normalised word through the cache, then record it for the user. */
  method StudyWord(db: Database, userId: int, key: string, now: int, env: WordService.WordEnv)
    returns (r: Result<UserWord, Error>, ghost wordId: int)
    requires db.Valid()
    modifies db`words, db`wordIndex, db`nextWordId, db`userWords, db`nextUserWordId
    ensures db.Valid()
    ensures r.Failure? ==> r.error.WordUnavailable? || r.error == UserWordNotFound
    ensures r.Failure? && r.error.WordUnavailable? ==> db.userWords == old(db.userWords)
    ensures AddedAtMostOne(old(db.userWords), db.userWords, old(db.nextUserWordId), userId, now)
    ensures r.Success? ==> StudyRecord(db.userWords, db.words, r.value, userId)
    ensures r.Success? && FindUserWord(old(db.userWords), r.value.row.userId, r.value.row.wordId).Some? ==>
      db.userWords == old(db.userWords)
    ensures (r.Failure? && r.error.WordUnavailable?) <==> WordService.LookupFails(old(db.wordIndex), key, env)
    ensures !WordService.LookupFails(old(db.wordIndex), key, env) ==>
      Recorded(old(db.userWords), db.userWords, old(db.nextUserWordId), db.words, userId, wordId, now, r)
    ensures !env.storageFault && Text.ToLower(key) in old(db.wordIndex) ==>
      r.Success? && wordId == old(db.wordIndex)[Text.ToLower(key)] && db.WordTables() == old(db.WordTables())
    ensures WordService.SavesFresh(old(db.wordIndex), key, env) ==> r.Success? && wordId == old(db.nextWordId)
    ensures WordService.FetchedUnsaved(old(db.wordIndex), key, env) ==> wordId == 0 && r == Failure(UserWordNotFound)
  {
    var word, _ := WordService.GetWord(db, key, env);
    if word.Failure? {
      return Failure(WordUnavailable(word.error)), 0;
    }
    r := AddStudyRecord(db, userId, word.value.id, now);
    return r, word.value.id;
  }
}
