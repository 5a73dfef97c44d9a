/**
 * The relational tables the services read and write, as fields of one object, with the
 * integrity the schema and the services' own checks maintain: unique usernames, a unique
 * headword per word row, auto-increment ids starting at 1, and at most one user_words row
 * per (user, word) pair. The nested word rows (phonetics, meanings, definitions, synonyms,
 * antonyms, source URLs) are held as the Word value they were saved from.
 */
module Storage {
  import opened Wrappers
  import opened Models

  class Database {
    /** users, by their unique username. */
    var users: map<string, User>
    var nextUserId: int
    /** words (with their nested rows), by id. */
    var words: map<int, Word>
    /** The UNIQUE index on words(word): headword to id. */
    var wordIndex: map<string, int>
    var nextWordId: int
    /** user_words, in insertion order. */
    var userWords: seq<UserWordRow>
    var nextUserWordId: int
    /** review_history, in insertion order; only ever appended to. */
    var history: seq<ReviewRow>
    var nextReviewId: int

    ghost predicate Valid()
      reads this
    {
      && UsersValid(users, nextUserId)
      && WordsValid(words, wordIndex, nextWordId)
      && UserWordsValid(userWords, nextUserWordId)
      && HistoryValid(history, nextReviewId)
    }

    /** The word tables, which only a word save changes. */
    ghost function WordTables(): (map<int, Word>, map<string, int>, int)
      reads this
    {
      (words, wordIndex, nextWordId)
    }

    /** An empty database (InitDB on a new file). */
    constructor ()
      ensures Valid()
      ensures users == map[] && words == map[] && wordIndex == map[] && userWords == [] && history == []
    {
      users, nextUserId := map[], 1;
      words, wordIndex, nextWordId := map[], map[], 1;
      userWords, nextUserWordId := [], 1;
      history, nextReviewId := [], 1;
    }
  }

  /** Usernames key their rows; ids are below the next one to hand out. */
  ghost predicate UsersValid(users: map<string, User>, nextUserId: int) {
    && nextUserId >= 1
    && forall n :: n in users ==> users[n].username == n && 1 <= users[n].id < nextUserId
  }

  /** Ids key their rows and start at 1; the headword index and the rows agree both ways. */
  ghost predicate WordsValid(words: map<int, Word>, wordIndex: map<string, int>, nextWordId: int) {
    && nextWordId >= 1
    && (forall id :: id in words ==> 1 <= id < nextWordId && words[id].id == id)
    && (forall k :: k in wordIndex ==> wordIndex[k] in words && words[wordIndex[k]].word == k)
    && (forall id :: id in words ==> words[id].word in wordIndex && wordIndex[words[id].word] == id)
  }

  /** Ids are distinct and below the next one; (user, word) pairs are unique. */
  ghost predicate UserWordsValid(rows: seq<UserWordRow>, nextId: int) {
    && nextId >= 1
    && (forall i :: 0 <= i < |rows| ==> 1 <= rows[i].id < nextId)
    && (forall i, j :: 0 <= i < j < |rows| ==> rows[i].id != rows[j].id)
    && UniquePairs(rows)
  }

  ghost predicate HistoryValid(rows: seq<ReviewRow>, nextId: int) {
    && nextId >= 1
    && forall i :: 0 <= i < |rows| ==> 1 <= rows[i].id < nextId
  }

  /** At most one user_words row per (user, word). */
  predicate UniquePairs(rows: seq<UserWordRow>) {
    forall i, j :: 0 <= i < j < |rows| ==> !(rows[i].userId == rows[j].userId && rows[i].wordId == rows[j].wordId)
  }

  /** `WHERE user_id = ? AND word_id = ?` on user_words: the first matching row, if any. */
  function FindUserWord(rows: seq<UserWordRow>, userId: int, wordId: int): (r: Option<nat>)
    ensures r.Some? ==> r.value < |rows| && rows[r.value].userId == userId && rows[r.value].wordId == wordId
    ensures r.Some? ==> forall i :: 0 <= i < r.value ==> !(rows[i].userId == userId && rows[i].wordId == wordId)
    ensures r.None? <==> forall i :: 0 <= i < |rows| ==> !(rows[i].userId == userId && rows[i].wordId == wordId)
  {
    if rows == [] then None
    else if rows[0].userId == userId && rows[0].wordId == wordId then Some(0)
    else match FindUserWord(rows[1..], userId, wordId)
      case None => None
      case Some(k) => Some(k + 1)
  }

  /** `WHERE id = ?` on user_words: the first row with that id, if any. */
  function FindUserWordById(rows: seq<UserWordRow>, id: int): (r: Option<nat>)
    ensures r.Some? ==> r.value < |rows| && rows[r.value].id == id
    ensures r.None? <==> forall i :: 0 <= i < |rows| ==> rows[i].id != id
  {
    if rows == [] then None
    else if rows[0].id == id then Some(0)
    else match FindUserWordById(rows[1..], id)
      case None => None
      case Some(k) => Some(k + 1)
  }

  /** Appending a row leaves every earlier answer in place and answers the new row's pair when it was absent. */
  lemma {:induction false} FindAfterAppend(rows: seq<UserWordRow>, row: UserWordRow, userId: int, wordId: int)
    ensures FindUserWord(rows + [row], userId, wordId) ==
      if FindUserWord(rows, userId, wordId).Some? then FindUserWord(rows, userId, wordId)
      else if row.userId == userId && row.wordId == wordId then Some(|rows|)
      else None
  {
    if rows != [] {
      assert (rows + [row])[1..] == rows[1..] + [row];
      FindAfterAppend(rows[1..], row, userId, wordId);
    }
  }

  lemma {:induction false} FindByIdAfterAppend(rows: seq<UserWordRow>, row: UserWordRow)
    requires forall i :: 0 <= i < |rows| ==> rows[i].id != row.id
    ensures FindUserWordById(rows + [row], row.id) == Some(|rows|)
  {
    if rows != [] {
      assert (rows + [row])[1..] == rows[1..] + [row];
      FindByIdAfterAppend(rows[1..], row);
    }
  }

  /** Appending a row with the next id, for a pair not yet present, keeps the table valid. */
  lemma AppendKeepsUserWordsValid(rows: seq<UserWordRow>, nextId: int, row: UserWordRow)
    requires UserWordsValid(rows, nextId)
    requires row.id == nextId
    requires FindUserWord(rows, row.userId, row.wordId).None?
    ensures UserWordsValid(rows + [row], nextId + 1)
    ensures forall i :: 0 <= i < |rows| ==> rows[i].id != row.id
  {
    var all := rows + [row];
    forall i, j | 0 <= i < j < |all|
      ensures all[i].id != all[j].id
      ensures !(all[i].userId == all[j].userId && all[i].wordId == all[j].wordId)
    {
      if j == |rows| {
        assert all[i] == rows[i];
      } else {
        assert all[i] == rows[i] && all[j] == rows[j];
      }
    }
  }

  /** Rewriting a row in place, keeping its pair, changes no answer of the pair lookup. */
  lemma {:induction false} FindAfterUpdate(rows: seq<UserWordRow>, k: nat, row: UserWordRow, userId: int, wordId: int)
    requires k < |rows| && row.userId == rows[k].userId && row.wordId == rows[k].wordId
    ensures FindUserWord(rows[k := row], userId, wordId) == FindUserWord(rows, userId, wordId)
  {
    if k == 0 {
      assert rows[k := row][1..] == rows[1..];
    } else {
      var tail := rows[1..];
      assert rows[k := row] == [rows[0]] + tail[k - 1 := row];
      FindAfterUpdate(tail, k - 1, row, userId, wordId);
    }
  }

  /** Rewriting a row in place, keeping its id and pair, keeps the table valid. */
  lemma UpdateKeepsUserWordsValid(rows: seq<UserWordRow>, nextId: int, k: nat, row: UserWordRow)
    requires UserWordsValid(rows, nextId)
    requires k < |rows| && row.id == rows[k].id && row.userId == rows[k].userId && row.wordId == rows[k].wordId
    ensures UserWordsValid(rows[k := row], nextId)
  {
  }

  /** Appending a log row with the next id keeps the log valid. */
  lemma AppendKeepsHistoryValid(rows: seq<ReviewRow>, nextId: int, row: ReviewRow)
    requires HistoryValid(rows, nextId) && row.id == nextId
    ensures HistoryValid(rows + [row], nextId + 1)
  {
    var all := rows + [row];
    forall i | 0 <= i < |all|
      ensures 1 <= all[i].id < nextId + 1
    {
      if i < |rows| {
        assert all[i] == rows[i];
      }
    }
  }
}
