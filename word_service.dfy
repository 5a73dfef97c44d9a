/**
 * WordService (internal/services/word_service.go): a cache-aside lookup of dictionary
 * entries. The lowercased query is looked up in the words table; a stored entry is
 * returned as is, a missing one is fetched from the external dictionary and saved in one
 * transaction, and any other storage failure fails the call.
 */
module WordService {
  import opened Wrappers
  import opened Models
  import Text
  import Dictionary
  import opened Storage

  /** A synonym or antonym list read by its own query, by meaning (and definition) position. */
  datatype ListRef =
    | MeaningSynonyms(meaning: nat)
    | MeaningAntonyms(meaning: nat)
    | DefinitionSynonyms(meaning: nat, definition: nat)
    | DefinitionAntonyms(meaning: nat, definition: nat)

  /** Why getFromDB returned no word: no row for the key (sql.ErrNoRows), or any other storage error. */
  datatype LookupError = NoRows | StorageFault

  /** The lines GetWord logs. */
  datatype LogLine = CacheHit(key: string) | CacheMiss(key: string) | SaveFailed

  /**
   * What the world answers during one lookup: whether a words-table query fails, which
   * synonym/antonym list reads fail, the dictionary's HTTP answer per URL, and whether
   * the save transaction fails.
   */
  datatype WordEnv = WordEnv(
    storageFault: bool,
    listFaults: set<ListRef>,
    get: string -> Dictionary.HttpOutcome,
    saveFault: bool)

  /** A list as read back: the stored list, or empty when reading it fails (the error is discarded). */
  function ReadList(stored: seq<string>, ref: ListRef, faults: set<ListRef>): seq<string> {
    if ref in faults then [] else stored
  }

  function LoadDefinition(d: Definition, m: nat, k: nat, faults: set<ListRef>): Definition {
    d.(synonyms := ReadList(d.synonyms, DefinitionSynonyms(m, k), faults),
       antonyms := ReadList(d.antonyms, DefinitionAntonyms(m, k), faults))
  }

  function LoadMeaning(me: Meaning, m: nat, faults: set<ListRef>): Meaning {
    Meaning(
      me.partOfSpeech,
      seq(|me.definitions|, k requires 0 <= k < |me.definitions| => LoadDefinition(me.definitions[k], m, k, faults)),
      ReadList(me.synonyms, MeaningSynonyms(m), faults),
      ReadList(me.antonyms, MeaningAntonyms(m), faults))
  }

  /** The entry getFromDB reassembles from the rows saved for `stored`. */
  function LoadWord(stored: Word, faults: set<ListRef>): Word {
    stored.(meanings := seq(|stored.meanings|, m requires 0 <= m < |stored.meanings| => LoadMeaning(stored.meanings[m], m, faults)))
  }

  /** What getFromDB answers for `key` over the given words table and headword index. */
  function FromDB(words: map<int, Word>, wordIndex: map<string, int>, key: string, fault: bool, faults: set<ListRef>): Result<Word, LookupError> {
    if fault then Failure(StorageFault)
    else if key in wordIndex && wordIndex[key] in words then Success(LoadWord(words[wordIndex[key]], faults))
    else Failure(NoRows)
  }

  /** With every read succeeding, loading gives back exactly the entry that was saved. */
  lemma LoadWithoutFaults(w: Word)
    ensures LoadWord(w, {}) == w
  {
    forall m | 0 <= m < |w.meanings|
      ensures LoadMeaning(w.meanings[m], m, {}) == w.meanings[m]
    {
      var me := w.meanings[m];
      assert LoadMeaning(me, m, {}).definitions == me.definitions;
    }
  }

  /** Every list with everything but its position's synonym/antonym lists emptied. */
  function Skeleton(w: Word): Word {
    w.(meanings := seq(|w.meanings|, m requires 0 <= m < |w.meanings| =>
      var me := w.meanings[m];
      Meaning(me.partOfSpeech,
        seq(|me.definitions|, k requires 0 <= k < |me.definitions| => me.definitions[k].(synonyms := [], antonyms := [])),
        [], [])))
  }

  /**
   * Failed synonym/antonym reads never fail the load and never change anything but the
   * lists that failed: the loaded entry has the saved entry's shape, and each list is
   * either read back whole or empty, a meaning-level list never standing in for a
   * definition-level one.
   */
  lemma LoadDegradesOnlyFailedLists(w: Word, faults: set<ListRef>)
    ensures Skeleton(LoadWord(w, faults)) == Skeleton(w)
    ensures forall m :: 0 <= m < |w.meanings| ==>
      && LoadWord(w, faults).meanings[m].synonyms == (if MeaningSynonyms(m) in faults then [] else w.meanings[m].synonyms)
      && LoadWord(w, faults).meanings[m].antonyms == (if MeaningAntonyms(m) in faults then [] else w.meanings[m].antonyms)
    ensures forall m, k :: 0 <= m < |w.meanings| && 0 <= k < |w.meanings[m].definitions| ==>
      && LoadWord(w, faults).meanings[m].definitions[k].synonyms == (if DefinitionSynonyms(m, k) in faults then [] else w.meanings[m].definitions[k].synonyms)
      && LoadWord(w, faults).meanings[m].definitions[k].antonyms == (if DefinitionAntonyms(m, k) in faults then [] else w.meanings[m].definitions[k].antonyms)
  {
    var l := LoadWord(w, faults);
    forall m | 0 <= m < |w.meanings|
      ensures Skeleton(l).meanings[m] == Skeleton(w).meanings[m]
    {
      assert Skeleton(l).meanings[m].definitions == Skeleton(w).meanings[m].definitions;
    }
  }

  /**
   * getFromDB: the word row for `key`, then its meanings one by one, each with its
   * definitions one by one and the synonym/antonym lists read per definition and per
   * meaning.
   */
  method GetFromDB(db: Database, key: string, fault: bool, faults: set<ListRef>) returns (r: Result<Word, LookupError>)
    requires db.Valid()
    ensures r == FromDB(db.words, db.wordIndex, key, fault, faults)
  {
    if fault {
      return Failure(StorageFault);
    }
    if key !in db.wordIndex {
      return Failure(NoRows);
    }
    var stored := db.words[db.wordIndex[key]];
    var meanings: seq<Meaning> := [];
    for m := 0 to |stored.meanings|
      invariant |meanings| == m
      invariant forall j :: 0 <= j < m ==> meanings[j] == LoadMeaning(stored.meanings[j], j, faults)
    {
      var me := stored.meanings[m];
      var definitions: seq<Definition> := [];
      for k := 0 to |me.definitions|
        invariant |definitions| == k
        invariant forall j :: 0 <= j < k ==> definitions[j] == LoadDefinition(me.definitions[j], m, j, faults)
      {
        var d := me.definitions[k];
        var synonyms := if DefinitionSynonyms(m, k) in faults then [] else d.synonyms;
        var antonyms := if DefinitionAntonyms(m, k) in faults then [] else d.antonyms;
        definitions := definitions + [Definition(d.definition, d.example, synonyms, antonyms)];
      }
      assert definitions == LoadMeaning(me, m, faults).definitions;
      var synonyms := if MeaningSynonyms(m) in faults then [] else me.synonyms;
      var antonyms := if MeaningAntonyms(m) in faults then [] else me.antonyms;
      meanings := meanings + [Meaning(me.partOfSpeech, definitions, synonyms, antonyms)];
    }
    assert meanings == LoadWord(stored, faults).meanings;
    return Success(stored.(meanings := meanings));
  }

  /**
   * saveToDB: every row of the entry is inserted in one transaction, so either all of
   * them are stored under a fresh id or, when any insert fails (the UNIQUE headword among
   * them) or the commit fails, none is. `saved` is the id the words row received.
   */
  method SaveToDB(db: Database, w: Word, fault: bool) returns (saved: Option<int>)
    requires db.Valid()
    modifies db`words, db`wordIndex, db`nextWordId
    ensures db.Valid()
    ensures saved.Some? <==> !fault && w.word !in old(db.wordIndex)
    ensures saved.Some? ==>
      && saved.value == old(db.nextWordId)
      && db.words == old(db.words)[saved.value := w.(id := saved.value)]
      && db.wordIndex == old(db.wordIndex)[w.word := saved.value]
      && db.nextWordId == old(db.nextWordId) + 1
    ensures saved.None? ==> db.WordTables() == old(db.WordTables())
  {
    if fault || w.word in db.wordIndex {
      return None;
    }
    var id := db.nextWordId;
    db.words := db.words[id := w.(id := id)];
    db.wordIndex := db.wordIndex[w.word := id];
    db.nextWordId := id + 1;
    return Some(id);
  }

  /**
   * After a save, a lookup finds the saved entry only under its own headword; every
   * other key answers as before. A query key that differs from the fetched headword
   * therefore keeps missing.
   */
  lemma SaveThenLookup(words: map<int, Word>, wordIndex: map<string, int>, w: Word, id: int, key: string)
    requires id !in words
    requires w.word !in wordIndex
    requires forall k :: k in wordIndex ==> wordIndex[k] in words
    ensures FromDB(words[id := w.(id := id)], wordIndex[w.word := id], key, false, {}) ==
      if key == w.word then Success(w.(id := id)) else FromDB(words, wordIndex, key, false, {})
  {
    LoadWithoutFaults(w.(id := id));
    if key != w.word && key in wordIndex {
      LoadWithoutFaults(words[wordIndex[key]]);
    }
  }

  /** GetWord fails for `query` exactly on a storage fault, or on a miss the dictionary cannot answer. */
  predicate LookupFails(wordIndex: map<string, int>, query: string, env: WordEnv) {
    var key := Text.ToLower(query);
    env.storageFault || (key !in wordIndex && Dictionary.Classify(env.get(Dictionary.RequestUrl(key))).Failure?)
  }

  /** A miss the dictionary answers with a headword the index lacks, and whose save succeeds. */
  predicate SavesFresh(wordIndex: map<string, int>, query: string, env: WordEnv) {
    var key := Text.ToLower(query);
    var c := Dictionary.Classify(env.get(Dictionary.RequestUrl(key)));
    !env.storageFault && key !in wordIndex && c.Success? && !env.saveFault && c.value.word !in wordIndex
  }

  /**
   * A miss the dictionary answers, but whose save fails or finds the fetched headword already
   * stored under another key: GetWord then returns the fetched word with id 0.
   */
  predicate FetchedUnsaved(wordIndex: map<string, int>, query: string, env: WordEnv) {
    var key := Text.ToLower(query);
    var c := Dictionary.Classify(env.get(Dictionary.RequestUrl(key)));
    !env.storageFault && key !in wordIndex && c.Success? && (env.saveFault || c.value.word in wordIndex)
  }

  /**
   * GetWord: lowercase the query; on a hit return the stored entry; on a miss fetch it,
   * try to save it (a failed save is only logged) and return it with the id it was saved
   * under; on any other storage error fail without fetching.
   */
  method GetWord(db: Database, query: string, env: WordEnv) returns (r: Result<Word, WordError>, log: seq<LogLine>)
    requires db.Valid()
    modifies db`words, db`wordIndex, db`nextWordId
    ensures db.Valid()
    ensures var key := Text.ToLower(query);
      && (env.storageFault ==> r == Failure(RetrieveFailed) && log == [] && db.WordTables() == old(db.WordTables()))
      && (!env.storageFault && key in old(db.wordIndex) ==>
            && r == Success(LoadWord(old(db.words)[old(db.wordIndex)[key]], env.listFaults))
            && log == [CacheHit(key)]
            && db.WordTables() == old(db.WordTables()))
      && (!env.storageFault && key !in old(db.wordIndex) ==>
            var c := Dictionary.Classify(env.get(Dictionary.RequestUrl(key)));
            && |log| >= 1 && log[0] == CacheMiss(key)
            && (c.Failure? ==> r == Failure(FetchFailed(c.error)) && log == [CacheMiss(key)] && db.WordTables() == old(db.WordTables()))
            && (c.Success? ==> r.Success? && Dictionary.Converted(c.value, r.value.(id := 0)))
            && (c.Success? && !env.saveFault && c.value.word !in old(db.wordIndex) ==>
                  && r.value.id == old(db.nextWordId)
                  && db.words == old(db.words)[r.value.id := r.value]
                  && db.wordIndex == old(db.wordIndex)[r.value.word := r.value.id]
                  && log == [CacheMiss(key)])
            && (c.Success? && (env.saveFault || c.value.word in old(db.wordIndex)) ==>
                  && r.value.id == 0
                  && db.WordTables() == old(db.WordTables())
                  && log == [CacheMiss(key), SaveFailed]))
    ensures r.Success? ==> r.value.id == 0 || r.value.id in db.words
    ensures r.Failure? <==> LookupFails(old(db.wordIndex), query, env)
    ensures !env.storageFault && Text.ToLower(query) in old(db.wordIndex) ==>
      r.Success? && r.value.id == old(db.wordIndex)[Text.ToLower(query)] && r.value.id in db.words
    ensures SavesFresh(old(db.wordIndex), query, env) ==> r.Success? && r.value.id == old(db.nextWordId) && r.value.id in db.words
    ensures FetchedUnsaved(old(db.wordIndex), query, env) ==>
      r.Success? && r.value.id == 0 && r.value.id !in db.words && db.WordTables() == old(db.WordTables())
  {
    var key := Text.ToLower(query);
    var local := GetFromDB(db, key, env.storageFault, env.listFaults);
    match local {
      case Success(w) =>
        assert w.id == db.wordIndex[key];
        return Success(w), [CacheHit(key)];
      case Failure(NoRows) =>
        log := [CacheMiss(key)];
        var fetched := Dictionary.FetchWord(key, env.get);
        if fetched.Failure? {
          return Failure(FetchFailed(fetched.error)), log;
        }
        var saved := SaveToDB(db, fetched.value, env.saveFault);
        if saved.None? {
          return Success(fetched.value), log + [SaveFailed];
        }
        return Success(fetched.value.(id := saved.value)), log;
      case Failure(StorageFault) =>
        return Failure(RetrieveFailed), [];
    }
  }

  /**
   * GetWord as written: on a miss the fetched entry is returned as the dictionary client
   * built it, with id 0, even when the save succeeded and the row got a real id.
   */
  method GetWordAsWritten(db: Database, query: string, env: WordEnv) returns (r: Result<Word, WordError>, log: seq<LogLine>)
    requires db.Valid()
    modifies db`words, db`wordIndex, db`nextWordId
    ensures db.Valid()
    ensures !env.storageFault && Text.ToLower(query) !in old(db.wordIndex) && r.Success? ==>
      r.value.id == 0 && r.value.id !in db.words
    ensures var key := Text.ToLower(query);
      var c := Dictionary.Classify(env.get(Dictionary.RequestUrl(key)));
      !env.storageFault && key !in old(db.wordIndex) && c.Success? && !env.saveFault && c.value.word !in old(db.wordIndex) ==>
        && r.Success?
        && db.words == old(db.words)[old(db.nextWordId) := r.value.(id := old(db.nextWordId))]
        && db.words[old(db.nextWordId)] != r.value
  {
    var key := Text.ToLower(query);
    var local := GetFromDB(db, key, env.storageFault, env.listFaults);
    match local {
      case Success(w) =>
        return Success(w), [CacheHit(key)];
      case Failure(NoRows) =>
        log := [CacheMiss(key)];
        var fetched := Dictionary.FetchWord(key, env.get);
        if fetched.Failure? {
          return Failure(FetchFailed(fetched.error)), log;
        }
        var saved := SaveToDB(db, fetched.value, env.saveFault);
        if saved.None? {
          log := log + [SaveFailed];
        }
        return Success(fetched.value), log;
      case Failure(StorageFault) =>
        return Failure(RetrieveFailed), [];
    }
  }
}
