/**
 * The bulk importer (cmd/importer/main.go): Wordset dictionary entries are converted to
 * the Word model (definitions grouped by part of speech), deduplicated in an index keyed
 * by the lower-cased headword (duplicates are merged by appending), and written to the
 * words tables in batches, one transaction per word.
 *
 * Reading the data directory and decoding its JSON are left to the caller: a file arrives
 * already decoded, or as a failure. Go map iteration order is unspecified, so every loop
 * over a map picks its next key with `:|`, and its result is stated for any order.
 */
module Importer {
  import opened Wrappers
  import opened Models
  import Text
  import opened Storage

  /** One sense in a Wordset file. */
  datatype WordsetMeaning = WordsetMeaning(
    id: string,
    definition: string,
    example: string,
    speechPart: string,
    synonyms: seq<string>)

  /** One headword in a Wordset file. */
  datatype WordsetEntry = WordsetEntry(word: string, wordsetId: string, meanings: seq<WordsetMeaning>)

  /** The one source URL every converted entry carries. */
  const WordsetSourceUrl: string := "https://github.com/wordset/wordset-dictionary"

  // ---------------------------------------------------------------------------
  // Deduplication index

  /**
   * Merging a duplicate into the indexed word: meanings, source URLs and phonetics are
   * appended after the existing ones, and the phonetic is replaced only by a non-empty,
   * strictly longer (in bytes) one. The headword and id stay the existing word's.
   */
  function Merge(existing: Word, w: Word): (m: Word)
    ensures m.id == existing.id && m.word == existing.word
    ensures |m.meanings| == |existing.meanings| + |w.meanings|
    ensures m.meanings[..|existing.meanings|] == existing.meanings && m.meanings[|existing.meanings|..] == w.meanings
    ensures |m.sourceUrls| == |existing.sourceUrls| + |w.sourceUrls|
    ensures m.sourceUrls[..|existing.sourceUrls|] == existing.sourceUrls && m.sourceUrls[|existing.sourceUrls|..] == w.sourceUrls
    ensures |m.phonetics| == |existing.phonetics| + |w.phonetics|
    ensures m.phonetics[..|existing.phonetics|] == existing.phonetics && m.phonetics[|existing.phonetics|..] == w.phonetics
    // The non-empty test is implied by the length test: only a strictly longer phonetic wins.
    ensures m.phonetic == if Text.ByteLen(w.phonetic) > Text.ByteLen(existing.phonetic) then w.phonetic else existing.phonetic
  {
    var phonetic :=
      if w.phonetic != "" && Text.ByteLen(w.phonetic) > Text.ByteLen(existing.phonetic) then w.phonetic else existing.phonetic;
    existing.(
      meanings := existing.meanings + w.meanings,
      phonetic := phonetic,
      sourceUrls := existing.sourceUrls + w.sourceUrls,
      phonetics := existing.phonetics + w.phonetics)
  }

  /** The index after AddOrMerge of `w`: the key is the lower-cased headword; a seen key merges. */
  function Added(words: map<string, Word>, w: Word): map<string, Word> {
    var key := Text.ToLower(w.word);
    words[key := if key in words then Merge(words[key], w) else w]
  }

  /** The importer's word index: lower-cased headword to the (merged) word. */
  class WordIndex {
    var words: map<string, Word>

    /** Every word sits under the lower-cased form of its own headword. */
    ghost predicate Valid()
      reads this
    {
      forall k :: k in words ==> Text.ToLower(words[k].word) == k
    }

    constructor ()
      ensures Valid() && words == map[]
    {
      words := map[];
    }

    /**
     * AddOrMerge: an unseen key stores the word as given; a seen key merges the word
     * into the stored one. No other entry changes.
     */
    method AddOrMerge(w: Word)
      requires Valid()
      modifies this
      ensures Valid()
      ensures words == Added(old(words), w)
    {
      var key := Text.ToLower(w.word);
      if key in words {
        words := words[key := Merge(words[key], w)];
      } else {
        words := words[key := w];
      }
    }

    /** GetAll: the index's words, one per key, in unspecified order; `keys` names the key of each. */
    method GetAll() returns (all: seq<Word>, ghost keys: seq<string>)
      ensures |all| == |keys| == |words|
      ensures forall i :: 0 <= i < |keys| ==> keys[i] in words && all[i] == words[keys[i]]
      ensures forall i, j :: 0 <= i < j < |keys| ==> keys[i] != keys[j]
      ensures forall k :: k in words ==> k in keys
      ensures forall k :: k in words ==> words[k] in all
    {
      var rest := words.Keys;
      all, keys := [], [];
      while rest != {}
        invariant rest <= words.Keys
        invariant |all| == |keys| && |keys| + |rest| == |words|
        invariant forall i :: 0 <= i < |keys| ==> keys[i] in words && keys[i] !in rest && all[i] == words[keys[i]]
        invariant forall i, j :: 0 <= i < j < |keys| ==> keys[i] != keys[j]
        invariant forall k :: k in words && k !in rest ==> k in keys
        decreases |rest|
      {
        var k :| k in rest;
        all, keys := all + [words[k]], keys + [k];
        rest := rest - {k};
      }
      forall k | k in words
        ensures words[k] in all
      {
        var i :| 0 <= i < |keys| && keys[i] == k;
        assert all[i] == words[k];
      }
    }
  }

  /** After merging the same headword twice, the index holds one word with both contributions. */
  lemma AddTwiceMerges(words: map<string, Word>, a: Word, b: Word)
    requires Text.ToLower(a.word) == Text.ToLower(b.word) && Text.ToLower(a.word) !in words
    ensures var key := Text.ToLower(a.word);
      var once := words[key := a];
      var twice := once[key := Merge(once[key], b)];
      && twice.Keys == words.Keys + {key}
      && |twice[key].meanings| == |a.meanings| + |b.meanings|
      && twice[key].word == a.word
  {
  }

  // ---------------------------------------------------------------------------
  // Converting a Wordset entry

  /** A Wordset sense as a definition: text, example and synonyms; no antonyms. */
  function ToDefinition(wm: WordsetMeaning): (d: Definition)
    ensures d.definition == wm.definition && d.example == wm.example && d.synonyms == wm.synonyms && d.antonyms == []
  {
    Definition(wm.definition, wm.example, wm.synonyms, [])
  }

  /** The definitions of the senses with the given part of speech, in input order. */
  function DefsFor(ms: seq<WordsetMeaning>, pos: string): seq<Definition> {
    if ms == [] then []
    else
      var last := ms[|ms| - 1];
      DefsFor(ms[..|ms| - 1], pos) + (if last.speechPart == pos then [ToDefinition(last)] else [])
  }

  /** The distinct parts of speech the senses use. */
  ghost function SpeechParts(ms: seq<WordsetMeaning>): set<string> {
    set k | 0 <= k < |ms| :: ms[k].speechPart
  }

  /** A part of speech no sense uses groups no definition. */
  lemma {:induction false} DefsForAbsent(ms: seq<WordsetMeaning>, pos: string)
    requires pos !in SpeechParts(ms)
    ensures DefsFor(ms, pos) == []
  {
    if ms != [] {
      var init := ms[..|ms| - 1];
      assert forall k :: 0 <= k < |init| ==> init[k] == ms[k];
      assert ms[|ms| - 1].speechPart in SpeechParts(ms);
      DefsForAbsent(init, pos);
    }
  }

  /** The total number of definitions over a word's meanings. */
  function TotalDefinitions(meanings: seq<Meaning>): nat {
    if meanings == [] then 0 else |meanings[0].definitions| + TotalDefinitions(meanings[1..])
  }

  /** The total number of definitions grouped under the parts of speech `ps`. */
  function CountDefs(ps: seq<string>, ms: seq<WordsetMeaning>): nat {
    if ps == [] then 0 else |DefsFor(ms, ps[0])| + CountDefs(ps[1..], ms)
  }

  /** How often `q` occurs in `ps`. */
  function Occurrences(ps: seq<string>, q: string): nat {
    if ps == [] then 0 else (if ps[0] == q then 1 else 0) + Occurrences(ps[1..], q)
  }

  lemma {:induction false} CountDefsEmpty(ps: seq<string>)
    ensures CountDefs(ps, []) == 0
  {
    if ps != [] {
      CountDefsEmpty(ps[1..]);
    }
  }

  /** One more sense adds one definition under each occurrence of its part of speech. */
  lemma {:induction false} CountDefsStep(ps: seq<string>, ms: seq<WordsetMeaning>)
    requires ms != []
    ensures CountDefs(ps, ms) == CountDefs(ps, ms[..|ms| - 1]) + Occurrences(ps, ms[|ms| - 1].speechPart)
  {
    if ps != [] {
      CountDefsStep(ps[1..], ms);
    }
  }

  lemma {:induction false} OccursOnce(ps: seq<string>, q: string)
    requires forall i, j :: 0 <= i < j < |ps| ==> ps[i] != ps[j]
    ensures Occurrences(ps, q) == if q in ps then 1 else 0
  {
    if ps != [] {
      assert forall i, j :: 0 <= i < j < |ps[1..]| ==> ps[1..][i] != ps[1..][j] by {
        forall i, j | 0 <= i < j < |ps[1..]|
          ensures ps[1..][i] != ps[1..][j]
        {
          assert ps[1..][i] == ps[i + 1] && ps[1..][j] == ps[j + 1];
        }
      }
      OccursOnce(ps[1..], q);
      assert q in ps <==> q == ps[0] || q in ps[1..] by {
        assert ps == [ps[0]] + ps[1..];
      }
      if ps[0] == q {
        assert q !in ps[1..] by {
          forall j | 0 <= j < |ps[1..]|
            ensures ps[1..][j] != q
          {
            assert ps[1..][j] == ps[j + 1];
          }
        }
      }
    }
  }

  /**
   * Grouping loses and duplicates nothing: over distinct parts of speech that cover every
   * sense, the grouped definitions number exactly the senses.
   */
  lemma {:induction false} CountDefsTotal(ps: seq<string>, ms: seq<WordsetMeaning>)
    requires forall i, j :: 0 <= i < j < |ps| ==> ps[i] != ps[j]
    requires forall k :: 0 <= k < |ms| ==> ms[k].speechPart in ps
    ensures CountDefs(ps, ms) == |ms|
  {
    if ms == [] {
      CountDefsEmpty(ps);
    } else {
      var init := ms[..|ms| - 1];
      assert forall k :: 0 <= k < |init| ==> init[k] == ms[k];
      CountDefsTotal(ps, init);
      CountDefsStep(ps, ms);
      OccursOnce(ps, ms[|ms| - 1].speechPart);
    }
  }

  lemma {:induction false} TotalIsCount(meanings: seq<Meaning>, ps: seq<string>, ms: seq<WordsetMeaning>)
    requires |ps| == |meanings|
    requires forall i :: 0 <= i < |meanings| ==> meanings[i].definitions == DefsFor(ms, ps[i])
    ensures TotalDefinitions(meanings) == CountDefs(ps, ms)
  {
    if meanings != [] {
      TotalIsCount(meanings[1..], ps[1..], ms);
    }
  }

  /** The meaning grouping the senses with part of speech `pos`. */
  function Grouped(ms: seq<WordsetMeaning>, pos: string): Meaning {
    Meaning(pos, DefsFor(ms, pos), [], [])
  }

  /** The first loop of convertWordsetToModel: each sense's definition appended under its part of speech. */
  method GroupByPartOfSpeech(ms: seq<WordsetMeaning>) returns (byPos: map<string, Meaning>)
    ensures byPos.Keys == SpeechParts(ms)
    ensures forall pos :: pos in byPos ==> byPos[pos] == Grouped(ms, pos)
  {
    byPos := map[];
    for i := 0 to |ms|
      invariant byPos.Keys == SpeechParts(ms[..i])
      invariant forall pos :: pos in byPos ==> byPos[pos] == Grouped(ms[..i], pos)
    {
      assert ms[..i + 1][..i] == ms[..i];
      var wm := ms[i];
      var pos := wm.speechPart;
      if pos !in byPos {
        DefsForAbsent(ms[..i], pos);
      }
      assert forall p :: DefsFor(ms[..i + 1], p) == DefsFor(ms[..i], p) + (if p == pos then [ToDefinition(wm)] else []);
      var meaning := if pos in byPos then byPos[pos] else Meaning(pos, [], [], []);
      byPos := byPos[pos := meaning.(definitions := meaning.definitions + [ToDefinition(wm)])];
      assert SpeechParts(ms[..i + 1]) == SpeechParts(ms[..i]) + {pos};
    }
    assert ms[..|ms|] == ms;
  }

  /** The second loop: the grouped meanings collected from the map, one per key, in unspecified order. */
  method CollectMeanings(byPos: map<string, Meaning>) returns (meanings: seq<Meaning>, ghost parts: seq<string>)
    ensures |parts| == |meanings|
    ensures forall i :: 0 <= i < |meanings| ==> parts[i] in byPos && meanings[i] == byPos[parts[i]]
    ensures forall i, j :: 0 <= i < j < |parts| ==> parts[i] != parts[j]
    ensures forall p :: p in byPos ==> p in parts
    ensures |meanings| == |byPos|
  {
    var rest := byPos.Keys;
    meanings, parts := [], [];
    while rest != {}
      invariant rest <= byPos.Keys
      invariant |parts| == |meanings| && |parts| + |rest| == |byPos|
      invariant forall i :: 0 <= i < |meanings| ==> parts[i] in byPos && parts[i] !in rest && meanings[i] == byPos[parts[i]]
      invariant forall i, j :: 0 <= i < j < |parts| ==> parts[i] != parts[j]
      invariant forall p :: p in byPos && p !in rest ==> p in parts
      decreases |rest|
    {
      var pos :| pos in rest;
      meanings, parts := meanings + [byPos[pos]], parts + [pos];
      rest := rest - {pos};
    }
  }

  /**
   * convertWordsetToModel: the lower-cased headword, no phonetic, the Wordset source URL,
   * and one meaning per distinct part of speech holding that part's definitions in input
   * order (meanings in unspecified order). Every sense becomes exactly one definition.
   */
  method ConvertWordsetToModel(entry: WordsetEntry) returns (w: Word)
    ensures w.id == 0 && w.word == Text.ToLower(entry.word) && w.phonetic == ""
    ensures w.phonetics == [] && w.sourceUrls == [WordsetSourceUrl]
    ensures forall i :: 0 <= i < |w.meanings| ==> w.meanings[i] == Grouped(entry.meanings, w.meanings[i].partOfSpeech)
    ensures forall i, j :: 0 <= i < j < |w.meanings| ==> w.meanings[i].partOfSpeech != w.meanings[j].partOfSpeech
    ensures forall k :: 0 <= k < |entry.meanings| ==>
      exists i :: 0 <= i < |w.meanings| && w.meanings[i].partOfSpeech == entry.meanings[k].speechPart
    ensures TotalDefinitions(w.meanings) == |entry.meanings|
    ensures |w.meanings| == |SpeechParts(entry.meanings)|
  {
    var ms := entry.meanings;
    var byPos := GroupByPartOfSpeech(ms);
    var meanings, parts := CollectMeanings(byPos);
    forall k | 0 <= k < |ms|
      ensures ms[k].speechPart in parts
    {
      assert ms[k].speechPart in SpeechParts(ms);
    }
    TotalIsCount(meanings, parts, ms);
    CountDefsTotal(parts, ms);
    w := Word(0, Text.ToLower(entry.word), "", meanings, [], [WordsetSourceUrl]);
  }

  /** Why a data file yielded nothing: it could not be read or decoded. */
  datatype LoadError = Unreadable

  /** The index after adding `ws` in order. */
  function AddAll(words: map<string, Word>, ws: seq<Word>): map<string, Word> {
    if ws == [] then words else Added(AddAll(words, ws[..|ws| - 1]), ws[|ws| - 1])
  }

  lemma AddAllStep(words: map<string, Word>, ws: seq<Word>, w: Word)
    ensures AddAll(words, ws + [w]) == Added(AddAll(words, ws), w)
  {
    assert (ws + [w])[..|ws|] == ws;
  }

  /** The keys the words of `ws` are filed under. */
  function FiledKeys(ws: seq<Word>): set<string> {
    if ws == [] then {} else FiledKeys(ws[..|ws| - 1]) + {Text.ToLower(ws[|ws| - 1].word)}
  }

  lemma {:induction false} FiledKeysIndex(ws: seq<Word>, key: string)
    ensures key in FiledKeys(ws) <==> exists i :: 0 <= i < |ws| && Text.ToLower(ws[i].word) == key
  {
    if ws != [] {
      FiledKeysIndex(ws[..|ws| - 1], key);
      if key in FiledKeys(ws[..|ws| - 1]) {
        var i :| 0 <= i < |ws| - 1 && Text.ToLower(ws[..|ws| - 1][i].word) == key;
        assert Text.ToLower(ws[i].word) == key;
      }
    }
  }

  /** Adding words adds exactly their keys to the index. */
  lemma {:induction false} AddAllKeys(words: map<string, Word>, ws: seq<Word>)
    ensures AddAll(words, ws).Keys == words.Keys + FiledKeys(ws)
  {
    if ws != [] {
      AddAllKeys(words, ws[..|ws| - 1]);
    }
  }

  /** The definitions the words of `ws` filed under `key` bring. */
  function DefinitionsUnder(ws: seq<Word>, key: string): nat {
    if ws == [] then 0
    else
      var last := ws[|ws| - 1];
      DefinitionsUnder(ws[..|ws| - 1], key) + if Text.ToLower(last.word) == key then TotalDefinitions(last.meanings) else 0
  }

  lemma {:induction false} TotalDefinitionsAppend(a: seq<Meaning>, b: seq<Meaning>)
    ensures TotalDefinitions(a + b) == TotalDefinitions(a) + TotalDefinitions(b)
  {
    if a == [] {
      assert a + b == b;
    } else {
      assert (a + b)[0] == a[0] && (a + b)[1..] == a[1..] + b;
      TotalDefinitionsAppend(a[1..], b);
    }
  }

  /** A key no added word files under keeps its word. */
  lemma {:induction false} AddAllKeepsOthers(words: map<string, Word>, ws: seq<Word>, key: string)
    requires key in words
    requires forall i :: 0 <= i < |ws| ==> Text.ToLower(ws[i].word) != key
    ensures key in AddAll(words, ws) && AddAll(words, ws)[key] == words[key]
  {
    if ws != [] {
      AddAllKeepsOthers(words, ws[..|ws| - 1], key);
    }
  }

  /**
   * Merging loses and duplicates no definition: the word under `key` holds its old
   * definitions plus those of every added word filed under `key`.
   */
  lemma {:induction false} AddAllDefinitions(words: map<string, Word>, ws: seq<Word>, key: string)
    ensures key !in AddAll(words, ws) ==> key !in words && DefinitionsUnder(ws, key) == 0
    ensures key in AddAll(words, ws) ==>
      TotalDefinitions(AddAll(words, ws)[key].meanings)
        == (if key in words then TotalDefinitions(words[key].meanings) else 0) + DefinitionsUnder(ws, key)
  {
    if ws != [] {
      var init, last := AddAll(words, ws[..|ws| - 1]), ws[|ws| - 1];
      AddAllDefinitions(words, ws[..|ws| - 1], key);
      if Text.ToLower(last.word) == key && key in init {
        TotalDefinitionsAppend(init[key].meanings, last.meanings);
      }
    }
  }

  /** A key new to the index that exactly one added word files under holds that word. */
  lemma {:induction false} AddAllSingle(words: map<string, Word>, ws: seq<Word>, i: int)
    requires 0 <= i < |ws| && Text.ToLower(ws[i].word) !in words
    requires forall j :: 0 <= j < |ws| && j != i ==> Text.ToLower(ws[j].word) != Text.ToLower(ws[i].word)
    ensures Text.ToLower(ws[i].word) in AddAll(words, ws) && AddAll(words, ws)[Text.ToLower(ws[i].word)] == ws[i]
  {
    var key := Text.ToLower(ws[i].word);
    var init := ws[..|ws| - 1];
    if i == |ws| - 1 {
      AddAllDefinitions(words, init, key);
      assert key !in AddAll(words, init) by {
        AddAllAbsent(words, init, key);
      }
    } else {
      AddAllSingle(words, init, i);
    }
  }

  /** A key neither in the index nor filed under by an added word stays absent. */
  lemma {:induction false} AddAllAbsent(words: map<string, Word>, ws: seq<Word>, key: string)
    requires key !in words
    requires forall j :: 0 <= j < |ws| ==> Text.ToLower(ws[j].word) != key
    ensures key !in AddAll(words, ws)
  {
    if ws != [] {
      AddAllAbsent(words, ws[..|ws| - 1], key);
    }
  }

  /** The keys a decoded file files its entries under. */
  function Produced(entries: map<string, WordsetEntry>): set<string> {
    set k | k in entries :: Text.ToLower(entries[k].word)
  }

  /** `w` is a conversion of `entry`: its lower-cased headword, and one definition per sense. */
  predicate Converts(entry: WordsetEntry, w: Word) {
    w.word == Text.ToLower(entry.word) && TotalDefinitions(w.meanings) == |entry.meanings|
  }

  /**
   * loadWordsetFile: every entry of a decoded file is converted and added to the index, in
   * the map's iteration order `order`; `converted` holds the converted words. The count is
   * the number of entries. A file that could not be read or decoded adds nothing.
   */
  method LoadWordsetFile(decoded: Option<map<string, WordsetEntry>>, index: WordIndex)
    returns (r: Result<nat, LoadError>, ghost order: seq<string>, ghost converted: seq<Word>)
    requires index.Valid()
    modifies index
    ensures index.Valid()
    ensures decoded.None? ==> r == Failure(Unreadable) && index.words == old(index.words)
    ensures decoded.Some? ==>
      && r == Success(|decoded.value|)
      && |order| == |converted| == |decoded.value|
      && (forall i, j :: 0 <= i < j < |order| ==> order[i] != order[j])
      && (forall k :: k in decoded.value ==> k in order)
      && (forall i :: 0 <= i < |order| ==> order[i] in decoded.value && Converts(decoded.value[order[i]], converted[i]))
      && index.words == AddAll(old(index.words), converted)
      && index.words.Keys == old(index.words.Keys) + Produced(decoded.value)
    ensures decoded.Some? ==>
      forall k :: k in old(index.words) && k !in Produced(decoded.value) ==> index.words[k] == old(index.words)[k]
    ensures decoded.Some? ==>
      forall k :: k in index.words ==>
        TotalDefinitions(index.words[k].meanings)
          == (if k in old(index.words) then TotalDefinitions(old(index.words)[k].meanings) else 0) + DefinitionsUnder(converted, k)
  {
    order, converted := [], [];
    if decoded.None? {
      return Failure(Unreadable), order, converted;
    }
    var entries := decoded.value;
    ghost var before := index.words;
    var count;
    count, order, converted := AddEntries(entries, index);
    KeepsUnproduced(before, entries, order, converted);
    AddAllKeys(before, converted);
    FiledKeysProduced(entries, order, converted);
    forall k | k in index.words
      ensures TotalDefinitions(index.words[k].meanings)
        == (if k in before then TotalDefinitions(before[k].meanings) else 0) + DefinitionsUnder(converted, k)
    {
      AddAllDefinitions(before, converted, k);
    }
    return Success(count), order, converted;
  }

  /** The loop of loadWordsetFile: converts and adds every entry, in the map's iteration order. */
  method AddEntries(entries: map<string, WordsetEntry>, index: WordIndex)
    returns (count: nat, ghost order: seq<string>, ghost converted: seq<Word>)
    requires index.Valid()
    modifies index
    ensures index.Valid()
    ensures count == |order| == |converted| == |entries|
    ensures forall i, j :: 0 <= i < j < |order| ==> order[i] != order[j]
    ensures forall k :: k in entries ==> k in order
    ensures forall i :: 0 <= i < |order| ==> order[i] in entries && Converts(entries[order[i]], converted[i])
    ensures index.words == AddAll(old(index.words), converted)
  {
    order, converted := [], [];
    ghost var before := index.words;
    var rest := entries.Keys;
    count := 0;
    while rest != {}
      invariant index.Valid()
      invariant count == |order| == |converted| && count + |rest| == |entries|
      invariant Visited(entries, rest, order, converted)
      invariant index.words == AddAll(before, converted)
      decreases |rest|
    {
      var k :| k in rest;
      ghost var word := ConvertAndAdd(entries[k], index);
      AddAllStep(before, converted, word);
      VisitedStep(entries, rest, order, converted, k, word);
      order, converted := order + [k], converted + [word];
      count := count + 1;
      rest := rest - {k};
    }
  }

  /** The load so far: `order` lists, once each, the entries no longer in `rest`, and `converted` their conversions. */
  ghost predicate Visited(entries: map<string, WordsetEntry>, rest: set<string>, order: seq<string>, converted: seq<Word>) {
    && rest <= entries.Keys
    && |order| == |converted|
    && (forall i :: 0 <= i < |order| ==> order[i] in entries && order[i] !in rest && Converts(entries[order[i]], converted[i]))
    && (forall i, j :: 0 <= i < j < |order| ==> order[i] != order[j])
    && (forall k :: k in entries && k !in rest ==> k in order)
  }

  lemma VisitedStep(entries: map<string, WordsetEntry>, rest: set<string>, order: seq<string>, converted: seq<Word>, k: string, w: Word)
    requires Visited(entries, rest, order, converted) && k in rest && Converts(entries[k], w)
    ensures Visited(entries, rest - {k}, order + [k], converted + [w])
  {
  }

  /** The converted words of a whole file are filed under exactly the keys the file produces. */
  lemma FiledKeysProduced(entries: map<string, WordsetEntry>, order: seq<string>, converted: seq<Word>)
    requires |order| == |converted|
    requires forall k :: k in entries ==> k in order
    requires forall i :: 0 <= i < |order| ==> order[i] in entries && Converts(entries[order[i]], converted[i])
    ensures FiledKeys(converted) == Produced(entries)
  {
    forall key | key in FiledKeys(converted)
      ensures key in Produced(entries)
    {
      FiledKeysIndex(converted, key);
      var i :| 0 <= i < |converted| && Text.ToLower(converted[i].word) == key;
      Text.ToLowerIdempotent(entries[order[i]].word);
    }
    forall key | key in Produced(entries)
      ensures key in FiledKeys(converted)
    {
      var k :| k in entries && Text.ToLower(entries[k].word) == key;
      var i :| 0 <= i < |order| && order[i] == k;
      Text.ToLowerIdempotent(entries[k].word);
      FiledKeysIndex(converted, key);
    }
  }

  /** One step of the load: convert an entry and add it to the index. */
  method ConvertAndAdd(entry: WordsetEntry, index: WordIndex) returns (ghost w: Word)
    requires index.Valid()
    modifies index
    ensures index.Valid()
    ensures Converts(entry, w) && index.words == Added(old(index.words), w)
  {
    var word := ConvertWordsetToModel(entry);
    index.AddOrMerge(word);
    return word;
  }

  /** Keys the file does not produce keep their words through the whole load. */
  lemma KeepsUnproduced(words: map<string, Word>, entries: map<string, WordsetEntry>, order: seq<string>, converted: seq<Word>)
    requires |order| == |converted|
    requires forall i :: 0 <= i < |order| ==> order[i] in entries && Converts(entries[order[i]], converted[i])
    ensures forall k :: k in words && k !in Produced(entries) ==> k in AddAll(words, converted) && AddAll(words, converted)[k] == words[k]
  {
    forall k | k in words && k !in Produced(entries)
      ensures k in AddAll(words, converted) && AddAll(words, converted)[k] == words[k]
    {
      forall i | 0 <= i < |converted|
        ensures Text.ToLower(converted[i].word) != k
      {
        Text.ToLowerIdempotent(entries[order[i]].word);
      }
      AddAllKeepsOthers(words, converted, k);
    }
  }

  // ---------------------------------------------------------------------------
  // Writing to the database

  /** The importer writes synonyms but never antonyms: what a stored meaning keeps. */
  function WithoutAntonyms(meanings: seq<Meaning>): (r: seq<Meaning>)
    ensures |r| == |meanings|
    ensures forall i :: 0 <= i < |r| ==>
      && r[i].partOfSpeech == meanings[i].partOfSpeech && r[i].synonyms == meanings[i].synonyms && r[i].antonyms == []
      && |r[i].definitions| == |meanings[i].definitions|
      && forall j :: 0 <= j < |r[i].definitions| ==>
           r[i].definitions[j] == meanings[i].definitions[j].(antonyms := [])
  {
    seq(|meanings|, i requires 0 <= i < |meanings| =>
      var m := meanings[i];
      m.(antonyms := [],
         definitions := seq(|m.definitions|, j requires 0 <= j < |m.definitions| => m.definitions[j].(antonyms := []))))
  }

  /** A word converted from Wordset carries no antonyms, so it is stored whole. */
  lemma ConvertedStoredWhole(meanings: seq<Meaning>, ms: seq<WordsetMeaning>)
    requires forall i :: 0 <= i < |meanings| ==> meanings[i] == Grouped(ms, meanings[i].partOfSpeech)
    ensures WithoutAntonyms(meanings) == meanings
  {
    forall pos
      ensures forall j :: 0 <= j < |DefsFor(ms, pos)| ==> DefsFor(ms, pos)[j].antonyms == []
    {
      DefsForHaveNoAntonyms(ms, pos);
    }
    var r := WithoutAntonyms(meanings);
    forall i | 0 <= i < |meanings|
      ensures r[i] == meanings[i]
    {
      assert r[i].definitions == meanings[i].definitions;
    }
  }

  lemma {:induction false} DefsForHaveNoAntonyms(ms: seq<WordsetMeaning>, pos: string)
    ensures forall j :: 0 <= j < |DefsFor(ms, pos)| ==> DefsFor(ms, pos)[j].antonyms == []
  {
    if ms != [] {
      DefsForHaveNoAntonyms(ms[..|ms| - 1], pos);
    }
  }

  /**
   * saveWordToDB: in one transaction, skip a headword the words table already has,
   * otherwise insert the word and its rows. A failing BEGIN fails even for a known
   * headword; a later failing step rolls everything back. `fault` is the failing step.
   */
  method SaveWordToDB(db: Database, w: Word, fault: Option<TxStep>) returns (err: Option<TxStep>)
    requires db.Valid()
    modifies db`words, db`wordIndex, db`nextWordId
    ensures db.Valid()
    ensures fault == Some(Begin) ==> err == Some(Begin)
    ensures fault != Some(Begin) && w.word in old(db.wordIndex) ==> err.None?
    ensures fault != Some(Begin) && w.word !in old(db.wordIndex) ==> err == fault
    ensures err.Some? || w.word in old(db.wordIndex) || fault.Some? ==> db.WordTables() == old(db.WordTables())
    ensures err.None? && w.word !in old(db.wordIndex) ==>
      var id := old(db.nextWordId);
      && db.words == old(db.words)[id := w.(id := id, meanings := WithoutAntonyms(w.meanings))]
      && db.wordIndex == old(db.wordIndex)[w.word := id]
      && db.nextWordId == id + 1
    ensures fault.None? ==> w.word in db.wordIndex
    ensures IndexKept(old(db.wordIndex), db.wordIndex)
    ensures err == SaveOutcome(old(db.wordIndex).Keys, w.word, fault)
    ensures db.wordIndex.Keys == old(db.wordIndex).Keys + if fault.None? then {w.word} else {}
  {
    if fault == Some(Begin) {
      return Some(Begin);
    }
    if w.word in db.wordIndex {
      return None;
    }
    if fault.Some? {
      return fault;
    }
    var id := db.nextWordId;
    db.words := db.words[id := w.(id := id, meanings := WithoutAntonyms(w.meanings))];
    db.wordIndex := db.wordIndex[w.word := id];
    db.nextWordId := id + 1;
    return None;
  }

  /**
   * What saveWordToDB reports, given the headwords already stored: a failing BEGIN always
   * fails, a known headword is skipped as a success, and otherwise the failing step (if any)
   * is reported.
   */
  function SaveOutcome(known: set<string>, headword: string, fault: Option<TxStep>): Option<TxStep> {
    if fault == Some(Begin) then fault else if headword in known then None else fault
  }

  /** The headwords among the first `n` words whose save met no fault. */
  ghost function SavedKeys(words: seq<Word>, n: nat, fault: nat -> Option<TxStep>): set<string>
    requires n <= |words|
  {
    if n == 0 then {}
    else SavedKeys(words, n - 1, fault) + if fault(n - 1).None? then {words[n - 1].word} else {}
  }

  /** SavedKeys holds exactly the headwords of the positions below `n` that met no fault. */
  lemma {:induction false} SavedKeysDenote(words: seq<Word>, n: nat, fault: nat -> Option<TxStep>)
    requires n <= |words|
    ensures SavedKeys(words, n, fault) == set j | 0 <= j < n && fault(j).None? :: words[j].word
  {
    if n > 0 {
      SavedKeysDenote(words, n - 1, fault);
      var below := set j | 0 <= j < n - 1 && fault(j).None? :: words[j].word;
      var upTo := set j | 0 <= j < n && fault(j).None? :: words[j].word;
      forall h | h in upTo
        ensures h in SavedKeys(words, n, fault)
      {
        var j :| 0 <= j < n && fault(j).None? && words[j].word == h;
        if j < n - 1 {
          assert h in below;
        }
      }
    }
  }

  /** The number of failed saves among `outcomes`. */
  function Failures(outcomes: seq<Option<TxStep>>): nat {
    if outcomes == [] then 0
    else Failures(outcomes[..|outcomes| - 1]) + if outcomes[|outcomes| - 1].Some? then 1 else 0
  }

  lemma {:induction false} FailuresAppend(a: seq<Option<TxStep>>, b: seq<Option<TxStep>>)
    ensures Failures(a + b) == Failures(a) + Failures(b)
  {
    if b == [] {
      assert a + b == a;
    } else {
      assert (a + b)[..|a + b| - 1] == a + b[..|b| - 1];
      FailuresAppend(a, b[..|b| - 1]);
    }
  }

  /** Saves that all report success count no failure. */
  lemma {:induction false} NoFailures(outcomes: seq<Option<TxStep>>)
    requires forall j :: 0 <= j < |outcomes| ==> outcomes[j].None?
    ensures Failures(outcomes) == 0
  {
    if outcomes != [] {
      NoFailures(outcomes[..|outcomes| - 1]);
    }
  }

  /** Every headword the index held is still there, with the same id. */
  ghost predicate IndexKept(before: map<string, int>, after: map<string, int>) {
    forall k :: k in before ==> k in after && after[k] == before[k]
  }

  /** Every word among the first `n` whose save met no fault is now in the words table. */
  ghost predicate SavedUpTo(words: seq<Word>, n: int, fault: nat -> Option<TxStep>, wordIndex: map<string, int>) {
    forall j :: 0 <= j < n && j < |words| && fault(j).None? ==> words[j].word in wordIndex
  }

  lemma IndexKeptTrans(a: map<string, int>, b: map<string, int>, c: map<string, int>)
    requires IndexKept(a, b) && IndexKept(b, c)
    ensures IndexKept(a, c)
  {
  }

  /** `visited` is 0, 1, ..., |visited| - 1. */
  ghost predicate InOrder(visited: seq<nat>) {
    forall j :: 0 <= j < |visited| ==> visited[j] == j
  }

  /**
   * importToDatabase: the words in consecutive batches [i, min(i + batchSize, total)),
   * each word saved on its own; a failed save counts as an error and the import goes on.
   * `visited` lists the positions in the order they were saved.
   */
  method ImportToDatabase(db: Database, words: seq<Word>, batchSize: int, fault: nat -> Option<TxStep>)
    returns (imported: nat, errors: nat, ghost visited: seq<nat>, ghost outcomes: seq<Option<TxStep>>)
    requires db.Valid() && batchSize > 0
    modifies db`words, db`wordIndex, db`nextWordId
    ensures db.Valid()
    ensures imported + errors == |words|
    ensures |visited| == |words| && InOrder(visited)
    ensures SavedUpTo(words, |words|, fault, db.wordIndex)
    ensures IndexKept(old(db.wordIndex), db.wordIndex)
    ensures db.wordIndex.Keys == old(db.wordIndex).Keys + SavedKeys(words, |words|, fault)
    ensures db.wordIndex.Keys == old(db.wordIndex).Keys + set j | 0 <= j < |words| && fault(j).None? :: words[j].word
    ensures outcomes == Reports(words, fault, old(db.wordIndex).Keys, 0, |words|)
    ensures forall j :: 0 <= j < |words| ==>
      outcomes[j] == SaveOutcome(old(db.wordIndex).Keys + SavedKeys(words, j, fault), words[j].word, fault(j))
    ensures errors == Failures(outcomes)
    ensures (forall j :: 0 <= j < |words| ==> fault(j).None?) ==> errors == 0
    ensures forall id :: id in old(db.words) ==> id in db.words && db.words[id] == old(db.words)[id]
    ensures StoredSoFar(words, fault, old(db.wordIndex).Keys, |words|, old(db.words), db.words, db.wordIndex)
  {
    var total := |words|;
    var i := 0;
    imported, errors, visited, outcomes := 0, 0, [], [];
    ghost var known, done := db.wordIndex.Keys, 0;
    while i < total
      invariant 0 <= i && done == (if i < total then i else total)
      invariant db.Valid()
      invariant BatchSoFar(words, fault, known, 0, done, old(db.wordIndex), db.wordIndex, outcomes, imported, errors, visited)
      invariant StoredSoFar(words, fault, known, done, old(db.words), db.words, db.wordIndex)
      decreases total - i
    {
      var end := i + batchSize;
      if end > total {
        end := total;
      }
      imported, errors, visited, outcomes :=
        ImportBatch(db, words, i, end, fault, known, old(db.words), old(db.wordIndex), imported, errors, visited, outcomes);
      i, done := i + batchSize, end;
    }
    SavedKeysStored(words, fault, known, db.wordIndex);
    SavedKeysDenote(words, |words|, fault);
    ReportsEach(words, fault, known, outcomes);
  }

  /** Every headword saved without a fault is among the stored ones. */
  lemma SavedKeysStored(words: seq<Word>, fault: nat -> Option<TxStep>, known: set<string>, wordIndex: map<string, int>)
    requires wordIndex.Keys == known + SavedKeys(words, |words|, fault)
    ensures SavedUpTo(words, |words|, fault, wordIndex)
  {
    SavedKeysDenote(words, |words|, fault);
    forall j | 0 <= j < |words| && fault(j).None?
      ensures words[j].word in wordIndex
    {
      assert words[j].word in set k | 0 <= k < |words| && fault(k).None? :: words[k].word;
    }
  }

  /** Position by position, the reports of a whole import; with no fault, none failed. */
  lemma ReportsEach(words: seq<Word>, fault: nat -> Option<TxStep>, known: set<string>, outcomes: seq<Option<TxStep>>)
    requires outcomes == Reports(words, fault, known, 0, |words|)
    ensures forall j :: 0 <= j < |words| ==>
      outcomes[j] == SaveOutcome(known + SavedKeys(words, j, fault), words[j].word, fault(j))
    ensures (forall j :: 0 <= j < |words| ==> fault(j).None?) ==> Failures(outcomes) == 0
  {
    forall j | 0 <= j < |words|
      ensures outcomes[j] == SaveOutcome(known + SavedKeys(words, j, fault), words[j].word, fault(j))
    {
      ReportsAt(words, fault, known, 0, |words|, j);
    }
    if forall j :: 0 <= j < |words| ==> fault(j).None? {
      NoFailures(outcomes);
    }
  }

  /**
   * The import has saved positions `start` up to `n`: the stored headwords are exactly `known`
   * plus those saved without a fault, and `outcomes` holds the reports of those saves.
   */
  ghost predicate Progress(
    words: seq<Word>, fault: nat -> Option<TxStep>, known: set<string>, start: nat, n: nat,
    wordIndex: map<string, int>, outcomes: seq<Option<TxStep>>)
  {
    && start <= n <= |words|
    && wordIndex.Keys == known + SavedKeys(words, n, fault)
    && outcomes == Reports(words, fault, known, start, n)
  }

  /**
   * What the save of position `j` reports: the SaveOutcome over the headwords stored before
   * it, which are `known` plus those saved without a fault at earlier positions.
   */
  ghost function Report(words: seq<Word>, fault: nat -> Option<TxStep>, known: set<string>, j: nat): Option<TxStep>
    requires j < |words|
  {
    SaveOutcome(known + SavedKeys(words, j, fault), words[j].word, fault(j))
  }

  /** The reports of the saves of positions `lo` up to `hi`, in order. */
  ghost function Reports(words: seq<Word>, fault: nat -> Option<TxStep>, known: set<string>, lo: nat, hi: nat): (r: seq<Option<TxStep>>)
    requires lo <= hi <= |words|
    ensures |r| == hi - lo
    decreases hi
  {
    if lo == hi then [] else Reports(words, fault, known, lo, hi - 1) + [Report(words, fault, known, hi - 1)]
  }

  lemma {:induction false} ReportsAt(words: seq<Word>, fault: nat -> Option<TxStep>, known: set<string>, lo: nat, hi: nat, j: nat)
    requires lo <= hi <= |words| && j < hi - lo
    ensures Reports(words, fault, known, lo, hi)[j] == Report(words, fault, known, lo + j)
    decreases hi
  {
    if j < hi - 1 - lo {
      ReportsAt(words, fault, known, lo, hi - 1, j);
    }
  }

  /**
   * One batch of importToDatabase: the words of positions start..end−1 saved one by one,
   * each counted into the import's running `imported` and `errors`. `known`, `origWords` and
   * `base` are the headwords, rows and index the import started from.
   */
  method ImportBatch(
    db: Database, words: seq<Word>, start: nat, end: nat, fault: nat -> Option<TxStep>,
    ghost known: set<string>, ghost origWords: map<int, Word>, ghost base: map<string, int>,
    imported: nat, errors: nat, ghost visited: seq<nat>, ghost outcomes: seq<Option<TxStep>>)
    returns (imported': nat, errors': nat, ghost visited': seq<nat>, ghost outcomes': seq<Option<TxStep>>)
    requires db.Valid() && start <= end <= |words|
    requires BatchSoFar(words, fault, known, 0, start, base, db.wordIndex, outcomes, imported, errors, visited)
    requires StoredSoFar(words, fault, known, start, origWords, db.words, db.wordIndex)
    modifies db`words, db`wordIndex, db`nextWordId
    ensures db.Valid()
    ensures BatchSoFar(words, fault, known, 0, end, base, db.wordIndex, outcomes', imported', errors', visited')
    ensures StoredSoFar(words, fault, known, end, origWords, db.words, db.wordIndex)
  {
    var batch := words[start..end];
    imported', errors', visited', outcomes' := imported, errors, visited, outcomes;
    for n: nat := start to end
      invariant db.Valid()
      invariant BatchSoFar(words, fault, known, 0, n, base, db.wordIndex, outcomes', imported', errors', visited')
      invariant StoredSoFar(words, fault, known, n, origWords, db.words, db.wordIndex)
    {
      imported', errors', visited', outcomes' :=
        SaveNext(db, words, n, batch[n - start], fault, known, origWords, 0, base, outcomes', imported', errors', visited');
    }
  }

  /**
   * A batch from `start` has saved up to `n`: the import's Progress, no stored headword lost
   * since `base`, one count per save and the failures among them counted as errors.
   */
  ghost predicate BatchSoFar(
    words: seq<Word>, fault: nat -> Option<TxStep>, known: set<string>, start: nat, n: nat,
    base: map<string, int>, wordIndex: map<string, int>, outcomes: seq<Option<TxStep>>,
    imported: nat, errors: nat, visited: seq<nat>)
  {
    && Progress(words, fault, known, start, n, wordIndex, outcomes)
    && IndexKept(base, wordIndex)
    && imported + errors == n - start && errors == Failures(outcomes)
    && |visited| == n - start && forall j :: 0 <= j < |visited| ==> visited[j] == start + j
  }

  /** Saves the word of position `n`, records its report and counts it. */
  method SaveNext(
    db: Database, words: seq<Word>, n: nat, w: Word, fault: nat -> Option<TxStep>,
    ghost known: set<string>, ghost origWords: map<int, Word>, ghost start: nat, ghost base: map<string, int>,
    ghost outcomes: seq<Option<TxStep>>, imported: nat, errors: nat, ghost visited: seq<nat>)
    returns (imported': nat, errors': nat, ghost visited': seq<nat>, ghost outcomes': seq<Option<TxStep>>)
    requires db.Valid() && n < |words| && w == words[n]
    requires BatchSoFar(words, fault, known, start, n, base, db.wordIndex, outcomes, imported, errors, visited)
    requires StoredSoFar(words, fault, known, n, origWords, db.words, db.wordIndex)
    modifies db`words, db`wordIndex, db`nextWordId
    ensures db.Valid()
    ensures BatchSoFar(words, fault, known, start, n + 1, base, db.wordIndex, outcomes', imported', errors', visited')
    ensures StoredSoFar(words, fault, known, n + 1, origWords, db.words, db.wordIndex)
    ensures outcomes' == outcomes + [Report(words, fault, known, n)]
  {
    ghost var before, table, next := db.wordIndex, db.words, db.nextWordId;
    var err := SaveWordToDB(db, w, fault(n));
    StoredOneMore(words, fault, known, n, origWords, table, before, next, db.words, db.wordIndex);
    IndexKeptTrans(base, before, db.wordIndex);
    FailuresAppend(outcomes, [err]);
    visited', outcomes' := visited + [n], outcomes + [err];
    if err.Some? {
      imported', errors' := imported, errors + 1;
    } else {
      imported', errors' := imported + 1, errors;
    }
  }

  /** The row saveWordToDB inserts for `w` under `id`: the word as given, without antonyms. */
  function StoredRow(w: Word, id: int): (row: Word)
    ensures row.word == w.word && row.id == id && |row.meanings| == |w.meanings|
  {
    w.(id := id, meanings := WithoutAntonyms(w.meanings))
  }

  /** The first of the first `n` positions whose save met no fault and that has headword `k`. */
  ghost function FirstSaved(words: seq<Word>, n: nat, fault: nat -> Option<TxStep>, k: string): (j: nat)
    requires n <= |words| && k in SavedKeys(words, n, fault)
    ensures j < n && fault(j).None? && words[j].word == k
    ensures k !in SavedKeys(words, j, fault)
  {
    if k in SavedKeys(words, n - 1, fault) then FirstSaved(words, n - 1, fault, k) else n - 1
  }

  /**
   * What the words table holds after saves up to position `n`: every row of `origWords` is
   * untouched, and each headword saved that was not stored before (`known`) holds the row
   * of the first position that saved it.
   */
  ghost predicate StoredSoFar(
    words: seq<Word>, fault: nat -> Option<TxStep>, known: set<string>, n: nat,
    origWords: map<int, Word>, table: map<int, Word>, wordIndex: map<string, int>)
  {
    && n <= |words|
    && (forall id :: id in origWords ==> id in table && table[id] == origWords[id])
    && (forall k :: k in SavedKeys(words, n, fault) && k !in known ==>
          && k in wordIndex && wordIndex[k] in table
          && table[wordIndex[k]] == StoredRow(words[FirstSaved(words, n, fault, k)], wordIndex[k]))
  }

  /** One more save, as SaveWordToDB performs it, keeps StoredSoFar. */
  lemma StoredOneMore(
    words: seq<Word>, fault: nat -> Option<TxStep>, known: set<string>, n: nat, origWords: map<int, Word>,
    table: map<int, Word>, wordIndex: map<string, int>, next: int,
    table': map<int, Word>, wordIndex': map<string, int>)
    requires n < |words| && StoredSoFar(words, fault, known, n, origWords, table, wordIndex)
    requires wordIndex.Keys == known + SavedKeys(words, n, fault)
    requires WordsValid(table, wordIndex, next)
    requires fault(n).Some? || words[n].word in wordIndex ==> table' == table && wordIndex' == wordIndex
    requires fault(n).None? && words[n].word !in wordIndex ==>
      table' == table[next := StoredRow(words[n], next)] && wordIndex' == wordIndex[words[n].word := next]
    ensures StoredSoFar(words, fault, known, n + 1, origWords, table', wordIndex')
  {
    if fault(n).Some? || words[n].word in wordIndex {
      StoredSkip(words, fault, known, n, origWords, table, wordIndex);
    } else {
      StoredInsert(words, fault, known, n, origWords, table, wordIndex, next);
    }
  }

  /** A save that faulted, or found its headword stored, leaves the tables as they were. */
  lemma StoredSkip(
    words: seq<Word>, fault: nat -> Option<TxStep>, known: set<string>, n: nat, origWords: map<int, Word>,
    table: map<int, Word>, wordIndex: map<string, int>)
    requires n < |words| && StoredSoFar(words, fault, known, n, origWords, table, wordIndex)
    requires wordIndex.Keys == known + SavedKeys(words, n, fault)
    requires fault(n).Some? || words[n].word in wordIndex
    ensures StoredSoFar(words, fault, known, n + 1, origWords, table, wordIndex)
  {
    forall k | k in SavedKeys(words, n + 1, fault) && k !in known
      ensures k in wordIndex && wordIndex[k] in table
      ensures table[wordIndex[k]] == StoredRow(words[FirstSaved(words, n + 1, fault, k)], wordIndex[k])
    {
      assert k in SavedKeys(words, n, fault);
    }
  }

  /** A fault-free save of a headword not yet stored adds its row under the next id. */
  lemma StoredInsert(
    words: seq<Word>, fault: nat -> Option<TxStep>, known: set<string>, n: nat, origWords: map<int, Word>,
    table: map<int, Word>, wordIndex: map<string, int>, next: int)
    requires n < |words| && StoredSoFar(words, fault, known, n, origWords, table, wordIndex)
    requires wordIndex.Keys == known + SavedKeys(words, n, fault)
    requires WordsValid(table, wordIndex, next)
    requires fault(n).None? && words[n].word !in wordIndex
    ensures StoredSoFar(words, fault, known, n + 1, origWords,
      table[next := StoredRow(words[n], next)], wordIndex[words[n].word := next])
  {
    var w := words[n].word;
    var table', wordIndex' := table[next := StoredRow(words[n], next)], wordIndex[w := next];
    assert next !in table;
    forall id | id in origWords
      ensures id in table' && table'[id] == origWords[id]
    {
      assert id in table;
    }
    forall k | k in SavedKeys(words, n + 1, fault) && k !in known
      ensures k in wordIndex' && wordIndex'[k] in table'
      ensures table'[wordIndex'[k]] == StoredRow(words[FirstSaved(words, n + 1, fault, k)], wordIndex'[k])
    {
      if k == w {
        assert w !in SavedKeys(words, n, fault);
        assert FirstSaved(words, n + 1, fault, k) == n;
      } else {
        assert k in SavedKeys(words, n, fault);
        assert wordIndex'[k] == wordIndex[k] != next;
      }
    }
  }
}
