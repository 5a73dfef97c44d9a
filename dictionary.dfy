/**
 * The external dictionary client (pkg/dictionary/client.go): how FetchWord classifies
 * the HTTP exchange and how convertAPIResponse maps the first API entry onto a Word.
 * The network is the `get` argument: the outcome of a GET on a URL.
 */
module Dictionary {
  import opened Wrappers
  import opened Models
  import Text

  const DictionaryApiUrl: string := "https://api.dictionaryapi.dev/api/v2/entries/en"
  const StatusOK: int := 200
  const StatusNotFound: int := 404

  datatype ApiPhonetic = ApiPhonetic(text: string, audio: string)
  datatype ApiDefinition = ApiDefinition(definition: string, example: string, synonyms: seq<string>, antonyms: seq<string>)
  datatype ApiMeaning = ApiMeaning(partOfSpeech: string, definitions: seq<ApiDefinition>, synonyms: seq<string>, antonyms: seq<string>)
  datatype License = License(name: string, url: string)
  /** One element of the JSON array the API returns. */
  datatype ApiEntry = ApiEntry(
    word: string,
    phonetic: string,
    phonetics: seq<ApiPhonetic>,
    meanings: seq<ApiMeaning>,
    license: License,
    sourceUrls: seq<string>)

  /** The response body: either not valid JSON of the expected shape, or the decoded array. */
  datatype Body = Undecodable | Decoded(entries: seq<ApiEntry>)

  datatype HttpOutcome = TransportError | Response(statusCode: int, body: Body)

  /** The URL FetchWord requests: the endpoint, a slash and the lower-cased word. */
  function RequestUrl(word: string): (url: string)
    ensures |url| == |DictionaryApiUrl| + 1 + |word|
    ensures url[..|DictionaryApiUrl| + 1] == DictionaryApiUrl + "/"
    ensures url[|DictionaryApiUrl| + 1..] == Text.ToLower(word)
    ensures Text.IsLower(url[|DictionaryApiUrl| + 1..])
  {
    var lower := Text.ToLower(word);
    assert (DictionaryApiUrl + "/" + lower)[|DictionaryApiUrl| + 1..] == lower;
    DictionaryApiUrl + "/" + lower
  }

  predicate DefinitionConverted(ad: ApiDefinition, d: Definition) {
    d == Definition(ad.definition, ad.example, ad.synonyms, ad.antonyms)
  }

  /** One Meaning per API meaning: same part of speech and lists, definitions one for one in order. */
  predicate MeaningConverted(am: ApiMeaning, m: Meaning) {
    && m.partOfSpeech == am.partOfSpeech
    && m.synonyms == am.synonyms
    && m.antonyms == am.antonyms
    && |m.definitions| == |am.definitions|
    && forall j :: 0 <= j < |am.definitions| ==> DefinitionConverted(am.definitions[j], m.definitions[j])
  }

  /** The structural correspondence convertAPIResponse establishes between an entry and a Word. */
  predicate Converted(e: ApiEntry, w: Word) {
    && w.id == 0
    && w.word == e.word
    && w.phonetic == e.phonetic
    && w.sourceUrls == e.sourceUrls
    && |w.phonetics| == |e.phonetics|
    && (forall i :: 0 <= i < |e.phonetics| ==> w.phonetics[i] == Phonetic(e.phonetics[i].text, e.phonetics[i].audio))
    && |w.meanings| == |e.meanings|
    && (forall i :: 0 <= i < |e.meanings| ==> MeaningConverted(e.meanings[i], w.meanings[i]))
  }

  /** The inner loop of convertAPIResponse: one meaning and its definitions. */
  method ConvertMeaning(am: ApiMeaning) returns (m: Meaning)
    ensures MeaningConverted(am, m)
  {
    m := Meaning(am.partOfSpeech, [], am.synonyms, am.antonyms);
    for j := 0 to |am.definitions|
      invariant m.partOfSpeech == am.partOfSpeech && m.synonyms == am.synonyms && m.antonyms == am.antonyms
      invariant |m.definitions| == j
      invariant forall k :: 0 <= k < j ==> DefinitionConverted(am.definitions[k], m.definitions[k])
    {
      var d := am.definitions[j];
      m := m.(definitions := m.definitions + [Definition(d.definition, d.example, d.synonyms, d.antonyms)]);
    }
  }

  /** convertAPIResponse: headword, phonetic and source URLs copied unchanged (not lower-cased). */
  method ConvertApiResponse(e: ApiEntry) returns (w: Word)
    ensures Converted(e, w)
  {
    w := Word(0, e.word, e.phonetic, [], [], e.sourceUrls);
    for i := 0 to |e.phonetics|
      invariant w == Word(0, e.word, e.phonetic, [], w.phonetics, e.sourceUrls)
      invariant |w.phonetics| == i
      invariant forall k :: 0 <= k < i ==> w.phonetics[k] == Phonetic(e.phonetics[k].text, e.phonetics[k].audio)
    {
      w := w.(phonetics := w.phonetics + [Phonetic(e.phonetics[i].text, e.phonetics[i].audio)]);
    }
    for i := 0 to |e.meanings|
      invariant w.id == 0 && w.word == e.word && w.phonetic == e.phonetic && w.sourceUrls == e.sourceUrls
      invariant |w.phonetics| == |e.phonetics|
      invariant forall k :: 0 <= k < |e.phonetics| ==> w.phonetics[k] == Phonetic(e.phonetics[k].text, e.phonetics[k].audio)
      invariant |w.meanings| == i
      invariant forall k :: 0 <= k < i ==> MeaningConverted(e.meanings[k], w.meanings[k])
    {
      var m := ConvertMeaning(e.meanings[i]);
      w := w.(meanings := w.meanings + [m]);
    }
  }

  /** The API entry a Word came from, given the license it dropped. */
  function ToApiEntry(w: Word, license: License): ApiEntry {
    ApiEntry(
      w.word,
      w.phonetic,
      seq(|w.phonetics|, i requires 0 <= i < |w.phonetics| => ApiPhonetic(w.phonetics[i].text, w.phonetics[i].audio)),
      seq(|w.meanings|, i requires 0 <= i < |w.meanings| => ToApiMeaning(w.meanings[i])),
      license,
      w.sourceUrls)
  }

  function ToApiMeaning(m: Meaning): ApiMeaning {
    ApiMeaning(
      m.partOfSpeech,
      seq(|m.definitions|, j requires 0 <= j < |m.definitions| =>
        ApiDefinition(m.definitions[j].definition, m.definitions[j].example, m.definitions[j].synonyms, m.definitions[j].antonyms)),
      m.synonyms,
      m.antonyms)
  }

  /** The conversion loses nothing but the license: the entry can be rebuilt from the Word. */
  lemma ConvertedLosesOnlyLicense(e: ApiEntry, w: Word)
    requires Converted(e, w)
    ensures ToApiEntry(w, e.license) == e
  {
    forall i | 0 <= i < |e.meanings|
      ensures ToApiMeaning(w.meanings[i]) == e.meanings[i]
    {
      var am := e.meanings[i];
      var m := w.meanings[i];
      assert MeaningConverted(am, m);
      assert ToApiMeaning(m).definitions == am.definitions;
    }
    assert ToApiEntry(w, e.license).meanings == e.meanings;
    assert ToApiEntry(w, e.license).phonetics == e.phonetics;
  }

  /** The entry FetchWord converts for one HTTP outcome, or the failure it reports. */
  function Classify(outcome: HttpOutcome): Result<ApiEntry, FetchError> {
    match outcome
    case TransportError => Failure(TransportFailed)
    case Response(code, body) =>
      if code == StatusNotFound then Failure(NotFound)
      else if code != StatusOK then Failure(BadStatus(code))
      else match body
        case Undecodable => Failure(DecodeFailed)
        case Decoded(entries) => if |entries| == 0 then Failure(EmptyResponse) else Success(entries[0])
  }

  /**
   * FetchWord: a transport error, then 404 before any other non-200 status, then an
   * undecodable body, then an empty array; otherwise only the first entry is converted.
   */
  method FetchWord(word: string, get: string -> HttpOutcome) returns (r: Result<Word, FetchError>)
    ensures get(RequestUrl(word)).TransportError? ==> r == Failure(TransportFailed)
    ensures get(RequestUrl(word)).Response? ==>
      var code, body := get(RequestUrl(word)).statusCode, get(RequestUrl(word)).body;
      && (code == StatusNotFound ==> r == Failure(NotFound))
      && (code != StatusNotFound && code != StatusOK ==> r == Failure(BadStatus(code)))
      && (code == StatusOK && body.Undecodable? ==> r == Failure(DecodeFailed))
      && (code == StatusOK && body.Decoded? && body.entries == [] ==> r == Failure(EmptyResponse))
      && (code == StatusOK && body.Decoded? && body.entries != [] ==> r.Success? && Converted(body.entries[0], r.value))
    ensures var c := Classify(get(RequestUrl(word)));
      && (c.Failure? ==> r == Failure(c.error))
      && (c.Success? ==> r.Success? && Converted(c.value, r.value))
    ensures r.Success? ==> r.value.id == 0
  {
    var response := get(RequestUrl(word));
    match response
    case TransportError =>
      return Failure(TransportFailed);
    case Response(code, body) =>
      if code == StatusNotFound {
        return Failure(NotFound);
      }
      if code != StatusOK {
        return Failure(BadStatus(code));
      }
      match body
      case Undecodable =>
        return Failure(DecodeFailed);
      case Decoded(entries) =>
        if |entries| == 0 {
          return Failure(EmptyResponse);
        }
        var w := ConvertApiResponse(entries[0]);
        return Success(w);
  }
}
